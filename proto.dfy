/** The Protocol Buffers decoder of src/proto_parser.c: base-128 varints,
    wire-type skipping and length-delimited strings (the "Encoding" chapter
    of the Protocol Buffers documentation), the `DanmakuElem` message and the
    outer `DmSegMobileReply` message with its per-element callback.

    The input buffer is read-only in the source, so it is a `seq<byte>`; a
    pointer into it is an index, and the `end` pointer is an index too. Each
    C function becomes a method that returns where `*ptr` ends up, proved
    against a function on (buffer, position, end) that says what the wire
    format means. */
module Proto {
  import opened Wrappers

  newtype byte = x: int | 0 <= x < 256

  const U32: nat := 0x1_0000_0000
  const U64: nat := 0x1_0000_0000_0000_0000

  /** Wire types (proto_parser.c:9-14); 3 and 4 are the deprecated groups. */
  const WT_VARINT: nat := 0
  const WT_64BIT: nat := 1
  const WT_LENGTH: nat := 2
  const WT_32BIT: nat := 5

  /** `ProtoResult` (proto_parser.h:9-15): PROTO_OK and the four errors. */
  datatype Status = Ok | InvalidData | BufferOverflow | WireTypeMismatch | VarintOverflow

  /** What a reader yields: a value and the position just past it, or an
      error status. */
  datatype Read<T> = Got(value: T, next: nat) | Err(status: Status)

  /** `text` sits in buf at pos. */
  predicate At(buf: seq<byte>, pos: nat, text: seq<byte>)
  {
    pos + |text| <= |buf| && buf[pos..pos + |text|] == text
  }

  lemma AtConcat(buf: seq<byte>, pos: nat, a: seq<byte>, b: seq<byte>)
    requires At(buf, pos, a + b)
    ensures At(buf, pos, a) && At(buf, pos + |a|, b)
  {
    assert buf[pos..pos + |a|] == (a + b)[..|a|];
    assert buf[pos + |a|..pos + |a| + |b|] == (a + b)[|a|..];
  }

  // ---------------------------------------------------------------------
  // Varints

  function Pow2(k: nat): (p: nat)
    ensures p >= 1
  {
    if k == 0 then 1 else 2 * Pow2(k - 1)
  }

  lemma {:induction false} Pow2Add(a: nat, b: nat)
    ensures Pow2(a + b) == Pow2(a) * Pow2(b)
    decreases a
  {
    if a > 0 {
      Pow2Add(a - 1, b);
    }
  }

  /** The number whose base-128 digits, least significant first, are the
      low seven bits of the bytes. */
  function Groups(s: seq<byte>): nat
  {
    if s == [] then 0 else (s[0] as nat) % 128 + 128 * Groups(s[1..])
  }

  function Pow128(k: nat): (p: nat)
    ensures p >= 1
  {
    if k == 0 then 1 else 128 * Pow128(k - 1)
  }

  /** Shifting by 7k is multiplying by 128^k. */
  lemma {:induction false} Pow2Is128(k: nat)
    ensures Pow2(7 * k) == Pow128(k)
    decreases k
  {
    if k > 0 {
      Pow2Is128(k - 1);
      Pow2Add(7, 7 * (k - 1));
      assert Pow2(7) == 128;
    }
  }

  lemma Regroup(g: nat, d: nat, m: nat)
    ensures 128 * (g + d * m) == 128 * g + d * (128 * m)
  {
    assert 128 * (d * m) == d * (128 * m);
  }

  lemma {:induction false} GroupsSnoc(s: seq<byte>, b: byte)
    ensures Groups(s + [b]) == Groups(s) + (b as nat % 128) * Pow128(|s|)
    decreases |s|
  {
    var d := b as nat % 128;
    if s == [] {
      assert Groups([b]) == d + 128 * Groups([]);
    } else {
      var t := s[1..];
      assert (s + [b])[0] == s[0] && (s + [b])[1..] == t + [b];
      GroupsSnoc(t, b);
      var g, m := Groups(t), Pow128(|t|);
      assert Groups(s + [b]) == (s[0] as nat) % 128 + 128 * (g + d * m);
      Regroup(g, d, m);
      assert Pow128(|s|) == 128 * m;
    }
  }

  /** The loop of `read_varint` from its i-th byte: at most ten bytes
      (shift 0, 7, ..., 63) are read; the first byte with the high bit clear
      ends the varint; ten continuation bytes are VARINT_OVERFLOW and running
      into `end` first is BUFFER_OVERFLOW. The value is the base-128 number
      the bytes spell, truncated to 64 bits. */
  function VarintWalk(buf: seq<byte>, pos: nat, end: nat, i: nat): (r: Read<nat>)
    requires pos + i <= end <= |buf| && i <= 10
    ensures r.Got? ==> pos + i < r.next <= end
    decreases 10 - i
  {
    if i == 10 then Err(VarintOverflow)
    else if pos + i >= end then Err(BufferOverflow)
    else if buf[pos + i] < 128 then Got(Groups(buf[pos..pos + i + 1]) % U64, pos + i + 1)
    else VarintWalk(buf, pos, end, i + 1)
  }

  /** What `read_varint` reads at pos. */
  function VarintAt(buf: seq<byte>, pos: nat, end: nat): (r: Read<nat>)
    requires pos <= end <= |buf|
    ensures r.Got? ==> pos < r.next <= end
  {
    VarintWalk(buf, pos, end, 0)
  }

  /** A successful walk from byte i ends at the first byte with the high bit
      clear, within ten bytes and before end, and yields what the bytes
      spell, truncated to 64 bits. */
  lemma {:induction false} VarintWalkGot(buf: seq<byte>, pos: nat, end: nat, i: nat)
    requires pos + i <= end <= |buf| && i <= 10
    ensures var r := VarintWalk(buf, pos, end, i);
            r.Got? ==> r.next <= pos + 10 && r.value < U64
                       && buf[r.next - 1] < 128
                       && (forall j :: pos + i <= j < r.next - 1 ==> buf[j] >= 128)
                       && r.value == Groups(buf[pos..r.next]) % U64
    decreases 10 - i
  {
    var r := VarintWalk(buf, pos, end, i);
    if i == 10 || pos + i >= end {
      assert r.Err?;
    } else if buf[pos + i] < 128 {
      assert r == Got(Groups(buf[pos..pos + i + 1]) % U64, pos + i + 1);
    } else {
      VarintWalkGot(buf, pos, end, i + 1);
      assert r == VarintWalk(buf, pos, end, i + 1);
      if r.Got? {
        forall j | pos + i <= j < r.next - 1
          ensures buf[j] >= 128
        {
          if j > pos + i {
            assert pos + i + 1 <= j;
          }
        }
      }
    }
  }

  /** The walk from byte i fails exactly when no byte with the high bit clear
      comes before end and within ten bytes: VARINT_OVERFLOW when ten bytes
      were there, BUFFER_OVERFLOW when end came first. */
  lemma {:induction false} VarintWalkFails(buf: seq<byte>, pos: nat, end: nat, i: nat)
    requires pos + i <= end <= |buf| && i <= 10
    ensures var r := VarintWalk(buf, pos, end, i);
            (r.Err? <==> forall j :: pos + i <= j < end && j < pos + 10 ==> buf[j] >= 128)
            && (r.Err? ==> (r.status == VarintOverflow <==> pos + 10 <= end)
                           && (r.status == BufferOverflow <==> end < pos + 10))
    decreases 10 - i
  {
    if i < 10 && pos + i < end && buf[pos + i] >= 128 {
      VarintWalkFails(buf, pos, end, i + 1);
    }
  }

  /** `(uint64_t)d << shift`. */
  function Shifted(d: nat, shift: nat): nat
  {
    d * Pow2(shift) % U64
  }

  lemma ModSum(a: nat, b: nat)
    ensures (a % U64 + b % U64) % U64 == (a + b) % U64
  {
    var qa, qb := a / U64, b / U64;
    assert a == qa * U64 + a % U64;
    assert b == qb * U64 + b % U64;
    assert a + b == (qa + qb) * U64 + (a % U64 + b % U64);
  }

  lemma ShiftedGroup(d: nat, k: nat)
    ensures Shifted(d, 7 * k) == (d * Pow128(k)) % U64
  {
    Pow2Is128(k);
  }

  lemma GroupsNext(buf: seq<byte>, pos: nat, p: nat)
    requires pos <= p < |buf|
    ensures Groups(buf[pos..p + 1]) == Groups(buf[pos..p]) + (buf[p] as nat % 128) * Pow128(p - pos)
  {
    assert buf[pos..p + 1] == buf[pos..p] + [buf[p]];
    GroupsSnoc(buf[pos..p], buf[p]);
  }

  /** One turn of the loop of `read_varint`: adding the next group keeps the
      result equal to what the bytes so far spell, modulo 2^64. */
  lemma VarintGrows(buf: seq<byte>, pos: nat, p: nat, result: nat, shift: nat)
    requires pos <= p < |buf| && result == Groups(buf[pos..p]) % U64 && shift == 7 * (p - pos)
    ensures (result + Shifted(buf[p] as nat % 128, shift)) % U64 == Groups(buf[pos..p + 1]) % U64
  {
    var d := buf[p] as nat % 128;
    var k := p - pos;
    GroupsNext(buf, pos, p);
    ShiftedGroup(d, k);
    ModSum(Groups(buf[pos..p]), d * Pow128(k));
  }

  /** `read_varint` (proto_parser.c:19-37). On failure `*ptr` is left
      where it was. `result |= x << shift` adds, because the seven-bit groups
      occupy disjoint bits. */
  method ReadVarint(buf: seq<byte>, pos: nat, end: nat) returns (status: Status, value: nat, next: nat)
    requires pos <= end <= |buf|
    ensures VarintAt(buf, pos, end) == (if status == Ok then Got(value, next) else Err(status))
    ensures status != Ok ==> next == pos
  {
    var p := pos;
    var result := 0;
    var shift := 0;
    while p < end && shift < 64
      invariant pos <= p <= end && shift == 7 * (p - pos) && p - pos <= 10
      invariant result == Groups(buf[pos..p]) % U64
      invariant VarintWalk(buf, pos, end, p - pos) == VarintAt(buf, pos, end)
      decreases end - p
    {
      var b := buf[p];
      WalkStep(buf, pos, end, p);
      result := AddGroup(buf, pos, p, result, shift);
      p := p + 1;
      if b < 128 {
        return Ok, result, p;
      }
      shift := shift + 7;
    }
    WalkExit(buf, pos, end, p);
    status := if shift >= 64 then VarintOverflow else BufferOverflow;
    value, next := 0, pos;
  }

  /** Line 27 of `read_varint`: the byte's low seven bits, shifted into
      place, join the result, which stays within 64 bits. */
  method AddGroup(buf: seq<byte>, pos: nat, p: nat, result: nat, shift: nat) returns (r: nat)
    requires pos <= p < |buf| && result == Groups(buf[pos..p]) % U64 && shift == 7 * (p - pos)
    ensures r == Groups(buf[pos..p + 1]) % U64
  {
    VarintGrows(buf, pos, p, result, shift);
    r := (result + Shifted(buf[p] as nat % 128, shift)) % U64;
  }

  /** One byte of the walk: a byte with the high bit clear ends it. */
  lemma WalkStep(buf: seq<byte>, pos: nat, end: nat, p: nat)
    requires pos <= p < end <= |buf| && p - pos < 10
    ensures VarintWalk(buf, pos, end, p - pos)
            == if buf[p] < 128 then Got(Groups(buf[pos..p + 1]) % U64, p + 1)
               else VarintWalk(buf, pos, end, p - pos + 1)
  {
  }

  /** The walk stopped by its ten-byte bound or by end. */
  lemma WalkExit(buf: seq<byte>, pos: nat, end: nat, p: nat)
    requires pos <= p <= end <= |buf| && p - pos <= 10 && (p == end || p - pos == 10)
    ensures VarintWalk(buf, pos, end, p - pos)
            == if p - pos == 10 then Err(VarintOverflow) else Err(BufferOverflow)
  {
  }

  /** The encoder the reader inverts: seven bits per byte, least significant
      group first, the high bit set on every byte but the last. */
  function EncodeVarint(v: nat): (s: seq<byte>)
    ensures 1 <= |s|
    decreases v
  {
    if v < 128 then [v as byte] else [(v % 128 + 128) as byte] + EncodeVarint(v / 128)
  }

  /** The encoded bytes spell v. */
  lemma {:induction false} EncodeVarintGroups(v: nat)
    ensures Groups(EncodeVarint(v)) == v
    decreases v
  {
    if v >= 128 {
      var s := EncodeVarint(v);
      assert s[0] as nat % 128 == v % 128 && s[1..] == EncodeVarint(v / 128);
      EncodeVarintGroups(v / 128);
    }
  }

  /** A value below 128^k, k >= 1, takes at most k bytes. */
  lemma {:induction false} EncodeVarintLength(v: nat, k: nat)
    requires 1 <= k
    ensures v < Pow128(k) ==> |EncodeVarint(v)| <= k
    decreases k
  {
    if v >= 128 && k >= 2 {
      EncodeVarintLength(v / 128, k - 1);
    }
  }

  /** Every 64-bit value is encoded in at most ten bytes. */
  lemma EncodeVarintShort(v: nat)
    requires v < U64
    ensures |EncodeVarint(v)| <= 10
  {
    assert Pow128(10) == 0x40_0000_0000_0000_0000;
    EncodeVarintLength(v, 10);
  }

  lemma AtIndex(buf: seq<byte>, pos: nat, text: seq<byte>)
    requires At(buf, pos, text)
    ensures forall j :: 0 <= j < |text| ==> buf[pos + j] == text[j]
  {
    forall j | 0 <= j < |text|
      ensures buf[pos + j] == text[j]
    {
      assert buf[pos..pos + |text|][j] == text[j];
    }
  }

  /** The walk runs through continuation bytes up to the first byte with
      the high bit clear. */
  lemma {:induction false} WalkTo(buf: seq<byte>, pos: nat, end: nat, i: nat, n: nat)
    requires i < n <= 10 && pos + n <= end <= |buf|
    requires forall j :: pos + i <= j < pos + n - 1 ==> buf[j] >= 128
    requires buf[pos + n - 1] < 128
    ensures VarintWalk(buf, pos, end, i) == Got(Groups(buf[pos..pos + n]) % U64, pos + n)
    decreases n - i
  {
    if i < n - 1 {
      WalkTo(buf, pos, end, i + 1, n);
    }
  }

  /** The bytes of an encoded varint: continuation bytes, then a final one. */
  lemma {:induction false} EncodeVarintShape(v: nat)
    ensures var s := EncodeVarint(v); s[|s| - 1] < 128 && forall j :: 0 <= j < |s| - 1 ==> s[j] >= 128
    decreases v
  {
    if v >= 128 {
      EncodeVarintShape(v / 128);
    }
  }

  lemma EncodedShape(buf: seq<byte>, pos: nat, v: nat)
    requires At(buf, pos, EncodeVarint(v))
    ensures var n := |EncodeVarint(v)|;
            buf[pos + n - 1] < 128 && forall j :: pos <= j < pos + n - 1 ==> buf[j] >= 128
  {
    var s := EncodeVarint(v);
    EncodeVarintShape(v);
    AtIndex(buf, pos, s);
    assert buf[pos + (|s| - 1)] == s[|s| - 1];
    forall j | pos <= j < pos + |s| - 1
      ensures buf[j] >= 128
    {
      assert buf[pos + (j - pos)] == s[j - pos];
    }
  }

  lemma EncodedWalk(buf: seq<byte>, pos: nat, end: nat, v: nat)
    requires v < U64 && pos + |EncodeVarint(v)| <= end <= |buf|
    requires At(buf, pos, EncodeVarint(v))
    ensures var n := |EncodeVarint(v)|;
            VarintAt(buf, pos, end) == Got(Groups(buf[pos..pos + n]) % U64, pos + n)
  {
    EncodeVarintShort(v);
    EncodedShape(buf, pos, v);
    WalkTo(buf, pos, end, 0, |EncodeVarint(v)|);
  }

  lemma EncodedGroups(buf: seq<byte>, pos: nat, v: nat)
    requires v < U64 && At(buf, pos, EncodeVarint(v))
    ensures Groups(buf[pos..pos + |EncodeVarint(v)|]) % U64 == v
  {
    EncodeVarintGroups(v);
  }

  /** `read_varint` reads back every encoded 64-bit value and stops right
      after it, whatever follows. */
  lemma VarintRoundTrip(buf: seq<byte>, pos: nat, end: nat, v: nat)
    requires v < U64 && pos + |EncodeVarint(v)| <= end <= |buf|
    requires At(buf, pos, EncodeVarint(v))
    ensures VarintAt(buf, pos, end) == Got(v, pos + |EncodeVarint(v)|)
  {
    EncodedWalk(buf, pos, end, v);
    EncodedGroups(buf, pos, v);
  }

  // ---------------------------------------------------------------------
  // Strings and skipping

  /** What `read_string` reads at pos: a varint length and that many bytes
      (memory exhaustion is not modelled). */
  function StringAt(buf: seq<byte>, pos: nat, end: nat): (r: Read<seq<byte>>)
    requires pos <= end <= |buf|
  {
    match VarintAt(buf, pos, end)
    case Err(s) => Err(s)
    case Got(len, p) =>
      if len > end - p then Err(BufferOverflow) else Got(buf[p..p + len], p + len)
  }

  /** `read_string` (proto_parser.c:78-95): the copied string is exactly the
      `len` bytes after the length prefix. */
  method ReadString(buf: seq<byte>, pos: nat, end: nat) returns (status: Status, text: seq<byte>, next: nat)
    requires pos <= end <= |buf|
    ensures StringAt(buf, pos, end) == (if status == Ok then Got(text, next) else Err(status))
  {
    var len, p;
    status, len, p := ReadVarint(buf, pos, end);
    text, next := [], p;
    if status != Ok {
      return;
    }
    if len > end - p {
      status := BufferOverflow;
      return;
    }
    text := buf[p..p + len];
    next := p + len;
  }

  /** What `skip_field` does at pos for a wire type. */
  function SkipAt(buf: seq<byte>, pos: nat, end: nat, wireType: nat): (r: Read<()>)
    requires pos <= end <= |buf|
  {
    if wireType == WT_VARINT then
      match VarintAt(buf, pos, end)
      case Err(s) => Err(s)
      case Got(_, p) => Got((), p)
    else if wireType == WT_64BIT then
      if pos + 8 > end then Err(BufferOverflow) else Got((), pos + 8)
    else if wireType == WT_LENGTH then
      match VarintAt(buf, pos, end)
      case Err(s) => Err(s)
      case Got(len, p) => if len > end - p then Err(BufferOverflow) else Got((), p + len)
    else if wireType == WT_32BIT then
      if pos + 4 > end then Err(BufferOverflow) else Got((), pos + 4)
    else Err(WireTypeMismatch)
  }

  /** `skip_field` (proto_parser.c:42-73). */
  method SkipField(buf: seq<byte>, pos: nat, end: nat, wireType: nat) returns (status: Status, next: nat)
    requires pos <= end <= |buf|
    ensures SkipAt(buf, pos, end, wireType) == (if status == Ok then Got((), next) else Err(status))
  {
    next := pos;
    if wireType == WT_VARINT {
      var v;
      status, v, next := ReadVarint(buf, pos, end);
    } else if wireType == WT_64BIT {
      if pos + 8 > end {
        return BufferOverflow, pos;
      }
      status, next := Ok, pos + 8;
    } else if wireType == WT_LENGTH {
      var len, p;
      status, len, p := ReadVarint(buf, pos, end);
      if status != Ok {
        return;
      }
      if len > end - p {
        return BufferOverflow, p;
      }
      next := p + len;
    } else if wireType == WT_32BIT {
      if pos + 4 > end {
        return BufferOverflow, pos;
      }
      status, next := Ok, pos + 4;
    } else {
      status := WireTypeMismatch;
    }
  }

  /** Every read moves forward and stays inside [pos, end]. */
  lemma ReadsStayInside(buf: seq<byte>, pos: nat, end: nat, wireType: nat)
    requires pos <= end <= |buf|
    ensures VarintAt(buf, pos, end).Got? ==> pos < VarintAt(buf, pos, end).next <= end
    ensures StringAt(buf, pos, end).Got? ==> pos < StringAt(buf, pos, end).next <= end
    ensures SkipAt(buf, pos, end, wireType).Got? ==> pos <= SkipAt(buf, pos, end, wireType).next <= end
    ensures wireType == 3 || wireType == 4 || wireType == 6 || wireType == 7 ==>
              SkipAt(buf, pos, end, wireType) == Err(WireTypeMismatch)
  {
  }

  // ---------------------------------------------------------------------
  // Fields on the wire

  /** The payload of one field, by wire type. */
  datatype Payload = VarintPayload(v: nat) | Fixed64Payload(b: seq<byte>)
                   | LengthPayload(s: seq<byte>) | Fixed32Payload(b: seq<byte>)

  datatype Field = Field(num: nat, payload: Payload)

  function WireTypeOf(p: Payload): nat
  {
    match p
    case VarintPayload(_) => WT_VARINT
    case Fixed64Payload(_) => WT_64BIT
    case LengthPayload(_) => WT_LENGTH
    case Fixed32Payload(_) => WT_32BIT
  }

  function EncodePayload(p: Payload): seq<byte>
  {
    match p
    case VarintPayload(v) => EncodeVarint(v)
    case Fixed64Payload(b) => b
    case LengthPayload(s) => EncodeVarint(|s|) + s
    case Fixed32Payload(b) => b
  }

  /** A field as the wire format lays it out: the tag (field number << 3 |
      wire type) as a varint, then the payload. */
  function EncodeField(f: Field): seq<byte>
  {
    EncodeVarint(f.num * 8 + WireTypeOf(f.payload)) + EncodePayload(f.payload)
  }

  /** The fields of a message, in wire order. */
  datatype Fields = NoFields | Then(head: Field, rest: Fields)

  function EncodeFields(fs: Fields): seq<byte>
  {
    match fs
    case NoFields => []
    case Then(f, rest) => EncodeField(f) + EncodeFields(rest)
  }

  /** `(int32_t)v`: the low 32 bits as a two's-complement number. */
  function ToInt32(v: nat): (r: int)
    ensures -0x8000_0000 <= r < 0x8000_0000
    ensures (r - v) % U32 == 0
  {
    var w := v % U32;
    if w >= 0x8000_0000 then w - U32 else w
  }

  /** A `uint64_t` read through an `int64_t` lvalue. */
  function ToInt64(v: nat): (r: int)
    ensures -0x8000_0000_0000_0000 <= r < 0x8000_0000_0000_0000
    ensures (r - v) % U64 == 0
  {
    var w := v % U64;
    if w >= 0x8000_0000_0000_0000 then w - U64 else w
  }

  /** `int field_num = tag >> 3` (the shifted value converted to `int`)
      and `int wire_type = tag & 0x07`. */
  function FieldNum(tag: nat): int
  {
    ToInt32(tag / 8)
  }

  function WireType(tag: nat): (w: nat)
    ensures w < 8
  {
    tag % 8
  }

  /** A tag built from a field number and wire type splits back into them. */
  lemma TagSplits(num: nat, wt: nat)
    requires num < 0x8000_0000 && wt < 8
    ensures FieldNum(num * 8 + wt) == num && WireType(num * 8 + wt) == wt
  {
    assert (num * 8 + wt) / 8 == num;
  }

  // ---------------------------------------------------------------------
  // DanmakuElem

  /** `DanmakuElem` (proto_parser.h:18-32); a NULL string is `None`. */
  datatype DanmakuElem = DanmakuElem(
    id: int, progress: int, mode: int, fontsize: int, color: nat,
    midHash: Option<seq<byte>>, content: Option<seq<byte>>, ctime: int, weight: int,
    action: Option<seq<byte>>, pool: int, idStr: Option<seq<byte>>, attr: int)

  /** The element after `memset(elem, 0, sizeof(DanmakuElem))`. */
  const EmptyElem: DanmakuElem := DanmakuElem(0, 0, 0, 0, 0, None, None, 0, 0, None, 0, None, 0)

  /** Fields 1-5, 8, 9 and 11 are varints. */
  predicate IsNumberField(f: int)
  {
    f == 1 || f == 2 || f == 3 || f == 4 || f == 5 || f == 8 || f == 9 || f == 11
  }

  /** Fields 6, 7, 10 and 12 are strings. */
  predicate IsTextField(f: int)
  {
    f == 6 || f == 7 || f == 10 || f == 12
  }

  /** The assignment a varint field makes, with the source's casts. */
  function SetNumber(e: DanmakuElem, f: int, v: nat): DanmakuElem
    requires IsNumberField(f)
  {
    if f == 1 then e.(id := ToInt64(v))
    else if f == 2 then e.(progress := ToInt32(v))
    else if f == 3 then e.(mode := ToInt32(v))
    else if f == 4 then e.(fontsize := ToInt32(v))
    else if f == 5 then e.(color := v % U32)
    else if f == 8 then e.(ctime := ToInt64(v))
    else if f == 9 then e.(weight := ToInt32(v))
    else e.(pool := ToInt32(v))
  }

  /** The assignment a string field makes; a repeated field keeps the last. */
  function SetText(e: DanmakuElem, f: int, s: seq<byte>): DanmakuElem
    requires IsTextField(f)
  {
    if f == 6 then e.(midHash := Some(s))
    else if f == 7 then e.(content := Some(s))
    else if f == 10 then e.(action := Some(s))
    else e.(idStr := Some(s))
  }

  /** One case of the `switch (field_num)` of `parse_danmaku_elem`: a known
      field with the wrong wire type is WIRE_TYPE_MISMATCH, a known field is
      read and stored, anything else is skipped. */
  function FieldStep(buf: seq<byte>, pos: nat, end: nat, f: int, wt: nat, e: DanmakuElem): (r: Read<DanmakuElem>)
    requires pos <= end <= |buf|
    ensures r.Got? ==> pos <= r.next <= end
  {
    ReadsStayInside(buf, pos, end, wt);
    if IsNumberField(f) then
      if wt != WT_VARINT then Err(WireTypeMismatch)
      else match VarintAt(buf, pos, end)
        case Err(s) => Err(s)
        case Got(v, p) => Got(SetNumber(e, f, v), p)
    else if IsTextField(f) then
      if wt != WT_LENGTH then Err(WireTypeMismatch)
      else match StringAt(buf, pos, end)
        case Err(s) => Err(s)
        case Got(s, p) => Got(SetText(e, f, s), p)
    else match SkipAt(buf, pos, end, wt)
      case Err(s) => Err(s)
      case Got(_, p) => Got(e, p)
  }

  /** The loop of `parse_danmaku_elem` from pos with the element built so far. */
  function ElemFrom(buf: seq<byte>, pos: nat, end: nat, e: DanmakuElem): (r: Read<DanmakuElem>)
    requires pos <= end <= |buf|
    ensures r.Got? ==> r.next == end
    decreases end - pos
  {
    if pos >= end then Got(e, end)
    else match VarintAt(buf, pos, end)
      case Err(s) => Err(s)
      case Got(tag, p) =>
        match FieldStep(buf, p, end, FieldNum(tag), WireType(tag), e)
        case Err(s) => Err(s)
        case Got(e', q) => ElemFrom(buf, q, end, e')
  }

  /** What `parse_danmaku_elem` makes of buf[pos..end]. */
  function ElemAt(buf: seq<byte>, pos: nat, end: nat): Read<DanmakuElem>
    requires pos <= end <= |buf|
  {
    ElemFrom(buf, pos, end, EmptyElem)
  }

  /** The `switch` of `parse_danmaku_elem` (proto_parser.c:116-217). */
  method ReadField(buf: seq<byte>, pos: nat, end: nat, f: int, wt: nat, e: DanmakuElem)
    returns (status: Status, e': DanmakuElem, next: nat)
    requires pos <= end <= |buf|
    ensures FieldStep(buf, pos, end, f, wt, e) == (if status == Ok then Got(e', next) else Err(status))
  {
    e', next := e, pos;
    if IsNumberField(f) {
      if wt != WT_VARINT {
        return WireTypeMismatch, e, pos;
      }
      var v;
      status, v, next := ReadVarint(buf, pos, end);
      if status == Ok {
        e' := SetNumber(e, f, v);
      }
    } else if IsTextField(f) {
      if wt != WT_LENGTH {
        return WireTypeMismatch, e, pos;
      }
      var s;
      status, s, next := ReadString(buf, pos, end);
      if status == Ok {
        e' := SetText(e, f, s);
      }
    } else {
      status, next := SkipField(buf, pos, end, wt);
    }
  }

  /** `parse_danmaku_elem` (proto_parser.c:100-225) on the `len` bytes at
      start. On an error the element is not used, since `parse_dm_seg`
      reads it only after PROTO_OK; the model then returns it cleared. */
  method ParseDanmakuElem(buf: seq<byte>, start: nat, len: nat) returns (status: Status, elem: DanmakuElem)
    requires start + len <= |buf|
    ensures ElemAt(buf, start, start + len) == (if status == Ok then Got(elem, start + len) else Err(status))
  {
    var ptr := start;
    var end := start + len;
    elem := EmptyElem;
    ghost var whole := ElemAt(buf, start, end);
    while ptr < end
      invariant start <= ptr <= end
      invariant ElemFrom(buf, ptr, end, elem) == whole
      decreases end - ptr
    {
      var res, e', q := ParseField(buf, ptr, end, elem);
      if res != Ok {
        return res, EmptyElem;
      }
      elem, ptr := e', q;
    }
    ElemDone(buf, end, elem);
    status := Ok;
  }

  /** The loop of `parse_danmaku_elem` ends at the end of the message. */
  lemma ElemDone(buf: seq<byte>, end: nat, e: DanmakuElem)
    requires end <= |buf|
    ensures ElemFrom(buf, end, end, e) == Got(e, end)
  {
  }

  /** One turn of the loop of `parse_danmaku_elem`: a tag, then its field. */
  method ParseField(buf: seq<byte>, ptr: nat, end: nat, elem: DanmakuElem)
    returns (status: Status, e': DanmakuElem, q: nat)
    requires ptr < end <= |buf|
    ensures status == Ok ==> ptr < q <= end
    ensures ElemFrom(buf, ptr, end, elem) == if status == Ok then ElemFrom(buf, q, end, e') else Err(status)
  {
    var tag, p;
    status, tag, p := ReadVarint(buf, ptr, end);
    if status != Ok {
      return status, elem, ptr;
    }
    status, e', q := ReadField(buf, p, end, FieldNum(tag), WireType(tag), elem);
  }

  /** `attr` (field 13) has no case in the switch, so it is skipped as an
      unknown field and every parsed element has attr 0. */
  lemma {:induction false} AttrNeverSet(buf: seq<byte>, pos: nat, end: nat, e: DanmakuElem)
    requires pos <= end <= |buf|
    ensures ElemFrom(buf, pos, end, e).Got? ==> ElemFrom(buf, pos, end, e).value.attr == e.attr
    decreases end - pos
  {
    if pos < end {
      var v := VarintAt(buf, pos, end);
      if v.Got? {
        var st := FieldStep(buf, v.next, end, FieldNum(v.value), WireType(v.value), e);
        if st.Got? {
          AttrNeverSet(buf, st.next, end, st.value);
        }
      }
    }
  }

  /** A field is well formed when it is one the source accepts: a field
      number that survives the conversion to `int`, a payload that fits its
      wire type, and for a known field the wire type the source demands. */
  predicate WellFormedField(f: Field)
  {
    1 <= f.num < 0x8000_0000
    && match f.payload
       case VarintPayload(v) => v < U64 && !IsTextField(f.num)
       case Fixed64Payload(b) => |b| == 8 && !IsNumberField(f.num) && !IsTextField(f.num)
       case LengthPayload(s) => |s| < U64 && !IsNumberField(f.num)
       case Fixed32Payload(b) => |b| == 4 && !IsNumberField(f.num) && !IsTextField(f.num)
  }

  /** What a well-formed field does to the element: a known field is
      stored, any other is ignored. */
  function Apply(e: DanmakuElem, f: Field): DanmakuElem
  {
    if f.payload.VarintPayload? && IsNumberField(f.num) then SetNumber(e, f.num, f.payload.v)
    else if f.payload.LengthPayload? && IsTextField(f.num) then SetText(e, f.num, f.payload.s)
    else e
  }

  function ApplyAll(e: DanmakuElem, fs: Fields): DanmakuElem
    decreases fs
  {
    match fs
    case NoFields => e
    case Then(f, rest) => ApplyAll(Apply(e, f), rest)
  }

  predicate AllWellFormed(fs: Fields)
  {
    match fs
    case NoFields => true
    case Then(f, rest) => WellFormedField(f) && AllWellFormed(rest)
  }

  lemma PayloadSkips(buf: seq<byte>, pos: nat, end: nat, p: Payload)
    requires pos + |EncodePayload(p)| <= end <= |buf| && At(buf, pos, EncodePayload(p))
    requires p.VarintPayload? ==> p.v < U64
    requires p.LengthPayload? ==> |p.s| < U64
    requires p.Fixed64Payload? ==> |p.b| == 8
    requires p.Fixed32Payload? ==> |p.b| == 4
    ensures SkipAt(buf, pos, end, WireTypeOf(p)) == Got((), pos + |EncodePayload(p)|)
  {
    match p
    case VarintPayload(v) =>
      VarintRoundTrip(buf, pos, end, v);
    case LengthPayload(s) =>
      AtConcat(buf, pos, EncodeVarint(|s|), s);
      VarintRoundTrip(buf, pos, end, |s|);
    case Fixed64Payload(_) =>
    case Fixed32Payload(_) =>
  }

  lemma StringRoundTrip(buf: seq<byte>, pos: nat, end: nat, s: seq<byte>)
    requires |s| < U64 && pos + |EncodeVarint(|s|) + s| <= end <= |buf| && At(buf, pos, EncodeVarint(|s|) + s)
    ensures StringAt(buf, pos, end) == Got(s, pos + |EncodeVarint(|s|) + s|)
  {
    var t := EncodeVarint(|s|);
    AtConcat(buf, pos, t, s);
    VarintRoundTrip(buf, pos, end, |s|);
    var p := pos + |t|;
    assert buf[p..p + |s|] == s;
    assert StringAt(buf, pos, end) == Got(buf[p..p + |s|], p + |s|);
  }

  /** The payload of a well-formed field is read by its case of the switch. */
  lemma PayloadStep(buf: seq<byte>, pos: nat, end: nat, f: Field, e: DanmakuElem)
    requires WellFormedField(f) && pos + |EncodePayload(f.payload)| <= end <= |buf|
    requires At(buf, pos, EncodePayload(f.payload))
    ensures FieldStep(buf, pos, end, f.num, WireTypeOf(f.payload), e)
            == Got(Apply(e, f), pos + |EncodePayload(f.payload)|)
  {
    if f.payload.VarintPayload? && IsNumberField(f.num) {
      VarintRoundTrip(buf, pos, end, f.payload.v);
    } else if f.payload.LengthPayload? && IsTextField(f.num) {
      StringRoundTrip(buf, pos, end, f.payload.s);
    } else {
      PayloadSkips(buf, pos, end, f.payload);
    }
  }

  /** A well-formed field is read back in one step of the loop: the tag,
      then the field's payload, leaving the position q right after it. */
  lemma FieldRoundTrip(buf: seq<byte>, pos: nat, end: nat, f: Field, e: DanmakuElem, q: nat)
    requires WellFormedField(f) && At(buf, pos, EncodeField(f)) && q == pos + |EncodeField(f)| <= end <= |buf|
    ensures ElemFrom(buf, pos, end, e) == ElemFrom(buf, q, end, Apply(e, f))
  {
    var wt := WireTypeOf(f.payload);
    var tag := f.num * 8 + wt;
    var t := EncodeVarint(tag);
    var body := EncodePayload(f.payload);
    var p := pos + |t|;
    assert EncodeField(f) == t + body;
    AtConcat(buf, pos, t, body);
    VarintRoundTrip(buf, pos, end, tag);
    TagSplits(f.num, wt);
    PayloadStep(buf, p, end, f, e);
    ElemFromStep(buf, pos, end, e, tag, p, Apply(e, f), q);
  }

  /** One turn of the loop of `parse_danmaku_elem`. */
  lemma ElemFromStep(buf: seq<byte>, pos: nat, end: nat, e: DanmakuElem, tag: nat, p: nat, e': DanmakuElem, q: nat)
    requires pos < p <= end <= |buf| && VarintAt(buf, pos, end) == Got(tag, p)
    requires FieldStep(buf, p, end, FieldNum(tag), WireType(tag), e) == Got(e', q)
    ensures ElemFrom(buf, pos, end, e) == ElemFrom(buf, q, end, e')
  {
  }

  /** A message made of well-formed fields parses to the element those
      fields build, in order, from the element it starts from. */
  lemma {:induction false} FieldsRoundTrip(buf: seq<byte>, pos: nat, end: nat, fs: Fields, e: DanmakuElem)
    requires AllWellFormed(fs)
    requires pos + |EncodeFields(fs)| == end <= |buf| && At(buf, pos, EncodeFields(fs))
    ensures ElemFrom(buf, pos, end, e) == Got(ApplyAll(e, fs), end)
    decreases fs
  {
    match fs
    case NoFields =>
    case Then(f, rest) =>
      var first := EncodeField(f);
      var q := pos + |first|;
      assert EncodeFields(fs) == first + EncodeFields(rest);
      AtConcat(buf, pos, first, EncodeFields(rest));
      FieldRoundTrip(buf, pos, end, f, e, q);
      FieldsRoundTrip(buf, q, end, rest, Apply(e, f));
  }

  /** The values a `DanmakuElem` can hold: every integer within its C type
      and attr 0, since no field sets it. */
  predicate InRange(e: DanmakuElem)
  {
    -0x8000_0000_0000_0000 <= e.id < 0x8000_0000_0000_0000
    && -0x8000_0000_0000_0000 <= e.ctime < 0x8000_0000_0000_0000
    && -0x8000_0000 <= e.progress < 0x8000_0000 && -0x8000_0000 <= e.mode < 0x8000_0000
    && -0x8000_0000 <= e.fontsize < 0x8000_0000 && -0x8000_0000 <= e.weight < 0x8000_0000
    && -0x8000_0000 <= e.pool < 0x8000_0000 && e.color < U32 && e.attr == 0
    && (e.midHash.Some? ==> |e.midHash.value| < U64) && (e.content.Some? ==> |e.content.value| < U64)
    && (e.action.Some? ==> |e.action.value| < U64) && (e.idStr.Some? ==> |e.idStr.value| < U64)
  }

  /** A number field, written as the varint of its 64-bit two's-complement
      value, in front of rest. */
  function NumberField(num: nat, x: int, rest: Fields): Fields
  {
    Then(Field(num, VarintPayload(x % U64)), rest)
  }

  /** A string field, written only when the string is present. */
  function TextField(num: nat, s: Option<seq<byte>>, rest: Fields): Fields
  {
    if s.Some? then Then(Field(num, LengthPayload(s.value)), rest) else rest
  }

  /** The fields an encoder writes for e, in field-number order. */
  function FieldsOf(e: DanmakuElem): Fields
  {
    NumberField(1, e.id, NumberField(2, e.progress, NumberField(3, e.mode,
    NumberField(4, e.fontsize, NumberField(5, e.color, TextField(6, e.midHash,
    TextField(7, e.content, NumberField(8, e.ctime, NumberField(9, e.weight,
    TextField(10, e.action, NumberField(11, e.pool, TextField(12, e.idStr, NoFields))))))))))))
  }

  function EncodeElem(e: DanmakuElem): seq<byte>
  {
    EncodeFields(FieldsOf(e))
  }

  lemma Int32Back(x: int)
    requires -0x8000_0000 <= x < 0x8000_0000
    ensures ToInt32(x % U64) == x
  {
    if x < 0 {
      assert x % U64 == x + U64;
      assert (x + U64) % U32 == x + U32;
    }
  }

  lemma Int64Back(x: int)
    requires -0x8000_0000_0000_0000 <= x < 0x8000_0000_0000_0000
    ensures ToInt64(x % U64) == x
  {
    if x < 0 {
      assert x % U64 == x + U64;
    }
  }

  /** The cleared element with fields 1 to 5 of e. */
  function FirstFive(e: DanmakuElem): DanmakuElem
  {
    EmptyElem.(id := e.id, progress := e.progress, mode := e.mode, fontsize := e.fontsize, color := e.color)
  }

  /** The fields from 6 on, written over FirstFive(e), give e back. */
  lemma RebuildFromSix(e: DanmakuElem)
    requires InRange(e)
    ensures ApplyAll(FirstFive(e), TextField(6, e.midHash, TextField(7, e.content, NumberField(8, e.ctime,
              NumberField(9, e.weight, TextField(10, e.action, NumberField(11, e.pool,
              TextField(12, e.idStr, NoFields)))))))) == e
  {
    Int64Back(e.ctime); Int32Back(e.weight); Int32Back(e.pool);
    var t12 := TextField(12, e.idStr, NoFields);
    var n11 := NumberField(11, e.pool, t12);
    var t10 := TextField(10, e.action, n11);
    var n9 := NumberField(9, e.weight, t10);
    var n8 := NumberField(8, e.ctime, n9);
    var t7 := TextField(7, e.content, n8);
    var e6 := FirstFive(e).(midHash := e.midHash);
    var e7 := e6.(content := e.content);
    var e8 := e7.(ctime := e.ctime);
    var e9 := e8.(weight := e.weight);
    var e10 := e9.(action := e.action);
    var e11 := e10.(pool := e.pool);
    assert e11.(idStr := e.idStr) == e;
    assert ApplyAll(e11, t12) == e;
    assert ApplyAll(e10, n11) == e;
    assert ApplyAll(e9, t10) == e;
    assert ApplyAll(e8, n9) == e;
    assert ApplyAll(e7, n8) == e;
    assert ApplyAll(e6, t7) == e;
  }

  /** The cleared element with every field of e written in turn. */
  lemma FieldsOfRebuild(e: DanmakuElem)
    requires InRange(e)
    ensures ApplyAll(EmptyElem, FieldsOf(e)) == e
  {
    Int64Back(e.id);
    Int32Back(e.progress); Int32Back(e.mode); Int32Back(e.fontsize);
    var t6 := TextField(6, e.midHash, TextField(7, e.content, NumberField(8, e.ctime,
              NumberField(9, e.weight, TextField(10, e.action, NumberField(11, e.pool,
              TextField(12, e.idStr, NoFields)))))));
    RebuildFromSix(e);
    var n5 := NumberField(5, e.color, t6);
    var n4 := NumberField(4, e.fontsize, n5);
    var n3 := NumberField(3, e.mode, n4);
    var n2 := NumberField(2, e.progress, n3);
    var e1 := EmptyElem.(id := e.id);
    var e2 := e1.(progress := e.progress);
    var e3 := e2.(mode := e.mode);
    var e4 := e3.(fontsize := e.fontsize);
    assert e4.(color := e.color) == FirstFive(e);
    assert ApplyAll(e4, n5) == e;
    assert ApplyAll(e3, n4) == e;
    assert ApplyAll(e2, n3) == e;
    assert ApplyAll(e1, n2) == e;
  }

  lemma FieldsOfWellFormed(e: DanmakuElem)
    requires InRange(e)
    ensures AllWellFormed(FieldsOf(e))
  {
    var t12 := TextField(12, e.idStr, NoFields);
    var n11 := NumberField(11, e.pool, t12);
    var t10 := TextField(10, e.action, n11);
    var n9 := NumberField(9, e.weight, t10);
    var n8 := NumberField(8, e.ctime, n9);
    var t7 := TextField(7, e.content, n8);
    var t6 := TextField(6, e.midHash, t7);
    var n5 := NumberField(5, e.color, t6);
    var n4 := NumberField(4, e.fontsize, n5);
    var n3 := NumberField(3, e.mode, n4);
    var n2 := NumberField(2, e.progress, n3);
    assert AllWellFormed(t12);
    assert AllWellFormed(n11);
    assert AllWellFormed(t10);
    assert AllWellFormed(n9);
    assert AllWellFormed(n8);
    assert AllWellFormed(t7);
    assert AllWellFormed(t6);
    assert AllWellFormed(n5);
    assert AllWellFormed(n4);
    assert AllWellFormed(n3);
    assert AllWellFormed(n2);
  }

  /** A message of well-formed fields parses to the element they build
      from the cleared one. */
  lemma {:induction false} ParsesTo(buf: seq<byte>, pos: nat, fs: Fields, end: nat)
    requires AllWellFormed(fs) && At(buf, pos, EncodeFields(fs)) && end == pos + |EncodeFields(fs)|
    ensures ElemAt(buf, pos, end) == Got(ApplyAll(EmptyElem, fs), end)
  {
    FieldsRoundTrip(buf, pos, end, fs, EmptyElem);
  }

  /** `parse_danmaku_elem` reads back every encoded element. */
  lemma ElemRoundTrip(buf: seq<byte>, pos: nat, e: DanmakuElem, end: nat)
    requires InRange(e) && At(buf, pos, EncodeElem(e)) && end == pos + |EncodeElem(e)|
    ensures ElemAt(buf, pos, end) == Got(e, end)
  {
    FieldsOfWellFormed(e);
    FieldsOfRebuild(e);
    ParsesTo(buf, pos, FieldsOf(e), end);
  }

  // ---------------------------------------------------------------------
  // DmSegMobileReply

  /** The callback of `parse_dm_seg`, given the elements handed over before
      and the new one; true stands for a non-zero return (stop). A callback
      with state (src/main.c's `history_callback`) is a function of what it
      has seen, so the history argument covers it. */
  type Callback = (seq<DanmakuElem>, DanmakuElem) -> bool

  /** What `parse_dm_seg` returns, and the elements it parsed, in order
      (each handed to the callback when there is one). */
  datatype SegOutcome = SegOutcome(status: Status, elems: seq<DanmakuElem>)

  /** Whether the callback, if any, asks to stop after e. */
  predicate Stops(cb: Option<Callback>, seen: seq<DanmakuElem>, e: DanmakuElem)
  {
    cb.Some? && cb.value(seen, e)
  }

  /** The length of an element field (proto_parser.c:252-259) at p, just
      past the tag: `Got(subLen, q)` with the element at [q, q + subLen),
      which must end by end. */
  function ElemLengthAt(buf: seq<byte>, p: nat, end: nat): (r: Read<nat>)
    requires p <= end <= |buf|
    ensures r.Got? ==> p < r.next && r.next + r.value <= end
  {
    match VarintAt(buf, p, end)
    case Err(s) => Err(s)
    case Got(subLen, q) => if subLen > end - q then Err(BufferOverflow) else Got(subLen, q)
  }

  /** The `field_num == 1` branch (proto_parser.c:248-275) at p, just past
      the tag, as written: the element length, then the element, whose error
      is the branch's error. `Got` gives the element and the position after
      it. */
  function ElemFieldAt(buf: seq<byte>, p: nat, end: nat): (r: Read<DanmakuElem>)
    requires p <= end <= |buf|
    ensures r.Got? ==> p < r.next <= end
  {
    match ElemLengthAt(buf, p, end)
    case Err(s) => Err(s)
    case Got(subLen, q) =>
      match ElemAt(buf, q, q + subLen)
      case Err(s) => Err(s)
      case Got(elem, _) => Got(elem, q + subLen)
  }

  /** The same branch as its `ptr += sub_len` after a failed element shows it
      was meant: an element that fails to parse is passed over (`None`)
      instead of ending the parse. */
  function ElemFieldSkipping(buf: seq<byte>, p: nat, end: nat): (r: Read<Option<DanmakuElem>>)
    requires p <= end <= |buf|
    ensures r.Got? ==> p < r.next <= end
  {
    match ElemLengthAt(buf, p, end)
    case Err(s) => Err(s)
    case Got(subLen, q) =>
      match ElemAt(buf, q, q + subLen)
      case Err(_) => Got(None, q + subLen)
      case Got(elem, _) => Got(Some(elem), q + subLen)
  }

  /** The two readings agree on every well-formed element and on every
      error in the length; they part only where the element fails to parse,
      which the corrected one passes over. */
  lemma ElemFieldReadings(buf: seq<byte>, p: nat, end: nat)
    requires p <= end <= |buf|
    ensures ElemFieldAt(buf, p, end).Got? <==> ElemFieldSkipping(buf, p, end).Got? && ElemFieldSkipping(buf, p, end).value.Some?
    ensures ElemFieldAt(buf, p, end).Got? ==>
              ElemFieldSkipping(buf, p, end) == Got(Some(ElemFieldAt(buf, p, end).value), ElemFieldAt(buf, p, end).next)
    ensures ElemFieldSkipping(buf, p, end).Err? ==> ElemFieldAt(buf, p, end) == Err(ElemFieldSkipping(buf, p, end).status)
  {
  }

  /** The loop of `parse_dm_seg` from pos, with the elements parsed so far. */
  function SegFrom(buf: seq<byte>, pos: nat, end: nat, cb: Option<Callback>, seen: seq<DanmakuElem>): (r: SegOutcome)
    requires pos <= end <= |buf|
    decreases end - pos
  {
    if pos >= end then SegOutcome(Ok, seen)
    else match VarintAt(buf, pos, end)
      case Err(s) => SegOutcome(s, seen)
      case Got(tag, p) =>
        if FieldNum(tag) == 1 then
          if WireType(tag) != WT_LENGTH then SegOutcome(WireTypeMismatch, seen)
          else match ElemFieldAt(buf, p, end)
            case Err(s) => SegOutcome(s, seen)
            case Got(elem, q) =>
              if Stops(cb, seen, elem) then SegOutcome(Ok, seen + [elem])
              else SegFrom(buf, q, end, cb, seen + [elem])
        else if FieldNum(tag) == 2 then
          if WireType(tag) != WT_VARINT then SegOutcome(WireTypeMismatch, seen)
          else match VarintAt(buf, p, end)
            case Err(s) => SegOutcome(s, seen)
            case Got(_, q) => SegFrom(buf, q, end, cb, seen)
        else match SkipAt(buf, p, end, WireType(tag))
          case Err(s) => SegOutcome(s, seen)
          case Got(_, q) => SegFrom(buf, q, end, cb, seen)
  }

  /** What `parse_dm_seg` makes of data. */
  function Seg(data: seq<byte>, cb: Option<Callback>): SegOutcome
  {
    SegFrom(data, 0, |data|, cb, [])
  }

  /** The loop of `parse_dm_seg` as its `ptr += sub_len` after a failed
      element shows it was meant: an element that fails to parse is passed
      over, and the parse goes on with the next field. */
  function SegFromSkipping(buf: seq<byte>, pos: nat, end: nat, cb: Option<Callback>, seen: seq<DanmakuElem>): (r: SegOutcome)
    requires pos <= end <= |buf|
    decreases end - pos
  {
    if pos >= end then SegOutcome(Ok, seen)
    else match VarintAt(buf, pos, end)
      case Err(s) => SegOutcome(s, seen)
      case Got(tag, p) =>
        if FieldNum(tag) == 1 then
          if WireType(tag) != WT_LENGTH then SegOutcome(WireTypeMismatch, seen)
          else match ElemFieldSkipping(buf, p, end)
            case Err(s) => SegOutcome(s, seen)
            case Got(None, q) => SegFromSkipping(buf, q, end, cb, seen)
            case Got(Some(elem), q) =>
              if Stops(cb, seen, elem) then SegOutcome(Ok, seen + [elem])
              else SegFromSkipping(buf, q, end, cb, seen + [elem])
        else if FieldNum(tag) == 2 then
          if WireType(tag) != WT_VARINT then SegOutcome(WireTypeMismatch, seen)
          else match VarintAt(buf, p, end)
            case Err(s) => SegOutcome(s, seen)
            case Got(_, q) => SegFromSkipping(buf, q, end, cb, seen)
        else match SkipAt(buf, p, end, WireType(tag))
          case Err(s) => SegOutcome(s, seen)
          case Got(_, q) => SegFromSkipping(buf, q, end, cb, seen)
  }

  /** The corrected `parse_dm_seg` over the whole of data. */
  function SegSkipping(data: seq<byte>, cb: Option<Callback>): SegOutcome
  {
    SegFromSkipping(data, 0, |data|, cb, [])
  }

  /** proto_parser.c:252-259: the length of an element field, checked
      against end. */
  method ReadElemLength(buf: seq<byte>, p: nat, end: nat) returns (status: Status, subLen: nat, q: nat)
    requires p <= end <= |buf|
    ensures ElemLengthAt(buf, p, end) == (if status == Ok then Got(subLen, q) else Err(status))
  {
    status, subLen, q := ReadVarint(buf, p, end);
    if status == Ok && subLen > end - q {
      status := BufferOverflow;
    }
  }

  /** The `field_num == 1` branch of `parse_dm_seg`, up to the callback. */
  method ReadElemField(buf: seq<byte>, p: nat, end: nat) returns (status: Status, elem: DanmakuElem, next: nat)
    requires p <= end <= |buf|
    ensures ElemFieldAt(buf, p, end) == (if status == Ok then Got(elem, next) else Err(status))
  {
    var subLen, q;
    elem, next := EmptyElem, p;
    status, subLen, q := ReadElemLength(buf, p, end);
    if status != Ok {
      return;
    }
    next := q + subLen;
    status, elem := ParseDanmakuElem(buf, q, subLen);
    ElemFieldThen(buf, p, end, subLen, q, status, elem);
  }

  /** The element field once its length is read and its element parsed. */
  lemma ElemFieldThen(buf: seq<byte>, p: nat, end: nat, subLen: nat, q: nat, status: Status, elem: DanmakuElem)
    requires p <= end <= |buf| && ElemLengthAt(buf, p, end) == Got(subLen, q)
    requires ElemAt(buf, q, q + subLen) == (if status == Ok then Got(elem, q + subLen) else Err(status))
    ensures ElemFieldAt(buf, p, end) == (if status == Ok then Got(elem, q + subLen) else Err(status))
  {
  }

  /** The same for the corrected reading. */
  lemma ElemFieldSkippingThen(buf: seq<byte>, p: nat, end: nat, subLen: nat, q: nat, status: Status, elem: DanmakuElem)
    requires p <= end <= |buf| && ElemLengthAt(buf, p, end) == Got(subLen, q)
    requires ElemAt(buf, q, q + subLen) == (if status == Ok then Got(elem, q + subLen) else Err(status))
    ensures ElemFieldSkipping(buf, p, end) == Got(if status == Ok then Some(elem) else None, q + subLen)
  {
    var r := ElemAt(buf, q, q + subLen);
    assert ElemFieldSkipping(buf, p, end) == if r.Got? then Got(Some(r.value), q + subLen) else Got(None, q + subLen);
  }

  /** The same branch with a malformed element passed over. */
  method ReadElemFieldSkipping(buf: seq<byte>, p: nat, end: nat)
    returns (status: Status, elem: Option<DanmakuElem>, next: nat)
    requires p <= end <= |buf|
    ensures ElemFieldSkipping(buf, p, end) == (if status == Ok then Got(elem, next) else Err(status))
  {
    var subLen, q;
    elem, next := None, p;
    status, subLen, q := ReadElemLength(buf, p, end);
    if status != Ok {
      return;
    }
    next := q + subLen;
    var res, e := ParseDanmakuElem(buf, q, subLen);
    ElemFieldSkippingThen(buf, p, end, subLen, q, res, e);
    if res == Ok {
      elem := Some(e);
    }
  }

  /** `parse_dm_seg` (proto_parser.c:234-291) over the whole of data. A
      non-zero callback return ends the parse with PROTO_OK; an element
      that fails to parse ends it with that element's error. */
  method ParseDmSeg(data: seq<byte>, cb: Option<Callback>) returns (status: Status, elems: seq<DanmakuElem>)
    ensures Seg(data, cb) == SegOutcome(status, elems)
  {
    var ptr := 0;
    var end := |data|;
    elems := [];
    while ptr < end
      invariant ptr <= end
      invariant SegFrom(data, ptr, end, cb, elems) == Seg(data, cb)
      decreases end - ptr
    {
      var res, tag, p := ReadVarint(data, ptr, end);
      if res != Ok {
        return res, elems;
      }
      var q := p;
      if FieldNum(tag) == 1 {
        if WireType(tag) != WT_LENGTH {
          return WireTypeMismatch, elems;
        }
        var elem;
        res, elem, q := ReadElemField(data, p, end);
        if res == Ok {
          var stop := Stops(cb, elems, elem);
          elems := elems + [elem];
          if stop {
            return Ok, elems;
          }
        }
      } else if FieldNum(tag) == 2 {
        if WireType(tag) != WT_VARINT {
          return WireTypeMismatch, elems;
        }
        var v;
        res, v, q := ReadVarint(data, p, end);
      } else {
        res, q := SkipField(data, p, end, WireType(tag));
      }
      if res != Ok {
        return res, elems;
      }
      ptr := q;
    }
    status := Ok;
  }

  /** An element as field 1 of `DmSegMobileReply`. */
  function EncodeElemField(e: DanmakuElem): seq<byte>
  {
    EncodeField(Field(1, LengthPayload(EncodeElem(e))))
  }

  /** A reply holding the elements es, in order. */
  function EncodeSeg(es: seq<DanmakuElem>): seq<byte>
  {
    if es == [] then [] else EncodeElemField(es[0]) + EncodeSeg(es[1..])
  }

  /** An element the encoder can write: values within their C types and an
      encoding whose length fits a varint. */
  predicate Encodable(e: DanmakuElem)
  {
    InRange(e) && |EncodeElem(e)| < U64
  }

  /** How many of the elements es the parse hands over, the earlier ones
      being seen: up to and including the first one the callback stops at. */
  function Handed(cb: Option<Callback>, seen: seq<DanmakuElem>, es: seq<DanmakuElem>): (k: nat)
    ensures k <= |es|
    decreases |es|
  {
    if es == [] then 0
    else if Stops(cb, seen, es[0]) then 1
    else 1 + Handed(cb, seen + [es[0]], es[1..])
  }

  /** The tag 10 is field 1 with wire type 2. */
  lemma TagTen()
    ensures FieldNum(10) == 1 && WireType(10) == WT_LENGTH
  {
  }

  /** The single byte 10 is read as the tag 10. */
  lemma ElemTagAt(buf: seq<byte>, pos: nat, end: nat)
    requires pos < end <= |buf| && buf[pos] == 10
    ensures VarintAt(buf, pos, end) == Got(10, pos + 1)
  {
    assert buf[pos..pos + 1] == [10];
    assert Groups([10]) == 10 + 128 * Groups([]);
  }

  /** The bytes of one element field: its tag, its length, the element. */
  lemma ElemFieldLayout(e: DanmakuElem)
    ensures EncodeElemField(e) == [10] + (EncodeVarint(|EncodeElem(e)|) + EncodeElem(e))
  {
    assert EncodeVarint(10) == [10];
  }

  /** One encoded element at pos: the tag of field 1, its length, the
      element, read in one turn of the loop of `parse_dm_seg`. */
  lemma ElemFieldRoundTrip(buf: seq<byte>, pos: nat, end: nat, e: DanmakuElem, q: nat)
    requires Encodable(e) && At(buf, pos, EncodeElemField(e)) && q == pos + |EncodeElemField(e)| <= end <= |buf|
    ensures VarintAt(buf, pos, end) == Got(10, pos + 1)
    ensures ElemFieldAt(buf, pos + 1, end) == Got(e, q)
  {
    var body := EncodeElem(e);
    var len := EncodeVarint(|body|);
    ElemFieldLayout(e);
    AtConcat(buf, pos, [10], len + body);
    AtIndex(buf, pos, [10]);
    ElemTagAt(buf, pos, end);
    AtConcat(buf, pos + 1, len, body);
    var start := pos + 1 + |len|;
    ElemRoundTrip(buf, start, e, q);
    VarintRoundTrip(buf, pos + 1, end, |body|);
    ElemFieldOf(buf, pos + 1, end, |body|, start, e, q);
  }

  /** A length that fits before end. */
  lemma LengthFits(buf: seq<byte>, p: nat, end: nat, n: nat, start: nat)
    requires p <= end <= |buf| && VarintAt(buf, p, end) == Got(n, start) && start + n <= end
    ensures ElemLengthAt(buf, p, end) == Got(n, start)
  {
  }

  /** The branch once the length is read and the element parsed. */
  lemma ElemFieldOf(buf: seq<byte>, p: nat, end: nat, n: nat, start: nat, e: DanmakuElem, q: nat)
    requires p <= end <= |buf| && VarintAt(buf, p, end) == Got(n, start) && q == start + n <= end
    requires ElemAt(buf, start, q) == Got(e, q)
    ensures ElemFieldAt(buf, p, end) == Got(e, q)
  {
    LengthFits(buf, p, end, n, start);
  }

  /** One turn of the loop of `parse_dm_seg` over an element field. */
  lemma SegFromStep(buf: seq<byte>, pos: nat, end: nat, cb: Option<Callback>, seen: seq<DanmakuElem>,
                    e: DanmakuElem, q: nat)
    requires pos < end <= |buf| && VarintAt(buf, pos, end) == Got(10, pos + 1)
    requires FieldNum(10) == 1 && WireType(10) == WT_LENGTH
    requires ElemFieldAt(buf, pos + 1, end) == Got(e, q)
    ensures SegFrom(buf, pos, end, cb, seen)
            == if Stops(cb, seen, e) then SegOutcome(Ok, seen + [e]) else SegFrom(buf, q, end, cb, seen + [e])
  {
  }

  /** The first element field of a reply at pos, read in one turn of the
      loop of `parse_dm_seg`; the rest of the reply follows it. */
  lemma SegHead(buf: seq<byte>, pos: nat, end: nat, es: seq<DanmakuElem>, cb: Option<Callback>,
                seen: seq<DanmakuElem>, q: nat)
    requires es != [] && Encodable(es[0])
    requires At(buf, pos, EncodeSeg(es)) && end == pos + |EncodeSeg(es)|
    requires q == end - |EncodeSeg(es[1..])|
    ensures pos < q <= end && At(buf, q, EncodeSeg(es[1..]))
    ensures SegFrom(buf, pos, end, cb, seen)
            == if Stops(cb, seen, es[0]) then SegOutcome(Ok, seen + [es[0]])
               else SegFrom(buf, q, end, cb, seen + [es[0]])
  {
    SegSplit(buf, pos, end, es, q);
    TagTen();
    ElemFieldRoundTrip(buf, pos, end, es[0], q);
    SegFromStep(buf, pos, end, cb, seen, es[0], q);
  }

  /** A reply of elements is its first element field, then the rest. */
  lemma SegSplit(buf: seq<byte>, pos: nat, end: nat, es: seq<DanmakuElem>, q: nat)
    requires es != []
    requires At(buf, pos, EncodeSeg(es)) && end == pos + |EncodeSeg(es)|
    requires q == end - |EncodeSeg(es[1..])|
    ensures At(buf, pos, EncodeElemField(es[0])) && q == pos + |EncodeElemField(es[0])| <= end <= |buf|
    ensures pos < q && At(buf, q, EncodeSeg(es[1..]))
  {
    var first := EncodeElemField(es[0]);
    assert EncodeSeg(es) == first + EncodeSeg(es[1..]);
    AtConcat(buf, pos, first, EncodeSeg(es[1..]));
    assert first[0] == 10;
  }

  /** Handing over one more element that does not stop the callback. */
  lemma HandedCons(cb: Option<Callback>, seen: seq<DanmakuElem>, es: seq<DanmakuElem>)
    requires es != [] && !Stops(cb, seen, es[0])
    ensures seen + [es[0]] + es[1..][..Handed(cb, seen + [es[0]], es[1..])] == seen + es[..Handed(cb, seen, es)]
  {
    var k := Handed(cb, seen + [es[0]], es[1..]);
    assert Handed(cb, seen, es) == k + 1;
    var left := seen + [es[0]] + es[1..][..k];
    var right := seen + es[..k + 1];
    forall i | 0 <= i < |left|
      ensures left[i] == right[i]
    {
      if i > |seen| {
        assert left[i] == es[1..][i - |seen| - 1];
      }
    }
  }

  /** `parse_dm_seg` on a reply of encodable elements hands them over in
      order, stops with PROTO_OK after the first one the callback stops at,
      and otherwise consumes the whole buffer with PROTO_OK. */
  lemma {:induction false} SegFromRoundTrip(buf: seq<byte>, pos: nat, end: nat, es: seq<DanmakuElem>,
                                            cb: Option<Callback>, seen: seq<DanmakuElem>)
    requires forall k :: 0 <= k < |es| ==> Encodable(es[k])
    requires At(buf, pos, EncodeSeg(es)) && end == pos + |EncodeSeg(es)|
    ensures SegFrom(buf, pos, end, cb, seen) == SegOutcome(Ok, seen + es[..Handed(cb, seen, es)])
    decreases |es|
  {
    if es == [] {
      assert seen + es[..0] == seen;
    } else {
      var q := end - |EncodeSeg(es[1..])|;
      SegHead(buf, pos, end, es, cb, seen, q);
      if Stops(cb, seen, es[0]) {
        assert es[..1] == [es[0]];
      } else {
        SegFromRoundTrip(buf, q, end, es[1..], cb, seen + [es[0]]);
        HandedCons(cb, seen, es);
      }
    }
  }

  /** The whole reply: every element is handed over when the callback never
      stops, or there is none. */
  lemma SegRoundTrip(es: seq<DanmakuElem>, cb: Option<Callback>)
    requires forall k :: 0 <= k < |es| ==> Encodable(es[k])
    ensures Seg(EncodeSeg(es), cb) == SegOutcome(Ok, es[..Handed(cb, [], es)])
    ensures (cb.None? || forall seen, e :: !cb.value(seen, e)) ==> Handed(cb, [], es) == |es|
  {
    var buf := EncodeSeg(es);
    SegFromRoundTrip(buf, 0, |buf|, es, cb, []);
    if cb.None? || forall seen, e :: !cb.value(seen, e) {
      NeverStops(cb, [], es);
    }
  }

  lemma {:induction false} NeverStops(cb: Option<Callback>, seen: seq<DanmakuElem>, es: seq<DanmakuElem>)
    requires cb.None? || forall s, e :: !cb.value(s, e)
    ensures Handed(cb, seen, es) == |es|
    decreases |es|
  {
    if es != [] {
      NeverStops(cb, seen + [es[0]], es[1..]);
    }
  }

  /** A malformed element ends the parse with its own error: an element of
      length 1 whose only byte is the tag of field 1 with no value after it
      gives BUFFER_OVERFLOW, and nothing is handed to the callback. */
  lemma MalformedElementStops(cb: Option<Callback>)
    ensures Seg([10, 1, 8], cb) == SegOutcome(BufferOverflow, [])
  {
    var buf: seq<byte> := [10, 1, 8];
    assert VarintAt(buf, 0, 3) == Got(10, 1);
    assert VarintAt(buf, 1, 3) == Got(1, 2);
    assert VarintAt(buf, 2, 3) == Got(8, 3);
    assert VarintAt(buf, 3, 3) == Err(BufferOverflow);
    assert FieldStep(buf, 3, 3, 1, 0, EmptyElem) == Err(BufferOverflow);
    assert ElemAt(buf, 2, 3) == Err(BufferOverflow);
    assert ElemFieldAt(buf, 1, 3) == Err(BufferOverflow);
  }

  /** `parse_dm_seg` with a malformed element passed over; the callback,
      the state field and unknown fields are handled as in ParseDmSeg. */
  method ParseDmSegSkipping(data: seq<byte>, cb: Option<Callback>) returns (status: Status, elems: seq<DanmakuElem>)
    ensures SegSkipping(data, cb) == SegOutcome(status, elems)
  {
    var ptr := 0;
    var end := |data|;
    elems := [];
    while ptr < end
      invariant ptr <= end
      invariant SegFromSkipping(data, ptr, end, cb, elems) == SegSkipping(data, cb)
      decreases end - ptr
    {
      var res, tag, p := ReadVarint(data, ptr, end);
      if res != Ok {
        return res, elems;
      }
      var q := p;
      if FieldNum(tag) == 1 {
        if WireType(tag) != WT_LENGTH {
          return WireTypeMismatch, elems;
        }
        var elem;
        res, elem, q := ReadElemFieldSkipping(data, p, end);
        if res == Ok && elem.Some? {
          var stop := Stops(cb, elems, elem.value);
          elems := elems + [elem.value];
          if stop {
            return Ok, elems;
          }
        }
      } else if FieldNum(tag) == 2 {
        if WireType(tag) != WT_VARINT {
          return WireTypeMismatch, elems;
        }
        var v;
        res, v, q := ReadVarint(data, p, end);
      } else {
        res, q := SkipField(data, p, end, WireType(tag));
      }
      if res != Ok {
        return res, elems;
      }
      ptr := q;
    }
    status := Ok;
  }

  /** The bytes of an element field that holds a single tag of field 1 and
      no value: its element fails with BUFFER_OVERFLOW. */
  const MALFORMED: seq<byte> := [10, 1, 8]

  /** At a malformed element field the parse as written stops with the
      element's error, while the corrected one passes over its three bytes. */
  lemma MalformedAt(buf: seq<byte>, pos: nat, end: nat, cb: Option<Callback>, seen: seq<DanmakuElem>)
    requires pos + 3 <= end <= |buf| && At(buf, pos, MALFORMED)
    ensures SegFrom(buf, pos, end, cb, seen) == SegOutcome(BufferOverflow, seen)
    ensures SegFromSkipping(buf, pos, end, cb, seen) == SegFromSkipping(buf, pos + 3, end, cb, seen)
  {
    AtIndex(buf, pos, MALFORMED);
    SmallVarint(buf, pos, end);
    SmallVarint(buf, pos + 1, end);
    SmallVarint(buf, pos + 2, pos + 3);
    TagTen();
    assert ElemAt(buf, pos + 2, pos + 3) == Err(BufferOverflow) by {
      assert FieldNum(8) == 1 && WireType(8) == WT_VARINT;
      assert VarintAt(buf, pos + 3, pos + 3) == Err(BufferOverflow);
    }
    assert ElemLengthAt(buf, pos + 1, end) == Got(1, pos + 2);
  }

  /** A byte below 128 is a varint of its own. */
  lemma SmallVarint(buf: seq<byte>, pos: nat, end: nat)
    requires pos < end <= |buf| && buf[pos] < 128
    ensures VarintAt(buf, pos, end) == Got(buf[pos] as nat, pos + 1)
  {
    assert buf[pos..pos + 1] == [buf[pos]];
    assert Groups([buf[pos]]) == buf[pos] as nat % 128 + 128 * Groups([]);
  }

  /** With no callback, a run of encoded elements is handed over whole by
      `parse_dm_seg` as written, which then goes on from the end of the run. */
  lemma {:induction false} RunHandedOver(buf: seq<byte>, pos: nat, mid: nat, end: nat, es: seq<DanmakuElem>,
                                         seen: seq<DanmakuElem>)
    requires forall k :: 0 <= k < |es| ==> Encodable(es[k])
    requires At(buf, pos, EncodeSeg(es)) && mid == pos + |EncodeSeg(es)| <= end <= |buf|
    ensures SegFrom(buf, pos, end, None, seen) == SegFrom(buf, mid, end, None, seen + es)
    decreases |es|
  {
    if es == [] {
      assert seen + es == seen;
    } else {
      var q := mid - |EncodeSeg(es[1..])|;
      var rest := es[1..];
      assert forall k :: 0 <= k < |rest| ==> rest[k] == es[k + 1];
      HeadHandedOver(buf, pos, mid, end, es, seen, q);
      RunHandedOver(buf, q, mid, end, rest, seen + [es[0]]);
      AppendHead(seen, es);
    }
  }

  /** The same for the corrected parse. */
  lemma {:induction false} RunHandedOverSkipping(buf: seq<byte>, pos: nat, mid: nat, end: nat, es: seq<DanmakuElem>,
                                                 seen: seq<DanmakuElem>)
    requires forall k :: 0 <= k < |es| ==> Encodable(es[k])
    requires At(buf, pos, EncodeSeg(es)) && mid == pos + |EncodeSeg(es)| <= end <= |buf|
    ensures SegFromSkipping(buf, pos, end, None, seen) == SegFromSkipping(buf, mid, end, None, seen + es)
    decreases |es|
  {
    if es == [] {
      assert seen + es == seen;
    } else {
      var q := mid - |EncodeSeg(es[1..])|;
      var rest := es[1..];
      assert forall k :: 0 <= k < |rest| ==> rest[k] == es[k + 1];
      HeadHandedOver(buf, pos, mid, end, es, seen, q);
      RunHandedOverSkipping(buf, q, mid, end, rest, seen + [es[0]]);
      AppendHead(seen, es);
    }
  }

  lemma AppendHead<T>(seen: seq<T>, es: seq<T>)
    requires es != []
    ensures seen + [es[0]] + es[1..] == seen + es
  {
  }

  /** The first element of a run, handed over by both readings. */
  lemma HeadHandedOver(buf: seq<byte>, pos: nat, mid: nat, end: nat, es: seq<DanmakuElem>,
                       seen: seq<DanmakuElem>, q: nat)
    requires es != [] && Encodable(es[0])
    requires At(buf, pos, EncodeSeg(es)) && mid == pos + |EncodeSeg(es)| <= end <= |buf|
    requires q == mid - |EncodeSeg(es[1..])|
    ensures pos < q <= mid && At(buf, q, EncodeSeg(es[1..]))
    ensures SegFrom(buf, pos, end, None, seen) == SegFrom(buf, q, end, None, seen + [es[0]])
    ensures SegFromSkipping(buf, pos, end, None, seen) == SegFromSkipping(buf, q, end, None, seen + [es[0]])
  {
    SegSplit(buf, pos, mid, es, q);
    TagTen();
    ElemFieldRoundTrip(buf, pos, end, es[0], q);
    ElemFieldReadings(buf, pos + 1, end);
    SegFromStep(buf, pos, end, None, seen, es[0], q);
  }

  /** A malformed element between two runs of well-formed ones: as written,
      `parse_dm_seg` hands over the first run and stops with the malformed
      element's error; corrected, it hands over both runs and ends with
      PROTO_OK. */
  lemma MalformedElementSkipped(before: seq<DanmakuElem>, after: seq<DanmakuElem>)
    requires forall k :: 0 <= k < |before| ==> Encodable(before[k])
    requires forall k :: 0 <= k < |after| ==> Encodable(after[k])
    ensures var data := EncodeSeg(before) + MALFORMED + EncodeSeg(after);
            Seg(data, None) == SegOutcome(BufferOverflow, before) &&
            SegSkipping(data, None) == SegOutcome(Ok, before + after)
  {
    var data := EncodeSeg(before) + MALFORMED + EncodeSeg(after);
    var m := |EncodeSeg(before)|;
    assert data[..m] == EncodeSeg(before);
    assert data[m..m + 3] == MALFORMED;
    assert data[m + 3..] == EncodeSeg(after);
    RunHandedOver(data, 0, m, |data|, before, []);
    RunHandedOverSkipping(data, 0, m, |data|, before, []);
    MalformedAt(data, m, |data|, None, before);
    RunHandedOverSkipping(data, m + 3, |data|, |data|, after, before);
    assert [] + before == before;
  }
}
