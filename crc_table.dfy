/** The table-driven CRC-32 loops of the repository, proved against the
    bitwise definition: the lookup table of bilitrace_local.c (lines 26-59),
    one lookup standing for eight bit steps, and the loops `crc32_fast`
    (bilitrace_local.c), `crc32_append` (test_crc.c) and `crc32_string`
    (test_mitm.c). */
module CrcTable {
  import opened Iteration
  import opened Crc

  /** A 256-entry lookup table indexed by a byte. */
  type Table = t: seq<bv32> | |t| == 256 witness seq(256, _ => 0)

  // ---------------------------------------------------------------------------
  // The lookup table of bilitrace_local.c, lines 26-59, one constant per line
  // of eight entries there (LINE0 is line 27, LINE31 is line 58). Lines 0 to
  // 28 and 31 are as written there; lines 29 and 30 are given twice: as the
  // file spells them (WRITTEN_LINE29, WRITTEN_LINE30) and as the bitwise
  // definition demands (see TableIsCrcTable and AsWrittenTableMisdigests).

  const LINE0: seq<bv32> := [0x00000000, 0x77073096, 0xee0e612c, 0x990951ba, 0x076dc419, 0x706af48f, 0xe963a535, 0x9e6495a3]
  const LINE1: seq<bv32> := [0x0edb8832, 0x79dcb8a4, 0xe0d5e91e, 0x97d2d988, 0x09b64c2b, 0x7eb17cbd, 0xe7b82d07, 0x90bf1d91]
  const LINE2: seq<bv32> := [0x1db71064, 0x6ab020f2, 0xf3b97148, 0x84be41de, 0x1adad47d, 0x6ddde4eb, 0xf4d4b551, 0x83d385c7]
  const LINE3: seq<bv32> := [0x136c9856, 0x646ba8c0, 0xfd62f97a, 0x8a65c9ec, 0x14015c4f, 0x63066cd9, 0xfa0f3d63, 0x8d080df5]
  const LINE4: seq<bv32> := [0x3b6e20c8, 0x4c69105e, 0xd56041e4, 0xa2677172, 0x3c03e4d1, 0x4b04d447, 0xd20d85fd, 0xa50ab56b]
  const LINE5: seq<bv32> := [0x35b5a8fa, 0x42b2986c, 0xdbbbc9d6, 0xacbcf940, 0x32d86ce3, 0x45df5c75, 0xdcd60dcf, 0xabd13d59]
  const LINE6: seq<bv32> := [0x26d930ac, 0x51de003a, 0xc8d75180, 0xbfd06116, 0x21b4f4b5, 0x56b3c423, 0xcfba9599, 0xb8bda50f]
  const LINE7: seq<bv32> := [0x2802b89e, 0x5f058808, 0xc60cd9b2, 0xb10be924, 0x2f6f7c87, 0x58684c11, 0xc1611dab, 0xb6662d3d]
  const LINE8: seq<bv32> := [0x76dc4190, 0x01db7106, 0x98d220bc, 0xefd5102a, 0x71b18589, 0x06b6b51f, 0x9fbfe4a5, 0xe8b8d433]
  const LINE9: seq<bv32> := [0x7807c9a2, 0x0f00f934, 0x9609a88e, 0xe10e9818, 0x7f6a0dbb, 0x086d3d2d, 0x91646c97, 0xe6635c01]
  const LINE10: seq<bv32> := [0x6b6b51f4, 0x1c6c6162, 0x856530d8, 0xf262004e, 0x6c0695ed, 0x1b01a57b, 0x8208f4c1, 0xf50fc457]
  const LINE11: seq<bv32> := [0x65b0d9c6, 0x12b7e950, 0x8bbeb8ea, 0xfcb9887c, 0x62dd1ddf, 0x15da2d49, 0x8cd37cf3, 0xfbd44c65]
  const LINE12: seq<bv32> := [0x4db26158, 0x3ab551ce, 0xa3bc0074, 0xd4bb30e2, 0x4adfa541, 0x3dd895d7, 0xa4d1c46d, 0xd3d6f4fb]
  const LINE13: seq<bv32> := [0x4369e96a, 0x346ed9fc, 0xad678846, 0xda60b8d0, 0x44042d73, 0x33031de5, 0xaa0a4c5f, 0xdd0d7cc9]
  const LINE14: seq<bv32> := [0x5005713c, 0x270241aa, 0xbe0b1010, 0xc90c2086, 0x5768b525, 0x206f85b3, 0xb966d409, 0xce61e49f]
  const LINE15: seq<bv32> := [0x5edef90e, 0x29d9c998, 0xb0d09822, 0xc7d7a8b4, 0x59b33d17, 0x2eb40d81, 0xb7bd5c3b, 0xc0ba6cad]
  const LINE16: seq<bv32> := [0xedb88320, 0x9abfb3b6, 0x03b6e20c, 0x74b1d29a, 0xead54739, 0x9dd277af, 0x04db2615, 0x73dc1683]
  const LINE17: seq<bv32> := [0xe3630b12, 0x94643b84, 0x0d6d6a3e, 0x7a6a5aa8, 0xe40ecf0b, 0x9309ff9d, 0x0a00ae27, 0x7d079eb1]
  const LINE18: seq<bv32> := [0xf00f9344, 0x8708a3d2, 0x1e01f268, 0x6906c2fe, 0xf762575d, 0x806567cb, 0x196c3671, 0x6e6b06e7]
  const LINE19: seq<bv32> := [0xfed41b76, 0x89d32be0, 0x10da7a5a, 0x67dd4acc, 0xf9b9df6f, 0x8ebeeff9, 0x17b7be43, 0x60b08ed5]
  const LINE20: seq<bv32> := [0xd6d6a3e8, 0xa1d1937e, 0x38d8c2c4, 0x4fdff252, 0xd1bb67f1, 0xa6bc5767, 0x3fb506dd, 0x48b2364b]
  const LINE21: seq<bv32> := [0xd80d2bda, 0xaf0a1b4c, 0x36034af6, 0x41047a60, 0xdf60efc3, 0xa867df55, 0x316e8eef, 0x4669be79]
  const LINE22: seq<bv32> := [0xcb61b38c, 0xbc66831a, 0x256fd2a0, 0x5268e236, 0xcc0c7795, 0xbb0b4703, 0x220216b9, 0x5505262f]
  const LINE23: seq<bv32> := [0xc5ba3bbe, 0xb2bd0b28, 0x2bb45a92, 0x5cb36a04, 0xc2d7ffa7, 0xb5d0cf31, 0x2cd99e8b, 0x5bdeae1d]
  const LINE24: seq<bv32> := [0x9b64c2b0, 0xec63f226, 0x756aa39c, 0x026d930a, 0x9c0906a9, 0xeb0e363f, 0x72076785, 0x05005713]
  const LINE25: seq<bv32> := [0x95bf4a82, 0xe2b87a14, 0x7bb12bae, 0x0cb61b38, 0x92d28e9b, 0xe5d5be0d, 0x7cdcefb7, 0x0bdbdf21]
  const LINE26: seq<bv32> := [0x86d3d2d4, 0xf1d4e242, 0x68ddb3f8, 0x1fda836e, 0x81be16cd, 0xf6b9265b, 0x6fb077e1, 0x18b74777]
  const LINE27: seq<bv32> := [0x88085ae6, 0xff0f6a70, 0x66063bca, 0x11010b5c, 0x8f659eff, 0xf862ae69, 0x616bffd3, 0x166ccf45]
  const LINE28: seq<bv32> := [0xa00ae278, 0xd70dd2ee, 0x4e048354, 0x3903b3c2, 0xa7672661, 0xd06016f7, 0x4969474d, 0x3e6e77db]
  const LINE29: seq<bv32> := [0xaed16a4a, 0xd9d65adc, 0x40df0b66, 0x37d83bf0, 0xa9bcae53, 0xdebb9ec5, 0x47b2cf7f, 0x30b5ffe9]
  const LINE30: seq<bv32> := [0xbdbdf21c, 0xcabac28a, 0x53b39330, 0x24b4a3a6, 0xbad03605, 0xcdd70693, 0x54de5729, 0x23d967bf]
  const LINE31: seq<bv32> := [0xb3667a2e, 0xc4614ab8, 0x5d681b02, 0x2a6f2b94, 0xb40bbe37, 0xc30c8ea1, 0x5a05df1b, 0x2d02ef8d]
  const WRITTEN_LINE29: seq<bv32> := [0xaed16a4a, 0xd9d65adc, 0x40df0b66, 0x37d83bf0, 0xa9bcae53, 0xdede86c5, 0x47d7777f, 0x30d041e9]
  const WRITTEN_LINE30: seq<bv32> := [0xbddc0d18, 0xcadb3d8e, 0x53d26a34, 0x24d55aa2, 0xbab02001, 0xcdb71097, 0x54de512d, 0x23d967bb]

  /** Line k of the table (k in 0..31). */
  function Line(k: int): (r: seq<bv32>)
    ensures |r| == 8
  {
    match k
    case 0 => LINE0
    case 1 => LINE1
    case 2 => LINE2
    case 3 => LINE3
    case 4 => LINE4
    case 5 => LINE5
    case 6 => LINE6
    case 7 => LINE7
    case 8 => LINE8
    case 9 => LINE9
    case 10 => LINE10
    case 11 => LINE11
    case 12 => LINE12
    case 13 => LINE13
    case 14 => LINE14
    case 15 => LINE15
    case 16 => LINE16
    case 17 => LINE17
    case 18 => LINE18
    case 19 => LINE19
    case 20 => LINE20
    case 21 => LINE21
    case 22 => LINE22
    case 23 => LINE23
    case 24 => LINE24
    case 25 => LINE25
    case 26 => LINE26
    case 27 => LINE27
    case 28 => LINE28
    case 29 => LINE29
    case 30 => LINE30
    case _ => LINE31
  }

  /** Line k as bilitrace_local.c spells it. */
  function WrittenLine(k: int): (r: seq<bv32>)
    ensures |r| == 8
  {
    if k == 29 then WRITTEN_LINE29 else if k == 30 then WRITTEN_LINE30 else Line(k)
  }

  /** The 256 entries laid out line after line, with lines 29 and 30 as
      written or as corrected. */
  function FromLines(written: bool): Table
  {
    seq(256, i => if written then WrittenLine(i / 8)[i % 8] else Line(i / 8)[i % 8])
  }

  /** The table the model uses: entry i is the register after eight zero bits from i. */
  const TABLE: Table := FromLines(false)

  /** The table exactly as bilitrace_local.c spells it. */
  const WRITTEN_TABLE: Table := FromLines(true)

  /** Entry x is the register after eight zero bits from x. */
  predicate EntryOk(table: Table, x: bv8)
  {
    table[x as int] == ZeroByte(x as bv32)
  }

  /** Every entry is right: the table is the CRC-32 table of POLY. */
  ghost predicate TableOk(table: Table)
  {
    forall x: bv8 :: EntryOk(table, x)
  }

  /** Entry x of the table sits at position x - lo of the part s. */
  predicate PartOk(s: seq<bv32>, lo: int, x: bv8)
  {
    0 <= x as int - lo < |s| && s[x as int - lo] == ZeroByte(x as bv32)
  }

  lemma Line0Ok()
    ensures forall x: bv8 :: x < 8 ==> PartOk(LINE0, 0, x)
  {
    assert PartOk(LINE0, 0, 0);
    assert PartOk(LINE0, 0, 1);
    assert PartOk(LINE0, 0, 2);
    assert PartOk(LINE0, 0, 3);
    assert PartOk(LINE0, 0, 4);
    assert PartOk(LINE0, 0, 5);
    assert PartOk(LINE0, 0, 6);
    assert PartOk(LINE0, 0, 7);
  }

  lemma Line1Ok()
    ensures forall x: bv8 :: 8 <= x < 16 ==> PartOk(LINE1, 8, x)
  {
    assert PartOk(LINE1, 8, 8);
    assert PartOk(LINE1, 8, 9);
    assert PartOk(LINE1, 8, 10);
    assert PartOk(LINE1, 8, 11);
    assert PartOk(LINE1, 8, 12);
    assert PartOk(LINE1, 8, 13);
    assert PartOk(LINE1, 8, 14);
    assert PartOk(LINE1, 8, 15);
  }

  lemma Line2Ok()
    ensures forall x: bv8 :: 16 <= x < 24 ==> PartOk(LINE2, 16, x)
  {
    assert PartOk(LINE2, 16, 16);
    assert PartOk(LINE2, 16, 17);
    assert PartOk(LINE2, 16, 18);
    assert PartOk(LINE2, 16, 19);
    assert PartOk(LINE2, 16, 20);
    assert PartOk(LINE2, 16, 21);
    assert PartOk(LINE2, 16, 22);
    assert PartOk(LINE2, 16, 23);
  }

  lemma Line3Ok()
    ensures forall x: bv8 :: 24 <= x < 32 ==> PartOk(LINE3, 24, x)
  {
    assert PartOk(LINE3, 24, 24);
    assert PartOk(LINE3, 24, 25);
    assert PartOk(LINE3, 24, 26);
    assert PartOk(LINE3, 24, 27);
    assert PartOk(LINE3, 24, 28);
    assert PartOk(LINE3, 24, 29);
    assert PartOk(LINE3, 24, 30);
    assert PartOk(LINE3, 24, 31);
  }

  lemma Line4Ok()
    ensures forall x: bv8 :: 32 <= x < 40 ==> PartOk(LINE4, 32, x)
  {
    assert PartOk(LINE4, 32, 32);
    assert PartOk(LINE4, 32, 33);
    assert PartOk(LINE4, 32, 34);
    assert PartOk(LINE4, 32, 35);
    assert PartOk(LINE4, 32, 36);
    assert PartOk(LINE4, 32, 37);
    assert PartOk(LINE4, 32, 38);
    assert PartOk(LINE4, 32, 39);
  }

  lemma Line5Ok()
    ensures forall x: bv8 :: 40 <= x < 48 ==> PartOk(LINE5, 40, x)
  {
    assert PartOk(LINE5, 40, 40);
    assert PartOk(LINE5, 40, 41);
    assert PartOk(LINE5, 40, 42);
    assert PartOk(LINE5, 40, 43);
    assert PartOk(LINE5, 40, 44);
    assert PartOk(LINE5, 40, 45);
    assert PartOk(LINE5, 40, 46);
    assert PartOk(LINE5, 40, 47);
  }

  lemma Line6Ok()
    ensures forall x: bv8 :: 48 <= x < 56 ==> PartOk(LINE6, 48, x)
  {
    assert PartOk(LINE6, 48, 48);
    assert PartOk(LINE6, 48, 49);
    assert PartOk(LINE6, 48, 50);
    assert PartOk(LINE6, 48, 51);
    assert PartOk(LINE6, 48, 52);
    assert PartOk(LINE6, 48, 53);
    assert PartOk(LINE6, 48, 54);
    assert PartOk(LINE6, 48, 55);
  }

  lemma Line7Ok()
    ensures forall x: bv8 :: 56 <= x < 64 ==> PartOk(LINE7, 56, x)
  {
    assert PartOk(LINE7, 56, 56);
    assert PartOk(LINE7, 56, 57);
    assert PartOk(LINE7, 56, 58);
    assert PartOk(LINE7, 56, 59);
    assert PartOk(LINE7, 56, 60);
    assert PartOk(LINE7, 56, 61);
    assert PartOk(LINE7, 56, 62);
    assert PartOk(LINE7, 56, 63);
  }

  lemma Line8Ok()
    ensures forall x: bv8 :: 64 <= x < 72 ==> PartOk(LINE8, 64, x)
  {
    assert PartOk(LINE8, 64, 64);
    assert PartOk(LINE8, 64, 65);
    assert PartOk(LINE8, 64, 66);
    assert PartOk(LINE8, 64, 67);
    assert PartOk(LINE8, 64, 68);
    assert PartOk(LINE8, 64, 69);
    assert PartOk(LINE8, 64, 70);
    assert PartOk(LINE8, 64, 71);
  }

  lemma Line9Ok()
    ensures forall x: bv8 :: 72 <= x < 80 ==> PartOk(LINE9, 72, x)
  {
    assert PartOk(LINE9, 72, 72);
    assert PartOk(LINE9, 72, 73);
    assert PartOk(LINE9, 72, 74);
    assert PartOk(LINE9, 72, 75);
    assert PartOk(LINE9, 72, 76);
    assert PartOk(LINE9, 72, 77);
    assert PartOk(LINE9, 72, 78);
    assert PartOk(LINE9, 72, 79);
  }

  lemma Line10Ok()
    ensures forall x: bv8 :: 80 <= x < 88 ==> PartOk(LINE10, 80, x)
  {
    assert PartOk(LINE10, 80, 80);
    assert PartOk(LINE10, 80, 81);
    assert PartOk(LINE10, 80, 82);
    assert PartOk(LINE10, 80, 83);
    assert PartOk(LINE10, 80, 84);
    assert PartOk(LINE10, 80, 85);
    assert PartOk(LINE10, 80, 86);
    assert PartOk(LINE10, 80, 87);
  }

  lemma Line11Ok()
    ensures forall x: bv8 :: 88 <= x < 96 ==> PartOk(LINE11, 88, x)
  {
    assert PartOk(LINE11, 88, 88);
    assert PartOk(LINE11, 88, 89);
    assert PartOk(LINE11, 88, 90);
    assert PartOk(LINE11, 88, 91);
    assert PartOk(LINE11, 88, 92);
    assert PartOk(LINE11, 88, 93);
    assert PartOk(LINE11, 88, 94);
    assert PartOk(LINE11, 88, 95);
  }

  lemma Line12Ok()
    ensures forall x: bv8 :: 96 <= x < 104 ==> PartOk(LINE12, 96, x)
  {
    assert PartOk(LINE12, 96, 96);
    assert PartOk(LINE12, 96, 97);
    assert PartOk(LINE12, 96, 98);
    assert PartOk(LINE12, 96, 99);
    assert PartOk(LINE12, 96, 100);
    assert PartOk(LINE12, 96, 101);
    assert PartOk(LINE12, 96, 102);
    assert PartOk(LINE12, 96, 103);
  }

  lemma Line13Ok()
    ensures forall x: bv8 :: 104 <= x < 112 ==> PartOk(LINE13, 104, x)
  {
    assert PartOk(LINE13, 104, 104);
    assert PartOk(LINE13, 104, 105);
    assert PartOk(LINE13, 104, 106);
    assert PartOk(LINE13, 104, 107);
    assert PartOk(LINE13, 104, 108);
    assert PartOk(LINE13, 104, 109);
    assert PartOk(LINE13, 104, 110);
    assert PartOk(LINE13, 104, 111);
  }

  lemma Line14Ok()
    ensures forall x: bv8 :: 112 <= x < 120 ==> PartOk(LINE14, 112, x)
  {
    assert PartOk(LINE14, 112, 112);
    assert PartOk(LINE14, 112, 113);
    assert PartOk(LINE14, 112, 114);
    assert PartOk(LINE14, 112, 115);
    assert PartOk(LINE14, 112, 116);
    assert PartOk(LINE14, 112, 117);
    assert PartOk(LINE14, 112, 118);
    assert PartOk(LINE14, 112, 119);
  }

  lemma Line15Ok()
    ensures forall x: bv8 :: 120 <= x < 128 ==> PartOk(LINE15, 120, x)
  {
    assert PartOk(LINE15, 120, 120);
    assert PartOk(LINE15, 120, 121);
    assert PartOk(LINE15, 120, 122);
    assert PartOk(LINE15, 120, 123);
    assert PartOk(LINE15, 120, 124);
    assert PartOk(LINE15, 120, 125);
    assert PartOk(LINE15, 120, 126);
    assert PartOk(LINE15, 120, 127);
  }

  lemma Line16Ok()
    ensures forall x: bv8 :: 128 <= x < 136 ==> PartOk(LINE16, 128, x)
  {
    assert PartOk(LINE16, 128, 128);
    assert PartOk(LINE16, 128, 129);
    assert PartOk(LINE16, 128, 130);
    assert PartOk(LINE16, 128, 131);
    assert PartOk(LINE16, 128, 132);
    assert PartOk(LINE16, 128, 133);
    assert PartOk(LINE16, 128, 134);
    assert PartOk(LINE16, 128, 135);
  }

  lemma Line17Ok()
    ensures forall x: bv8 :: 136 <= x < 144 ==> PartOk(LINE17, 136, x)
  {
    assert PartOk(LINE17, 136, 136);
    assert PartOk(LINE17, 136, 137);
    assert PartOk(LINE17, 136, 138);
    assert PartOk(LINE17, 136, 139);
    assert PartOk(LINE17, 136, 140);
    assert PartOk(LINE17, 136, 141);
    assert PartOk(LINE17, 136, 142);
    assert PartOk(LINE17, 136, 143);
  }

  lemma Line18Ok()
    ensures forall x: bv8 :: 144 <= x < 152 ==> PartOk(LINE18, 144, x)
  {
    assert PartOk(LINE18, 144, 144);
    assert PartOk(LINE18, 144, 145);
    assert PartOk(LINE18, 144, 146);
    assert PartOk(LINE18, 144, 147);
    assert PartOk(LINE18, 144, 148);
    assert PartOk(LINE18, 144, 149);
    assert PartOk(LINE18, 144, 150);
    assert PartOk(LINE18, 144, 151);
  }

  lemma Line19Ok()
    ensures forall x: bv8 :: 152 <= x < 160 ==> PartOk(LINE19, 152, x)
  {
    assert PartOk(LINE19, 152, 152);
    assert PartOk(LINE19, 152, 153);
    assert PartOk(LINE19, 152, 154);
    assert PartOk(LINE19, 152, 155);
    assert PartOk(LINE19, 152, 156);
    assert PartOk(LINE19, 152, 157);
    assert PartOk(LINE19, 152, 158);
    assert PartOk(LINE19, 152, 159);
  }

  lemma Line20Ok()
    ensures forall x: bv8 :: 160 <= x < 168 ==> PartOk(LINE20, 160, x)
  {
    assert PartOk(LINE20, 160, 160);
    assert PartOk(LINE20, 160, 161);
    assert PartOk(LINE20, 160, 162);
    assert PartOk(LINE20, 160, 163);
    assert PartOk(LINE20, 160, 164);
    assert PartOk(LINE20, 160, 165);
    assert PartOk(LINE20, 160, 166);
    assert PartOk(LINE20, 160, 167);
  }

  lemma Line21Ok()
    ensures forall x: bv8 :: 168 <= x < 176 ==> PartOk(LINE21, 168, x)
  {
    assert PartOk(LINE21, 168, 168);
    assert PartOk(LINE21, 168, 169);
    assert PartOk(LINE21, 168, 170);
    assert PartOk(LINE21, 168, 171);
    assert PartOk(LINE21, 168, 172);
    assert PartOk(LINE21, 168, 173);
    assert PartOk(LINE21, 168, 174);
    assert PartOk(LINE21, 168, 175);
  }

  lemma Line22Ok()
    ensures forall x: bv8 :: 176 <= x < 184 ==> PartOk(LINE22, 176, x)
  {
    assert PartOk(LINE22, 176, 176);
    assert PartOk(LINE22, 176, 177);
    assert PartOk(LINE22, 176, 178);
    assert PartOk(LINE22, 176, 179);
    assert PartOk(LINE22, 176, 180);
    assert PartOk(LINE22, 176, 181);
    assert PartOk(LINE22, 176, 182);
    assert PartOk(LINE22, 176, 183);
  }

  lemma Line23Ok()
    ensures forall x: bv8 :: 184 <= x < 192 ==> PartOk(LINE23, 184, x)
  {
    assert PartOk(LINE23, 184, 184);
    assert PartOk(LINE23, 184, 185);
    assert PartOk(LINE23, 184, 186);
    assert PartOk(LINE23, 184, 187);
    assert PartOk(LINE23, 184, 188);
    assert PartOk(LINE23, 184, 189);
    assert PartOk(LINE23, 184, 190);
    assert PartOk(LINE23, 184, 191);
  }

  lemma Line24Ok()
    ensures forall x: bv8 :: 192 <= x < 200 ==> PartOk(LINE24, 192, x)
  {
    assert PartOk(LINE24, 192, 192);
    assert PartOk(LINE24, 192, 193);
    assert PartOk(LINE24, 192, 194);
    assert PartOk(LINE24, 192, 195);
    assert PartOk(LINE24, 192, 196);
    assert PartOk(LINE24, 192, 197);
    assert PartOk(LINE24, 192, 198);
    assert PartOk(LINE24, 192, 199);
  }

  lemma Line25Ok()
    ensures forall x: bv8 :: 200 <= x < 208 ==> PartOk(LINE25, 200, x)
  {
    assert PartOk(LINE25, 200, 200);
    assert PartOk(LINE25, 200, 201);
    assert PartOk(LINE25, 200, 202);
    assert PartOk(LINE25, 200, 203);
    assert PartOk(LINE25, 200, 204);
    assert PartOk(LINE25, 200, 205);
    assert PartOk(LINE25, 200, 206);
    assert PartOk(LINE25, 200, 207);
  }

  lemma Line26Ok()
    ensures forall x: bv8 :: 208 <= x < 216 ==> PartOk(LINE26, 208, x)
  {
    assert PartOk(LINE26, 208, 208);
    assert PartOk(LINE26, 208, 209);
    assert PartOk(LINE26, 208, 210);
    assert PartOk(LINE26, 208, 211);
    assert PartOk(LINE26, 208, 212);
    assert PartOk(LINE26, 208, 213);
    assert PartOk(LINE26, 208, 214);
    assert PartOk(LINE26, 208, 215);
  }

  lemma Line27Ok()
    ensures forall x: bv8 :: 216 <= x < 224 ==> PartOk(LINE27, 216, x)
  {
    assert PartOk(LINE27, 216, 216);
    assert PartOk(LINE27, 216, 217);
    assert PartOk(LINE27, 216, 218);
    assert PartOk(LINE27, 216, 219);
    assert PartOk(LINE27, 216, 220);
    assert PartOk(LINE27, 216, 221);
    assert PartOk(LINE27, 216, 222);
    assert PartOk(LINE27, 216, 223);
  }

  lemma Line28Ok()
    ensures forall x: bv8 :: 224 <= x < 232 ==> PartOk(LINE28, 224, x)
  {
    assert PartOk(LINE28, 224, 224);
    assert PartOk(LINE28, 224, 225);
    assert PartOk(LINE28, 224, 226);
    assert PartOk(LINE28, 224, 227);
    assert PartOk(LINE28, 224, 228);
    assert PartOk(LINE28, 224, 229);
    assert PartOk(LINE28, 224, 230);
    assert PartOk(LINE28, 224, 231);
  }

  lemma Line29Ok()
    ensures forall x: bv8 :: 232 <= x < 240 ==> PartOk(LINE29, 232, x)
  {
    assert PartOk(LINE29, 232, 232);
    assert PartOk(LINE29, 232, 233);
    assert PartOk(LINE29, 232, 234);
    assert PartOk(LINE29, 232, 235);
    assert PartOk(LINE29, 232, 236);
    assert PartOk(LINE29, 232, 237);
    assert PartOk(LINE29, 232, 238);
    assert PartOk(LINE29, 232, 239);
  }

  lemma Line30Ok()
    ensures forall x: bv8 :: 240 <= x < 248 ==> PartOk(LINE30, 240, x)
  {
    assert PartOk(LINE30, 240, 240);
    assert PartOk(LINE30, 240, 241);
    assert PartOk(LINE30, 240, 242);
    assert PartOk(LINE30, 240, 243);
    assert PartOk(LINE30, 240, 244);
    assert PartOk(LINE30, 240, 245);
    assert PartOk(LINE30, 240, 246);
    assert PartOk(LINE30, 240, 247);
  }

  lemma Line31Ok()
    ensures forall x: bv8 :: 248 <= x ==> PartOk(LINE31, 248, x)
  {
    assert PartOk(LINE31, 248, 248);
    assert PartOk(LINE31, 248, 249);
    assert PartOk(LINE31, 248, 250);
    assert PartOk(LINE31, 248, 251);
    assert PartOk(LINE31, 248, 252);
    assert PartOk(LINE31, 248, 253);
    assert PartOk(LINE31, 248, 254);
    assert PartOk(LINE31, 248, 255);
  }

  lemma Entries0To31()
    ensures forall x: bv8 :: x < 32 ==> EntryOk(TABLE, x)
  {
    Line0Ok();
    Line1Ok();
    Line2Ok();
    Line3Ok();
  }

  lemma Entries32To63()
    ensures forall x: bv8 :: 32 <= x < 64 ==> EntryOk(TABLE, x)
  {
    Line4Ok();
    Line5Ok();
    Line6Ok();
    Line7Ok();
  }

  lemma Entries64To95()
    ensures forall x: bv8 :: 64 <= x < 96 ==> EntryOk(TABLE, x)
  {
    Line8Ok();
    Line9Ok();
    Line10Ok();
    Line11Ok();
  }

  lemma Entries96To127()
    ensures forall x: bv8 :: 96 <= x < 128 ==> EntryOk(TABLE, x)
  {
    Line12Ok();
    Line13Ok();
    Line14Ok();
    Line15Ok();
  }

  lemma Entries128To159()
    ensures forall x: bv8 :: 128 <= x < 160 ==> EntryOk(TABLE, x)
  {
    Line16Ok();
    Line17Ok();
    Line18Ok();
    Line19Ok();
  }

  lemma Entries160To191()
    ensures forall x: bv8 :: 160 <= x < 192 ==> EntryOk(TABLE, x)
  {
    Line20Ok();
    Line21Ok();
    Line22Ok();
    Line23Ok();
  }

  lemma Entries192To223()
    ensures forall x: bv8 :: 192 <= x < 224 ==> EntryOk(TABLE, x)
  {
    Line24Ok();
    Line25Ok();
    Line26Ok();
    Line27Ok();
  }

  lemma Entries224To255()
    ensures forall x: bv8 :: 224 <= x ==> EntryOk(TABLE, x)
  {
    Line28Ok();
    Line29Ok();
    Line30Ok();
    Line31Ok();
  }

  /** The table of bilitrace_local.c, with its lines 29 and 30 (entries 232
      to 247, source lines 56-57) corrected, is the CRC-32 table of POLY;
      entry 0 is 0 and entry 128 is the polynomial itself. */
  lemma TableIsCrcTable()
    ensures TableOk(TABLE)
    ensures TABLE[0] == 0 && TABLE[128] == POLY
  {
    Entries0To31();
    Entries32To63();
    Entries64To95();
    Entries96To127();
    Entries128To159();
    Entries160To191();
    Entries192To223();
    Entries224To255();
  }

  // ---------------------------------------------------------------------------
  // Why one lookup is eight bit steps: a bit step is linear over XOR, and the
  // bits above the low byte only shift through eight steps.

  /** A register whose low byte is clear only shifts through eight bit steps. */
  predicate HighShifts(h: bv32)
  {
    ShiftBit(h) == h >> 1 && ShiftBit(h >> 1) == h >> 2 && ShiftBit(h >> 2) == h >> 3 &&
    ShiftBit(h >> 3) == h >> 4 && ShiftBit(h >> 4) == h >> 5 && ShiftBit(h >> 5) == h >> 6 &&
    ShiftBit(h >> 6) == h >> 7 && ShiftBit(h >> 7) == h >> 8
  }

  lemma HighShift0(h: bv32)
    requires h & 0xFF == 0
    ensures ShiftBit(h) == h >> 1
  {
  }

  lemma HighShift1(h: bv32)
    requires h & 0xFF == 0
    ensures ShiftBit(h >> 1) == h >> 2
  {
  }

  lemma HighShift2(h: bv32)
    requires h & 0xFF == 0
    ensures ShiftBit(h >> 2) == h >> 3
  {
  }

  lemma HighShift3(h: bv32)
    requires h & 0xFF == 0
    ensures ShiftBit(h >> 3) == h >> 4
  {
  }

  lemma HighShift4(h: bv32)
    requires h & 0xFF == 0
    ensures ShiftBit(h >> 4) == h >> 5
  {
  }

  lemma HighShift5(h: bv32)
    requires h & 0xFF == 0
    ensures ShiftBit(h >> 5) == h >> 6
  {
  }

  lemma HighShift6(h: bv32)
    requires h & 0xFF == 0
    ensures ShiftBit(h >> 6) == h >> 7
  {
  }

  lemma HighShift7(h: bv32)
    requires h & 0xFF == 0
    ensures ShiftBit(h >> 7) == h >> 8
  {
  }

  lemma HighShiftsHold(h: bv32)
    requires h & 0xFF == 0
    ensures HighShifts(h)
  {
    HighShift0(h);
    HighShift1(h);
    HighShift2(h);
    HighShift3(h);
    HighShift4(h);
    HighShift5(h);
    HighShift6(h);
    HighShift7(h);
  }

  lemma ZeroByteOfHigh(h: bv32)
    requires HighShifts(h)
    ensures ZeroByte(h) == h >> 8
  {
    assert Iterate(8, ShiftBit, h) == Iterate(7, ShiftBit, h >> 1);
    assert Iterate(7, ShiftBit, h >> 1) == Iterate(6, ShiftBit, h >> 2);
    assert Iterate(6, ShiftBit, h >> 2) == Iterate(5, ShiftBit, h >> 3);
    assert Iterate(5, ShiftBit, h >> 3) == Iterate(4, ShiftBit, h >> 4);
    assert Iterate(4, ShiftBit, h >> 4) == Iterate(3, ShiftBit, h >> 5);
    assert Iterate(3, ShiftBit, h >> 5) == Iterate(2, ShiftBit, h >> 6);
    assert Iterate(2, ShiftBit, h >> 6) == Iterate(1, ShiftBit, h >> 7);
    assert Iterate(1, ShiftBit, h >> 7) == h >> 8;
  }

  /** d is the XOR of its high part h (low byte clear) and its low byte l. */
  predicate ByteSplit(d: bv32, h: bv32, l: bv32)
  {
    h & 0xFF == 0 && d == Xor(h, l) && h >> 8 == d >> 8
  }

  lemma ByteSplitHolds(d: bv32)
    ensures ByteSplit(d, d & 0xFFFF_FF00, d & 0xFF)
  {
  }

  lemma ZeroByteSplitAt(d: bv32, h: bv32, l: bv32)
    requires ByteSplit(d, h, l)
    ensures ZeroByte(d) == Xor(d >> 8, ZeroByte(l))
  {
    ZeroBitsLinear(8, h, l);
    HighShiftsHold(h);
    ZeroByteOfHigh(h);
  }

  /** Eight zero bits from d: the high 24 bits shift down, and the low byte
      contributes what its own eight steps give, the table entry. */
  lemma ZeroByteSplit(d: bv32)
    ensures ZeroByte(d) == Xor(d >> 8, ZeroByte(d & 0xFF))
  {
    ByteSplitHolds(d);
    ZeroByteSplitAt(d, d & 0xFFFF_FF00, d & 0xFF);
  }

  /** One iteration of the table loops, `crc = (crc >> 8) ^ table[(crc ^ byte) & 0xFF]`. */
  function TableStep(table: Table, c: bv32, b: bv8): bv32
  {
    Xor(c >> 8, table[(Xor(c, b as bv32) & 0xFF) as bv8 as int])
  }

  predicate StepParts(c: bv32, b: bv8, d: bv32, i: bv8)
  {
    d == Xor(c, b as bv32) && d >> 8 == c >> 8 && i == (d & 0xFF) as bv8 && d & 0xFF == i as bv32
  }

  lemma XorByteHigh(c: bv32, b: bv8)
    ensures Xor(c, b as bv32) >> 8 == c >> 8
  {
  }

  lemma LowByteRoundTrip(d: bv32)
    ensures d & 0xFF == ((d & 0xFF) as bv8) as bv32
  {
  }

  lemma StepPartsHold(c: bv32, b: bv8)
    ensures StepParts(c, b, Xor(c, b as bv32), (Xor(c, b as bv32) & 0xFF) as bv8)
  {
    XorByteHigh(c, b);
    LowByteRoundTrip(Xor(c, b as bv32));
  }

  lemma TableStepAt(table: Table, c: bv32, b: bv8, d: bv32, i: bv8)
    requires TableOk(table)
    requires StepParts(c, b, d, i)
    ensures TableStep(table, c, b) == ByteStep(c, b)
  {
    assert EntryOk(table, i);
    ZeroByteSplit(d);
  }

  /** With a correct table, one lookup step is one bitwise byte step. */
  lemma TableStepIsBitwise(table: Table, c: bv32, b: bv8)
    requires TableOk(table)
    ensures TableStep(table, c, b) == ByteStep(c, b)
  {
    StepPartsHold(c, b);
    TableStepAt(table, c, b, Xor(c, b as bv32), (Xor(c, b as bv32) & 0xFF) as bv8);
  }

  /** The step of the table loops as a function value. */
  function StepOf(table: Table): (bv32, bv8) -> bv32
  {
    (c: bv32, b: bv8) => TableStep(table, c, b)
  }

  /** The register after the table loop has fed `data` from c. */
  function TableFold(table: Table, c: bv32, data: seq<bv8>): bv32
  {
    Fold(StepOf(table), c, data)
  }

  /** With a correct table, the table loop computes the bitwise register. */
  lemma TableFoldIsReg(table: Table, c: bv32, data: seq<bv8>)
    requires TableOk(table)
    ensures TableFold(table, c, data) == Reg(c, data)
  {
    forall x, b ensures StepOf(table)(x, b) == ByteStep(x, b) {
      TableStepIsBitwise(table, x, b);
    }
    FoldAgree(StepOf(table), ByteStep, c, data);
  }

  /** One loop iteration extends the register invariant by one byte. */
  lemma LookupStep(table: Table, c0: bv32, s: seq<bv8>, b: bv8, c: bv32)
    requires TableOk(table) && c == Reg(c0, s)
    ensures TableStep(table, c, b) == Reg(c0, s + [b])
  {
    TableStepIsBitwise(table, c, b);
    RegSnoc(c0, s, b);
  }

  lemma ComplementIsXor(c: bv32)
    ensures !c == Xor(c, ONES)
  {
  }

  // ---------------------------------------------------------------------------
  // The loops.

  /** The loop of `crc32_fast` (bilitrace_local.c:61-68) over any table:
      start from all ones, one table step per byte of str[..len], complement. */
  method TableCrc32(table: Table, str: array<bv8>, len: nat) returns (crc: bv32)
    requires len <= str.Length
    ensures crc == Xor(TableFold(table, ONES, str[..len]), ONES)
  {
    var c: bv32 := ONES;
    var i := 0;
    while i < len
      invariant i <= len
      invariant c == TableFold(table, ONES, str[..i])
    {
      FoldSnoc(StepOf(table), ONES, str[..i], str[i]);
      c := TableStep(table, c, str[i]);
      assert str[..i + 1] == str[..i] + [str[i]];
      i := i + 1;
    }
    ComplementIsXor(c);
    crc := !c;
  }

  /** `crc32_fast` with the CRC-32 table: the checksum of str[..len]. */
  method Crc32Fast(str: array<bv8>, len: nat) returns (crc: bv32)
    requires len <= str.Length
    ensures crc == Crc32(str[..len])
    ensures len == 0 ==> crc == 0
  {
    crc := TableCrc32(TABLE, str, len);
    TableIsCrcTable();
    TableFoldIsReg(TABLE, ONES, str[..len]);
    if len == 0 {
      assert str[..len] == [];
      Crc32Empty();
    }
  }

  /** `crc32_fast` exactly as bilitrace_local.c has it, with its own table. */
  method Crc32FastAsWritten(str: array<bv8>, len: nat) returns (crc: bv32)
    requires len <= str.Length
    ensures crc == Crc32AsWritten(str[..len])
  {
    crc := TableCrc32(WRITTEN_TABLE, str, len);
  }

  /** `crc32_append` (test_crc.c:14-23): resume from a finished checksum crc1
      by undoing its final XOR, feed data[..len], and re-apply the XOR. The
      source XORs the shifted register and the entry in the other order, and
      indexes with a plain `char`; neither changes the value. */
  method Crc32Append(crc1: bv32, data: array<bv8>, len: nat) returns (crc: bv32)
    requires len <= data.Length
    ensures crc == Extend(crc1, data[..len])
    ensures len == 0 ==> crc == crc1
  {
    TableIsCrcTable();
    var c := Xor(crc1, ONES);
    var i := 0;
    while i < len
      invariant i <= len
      invariant c == Reg(Xor(crc1, ONES), data[..i])
    {
      LookupStep(TABLE, Xor(crc1, ONES), data[..i], data[i], c);
      c := TableStep(TABLE, c, data[i]);
      assert data[..i + 1] == data[..i] + [data[i]];
      i := i + 1;
    }
    crc := Xor(c, ONES);
    if len == 0 {
      assert data[..len] == [];
      ExtendEmpty(crc1);
    }
  }

  /** The C string held in s: the bytes before the first NUL. */
  function CStr(s: seq<bv8>): (r: seq<bv8>)
    requires 0 in s
    ensures |r| < |s| && s[|r|] == 0 && r == s[..|r|] && 0 !in r
    decreases |s|
  {
    if s[0] == 0 then [] else [s[0]] + CStr(s[1..])
  }

  /** `crc32_string` (test_mitm.c:14-21): the table loop over the bytes before
      the terminating NUL. */
  method Crc32String(str: array<bv8>) returns (crc: bv32)
    requires 0 in str[..]
    ensures crc == Crc32(CStr(str[..]))
  {
    TableIsCrcTable();
    ghost var text := CStr(str[..]);
    var c: bv32 := ONES;
    var i := 0;
    while str[i] != 0
      invariant i <= |text|
      invariant c == Reg(ONES, str[..i])
      decreases |text| - i
    {
      LookupStep(TABLE, ONES, str[..i], str[i], c);
      c := TableStep(TABLE, c, str[i]);
      assert str[..i + 1] == str[..i] + [str[i]];
      i := i + 1;
    }
    assert str[..i] == text;
    crc := Xor(c, ONES);
  }

  // ---------------------------------------------------------------------------
  // The table as bilitrace_local.c writes it.

  /** `crc32_fast` run with the table exactly as bilitrace_local.c spells it. */
  function Crc32AsWritten(data: seq<bv8>): bv32
  {
    Xor(TableFold(WRITTEN_TABLE, ONES, data), ONES)
  }

  /** The written table is not the CRC-32 table: entry 247 (like entries 237
      to 246) is off, and the second byte of "40" already lands on it, so the
      checksum of "40" comes out as 0xdc2ad1a0 instead of 0xdc2ad1a4. */
  lemma AsWrittenTableMisdigests()
    ensures WRITTEN_TABLE[247] == 0x23d9_67bb && ZeroByte(247) == 0x23d9_67bf
    ensures !TableOk(WRITTEN_TABLE)
    ensures Crc32AsWritten([0x34, 0x30]) == 0xdc2a_d1a0
    ensures Crc32([0x34, 0x30]) == 0xdc2a_d1a4
  {
    assert !EntryOk(WRITTEN_TABLE, 247);
    var s: seq<bv8> := [0x34, 0x30];
    assert s == [0x34] + [0x30];
    assert [0x34] == [] + [0x34 as bv8];
    FoldSnoc(StepOf(WRITTEN_TABLE), ONES, [], 0x34);
    FoldSnoc(StepOf(WRITTEN_TABLE), ONES, [0x34], 0x30);
    assert TableFold(WRITTEN_TABLE, ONES, [0x34]) == 0x0c49_e4c7;
    assert TableFold(WRITTEN_TABLE, ONES, s) == 0x23d5_2e5f;
    RegSnoc(ONES, [], 0x34);
    RegSnoc(ONES, [0x34], 0x30);
    assert Reg(ONES, [0x34]) == 0x0c49_e4c7;
    assert Reg(ONES, s) == 0x23d5_2e5b;
  }
}
