# BiliTraceC in Dafny

BiliTraceC recovers the sender of a Bilibili danmaku (bullet comment). Every
danmaku carries the CRC-32 of its sender's decimal uid as eight hex digits.
The tools find a uid with that CRC. This project models their core and
proves what each part promises:

- **CRC-32** (`Crc`, `CrcTable`, `CrcVectors`). A bitwise reference
  definition. The 256-entry table of bilitrace_local.c, proved equal to the
  reference except for the entries that file misprints. `crc32_fast`,
  `crc32_append` and `crc32_string` as array loops proved against the
  reference, and the test vectors of test_crc.c and test_mitm.c.
- **Uid spelling and hash parsing** (`DecimalString`, `HexParse`).
  `fast_uid_to_str` in its 64-bit (include/utils.h) and 32-bit
  (bilitrace_local.c) forms, and `strtoul(s, NULL, 16)` with its white
  space, sign, prefix and overflow rules.
- **Brute-force crackers** (`Scan`). The first-match scan of cracker.c.
  The threaded scan of bilitrace_local.c: the split of [0, max) among
  workers, each worker's scan, and the shared result. The all-matches scans
  of find_all_collisions.c, including its 100-slot array, and of
  find_all_collisions.py.
- **Meet-in-the-middle engine** (`Gf2`, `MitmTable`, `Mitm`). The GF(2)
  matrix form of zlib's `crc32_combine` and the "required CRC of the low
  part" step. The table of 10^8 (CRC, low part) entries, sorted by CRC, and
  its binary search. The uid filter, the cache file, and the `mitm_crack`
  loop as methods of an engine object.
- **Protobuf danmaku parser** (`Proto`). `read_varint`, `skip_field`,
  `read_string`, `parse_danmaku_elem` and `parse_dm_seg` over a byte
  buffer, with encoders and round-trip lemmas.
- **XML hash extraction** (`CText`, `Xml`). The `<d p="...">` walks of
  bilitrace_local.c and of the two main.c files. They return the
  (text, hash) pairs they would crack.
- **History search** (`History`, `Crawl`). `history_callback` of src/main.c,
  with first-only mode, the 1000-id de-duplication table and hash
  normalisation, and the callback of main.c. The month-by-month crawl of
  src/main.c with its empty-month stop and its real-time fallback.
- **Whitelist scripts** (`Whitelist`, `Prefixes`, `Matching`, `Sorting`).
  The insert-or-ignore uid store with paged collection and ascending
  export. The 5-digit prefix analysis that produces the C switch. The
  candidate matcher.

The network, SQLite, the file system and the clock become parameters. A
page fetch is a function from page number to uids, a month index is a
function from month to segments, and a file is an optional sequence of
lines.

## Model

| member | source | states |
|---|---|---|
| Crc.CrcConcat | BiliTraceC/mitm_cracker.c:188-228 | the CRC of h ++ l is the CRC of l XOR the CRC of h pushed through \|l\| zero bytes (the identity `crc32_combine` relies on) |
| Crc.ExtendConcat | BiliTraceC/test_crc.c:14-23 | continuing the CRC of h over l gives the CRC of h ++ l |
| Crc.ExtendEmpty | BiliTraceC/test_crc.c:14-23 | continuing over no bytes returns the given CRC |
| Crc.Crc32Empty | BiliTraceC/bilitrace_local.c:61-68 | the CRC of the empty string is 0 |
| Crc.RegLinear | BiliTraceC/mitm_cracker.c:188-228 | the register is linear: a difference in the start value reaches the end as that difference shifted through \|s\| zero bytes |
| CrcTable.TableIsCrcTable | BiliTraceC/bilitrace_local.c:26-59 | the corrected table has, at every index, the one-byte bitwise CRC step of that byte; entry 0 is 0 and entry 128 is the polynomial |
| CrcTable.TableFoldIsReg | BiliTraceC/bilitrace_local.c:61-68 | with a correct table, the table-lookup loop computes the bitwise CRC register |
| CrcTable.TableCrc32 | BiliTraceC/bilitrace_local.c:61-68 | the loop over str[..len] with any table: all-ones start, one lookup per byte, final complement |
| CrcTable.Crc32Fast | BiliTraceC/bilitrace_local.c:61-68 | `crc32_fast` with the CRC-32 table returns the CRC-32 of str[..len]; 0 for the empty string |
| CrcTable.Crc32FastAsWritten | BiliTraceC/bilitrace_local.c:26-68 | `crc32_fast` with the table as bilitrace_local.c prints it returns the as-written checksum |
| CrcTable.AsWrittenTableMisdigests | BiliTraceC/bilitrace_local.c:56-57 | entry 247 of the printed table differs from the CRC table; the printed table is not a CRC table, and "40" hashes to 0xdc2ad1a0 instead of 0xdc2ad1a4 |
| CrcTable.Crc32Append | BiliTraceC/test_crc.c:14-23 | `crc32_append(crc1, data, len)` is crc1 continued over data[..len]; crc1 itself for len 0 |
| CrcTable.Crc32String | BiliTraceC/test_mitm.c:14-21 | `crc32_string` is the CRC-32 of the bytes before the first NUL |
| CrcVectors.Vector35469214 | BiliTraceC/test_mitm.c:29-38 | CRC("35469214") = 0x68947c4d |
| CrcVectors.Vector40381311 | BiliTraceC/test_mitm.c:29-38 | CRC("40381311") = 0x2640627d |
| CrcVectors.Vector3546921440381311 | BiliTraceC/test_mitm.c:29-38 | CRC("3546921440381311") = 0x90a567c7 |
| CrcVectors.AppendCheck515808585 | BiliTraceC/test_crc.c:31-44 | appending "15808585" to the CRC of "5" gives the CRC of "515808585" |
| CrcVectors.AppendCheck3546921440381311 | BiliTraceC/test_crc.c:46-59 | appending "40381311" to the CRC of "35469214" gives the CRC of the 16-digit uid, 0x90a567c7 |
| DecimalString.DecimalRoundTrip | BiliTraceC/include/utils.h:25-49 | the decimal spelling is all digits and parses back to the number |
| DecimalString.DecimalInjective | BiliTraceC/include/utils.h:25-49 | distinct numbers have distinct spellings |
| DecimalString.DecimalCanonical | BiliTraceC/include/utils.h:25-49 | the spelling has NumDigits(n) digits and starts with '0' only for 0 |
| DecimalString.NumDigitsBound | BiliTraceC/include/utils.h:25-49 | n fits k digits exactly when n < 10^k |
| DecimalString.PaddedRoundTrip | BiliTraceC/mitm_cracker.c:35-44 | for n < 10^k, the k-digit zero-padded spelling has k digits and parses back to n |
| DecimalString.DecimalConcat | BiliTraceC/mitm_cracker.c:569 | the spelling of h·10^k + low, h ≥ 1, is the spelling of h followed by low padded to k digits |
| DecimalString.WidthDigits | BiliTraceC/include/utils.h:25-49 | 32-bit values have at most 10 digits, values below 10^16 at most 16, 64-bit values at most 20 |
| DecimalString.ScratchOverrun | BiliTraceC/include/utils.h:26-40 | every value from 10^16 up has more than 16 digits, which is more than the 16-byte scratch array holds; 2^64 - 1 has 20 |
| DecimalString.FastUidToStr | BiliTraceC/include/utils.h:25-49 | for n < 10^16, writes the decimal spelling of n at the start of buf and returns its length; the rest of buf is unchanged |
| DecimalString.FastUidToStrWide | BiliTraceC/include/utils.h:25-49 | the same with a 20-byte scratch array, for every 64-bit n |
| DecimalString.FastUidToStr32 | BiliTraceC/bilitrace_local.c:74-95 | the 32-bit `fast_uid_to_str` writes the spelling of n and returns its length |
| HexParse.StrToUL | BiliTraceC/cracker.c:25 | `strtoul(s, NULL, 16)` never exceeds ULONG_MAX |
| HexParse.HexPaddedValue | BiliTraceC/mitm_cracker.c:525 | the k-digit hex spelling of v < 16^k reads back as v |
| HexParse.HexRoundTrip | BiliTraceC/cracker.c:25 | printing a 32-bit value with `%08x` and parsing it with `strtoul` gives the value back |
| HexParse.StrToULUnsigned | BiliTraceC/cracker.c:25 | a string that starts with a hex digit parses to the value of its leading hex run, when that fits |
| HexParse.TargetRoundTrip | BiliTraceC/mitm_cracker.c:524 | the target parsed from a `%08x` hash is the hash's value |
| CText.Find | BiliTraceC/bilitrace_local.c:299 | `strchr`: the first position at or after `from` that holds c, or none when no later position does |
| CText.Search | BiliTraceC/bilitrace_local.c:297 | `strstr`: the first occurrence of pat at or after `from`, or none when it occurs nowhere after `from` |
| CText.ContainsIff | BiliTraceC/bilitrace_local.c:337-342 | the keyword test holds exactly when the keyword occurs somewhere; the empty keyword is in every text |
| CText.FieldsCount | BiliTraceC/bilitrace_local.c:315-335 | a text has one comma-separated field more than it has commas |
| CText.FieldsAfter | BiliTraceC/bilitrace_local.c:315-335 | after the comma with k commas before it come the fields of the rest of the text |
| Gf2.MatTimes | BiliTraceC/mitm_cracker.c:63-72 | `gf2_matrix_times` returns the matrix times the vector over GF(2) |
| Gf2.MatSquare | BiliTraceC/mitm_cracker.c:75-79 | `gf2_matrix_square` leaves in each row n the matrix applied to its own row n |
| Gf2.PrecomputeShiftMatrix | BiliTraceC/mitm_cracker.c:90-176 | the rows represent the operator that shifts a CRC through 8·len2 zero bits, the identity when len2 ≤ 0 |
| Gf2.Combine | BiliTraceC/mitm_cracker.c:188-228 | `crc32_combine_zlib` returns the combined CRC of two strings from their CRCs and the length of the second |
| Gf2.CombinedConcat | BiliTraceC/mitm_cracker.c:188-228 | combining CRC(h) and CRC(l) gives CRC(h ++ l), the empty l included |
| Gf2.RequiredL | BiliTraceC/mitm_cracker.c:231-235 | the required low CRC is the target XOR the high CRC shifted through lenL zero bytes |
| Gf2.RequiredLFast | BiliTraceC/mitm_cracker.c:180-185 | the same through the precomputed eight-zero-byte matrix |
| Gf2.RequiredLInverts | BiliTraceC/mitm_cracker.c:248-277 | computed from the whole CRC and the high CRC, the required low CRC is the CRC of the low part |
| Gf2.MatchIff | BiliTraceC/mitm_cracker.c:557-563 | h ++ l reaches the target exactly when CRC(l) is the required low CRC: the lookup neither misses nor invents a match |
| MitmTable.PrintfPaddedFits | BiliTraceC/mitm_cracker.c:35-44 | below 10^k, `%0*u` prints exactly the k-digit padded spelling, which parses back to the value |
| MitmTable.Crc32NumericPadded | BiliTraceC/mitm_cracker.c:35-44 | `crc32_numeric_padded` is the CRC of the value printed with `%0*u` |
| MitmTable.Crc32Numeric | BiliTraceC/mitm_cracker.c:47-56 | `crc32_numeric` is the CRC of the value's decimal spelling |
| MitmTable.CompareEntries | BiliTraceC/mitm_cracker.c:282-290 | the comparison is -1, 0 or 1 and orders entries by CRC alone |
| MitmTable.CompareAntisymmetric | BiliTraceC/mitm_cracker.c:282-290 | swapping the arguments negates the result, as `qsort` needs |
| MitmTable.SortByCrc | BiliTraceC/mitm_cracker.c:350 | the result is sorted by CRC and a permutation of the input |
| MitmTable.FillTable | BiliTraceC/mitm_cracker.c:342-346 | entry i is (CRC of i padded to 8 digits, i) for every i |
| MitmTable.BuildTable | BiliTraceC/mitm_cracker.c:336-357 | the table holds each low part's entry once, sorted by CRC |
| MitmTable.InLowsOf | BiliTraceC/mitm_cracker.c:295-332 | a low part is listed for a key exactly when the table has the entry (key, low) |
| MitmTable.RunIsAll | BiliTraceC/mitm_cracker.c:310-325 | in a sorted table, a run of the key bounded by other keys holds every entry of that key |
| MitmTable.Absent | BiliTraceC/mitm_cracker.c:300-332 | a key the binary search brackets with nothing between is absent from the table |
| MitmTable.TableRun | BiliTraceC/mitm_cracker.c:336-357 | in a built table, the run of a key lists exactly the low parts below n whose padded spelling has that CRC |
| MitmTable.ExpandLeft | BiliTraceC/mitm_cracker.c:310-313 | walks left to the first entry of the run that holds the key |
| MitmTable.ExpandRight | BiliTraceC/mitm_cracker.c:314-317 | walks right to the last entry of the run |
| MitmTable.CollectRun | BiliTraceC/mitm_cracker.c:319-323 | copies min(run length, max) low parts of the run in order; slots after them are untouched |
| MitmTable.CollectedRun | BiliTraceC/mitm_cracker.c:319-323 | the copied low parts are a prefix of the key's run |
| MitmTable.FindCandidates | BiliTraceC/mitm_cracker.c:295-332 | every reported low part has the key; on a sorted table the report is the key's run cut at maxResults |
| Mitm.IsLikelyValidUid | BiliTraceC/mitm_cracker.c:460-505 | every uid in 1..2.2·10^9 passes; a 16-digit uid passes exactly for a known prefix pair; nothing else passes |
| Mitm.FilterAdmitsSample | BiliTraceC/mitm_cracker.c:460-505 | the sample uid 3546921440381311 passes; 0, 2.2·10^9 + 1 and an unknown prefix do not |
| Mitm.CandidateIff | BiliTraceC/mitm_cracker.c:557-578 | for h ≥ 1, low is in the key's run exactly when the CRC of h·10^8 + low is the target |
| Mitm.SaveTable | BiliTraceC/mitm_cracker.c:360-384 | the cache file carries the magic, the version and the table |
| Mitm.LoadTable | BiliTraceC/mitm_cracker.c:387-411 | a cache loads exactly when magic and version match and it has enough entries; the first 10^8 are the table |
| Mitm.LoadSaved | BiliTraceC/mitm_cracker.c:360-411 | a saved table loads back unchanged |
| Mitm.LookupHigh | BiliTraceC/mitm_cracker.c:550-563 | for one high part, the collected low parts are in the run of the required key, and are its first 16 on a sorted table |
| Mitm.ScanHigh | BiliTraceC/mitm_cracker.c:531-598 | one h iteration keeps every stored uid reportable and adds each match of this h while room lasts |
| Mitm.HighCovered | BiliTraceC/mitm_cracker.c:565-597 | when the slots hold the run and the buffer has room, every filtered uid with high part h and the target CRC is reported |
| Mitm.MitmLogicSample | BiliTraceC/mitm_cracker.c:248-277 | combining the CRCs of the two halves of the sample uid gives its CRC, and the required-L step gives back the low half's CRC |
| Mitm.ScanAll | BiliTraceC/mitm_cracker.c:531-598 | the h loop from an empty result reports only filtered uids with the target CRC; on a built table with room left it misses none from 10^8 to 10^16 |
| Mitm.MitmEngine.Init | BiliTraceC/mitm_cracker.c:415-455 | a ready engine is left as it is; otherwise the cached table is loaded or the table is built and saved, the shift matrix is computed, and the engine is ready |
| Mitm.MitmEngine.Cleanup | BiliTraceC/mitm_cracker.c:608-614 | the table is dropped and the engine is not ready |
| Mitm.MitmEngine.Crack | BiliTraceC/mitm_cracker.c:507-606 | -1 when not ready or without a result; otherwise returns the count, allocates a missing buffer of MAX_MITM_RESULTS, reports only filtered uids whose decimal CRC is the target, and, on a built table whose runs fit 16 slots with the buffer not full, reports every such uid in [10^8, 10^16) |
| Scan.FirstMatch | BiliTraceC/cracker.c:34-47 | the smallest uid in [lo, hi) with the target hash, or none exactly when no uid there has it |
| Scan.AllMatchesSpec | BiliTraceC/find_all_collisions.py:8-16 | the list holds exactly the matching uids below n, strictly ascending |
| Scan.FirstOfAll | BiliTraceC/cracker.c:34-47 | the first match is the head of the list of all matches |
| Scan.FirstMatchSplit | BiliTraceC/bilitrace_local.c:238-247 | the first match of [lo, hi) is that of [lo, mid) if there is one, else that of [mid, hi) |
| Scan.ZeroIsAmbiguous | BiliTraceC/cracker.c:46-53 | the result 0 means "no match" or "uid 0 matches" |
| Scan.UidCrc | BiliTraceC/cracker.c:42-45 | `fast_uid_to_str` then `crc32_fast` through the reused buffer gives the uid's decimal CRC |
| Scan.UidCrcU32 | BiliTraceC/bilitrace_local.c:205-207 | the 32-bit spelling then the as-written `crc32_fast` gives the as-written hash of the uid |
| Scan.CrackHashBelow | BiliTraceC/cracker.c:21-54 | the first uid below the bound whose decimal CRC is the parsed target, 0 when there is none |
| Scan.CrackHash | BiliTraceC/cracker.c:21-54 | the same over [0, 5·10^9) |
| Scan.CollectMatches | BiliTraceC/find_all_collisions.c:23-33 | the matches below the bound in order, or the overflow when a 101st match is written past the array |
| Scan.FindAllCollisionsBelow | BiliTraceC/find_all_collisions.c:12-48 | without an argument, usage; otherwise the collected matches of the parsed target |
| Scan.FindAllCollisions | BiliTraceC/find_all_collisions.c:12-48 | the same over [0, 5·10^9) |
| Scan.FindAllCollisionsPy | BiliTraceC/find_all_collisions.py:4-19 | the list of all matches of 0x338a39a5 in ascending order, and its length as the total |
| Scan.Worker | BiliTraceC/bilitrace_local.c:196-215 | a worker returns the first match of its own range |
| Scan.PartitionTiles | BiliTraceC/bilitrace_local.c:233-247 | the worker ranges start at 0, end at max, and each starts where the previous ends |
| Scan.PartitionCovers | BiliTraceC/bilitrace_local.c:233-247 | every uid below max lies in exactly one worker's range |
| Scan.SplitRange | BiliTraceC/bilitrace_local.c:238-247 | worker k gets `[k·step, (k+1)·step)`, the last one ending at max |
| Scan.OwnerFindsFirst | BiliTraceC/bilitrace_local.c:196-247 | the worker that owns the first match below max finds exactly it |
| Scan.NoWorkerFinds | BiliTraceC/bilitrace_local.c:196-247 | with no match below max no worker finds one |
| Scan.WorkersCover | BiliTraceC/bilitrace_local.c:196-247 | some worker finds a match exactly when there is one below max |
| Scan.RunWorkers | BiliTraceC/bilitrace_local.c:238-251 | result k is what worker k finds in its range |
| Scan.LastWrite | BiliTraceC/bilitrace_local.c:206-210 | 0 when no worker found a match; otherwise one of the values found, that of the last writer when it found one |
| Scan.CrackHashLocal | BiliTraceC/bilitrace_local.c:217-256 | 0 when no uid below max has the target hash; otherwise a uid that some worker found as the first match of its range |
| Proto.ReadVarint | BiliTraceC/src/proto_parser.c:19-37 | decodes the varint at pos within end exactly as `VarintAt` does, with the error and the position unchanged on failure |
| Proto.VarintRoundTrip | BiliTraceC/src/proto_parser.c:19-37 | the encoding of every 64-bit value decodes back to it and to the position after it |
| Proto.EncodeVarintLength | BiliTraceC/src/proto_parser.c:19-37 | a value below 128^k takes at most k bytes |
| Proto.ReadString | BiliTraceC/src/proto_parser.c:78-95 | the string read is exactly the len bytes after the length prefix, or the error |
| Proto.StringRoundTrip | BiliTraceC/src/proto_parser.c:78-95 | a length-prefixed string reads back as itself |
| Proto.SkipField | BiliTraceC/src/proto_parser.c:42-73 | skips a field of each wire type, or the error for a bad one |
| Proto.ReadsStayInside | BiliTraceC/src/proto_parser.c:19-95 | every successful read moves forward and stays within [pos, end] |
| Proto.ReadField | BiliTraceC/src/proto_parser.c:116-217 | one field of the switch sets the matching element field or skips an unknown one |
| Proto.ParseDanmakuElem | BiliTraceC/src/proto_parser.c:100-225 | parses the element in buf[start..start+len] exactly as `ElemAt` does |
| Proto.AttrNeverSet | BiliTraceC/src/proto_parser.c:116-217 | field 13 (attr) has no case in the switch, so parsing never changes attr |
| Proto.FieldsRoundTrip | BiliTraceC/src/proto_parser.c:100-225 | a message of well-formed fields parses to the element those fields build, in order |
| Proto.ElemRoundTrip | BiliTraceC/src/proto_parser.c:100-225 | every encoded element whose values are in range parses back to itself |
| Proto.ParseDmSeg | BiliTraceC/src/proto_parser.c:234-291 | `parse_dm_seg` as written: the status and the elements handed to the callback are those of `Seg` |
| Proto.SegRoundTrip | BiliTraceC/src/proto_parser.c:234-291 | a reply encoding a list of elements parses with status OK and hands them over in order until the callback stops; all of them when it never stops |
| Proto.MalformedElementStops | BiliTraceC/src/proto_parser.c:263-287 | as written, a malformed element ends the parse with BUFFER_OVERFLOW and nothing is handed over |
| Proto.ParseDmSegSkipping | BiliTraceC/src/proto_parser.c:234-291 | the corrected parse passes a malformed element and goes on; status and elements are those of `SegSkipping` |
| Proto.MalformedElementSkipped | BiliTraceC/src/proto_parser.c:263-287 | between well-formed elements, a malformed one ends the as-written parse after the elements before it, while the corrected parse hands over all the others and returns OK |
| Xml.HashShape | BiliTraceC/bilitrace_local.c:315-335 | an extracted hash is shorter than 15 characters and holds no comma; it is empty when the attribute has fewer than six commas, or fewer than seven in the local walk |
| Xml.LocalSixth | BiliTraceC/bilitrace_local.c:320-332 | at the sixth comma the local walk keeps the text up to the next comma when that comma is inside the attribute and the text is short |
| Xml.LegacySixth | BiliTraceC/src/main.c:341-353 | at the sixth comma the legacy walk keeps the text up to the comma, quote or '>' that ends it, when it is short |
| Xml.ExtractLocalHash | BiliTraceC/bilitrace_local.c:315-335 | the hash loop of `parse_and_crack` returns the local hash of the attribute |
| Xml.ExtractLegacyHash | BiliTraceC/src/main.c:338-357 | the hash loop of `parse_xml_legacy` returns the legacy hash of the attribute |
| Xml.NextElement | BiliTraceC/bilitrace_local.c:297-306 | an element found lies after the cursor, inside the text, with its '>' before its `</d>`, and only while count < limit |
| Xml.Elements | BiliTraceC/bilitrace_local.c:297-365 | the walk handles at most limit elements, each after the cursor and inside the text |
| Xml.CrackedSpec | BiliTraceC/bilitrace_local.c:337-344 | a job is cracked exactly when it is a handled one and wanted: no keyword or the text contains it, and a non-empty hash |
| Xml.CrackedAppend | BiliTraceC/bilitrace_local.c:297-365 | cracking keeps order: cracking a concatenation is cracking each part |
| Xml.CrackedTwice | BiliTraceC/bilitrace_local.c:337-344 | cracking the cracked jobs changes nothing |
| Xml.LocateElement | BiliTraceC/bilitrace_local.c:297-306 | finds the next element as `NextElement` describes |
| Xml.LocalJob | BiliTraceC/bilitrace_local.c:308-344 | one round gives the element's text and local hash, and whether it is wanted |
| Xml.LegacyJob | BiliTraceC/src/main.c:331-361 | one round gives the element's content and legacy hash, and whether it is wanted |
| Xml.ParseAndCrack | BiliTraceC/bilitrace_local.c:287-365 | counts the handled elements and returns, in order, the jobs of those that are wanted |
| Xml.ParseXmlLegacy | BiliTraceC/src/main.c:316-378 | the same for `parse_xml_legacy` of src/main.c and main.c |
| History.MatchesCases | BiliTraceC/src/main.c:128-137 | with a keyword, an element without content never matches; any content matches an empty keyword or one it starts with |
| History.CheckHash | BiliTraceC/src/main.c:152-164 | the hash is valid exactly when it has eight characters, all hex digits |
| History.Normalise | BiliTraceC/src/main.c:172-184 | the hash handed to the cracker, as `Normalised` describes |
| History.NormalisedShape | BiliTraceC/src/main.c:172-184 | the normalised hash has 8 characters, an 8-character hash is unchanged, and normalising twice is normalising once |
| History.NormalisedWellFormed | BiliTraceC/src/main.c:172-184 | padding at most eight hex digits gives a valid hash |
| History.NormalisedTarget | BiliTraceC/src/main.c:172-184 | left-padding a short hex hash with zeros does not change the target the cracker parses |
| History.MakeReport | BiliTraceC/src/main.c:138-184 | the report of a matched element: its id, its content and, if it has a hash, the hash checked and normalised |
| History.StepKeepsTable | BiliTraceC/src/main.c:118-126 | the seen-id table never holds more than 1000 ids, nor an id twice |
| History.StepRecords | BiliTraceC/src/main.c:118-126 | an id is recorded exactly when it is new and the table has room, at the table's end |
| History.FoundFreezes | BiliTraceC/src/main.c:110-113 | in first-only mode, once found, the callback asks to stop and changes nothing |
| History.RepeatCountsOnly | BiliTraceC/src/main.c:115-122 | a repeated id counts as processed and changes nothing else |
| History.StepMatches | BiliTraceC/src/main.c:115-137 | processed grows by one; matched grows and a report is added exactly when the id is new and the element matches |
| History.AllModeNeverStops | BiliTraceC/src/main.c:303-310 | in the default mode the callback never asks to stop |
| History.StopMeansFound | BiliTraceC/src/main.c:303-310 | a stop happens only in first-only mode and leaves the context found |
| History.RunFrozen | BiliTraceC/src/main.c:110-113 | elements after a first-only context is found change nothing |
| History.RunKeepsTable | BiliTraceC/src/main.c:118-126 | over any run of elements the seen-id table stays bounded and free of repeats |
| History.RunReports | BiliTraceC/src/main.c:138-311 | a run only adds reports, each of a matching element of the run, and the context is found exactly when it was or a report was added |
| History.AllModeSeesAll | BiliTraceC/src/main.c:107-311 | in the default mode every element of a segment is handed to the callback |
| History.StopIsHarmless | BiliTraceC/src/main.c:303-310 | the elements a stop withholds from the callback would not have changed the context |
| History.SearchContext.AlreadySeen | BiliTraceC/src/main.c:118-122 | the de-duplication loop finds the id exactly when it is among the recorded ids |
| History.SearchContext.Callback | BiliTraceC/src/main.c:107-311 | the context after the element, and the stop flag, are those `Step` gives |
| History.SearchContext.Feed | BiliTraceC/src/main.c:519-530 | feeding a segment's elements leaves the context `Run` gives |
| History.LegacyAgrees | BiliTraceC/main.c:100-177 | on a new id, main.c's callback counts and reports as src/main.c's does in the default mode |
| History.LegacySearchContext.Callback | BiliTraceC/main.c:100-177 | never asks to stop; the counters and reports become those of `LegacyStep` |
| Crawl.Prev | BiliTraceC/src/main.c:540-549 | the month before m: a valid month one step earlier |
| Crawl.Format | BiliTraceC/src/main.c:549 | `%04d-%02d` writes seven characters for a valid month |
| Crawl.PaddedOrder | BiliTraceC/src/main.c:493 | zero-padded numbers of one width compare as strings as they do as numbers |
| Crawl.FormatOrder | BiliTraceC/src/main.c:493 | `strcmp` of two formatted months orders them in time |
| Crawl.SearchMonth | BiliTraceC/src/main.c:512-539 | searches a month's segments with a fresh context; found as `MonthFound`, and stop exactly in first-only mode when found |
| Crawl.RestOfMonth | BiliTraceC/src/main.c:522-530 | in first-only mode, a month found within its first dates is found over all its dates |
| Crawl.HistoryCrawl | BiliTraceC/src/main.c:464-563 | the crawl from 2026-01 to the end month is `CrawlFrom`; the real-time fallback runs exactly when nothing was found and a keyword was given |
| Crawl.NothingDatedMonth | BiliTraceC/src/main.c:501-522 | a month whose index lists dates but none gives an element is not empty: whatever the streak, it resets it to 0, finds nothing, and the crawl goes on to the month before |
| Crawl.CrawlMonths | BiliTraceC/src/main.c:489-550 | the months visited go back one at a time from the first, never before the end month |
| Crawl.CrawlEmptyStreak | BiliTraceC/src/main.c:505-511 | a crawl that stops for empty months has just visited enough months in a row without an index |
| Crawl.SevenEmptyMonths | BiliTraceC/src/main.c:505-511 | from the first month, a stop for empty months follows seven empty months in a row |
| Crawl.CrawlFound | BiliTraceC/src/main.c:519-533 | any month found exactly when a visited month's search found a match; a first-only stop happens at that month |
| Crawl.FallbackMeans | BiliTraceC/src/main.c:552-558 | the fallback runs exactly when a keyword was given and no visited month found a match |
| Sorting.SortSet | BiliTraceC/scripts/match_whitelist.py:88 | lists a set in ascending order, each element once |
| Sorting.AscendingUnique | BiliTraceC/scripts/build_uid_whitelist.py:232 | a set has exactly one ascending listing |
| Whitelist.SixteenDigits | BiliTraceC/scripts/build_uid_whitelist.py:83-85 | the range test holds exactly for uids of sixteen decimal digits |
| Whitelist.InsertedRows | BiliTraceC/scripts/build_uid_whitelist.py:65-80 | an insert keeps every existing row, adds each storable new uid under the batch's source, and grows the table by the count returned |
| Whitelist.SaveTwice | BiliTraceC/scripts/build_uid_whitelist.py:65-80 | saving the same batch again adds nothing and changes nothing |
| Whitelist.Store.SaveUids | BiliTraceC/scripts/build_uid_whitelist.py:65-80 | the table becomes the insert-or-ignore of the batch, and the return value counts the rows added |
| Whitelist.Store.Export | BiliTraceC/scripts/build_uid_whitelist.py:229-239 | every stored uid, once, in ascending order |
| Whitelist.FirstEmptyStops | BiliTraceC/scripts/build_uid_whitelist.py:147-158 | paging stops at the first empty page, never past max_pages |
| Whitelist.CollectedMeans | BiliTraceC/scripts/build_uid_whitelist.py:142-185 | a uid is collected exactly when it has 16 digits and is on a page before the first empty one |
| Whitelist.CollectPages | BiliTraceC/scripts/build_uid_whitelist.py:147-158 | the page loop gathers `Collected` and requests pages up to the first empty one or max_pages |
| Whitelist.CollectFrom | BiliTraceC/scripts/build_uid_whitelist.py:142-185 | the collected uids all have 16 digits and are saved under the source, with the count of new rows |
| Prefixes.GetPrefix | BiliTraceC/scripts/analyze_uid_prefixes.py:82-84 | the prefix is a prefix of the spelling, of the given length or the whole spelling when shorter |
| Prefixes.PrefixIsQuotient | BiliTraceC/scripts/analyze_uid_prefixes.py:82-84 | for a 16-digit uid the 5-digit prefix is the spelling of uid // 10^11, and reads back as it |
| Prefixes.SamePrefix | BiliTraceC/scripts/analyze_uid_prefixes.py:179-193 | two 16-digit uids share the prefix exactly when they share the quotient the C switch tests |
| Prefixes.CounterTotal | BiliTraceC/scripts/analyze_uid_prefixes.py:137-162 | the counter counts each 16-digit uid once and is empty exactly when there is none |
| Prefixes.CounterMembers | BiliTraceC/scripts/analyze_uid_prefixes.py:137-162 | a prefix is counted exactly when some 16-digit uid has it |
| Prefixes.CounterOrderFree | BiliTraceC/scripts/analyze_uid_prefixes.py:137-162 | the counter does not depend on the set's iteration order |
| Prefixes.CounterKeys | BiliTraceC/scripts/analyze_uid_prefixes.py:137-162 | every counted prefix has five digits and no leading zero, so distinct prefixes have distinct `int` values |
| Prefixes.GenerateCases | BiliTraceC/scripts/analyze_uid_prefixes.py:165-202 | on five-digit prefixes without a leading zero, the case values are the counted prefixes as numbers, each once, in ascending order |
| Prefixes.AcceptsSeenPrefix | BiliTraceC/scripts/analyze_uid_prefixes.py:179-193 | the generated switch accepts a 16-digit uid exactly when a collected uid has its prefix |
| Prefixes.Analyze | BiliTraceC/scripts/analyze_uid_prefixes.py:205-220 | the cases are produced exactly when some collected uid has 16 digits, ascending and equal to the counted prefixes |
| Matching.StripShape | BiliTraceC/scripts/match_whitelist.py:41 | stripping leaves a slice with only white space outside it and none at its ends |
| Matching.StripIdempotent | BiliTraceC/scripts/match_whitelist.py:41 | stripping twice is stripping once |
| Matching.PyIntShow | BiliTraceC/scripts/match_whitelist.py:44 | `int(str(n)) == n` |
| Matching.CandidatesMeans | BiliTraceC/scripts/match_whitelist.py:35-49 | the candidates are exactly the values of the lines holding one |
| Matching.LoadWritten | BiliTraceC/scripts/match_whitelist.py:35-49 | a file of uids written one per line with `str` loads back as the set of those uids |
| Matching.LoadCandidates | BiliTraceC/scripts/match_whitelist.py:35-49 | the candidates of the file's lines, or the empty set when it cannot be opened |
| Matching.MatchWhitelist | BiliTraceC/scripts/match_whitelist.py:52-97 | usage exactly without an argument; an empty-whitelist exit exactly with an empty whitelist; otherwise the intersection of whitelist and candidates, ascending |

## Left out

- Crc32Fast: cracker.c, find_all_collisions.c, test_crc.c, test_mitm.c and mitm_cracker.c take `crc32_fast` and `crc32_table` from crc32_core.h. crc32_core.h is not part of this model, so they are taken to be the CRC-32 table.
- DecimalString.FastUidToStr: requires n < 10^16. From 10^16 up the spelling overruns the 16-byte scratch array, which is undefined behaviour (see Findings). cracker.c and find_all_collisions.c stay below 5·10^9.
- HexParse.StrToUL: `unsigned long` is modelled as 32 bits, as on Windows. On an LP64 pthread build "100000000" parses to 0x100000000, and the `(uint32_t)` cast gives 0 instead of 0xFFFFFFFF.
- Mitm.MitmEngine.Crack: coverage is proved for [10^8, 10^16) only. For h = 0 the high part is spelt "0", so uids below 10^8 are checked against "0" followed by eight padded digits.
- Mitm.MitmEngine.Crack: the failure of the result-buffer `malloc` (mitm_cracker.c:516-520) is not modelled; the buffer is always allocated.
- Mitm.MitmEngine.Init: a table `malloc` failure and a short or failed cache write are not modelled. The cache file is a value passed in and returned.
- Proto.ReadString: the failure of the copy's `malloc` (proto_parser.c:88-89) is not modelled.
- Proto.ReadString: the bound check `*ptr + len > end` (proto_parser.c:84) is modelled on unbounded integers, without pointer wrap-around. For a length near 2^64 the source's sum wraps (undefined behaviour), the check passes, `malloc(len + 1)` at :88 can become `malloc(0)` and the `memcpy` overruns; the model reports BUFFER_OVERFLOW instead.
- Proto.SkipField: the length-delimited bound check `*ptr + len > end` (proto_parser.c:60) is modelled without pointer wrap-around. For a length near 2^64 the source's sum wraps, the check passes and `*ptr += len` moves the pointer backwards; the model reports BUFFER_OVERFLOW instead, and its reads only move forward (`Proto.ReadsStayInside`).
- Proto.ParseDanmakuElem: inherits the two lines above. An unknown length-delimited field such as the bytes 72 F5 FF FF FF FF FF FF FF FF 01 (field 14, length 2^64 - 11) sends the source's `skip_field` back to the same tag, so its loop never ends; the model stops with BUFFER_OVERFLOW.
- Proto.ParseDmSeg: the element bound `sub_end = ptr + sub_len; if (sub_end > end)` (proto_parser.c:257-258) is modelled without pointer wrap-around. For a `sub_len` near 2^64 the source's `sub_end` wraps below `end`, the element parses as empty and `ptr += sub_len` moves backwards; the model reports BUFFER_OVERFLOW instead. `Proto.ParseDmSegSkipping` shares this bound.
- Scan.CrackHashLocal: the failure of the `malloc` of the thread and argument arrays (bilitrace_local.c:223-228, and 142-149 in the Windows build) is not modelled. A thread that fails to start (bilitrace_local.c:244-246) is taken to run.
- Scan.CrackHashLocal: requires at least one thread, because `max_uid / thread_count` divides by zero otherwise. Threads run concurrently in the source. The model runs each worker to the end of its range and lets `lastWriter` choose which found value survives. The shared `g_found` flag, which stops the other workers early, is not modelled.
- Scan.CrackHash: the progress output and the unused thread count are left out.
- Xml.ParseAndCrack: the `text_buf` `malloc` failure (bilitrace_local.c:310-311), which ends the walk, is not modelled.
- Xml.ParseXmlLegacy: the `content` `malloc` failure of src/main.c:332-333, which skips the element, is not modelled.
- Xml.ParseAndCrack: `xml` is the text before the buffer's terminating NUL, where every `strstr` and `strchr` of both walks stops; bytes after an embedded NUL are not modelled (the same holds for `Xml.ParseXmlLegacy`).
- Xml.ParseAndCrack: `crack_hash` is not called. The walk returns the (text, hash) jobs it would crack, in order.
- Xml.ParseXmlLegacy: `crack_hash` (src/main.c:366, main.c:233) is not called. The walk returns the (content, hash) jobs it would crack, in order.
- History.LegacySearchContext.Callback: `crack_hash` (main.c:164) is not called. The report ends with the normalised hash it would be handed.
- History.SearchContext.Callback: `crack_hash_all` (declared at include/cracker.h:38) has no body among the sources, so the crack at src/main.c:190 is not modelled. The `verify_uid_exists` requests (src/main.c:197, 250) use the network and the sleeps use the clock, so neither is modelled. Whether the MITM fallback (src/main.c:224-296) runs depends on `found_valid_uid`, which comes from those requests' answers, so the fallback is not modelled here either; `Mitm.MitmEngine.Crack` models `mitm_crack` itself. The report ends with the normalised hash handed to the cracker.
- History.SearchContext.Callback: `total_processed` and `total_matched` are unbounded integers; C's `int` overflow is not modelled. The `threads` field is only passed on to the cracker and is not modelled.
- Crawl.HistoryCrawl: `fetch_history_index_by_month` and `fetch_history_segment` are the `index` parameter. `index(m)` has one segment per listed date, each its list of decoded elements. A date that is not a JSON string (stored as NULL at history_api.c:127-133 and skipped at src/main.c:522) is an empty segment, so only a missing index or one with `count == 0` is the empty list (src/main.c:501), and a month of NULL dates resets the streak (`Crawl.NothingDatedMonth`). The 1.5 s sleep is left out.
- Crawl.HistoryCrawl: requires an end month with year ≥ 1 and at most four digits. `localtime` of the publication time is left out, and `EndMonth` takes the month it gives. The current month is kept as numbers rather than re-parsed from its text with `sscanf`.
- Crawl.HistoryCrawl: the real-time fallback's `fetch_danmaku` is not modelled. The model returns whether the fallback runs, and `Xml.ParseXmlLegacy` models what it does.
- Matching.PyInt: `int()` also accepts non-ASCII Unicode digits. Only ASCII digits are modelled.
- Matching.LoadCandidates: a file that cannot be opened is `None`. An exception part-way through a read is not modelled.
- Matching.MatchWhitelist: the printed report, the URLs and the hints are left out. The result is the sorted list of matches.
- Whitelist.Store.SaveUids: the `source` column's text (`fans:<mid>`, `comments:<bvid>`) is the datatype `Source`. SQLite errors other than an integer out of the 64-bit range are not modelled.
- Whitelist.CollectFrom: the HTTP fetches (`fetch_followers`, `fetch_comments`) are the `fetch` parameter; the sleeps and printed progress are left out.
- Whitelist.Store.Export: the file write is left out. The result is the list of lines' uids.
- Whitelist: `batch_collect`, `query_stats` and the argparse `main` of build_uid_whitelist.py only sequence the modelled operations and print. They are not modelled.
- Prefixes.GenerateCases: returns the ascending case values instead of the C text, and the file write is left out.
- Prefixes.PrefixCounter: `analyze_prefixes` returns the same counter twice. It is modelled once.
- Prefixes.GetPrefix: takes a non-negative uid; `collect_uids`, `fetch_hot_videos`, `fetch_video_aid` and `fetch_comments` (network) and `TARGET_COUNT` are not modelled. The uid set is the `order` parameter.
- All members: `printf` and `print` output, `fflush`, timing (`clock`) and `Sleep`/`usleep` are left out.

## Findings

| source | as written | input that shows it | evidently intended | confidence | as-written member | corrected member |
|---|---|---|---|---|---|---|
| BiliTraceC/bilitrace_local.c:56-57 | entries 237–247 of `crc32_table` are misprinted (e.g. 0x23d967bb for 0x23d967bf at 247) | "40": the threaded scan hashes it to 0xdc2ad1a0 instead of the CRC-32 0xdc2ad1a4, so uid 40 matches the wrong target | the CRC-32 table, as in the rest of the project | high; not executed | CrcTable.AsWrittenTableMisdigests, CrcTable.Crc32FastAsWritten | CrcTable.Crc32Fast, CrcTable.TableIsCrcTable |
| BiliTraceC/include/utils.h:25-49 | the 64-bit `fast_uid_to_str` writes its digits into `char temp[16]` | any n ≥ 10^16, e.g. 2^64 - 1, has 17 to 20 digits and writes past the array | a scratch array of 20 bytes, enough for every 64-bit value | high; not executed | DecimalString.ScratchOverrun, DecimalString.FastUidToStr | DecimalString.FastUidToStrWide |
| BiliTraceC/src/proto_parser.c:263-287 | an element that fails to parse leaves its error in `res`, the loop stops, and the error is returned | the reply bytes 10 1 8 (an element of length 1 holding a bare tag): BUFFER_OVERFLOW, nothing handed over | the element is skipped by its length, as `ptr += sub_len` at 274-275 already does, and parsing resumes | medium; not executed | Proto.ParseDmSeg, Proto.MalformedElementStops | Proto.ParseDmSegSkipping, Proto.MalformedElementSkipped |

The rest of the model follows the code as written: `Proto.ParseDmSeg`
returns the failed element's error, and `History.AllModeSeesAll` and
`History.StopIsHarmless` are stated over it.
