# A verified model of the JPEG Huffman transcoder

`src/main.cpp` is meant to rewrite JPEG files without changing a pixel. A first pass decodes the entropy-coded data of
every file and counts the Huffman symbols of four tables (DC and AC, luma and chroma). New tables are then
assigned by frequency to a fixed profile of code lengths. A second pass decodes every file again and writes
the same symbols with the new codes and the same magnitude bits, behind a copied header and a new table
segment.

This project models that program and proves what it keeps. The theorem is `Program.Lossless`: for every complete
file (its data lasts, and every restart marker that the decoder looks for before its last MCU is found) whose new
header suits its scan (`Program.HeaderSuits`: size, sampling factors and, where it matters, the restart interval are
defined before the first DHT segment), the rewritten file is complete too, and decoding it with its own tables gives
the picture (size, sampling factors, coefficients of every block) that decoding the original gives.
`Program.LosslessPart` says the same of the first MCUs of a file whose data ends early, and `Program.Transcode` is
the program itself, proved to produce exactly the files the theorems speak about. On the way there are the theorems
that hold for any scan, any component list of an MCU and any restart interval (`Transcoding.TranscodedScan`), the
agreement of the 9-bit-lookup decoder with plain prefix decoding, the packer invariant, restart resynchronisation of
every well-formed scan (`Intervals.WellFormedScan`), the optimality of the code assignment, and the round trip of the
table segment.

## How it is built

Each part has two layers. The meaning of a step is a function on values (`BitReader.ReadCode`,
`Blocks.Unit`, `Scans.Scan`, `Packing.Put`, `Dht.ParseTables`, `Headers.Header`), about which the lemmas are
proved. The code itself is imperative: classes with the program's own fields and in-place arrays
(`Decoders.Jdec`, `HuffmanTables.HuffmanTable`, `BitWriter.Packer`, `Sorting.Sorter`, `CodeBooks.OneHuff`,
`FirstPass.HuffVal`), with loops where the program has loops, whose methods are proved to do what those
functions say.

So that these functions mean what they should, each of them is tied to a description from outside, which does not
use it. Decoding is compared with the standard's own coding: the file that it prescribes for a picture shows that
picture (`Pictures.PictureShown`) and still does after it has been rewritten (`Pictures.PictureSurvives`). For data that
no encoder wrote, `Coefficients.ScanMeaning` gives every coefficient in closed form, from the positions of its
magnitude and the sums of its differences. Headers are compared with printed segments in any order
(`Segments.HeaderParsed`).

| file | part |
|---|---|
| `Bits.dfy` | bit strings, shifts and masks on unbounded numbers |
| `Canonical.dfy` | canonical codes (Annex C of ITU-T T.81), Kraft inequality, prefix decoding, length counts |
| `HuffmanTables.dfy` | the lookup table and slow chains of a decoder table |
| `BitReader.dfy`, `Decoders.dfy` | the unstuffing reader, the 32-bit reservoir, the symbol decoder, resynchronisation |
| `Blocks.dfy`, `Scans.dfy`, `Intervals.dfy` | blocks, MCUs, restart intervals and their ends, whole scans |
| `FirstPass.dfy`, `Sorting.dfy`, `CodeAssigner.dfy`, `CodeBooks.dfy` | counting, sorting, assigning codes |
| `Numerals.dfy`, `Packing.dfy`, `BitWriter.dfy`, `SecondPass.dfy` | printing values as binary digits, packing, rewriting |
| `Coefficients.dfy`, `Coding.dfy` | what the data of any scan says of its coefficients; the standard's coding of given coefficients, which decoding undoes |
| `Transcoding.dfy`, `Coverage.dfy` | a rewritten scan decodes to its original; every symbol met has a code |
| `Dht.dfy`, `Headers.dfy`, `Program.dfy` | table segment, headers, the program and its main theorem |
| `Segments.dfy`, `Pictures.dfy` | header segments as the standard prints them; whole files of given pictures |
| `Samples.dfy`, `Example.dfy` | concrete files, and what they show before and after: one meets every hypothesis of the main results, one has a restart marker, four define something behind their first DHT and lose it |

Tokens (`Blocks.Tok`) are what both passes meet in order: a symbol of one of the four tables, a string of
magnitude bits, or a restart marker.

## What the code needs

Stated as preconditions, because the program relies on them without a check:

- `Canonical.Good`: a table's sizes obey the Kraft inequality, its values are distinct bytes (`code_size` is
  indexed by value), its first code has at most 9 bits (code 0 ends a slow chain), and no length above 9 has
  more than 127 codes. For a new table this is the case exactly when it lists at most 148 symbols
  (`CodeBooks.AssignedGood`).
- `Decoders.SmallVals`: DC symbols are sizes of at most 15 bits.
- `Program.SymbolsFit`: counts are at most 2^24, because the sort swaps them through a `float`
  (`Sorting.LargeCountLost` gives the first count that this changes), and the four tables together list at most
  185 symbols, because the length of their segment is written as a zero byte and one more.
- `Program.Modelled`: the headers end within the file, and their fields stay within the decoder's arrays.

One property of the header rewrite is false in general: the output keeps only what is defined before the
input's first DHT segment. `Program.FrameKeptExactly` says for every file when the frame is kept, and
`Headers.FrameKept` gives a condition on the segments behind the first DHT under which it is, provided that no
frame header is declared so short that its fields reach behind that marker.

What a file shows is what the decoder makes of it, whether or not it finds the markers it looks for: at a missing
marker the program goes on decoding (src/main.cpp:105-106). For a complete file `Program.CompleteExactly` says
that the picture is kept only if the new header sets size and sampling factors as before. If it also sets the
restart interval as before, or if the input's scan passes no restart marker, then the output is a complete file
with the same picture if and only if the header suits the scan: the same size, and the same interval, or for a scan
without markers an interval of 0 or of at least the number of MCUs.

A shorter interval that was not there before ends where no marker stands. The search for one runs to the end of the
image, because the output is stuffed, and the decoder goes on from the next whole byte with fresh predictors.
`Program.MisreadExactly` says what it shows then: the first interval as before, behind it whatever the rest
decodes to from there, so the picture is kept exactly if that gives the same blocks. This may happen:
`Example.LateChangeKept` is such a file, and `Example.LateStepLost` one that loses its picture. Their headers are the
same (`Example.HeadersDoNotTell`), so no condition on headers can be exact. `Example.LateFrameLost` loses its picture
through a late frame header, whatever the tables; `Example.LateRestartLost` loses its interval, but never its
picture. `Example.PlainMeetsAll` meets all hypotheses of the main results at once, and `Example.RestartKept` is a
file whose restart marker is passed, rewritten and found again.

Restart intervals of an input need no assumption about the decoder: the reservoir holds at most 23 bits
(`Intervals.RunOnward`), at most 15 when no symbol is missing from its table (`Intervals.RunBound`), and
decoding lands on the marker behind every interval that ends in fewer than 8 padding bits and a marker, fill
bytes allowed (`Intervals.ThroughInterval`). The output's intervals end so, because the second pass pads them.

## Model

| member | source | states |
|---|---|---|
| Canonical.KraftFits | src/main.cpp:146-162 | every code counted up by the table builder fits its length if and only if the lengths obey the Kraft inequality |
| Canonical.PrefixFree | src/main.cpp:146-162 | at most one codeword starts any bit string |
| Canonical.NotAllOnes | src/main.cpp:1334-1379 | when some code space is left, no codeword is all ones |
| Canonical.FindUnique | src/main.cpp:654-727 | plain prefix decoding finds the one entry whose codeword starts the bits |
| Canonical.SizesCounts | src/main.cpp:2306-2322 | any nondecreasing list of lengths is rebuilt from the 16 counts that the segment stores |
| Canonical.CountsSizes | src/main.cpp:270-280 | and any 16 counts are read back from the lengths they stand for |
| HuffmanTables.BuildSizes | src/main.cpp:133-140 | the temporary length array lists the lengths of the 16 counts, with a terminating 0 |
| HuffmanTables.BuildCodes | src/main.cpp:146-162 | the counting loop gives entry k its canonical code |
| HuffmanTables.ChainFits | src/tinyjpeg-internal.h:26-29 | 256 numbers hold any chain of a usable table and its terminator |
| HuffmanTables.SlowCodePositive | src/main.cpp:195-203 | a code of more than 9 bits is never 0, so that 0 can end a chain |
| HuffmanTables.SlotIsFind | src/main.cpp:183-194 | each of the 512 lookup slots is the value of the one short code that starts its index, or -1 |
| HuffmanTables.HuffmanTable.FillShort | src/main.cpp:183-194 | exactly the slots that start with the code receive its value |
| HuffmanTables.HuffmanTable.AppendSlow | src/main.cpp:195-204 | the pair goes behind the chain's last one, the terminator behind it, and nothing else changes |
| HuffmanTables.HuffmanTable.Build | src/main.cpp:121-208 | the arrays represent the table that the counts and values stand for |
| HuffmanTables.HuffmanTable.SearchChain | src/main.cpp:709-724 | searching a chain finds the value of the code of that length, or -1 when no codeword starts the bits |
| BitReader.FillView | src/main.cpp:662-673 | refilling preserves what is left to read, succeeds exactly when enough is left, and holds at most 7 bits more than needed |
| BitReader.ReadCodeView | src/main.cpp:654-727 | a symbol read is the value of the entry whose codeword starts the unread bits, exactly that codeword is used up, or nothing is read; the reservoir never exceeds 23 bits |
| BitReader.ReadCodeHit | src/main.cpp:654-727 | when a codeword starts the unread bits, its symbol is returned, whatever was looked ahead, and at most 15 bits stay in the reservoir |
| BitReader.ReadCodeMiss | src/main.cpp:725-727 | when none does and 16 bits are there, the symbol is 0 and nothing is used |
| BitReader.ReadCodeExactly | src/main.cpp:654-727 | a symbol is read exactly when 9 bits are left, and a codeword starts them or 16 are left; it is a codeword's exactly when one starts them |
| BitReader.ReadBitsView | src/main.cpp:771-785 | magnitude bits are the next unread bits, read exactly when there are enough |
| Decoders.ShiftIn | src/main.cpp:667-672 | shifting a byte into a reservoir of at most 24 bits appends its bits and stays below 2^32 |
| Decoders.LookAndSkip | src/main.cpp:674-683 | shift and mask look at and drop the first bits |
| Decoders.NegativeValue | src/main.cpp:786-787 | the 16-bit sum with 0xFFFFFFFF shifted left and 1 subtracts 2^s - 1 |
| Decoders.Jdec.Refill | src/main.cpp:662-673 | refilling is Fill on the abstract reader; the reservoir stays below 2^nbits with nbits at most 23 |
| Decoders.Jdec.NextCode | src/main.cpp:654-727 | lookup and chains together return the symbol of plain prefix decoding and leave the same reader, or fail when the data ends |
| Decoders.Jdec.SlowCode | src/main.cpp:691-727 | the search of lengths 10 to 16 is prefix decoding from 10 bits on |
| Decoders.Jdec.GetValue | src/main.cpp:771-787 | reads the magnitude bits and their sign extension (EXTEND) |
| Decoders.Jdec.SeekRst | src/main.cpp:85-111 | finds the first due restart marker, passing data, fill bytes and other markers, unless the end of the image comes first |
| Decoders.Jdec.ResyncHere | src/main.cpp:869-883 | the state is that of a fresh restart interval at the current position |
| Decoders.Jdec.PassMarker | src/main.cpp:1049-1059 | gives whole unread bytes back, resynchronises, and goes on behind the marker with the next number |
| Blocks.AcStepShrinks | src/main.cpp:798-859 | every AC symbol that does not end the block uses up bits, also run codes that do not advance |
| Blocks.AcAgree | src/main.cpp:798-859 | re-encoded AC symbols decode to the same symbols and coefficients and stop right behind them, overflowing runs included |
| Blocks.UnitAgree | src/main.cpp:736-864 | the same for a block, with the same DC value and predictor |
| Coefficients.AcPositions | src/main.cpp:798-859 | for any data, each AC magnitude is sign-extended and stands at 1 plus the sum over the symbols before its own of run + 1 (16 for 0xF0, 0 for other runs of size 0) plus its own run; all other AC coefficients are 0; the run ends with symbol 0, at coefficient 64, or with a run that would lead beyond it |
| Coefficients.ScanMeaning | src/main.cpp:736-864 | for any data, MCU list and restart interval, the tokens of a scan are those of its blocks in a row, block b is of component mcu[b mod m] and has its coefficients at their positions, and its DC value is the 16-bit wrap of the sum of that component's differences since the last restart |
| Coding.ExtendMag | src/main.cpp:786-787 | sign extension undoes the standard's magnitude bits, for every value |
| Coding.RunDecodes | src/main.cpp:798-859 | decoding the standard's run/size coding of AC coefficients yields exactly them |
| Coding.BlockDecodes | src/main.cpp:736-864 | the same for a block with its DC difference, for all values of at most 15 bits and DC values of 16 |
| Coding.CodedScan | src/main.cpp:987-1070 | decoding undoes the coding of a whole scan: any coefficients, MCU list, restart interval and fitting tables, every marker found |
| Scans.ScanPrefix | src/main.cpp:1041-1061 | the symbols of a shorter run are a prefix of those of a longer one, also when either runs out of data |
| Scans.UnitsAgree | recodejpg/main.cpp:933-946 | the same for the blocks of an MCU, for any list of components |
| Scans.LandOnMarker | src/main.cpp:1049-1056 | when padding and a marker are all that is left to read, the reservoir of at most 23 bits holds the padding and 0, 1 or 2 bytes of the marker, and giving them back lands on the marker |
| Intervals.RunOnward | src/main.cpp:662-673 | from any start, decoding any number of MCUs without restarts leaves at most 23 bits in the reservoir and meets no marker |
| Intervals.RunBound | src/main.cpp:674-727 | at most 15 bits, when every symbol read is in its table |
| Intervals.ThroughInterval | src/main.cpp:1049-1059 | when the data of an interval ends in padding and the due marker, decoding passes the marker and goes on right behind it with fresh predictors and the next number, for any interval, data and tables |
| Intervals.IntervalEnd | src/main.cpp:1049-1056 | at the end of a well-formed interval whose symbols are all in the tables, at most one whole byte is unread, and giving it back lands on the marker |
| Intervals.WellFormedScan | src/main.cpp:85-118 | in a scan made of well-formed intervals every boundary finds its marker, so decoding completes |
| Intervals.FreeScan | src/main.cpp:1049-1059 | a scan too short for its restart interval decodes as one without |
| Intervals.MarkerMissing | src/main.cpp:105-106 | where an interval ends and the search meets the end of the image, decoding goes on: whole unread bytes given back, the bits before them dropped, predictors fresh, the same marker number due |
| Scans.MarkersInOrder | src/main.cpp:85-118 | the k-th restart marker passed is RST(k mod 8), counted from the first due |
| Scans.MarkerFirst | src/main.cpp:85-111 | the search stops at the first byte behind an 0xFF that is the due marker or the end of the image, fill bytes passed, and is lost when there is none |
| Scans.ScanNoRst | src/main.cpp:2154-2163 | without a restart interval no marker is passed or written |
| FirstPass.HuffVal.Add | src/main.cpp:754-767 | each counter is the number of occurrences of its symbol so far |
| FirstPass.AcSymbol | src/main.cpp:798-859 | one AC symbol: counted, and the step of the block decoder, with DCT written in bounds |
| FirstPass.DcSymbol | src/main.cpp:748-796 | the DC symbol: counted, predictor and value as the block decoder's |
| FirstPass.AcSymbols | src/main.cpp:798-859 | the AC loop ends on every bit stream and computes the block decoder's coefficients |
| FirstPass.DecodeUnit | src/main.cpp:736-864 | one block: tokens counted, coefficients, predictors and reader as specified |
| FirstPass.DecodeMcu | src/main.cpp:890-981 | the blocks of an MCU in the order of its component list |
| FirstPass.PassBoundary | src/main.cpp:1049-1059 | restart handling behind an MCU is the boundary of the scan function |
| FirstPass.Decode | src/main.cpp:987-1070 | the pass counts exactly the tokens of a scan over rows of width + 1 pixels, up to where the data ends |
| FirstPass.McuCounts | src/main.cpp:1033-1043 | the second pass decodes the fewest rows and columns of MCUs that cover the image, the first the fewest columns that cover one pixel more |
| FirstPass.LayoutPlain | src/main.cpp:1005-1007 | an MCU has one block per component if and only if the bitwise or of the first component's factors is 1 |
| FirstPass.LayoutFactors | recodejpg/main.cpp:933-946 | for factors of 1 and 2 an MCU has h v luma blocks and then one of each other component, and covers 8 h by 8 v pixels |
| Sorting.SmallCountsExact | src/main.cpp:1171-1176 | counts up to 2^24 survive the exchange through a float |
| Sorting.ExactCounts | src/main.cpp:1171-1176 | a count survives if and only if the bits below its first 24 are all 0 |
| Sorting.LargeCountLost | src/main.cpp:1171-1176 | so 2^24 + 1 does not |
| Sorting.Sorter.BubbleSort | src/main.cpp:1160-1183 | the counts end up descending, index is a permutation, and p[k] is the original p[index[k]] |
| Sorting.MoveArray | src/main.cpp:1381-1390 | the values are permuted by the same index, so each sits beside its own count |
| Sorting.Rearrangement | src/main.cpp:1392-1405 | descending counts with ascending lengths cost least among all rearrangements of the lengths |
| CodeAssigner.CalNewHuffman | src/main.cpp:1337-1379 | the loop ends, lengths stay at most 16, and string i is the canonical codeword of the profile, so no zero padding occurs |
| CodeAssigner.ProfileWellFormed | src/main.cpp:1334-1379 | for up to 256 symbols the codes are prefix-free and none is all ones |
| CodeAssigner.CodeNumeral | src/main.cpp:1351-1362 | the binary numeral of a code has exactly the code's length |
| CodeAssigner.NewLongSizes | src/main.cpp:1334-1335 | above 9 bits the profile only uses 16-bit codes, those behind the first 21 |
| CodeBooks.OneHuff.Collect | src/main.cpp:1119-1157 | collects exactly the symbols that occur, ascending, each with its count |
| CodeBooks.OneHuff.BuildTree | src/main.cpp:1392-1457 | the table lists exactly the symbols that occur, no symbol before a more frequent one, with the codes of the profile |
| CodeBooks.OneHuff.FindNewCode | src/main.cpp:1716-1758 | a listed symbol gets its code string |
| CodeBooks.AssignedBest | src/main.cpp:1392-1457 | no other way to hand the same lengths to the symbols costs less |
| CodeBooks.FewestBits | src/main.cpp:1392-1457 | so the codes of all counted symbols take the fewest bits that these lengths allow |
| CodeBooks.AssignedGood | src/tinyjpeg-internal.h:26-29 | a new table fits the decoder's arrays if and only if it lists at most 148 symbols |
| CodeBooks.TableAgreement | src/main.cpp:121-162 | the decoder's builder rebuilds the assigned table from the counts and values of the segment |
| Numerals.Itoa | src/main.cpp:1664-1691 | prints the decimal digits, those of a negative number complemented |
| Numerals.Tobin | src/main.cpp:1697-1713 | prints the binary numeral; with up to 18 digits no long long overflows |
| Numerals.MagnitudeRoundTrip | src/main.cpp:1892-1899 | printing a sign-extended value gives back the magnitude bits it was read from, for every size and sign |
| Packing.PutKeeps | src/main.cpp:1514-1581 | in each of the packer's branches no bit is lost or reordered |
| Packing.PackedRun | src/main.cpp:1514-1581 | after any strings of at most 16 bits, the unstuffed output and then at most 8 pending bits are the strings in a row |
| Packing.UnstuffStuff | src/main.cpp:1531-1566 | reading stuffed bytes gives the bytes back |
| Packing.FileBits | src/main.cpp:2227-2264 | a scan without restart markers is, stuffed, the strings of all its tokens in a row and fewer than 8 ones, and then the end-of-image marker |
| Packing.RestartBytes | src/main.cpp:2039-2071 | before a restart marker the pending bits are padded with ones and written unstuffed |
| Packing.StuffedSearch | src/main.cpp:85-111 | a search for a restart marker that starts in stuffed data meets the end of the image |
| Packing.StuffingSafety | src/main.cpp:2227-2264 | without restarts every 0xFF up to the final marker is followed by 0, the padded last byte included |
| BitWriter.HeadString | src/main.cpp:1471-1481 | the first bits of a code, right-aligned |
| BitWriter.Use8String | src/main.cpp:1483-1493 | eight bits from the middle of a code |
| BitWriter.TailString | src/main.cpp:1495-1505 | the last bits of a code, right-aligned |
| BitWriter.Packer.WriteStream | src/main.cpp:1514-1581 | the partial byte and the file change as Put says, with 0 to 8 bits pending in every branch |
| BitWriter.Packer.FlushRestart | src/main.cpp:2039-2071 | pads with ones, writes the byte unstuffed and the marker, and starts an empty segment |
| BitWriter.Packer.Finish | src/main.cpp:2227-2264 | pads, stuffs, writes the end-of-image marker, and leaves the packer empty for the next image |
| BitWriter.Packer.WriteNumber | src/main.cpp:2271-2280 | writes the number that a string of up to 8 binary digits denotes |
| SecondPass.WriteSym | src/main.cpp:1778-1798 | a symbol is written with its new code |
| SecondPass.WriteVal | src/main.cpp:1892-1899 | a coefficient is written as the magnitude bits it was read from |
| SecondPass.WriteUnit | src/main.cpp:1763-1908 | one block: decoded as in the first pass, and its tokens written |
| SecondPass.WriteBoundary | src/main.cpp:2005-2073 | a restart marker is passed and written under the same number; at the end of the image nothing is written |
| SecondPass.WriteMcu | src/main.cpp:1913-1995 | the blocks of an MCU in the order of its component list |
| SecondPass.WriteBody | src/main.cpp:2076-2168 | the file ends with the scan header, the strings of all tokens of the image's MCUs up to where the data ends, and the end marker |
| Transcoding.OutView | src/main.cpp:1514-1581 | from the start of a segment, the finished file reads as its strings, fewer than 8 padding ones, and a marker |
| Transcoding.BoundaryAgree | src/main.cpp:2154-2163 | input and output resynchronise at the same MCUs on the same marker numbers |
| Transcoding.TranscodedScan | src/main.cpp:2146-2165 | decoding the rewritten scan with the new tables gives the same tokens, blocks and predictors, for any number of MCUs, component list, restart interval and tables |
| Coverage.ScanFormed | src/main.cpp:736-864 | every token is a byte symbol, at most 15 for DC, or 1 to 15 magnitude bits, or one of eight markers |
| Coverage.TwoPassCoverage | src/main.cpp:1041-1061 | whatever else was counted, the symbols of the second pass are a prefix of those of the first and all have a code |
| Coverage.BookSmall | src/main.cpp:1392-1420 | new DC tables list sizes of at most 15 bits |
| Dht.WriteHuffmanTable | src/main.cpp:2284-2447 | writes the length and the tables DC 0, AC 0, DC 1, AC 1, each as identifier, 16 counts and values |
| Dht.DhtRoundTrip | src/main.cpp:224-297 | parsing the printed segment recovers all four tables, its length counter reaches 0, and it ends where its length field says |
| Dht.TableFields | src/main.cpp:2306-2322 | byte n of a printed table is the number of its codes of n bits, and its values follow |
| Headers.ParseDhtSegment | src/main.cpp:224-297 | the decoder's tables become those that the segment lists, the others stay |
| Headers.ParseSofSegment | src/main.cpp:340-371 | size and sampling factors as the frame header says |
| Headers.ParseSosSegment | src/main.cpp:375-407 | the components listed are bound to tables, the others keep their null pointers, and the scan starts behind the scan header |
| Headers.ParseDriSegment | src/main.cpp:210-222 | the restart interval |
| Headers.ParseHeader | src/main.cpp:411-470 | the segments up to the scan header, fill bytes passed, false exactly where the program exits |
| Segments.SegmentParsed | src/main.cpp:340-371 | a printed frame header, restart interval, table list or other segment is parsed to what it says: sizes and intervals up to 65535, factors up to 15 in their order, tables of both classes |
| Segments.ScanParsed | src/main.cpp:375-407 | a printed scan header binds each listed component to its DC and its AC table, and the scan starts right behind it |
| Segments.HeaderParsed | src/main.cpp:411-470 | whatever segments stand before a scan header, in whatever order, the decoder ends up with what they say |
| Segments.FrameParsed | src/main.cpp:2453-2511 | the copied part of a header ends with its first DHT marker and defines what the segments before it say |
| Headers.CopyHeader | src/main.cpp:2453-2511 | copies the bytes up to and including the first DHT marker |
| Headers.HeaderFrame | src/main.cpp:411-470 | parsing a header is parsing the frame before its first DHT and then what follows; without a frame it fails or finds no table |
| Headers.FrameSame | src/main.cpp:2453-2511 | headers that share the bytes of the copied part, and the bytes their frame fields are read from, have the same frame |
| Headers.RewrittenHeader | src/main.cpp:2453-2511 | the output's header parses to the frame that its first bytes define, the new tables, and component 0 on tables 0, components 1 and 2 on tables 1; or to nothing that can be decoded |
| Headers.CopiedFrame | src/main.cpp:2453-2511 | that is the frame the input defines before its first DHT, when all fields of its frame headers are copied |
| Headers.FrameKept | src/main.cpp:2453-2511 | and it is the frame the input is decoded by when no frame header or restart interval follows its first DHT |
| Program.FrameKeptExactly | src/main.cpp:2453-2511 | the output is decoded by the input's frame if and only if the header to be written defines it; with all frame header fields copied, if and only if the input defines it before its first DHT |
| Program.CompleteExactly | src/main.cpp:2173-2269 | a complete file's picture is kept only if the header to be written keeps size and sampling factors; when that header also sets the input's restart interval, or the input passes no restart marker, the output is complete with the same picture if and only if the header suits the scan: same size, and the same interval or one that does not end before the last MCU |
| Program.OutputOther | src/main.cpp:1049-1059 | the rewritten scan of a file without restart markers, read with restart interval i: all blocks when i is 0 or at least the number of MCUs; otherwise a marker is missed, the blocks of the first i MCUs are shown, and then those read from the position given back |
| Program.MisreadExactly | src/main.cpp:1049-1059 | for a complete file without restart markers whose output sets an interval that ends too early: the output is not complete, the first interval is shown as before, and the picture is the same if and only if the data read from the position given back decodes to the other blocks |
| Program.IdleInterval | src/main.cpp:1049-1059 | a file whose data lasts, without a restart interval or with one longer than its scan, passes no restart marker; a complete one that passes none has no interval shorter than its scan |
| Program.WellFormedComplete | src/main.cpp:1041-1061 | a file whose restart intervals are all well formed is complete |
| Example.LateFrameLost | src/main.cpp:2453-2511 | there is a complete file with its frame header behind its first DHT that the program rewrites and whose picture no output shows |
| Example.LateRestartLost | src/main.cpp:2453-2511 | there is a complete file with its restart interval behind its first DHT whose every output sets none, and still is complete and shows the picture |
| Example.LateChangeKept | src/main.cpp:105-106 | there is a complete file with a second restart interval behind its first DHT of which no output is complete, while the one that the program writes of the file alone shows the same picture |
| Example.LateStepLost | src/main.cpp:1049-1059 | there is one of which the output that the program writes of the file alone shows another picture |
| Example.HeadersDoNotTell | src/main.cpp:1049-1059 | these two files have the same length and the same headers up to the scan |
| Example.RestartKept | src/main.cpp:2154-2163 | there is a file with a restart marker between its MCUs whose every output is complete and shows its picture |
| Program.AllFound | src/main.cpp:1716-1758 | for any set of files, every symbol met in the second pass has a new code |
| Program.EnvTables | src/main.cpp:375-407 | each component is decoded with the tables that the scan header binds it to |
| Program.AcceptedExactly | src/main.cpp:1005-1021 | the program rewrites a file if and only if its headers lead to a scan and its first component's factors are 1 and 1, 1 and 0, or 0 and 1 |
| Program.RewrittenBytes | src/main.cpp:2076-2102 | a rewritten file starts with the input up to and including its first DHT marker, and right before its scan stands FF DA 00 0C 03 00 00 01 11 02 11 00 3F 00, byte by byte |
| Program.ScanAnnounced | src/main.cpp:2079-2102 | where an output's own headers say that its scan starts, the scan header ends: three components 0, 1, 2 with selectors 0x00, 0x11, 0x11, and the bytes 0, 63, 0 |
| Program.RewrittenMcus | src/main.cpp:2146-2165 | the first k MCUs of a file, as far as its data lasts and its markers are found, show the same blocks and find their markers in the file rewritten with any fitting tables that list its symbols, when the header to be written defines its frame |
| Program.RewrittenDecodes | src/main.cpp:2173-2269 | a complete file, so rewritten, is complete and decodes to the same picture, when the header to be written suits its scan |
| Program.Lossless | src/main.cpp:2567-2594 | every complete file, rewritten with the tables built from all files, is complete and decodes to the same picture, under the same condition |
| Program.LosslessPart | src/main.cpp:2567-2594 | a file whose data ends early shows the same first MCUs, for every number of MCUs that the original lasts for, when the header to be written defines its frame |
| Program.RewrittenStuffed | src/main.cpp:2227-2264 | in a rewritten file without restarts every 0xFF of the scan is followed by 0 |
| Example.PlainMeetsAll | src/main.cpp:2567-2594 | a concrete file and tables meet every hypothesis of Lossless and Transcode |
| Pictures.PictureShown | src/main.cpp:517-560 | the file that the standard prescribes for a picture (any size, factors of 1 and 2, restart interval, tables that fit, and coefficients it can code) decodes to that picture |
| Pictures.PictureSurvives | src/main.cpp:2567-2594 | and without subsampling the file rewritten from it, with any fitting tables that list its symbols, is complete and decodes to that picture |
| Pictures.RunShown | src/main.cpp:798-859 | one such picture, with an AC coefficient behind a zero |
| Program.CountFile | src/main.cpp:517-560 | counts the tokens of a file's first scan, or stops exactly where the program exits, factors that make it exit included |
| Program.RewriteFile | src/main.cpp:2173-2269 | writes exactly the rewritten file |
| Program.Transcode | src/main.cpp:2567-2594 | the program exits exactly on files without segment structure or whose first component's factors do not have the bitwise or 1; otherwise every file is rewritten with tables built from all, and every complete one that defines its frame before its first DHT stays complete and shows its picture |

## Left out

- Program.Transcode: files on which the program reads or writes outside its arrays, and counts and symbol numbers beyond `SymbolsFit`, are excluded by preconditions; the bytes after a file in memory are arbitrary but at least one. It promises pictures by a condition on the input alone; `Program.Lossless` also covers a frame header that is declared too short and read partly from the new tables.
- CodeBooks.OneHuff.FindNewCode: does not say what a symbol without a code gets, because the program then reads uninitialised entries or exits; no symbol of a second pass is one (`Program.AllFound`).
- CodeBooks.OneHuff.Collect: starts its count at 0, while the program relies on fresh heap memory being zero.
- Decoders.Jdec.SeekRst: a search that runs off the buffer ends the scan as lost data, while the program reads on.
- Program.Modelled: excludes unsubsampled files whose scan header binds fewer than three components, because decoding them follows null table pointers.
- Program.CompleteExactly: for a file that passes restart markers and keeps its size but not its interval it gives neither direction; the output is then read across its markers or from elsewhere, where other data may decode to the same blocks (a flat picture does).
- Dht.WriteHuffmanTable: the segment layout for subsampled images is not modelled; its AC 1 segment omits the high length byte (src/main.cpp:2413-2420), so it cannot be parsed back.
- Program.LosslessPart: a file whose own restart markers are missing is not complete, and its MCUs are only covered up to the first missing marker; what follows is then read from a whole byte in the input and from the middle of one in the output.
- Program.Lossless: subsampled images are covered by `Transcoding.TranscodedScan` for any component list, not by the whole-file theorem, because src/main.cpp exits on them.
- BitWriter.Packer.FlushRestart: a padded 0xFF before a restart marker is not stuffed, as in the code; this decoder still lands on the marker, and the stuffing theorems exclude restarts.
- BitWriter.Packer.Finish: the program writes the last bytes through the handle of the closed input file (src/main.cpp:2240); they are modelled as appended to the output.
- Reading and writing files, paths, messages and `main`'s directory walk: files are byte sequences.
- `setjmp` and `longjmp`: running out of data is a result `ok == false` that ends the scan.
- Sizes of C strings and heap blocks: strings are sequences.
- The duplicate decoder code of the second pass (src/main.cpp:1584-1653) is the first pass's `Jdec.NextCode`.
- Bookkeeping in `Dir_Record` and the `RECORD` totals, which nothing reads.
- Quantisation tables, inverse transform and colour conversion, which the program never computes; a quantisation table behind the first DHT is lost like other late segments.
- The sibling programs in `jpglittlesrc/`, `recodejpg/` and `recodejpg2/`, except for the order of blocks in a 2x2 MCU.
- References/JPEGsnoop: third-party code.
