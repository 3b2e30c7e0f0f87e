# Verified model of an online judge's core

The judge reads requests and writes results as JSON, encrypts and hashes with its own AES-256, SHA-256 and
Base64, compares program output with expected output, rates contestants, keeps a table of live clients and
offers a command line. This project models those eight units in Dafny and proves what each is for.
`dafny verify dfyconfig.toml` checks everything.

| Unit | Files |
|---|---|
| JSON: values, printed text, parser | `JsonSpec.dfy`, `JsonSteps.dfy`, `JsonRoundTrip.dfy`, `JsonString.dfy`, `JsonLayout.dfy` |
| JSON: the language that is parsed, and RFC 8259 in it | `JsonGrammar.dfy`, `JsonReading.dfy`, `JsonLanguage.dfy` |
| JSON: the code over cursors, buffers and nodes | `JsonLiteral.dfy`, `JsonParser.dfy`, `JsonPrinter.dfy`, `JsonNodePrinter.dfy`, `JsonMinify.dfy`, `JsonFilter.dfy`, `JsonList.dfy`, `JsonTree.dfy` |
| AES-256 and its modes | `AesSpec.dfy`, `AesKeys.dfy`, `Aes.dfy`, `BlockModes.dfy`, `AesModes.dfy`, `AesKnown.dfy`, `ByteXor.dfy` |
| SHA-256 | `Sha256Spec.dfy`, `Sha256Block.dfy`, `Sha256.dfy`, `Sha256Known.dfy` |
| Elo rating | `EloSpec.dfy`, `Elo.dfy`, `EloResult.dfy` |
| Output checker | `Compare.dfy`, `CompareText.dfy` |
| Command matcher | `CliSpec.dfy`, `Cli.dfy`, `CliMeaning.dfy` |
| Neighbour table | `Ndp.dfy` |
| Base64 | `Base64.dfy` |
| A missing value | `Option.dfy` |

Each unit has a specification over plain values and the loops of the program over arrays, classes and
sequences. A method's contract equates its result, or the state it leaves, with the specification. The lemmas
then say what the specification is good for: round trips, inverses, invariants of every run. Tables, constants and
formulas of a specification are held against literals: the standard's tables, definitions and examples, or the effect
on every byte.

Conventions of the model:

- A char of a text is one byte. A C string is a sequence without NUL; a text to parse carries its NUL.
- JSON numbers that are printed are integers below 10^15, for which the format `%1.15g` writes plain decimals.
  `PrintInt` stands for sprintf, `Strtod` for strtod with exact results, and a node's double is a mantissa and a
  power of ten.
- The Elo engine computes over exact reals. The win probability is any function into (0,1) that rises with the
  first rating and falls with the second; the square root is any function whose square is its argument. qsort is
  any sorting permutation, because the comparators never call two entries equal.
- A parameter's own test in the command matcher, and the command that a match runs, are arbitrary functions.
- A copy whose source and target overlap moves the bytes. Allocation succeeds.

Where code and documentation disagree, the model follows the code:

- `cJSON_PrintPreallocated` advises five spare bytes (cJSON.h:148). The proof shows that the text and two bytes
  always do, one byte for a lone number.
- The parser takes every byte up to 32 for whitespace, where section 2 of RFC 8259 has four of them. It skips what
  the RFC skips exactly if no other control byte comes next (`JsonSteps.SkipIsRfc`, `JsonSteps.SkippedBytes`).
- The parser takes more than RFC 8259. What it takes is written down apart from it, byte by byte: a document is parsed
  to its end exactly if it has a derivation in `JsonGrammar.dfy`, numbers of at most 63 bytes, and arrays and objects
  nested at most 1000 deep (`JsonLanguage.TakenExactly`). The predicates `Accepted` and `Rfc` there show the liberties:
  whitespace, control bytes in strings, leading zeros, a point without digits on one side, and escapes without digits.
- A number of more than 63 bytes is cut off by the local buffer of parse_number, so that a text of RFC 8259 that has one
  is refused (`JsonLanguage.RfcDocument`). An escaped U+0000 ends the string that the caller sees
  (`JsonReading.StringKept`).
- A `\u` escape with a byte that is no digit is not refused but stands for the NUL, for every such escape
  (`JsonString.MalformedHexIsNul`); the code point taken is the one written exactly if all four bytes are digits
  (`JsonString.TakenIsWritten`).
- Minifying a minified text again can remove more. It changes nothing exactly if the first pass brings no slash in
  front of a slash or star (`JsonMinify.MinifyTwice`).
- `cJSON_Minify` reads on behind the NUL of a text exactly if a string or comment of it is not closed
  (`JsonMinify.MinifyInPlace`, `JsonMinify.MinifyClosed`); `JsonMinify.OpenTexts` has such texts.
- `cJSON_PrintBuffered` copies a byte that it does not own exactly if the first block is empty, there is no realloc hook
  and the first request of ensure with its NUL fits INT_MAX (`JsonNodePrinter.PrintBuffered`).
- `cJSON_ReplaceItemInArray` follows a null pointer exactly if the index is behind the last item and the new item is
  not null (`JsonList.ReplaceItemInArray`).
- The comments of `compare_zoj` speak of a loop over lines. After `find_next_nonspace` no cursor is on a line
  feed, so that loop has one turn.
- A typed `<cr>` is exempt from filtering (cli_core.cpp:632), so that it stands for any element in the middle of
  a command. A match accepts every word at its place exactly if no word is empty and no `<cr>` is typed in front of
  the last one, unless every element takes one (`CliSpec.MatchesExactlyWhen`).
- The base64 decoder keeps its count of pads from one group to the next: two encodings in one text decode to both
  byte strings exactly if the first has no pads or the second holds a byte at most (`Base64.DecodeTwoEncodings`).
  It ignores an unfinished last group (`Base64.UnfinishedGroup`).

## Model

| member | source | states |
|---|---|---|
| JsonRoundTrip.RoundTrip | code/thirdpart32/cjson/cJSON.cpp:929-1008 | parsing the print of any tree, formatted or not, with or without the demand for the end, gives the tree and stops at the NUL if arrays and objects nest at most 1000 deep, and fails otherwise |
| JsonRoundTrip.ParsePrint | code/thirdpart32/cjson/cJSON.cpp:1140-1271 | at any open depth, in front of any text that cannot continue a number, the printed value is read back and the rest is left; it fails exactly when its nesting goes beyond the limit |
| JsonRoundTrip.ParsePrintItems | code/thirdpart32/cjson/cJSON.cpp:1274-1427 | the printed items of an array with their commas are read back by the loop of the array parser |
| JsonRoundTrip.ParsePrintMembers | code/thirdpart32/cjson/cJSON.cpp:1430-1650 | the printed members of an object, with indentation, colons, commas and line feeds, are read back by the loop of the object parser |
| JsonRoundTrip.ParseQuote | code/thirdpart32/cjson/cJSON.cpp:643-891 | the quoted and escaped form of every C string is read back as that string |
| JsonRoundTrip.ParseInt | code/thirdpart32/cjson/cJSON.cpp:219-293 | the digits of every integer below 10^15 fit the local buffer and are read back as the integer |
| JsonReading.ReadDocument | code/thirdpart32/cjson/cJSON.cpp:929-1008 | every text of the grammar, whitespace around it included, is parsed with its value and up to its NUL exactly if its numbers have at most 63 bytes and it nests at most 1000 deep; otherwise it is refused, or, if the end is not demanded, a lone number is read in part |
| JsonReading.ReadText | code/thirdpart32/cjson/cJSON.cpp:1140-1193 | the same at any open depth and in front of any text that cannot continue a number |
| JsonReading.ReadItems | code/thirdpart32/cjson/cJSON.cpp:1306-1349 | items with any whitespace around them and commas between them are read as the sequence of their values, or refused |
| JsonReading.ReadEntries | code/thirdpart32/cjson/cJSON.cpp:1463-1522 | members with any whitespace around name, colon, value and comma are read as the sequence of names and values, or refused |
| JsonReading.ReadString | code/thirdpart32/cjson/cJSON.cpp:643-769 | a string of plain bytes, the eight letters of section 7 of RFC 8259 behind a backslash, and escapes of any scalar value in either case is read as its UTF-8 form up to the first NUL; from an escape without digits on it only has to be closed and decodable |
| JsonReading.StringKept | code/thirdpart32/cjson/cJSON.cpp:643-769 | that is the whole string exactly if it has no escaped U+0000 |
| JsonReading.ReadNumber | code/thirdpart32/cjson/cJSON.cpp:219-293 | a number with sign, fraction and exponent, leading zeros and a bare point included, is read as its value exactly if it has at most 63 bytes; of a longer one numeric bytes are left |
| JsonReading.OneValue | code/thirdpart32/cjson/cJSON.cpp:929-1008 | a text has one value, however it is derived from the grammar |
| JsonReading.LettersAgree | code/thirdpart32/cjson/cJSON.cpp:704-731 | the letters that the second pass takes, and their bytes, are the eight of section 7 of RFC 8259 |
| JsonReading.HexAgrees | code/thirdpart32/cjson/cJSON.cpp:485-518 | what parse_hex4 makes of any four bytes, in terms of a table of all digits: their number, or 0 if one is no digit |
| JsonReading.NumericBytes | code/thirdpart32/cjson/cJSON.cpp:235-259 | the bytes that are copied as part of a number: ten digits, two signs, two marks and the point |
| JsonReading.Utf8Examples | code/thirdpart32/cjson/cJSON.cpp:581-634 | instances: the bytes of a code point from each of the four ranges |
| JsonReading.SlashDocument | code/thirdpart32/cjson/cJSON.cpp:929-1008 | an instance: an object whose value has an escaped slash |
| JsonLanguage.TakenExactly | code/thirdpart32/cjson/cJSON.cpp:929-1008 | for every C string: it is parsed to its end exactly if it is a text of the grammar whose numbers have at most 63 bytes and that nests at most 1000 deep |
| JsonLanguage.OnlyDocument | code/thirdpart32/cjson/cJSON.cpp:929-1008 | a document that is parsed to its end has such a derivation, with the value that was read |
| JsonLanguage.OnlyValue | code/thirdpart32/cjson/cJSON.cpp:1140-1193 | whatever is read as a value, at any depth and in front of anything, is a text of the grammar with that value |
| JsonLanguage.OnlyString | code/thirdpart32/cjson/cJSON.cpp:643-769 | whatever is read as a string is characters and a tail of the grammar, although the two passes can disagree |
| JsonLanguage.OnlyNumber | code/thirdpart32/cjson/cJSON.cpp:219-293 | whatever is read as a number is a numeral of the grammar of at most 63 bytes, with its value |
| JsonLanguage.RfcDocument | code/thirdpart32/cjson/cJSON.cpp:929-1008 | every text of RFC 8259 is in the grammar: it is parsed with its value exactly if it is of that size, and refused otherwise |
| JsonString.OutputFits | code/thirdpart32/cjson/cJSON.cpp:653-688 | a decoded literal is no longer than its body less the backslashes of the first pass, although both passes can disagree about where escapes start |
| JsonString.DecodeFits | code/thirdpart32/cjson/cJSON.cpp:691-747 | from any point of the second pass, in phase with the first pass or not, what is still written fits what the first pass left room for |
| JsonString.EncodeIsUtf8 | code/thirdpart32/cjson/cJSON.cpp:581-634 | the bytes emitted for a code point are those of section 3 of RFC 3629, for each of its four ranges |
| JsonString.Utf8Unique | code/thirdpart32/cjson/cJSON.cpp:581-634 | there is only one UTF-8 form of a code point |
| JsonString.MaskArithmetic | code/thirdpart32/cjson/cJSON.cpp:617-634 | for every 32-bit value the masks and shifts of the encoder are sums, remainders and quotients |
| JsonString.SurrogateBits | code/thirdpart32/cjson/cJSON.cpp:576 | shifting and or-ing two surrogates adds up their ten-bit halves |
| JsonString.LiteralDecodes | code/thirdpart32/cjson/cJSON.cpp:522-640 | one escape of a scalar value below 0x10000, hexadecimal digits in either case, decodes to its UTF-8 bytes whatever follows |
| JsonString.PairDecodes | code/thirdpart32/cjson/cJSON.cpp:547-576 | two escapes with the surrogates of a scalar value from 0x10000 on decode to its UTF-8 bytes |
| JsonString.EscapedTextDecodes | code/thirdpart32/cjson/cJSON.cpp:522-640 | a literal made of escapes of any scalar values decodes to exactly the UTF-8 form of that text |
| JsonString.LoneSurrogateFails | code/thirdpart32/cjson/cJSON.cpp:541-570 | a low surrogate, or a high one that no escape follows, is refused |
| JsonString.HexEscapeDecodes | code/thirdpart32/cjson/cJSON.cpp:485-640 | every escape that is not taken for a surrogate decodes to the UTF-8 bytes of what parse_hex4 makes of it, digits or not |
| JsonString.MalformedHexIsNul | code/thirdpart32/cjson/cJSON.cpp:506-509 | every escape with a byte that is no digit decodes to a NUL in front of the rest, is refused only if the rest is, and ends the C string |
| JsonString.ParseHex4Exact | code/thirdpart32/cjson/cJSON.cpp:485-518 | parse_hex4 gives the number written exactly if four digits are written, otherwise 0 |
| JsonString.TakenIsWritten | code/thirdpart32/cjson/cJSON.cpp:485-518 | the code point taken is the one written exactly if all four bytes are digits |
| JsonSteps.SkipIsRfc | code/thirdpart32/cjson/cJSON.cpp:908-926 | for every text: what is skipped is the whitespace of RFC 8259 exactly if no other control byte follows it |
| JsonSteps.SkippedBytes | code/thirdpart32/cjson/cJSON.cpp:915-918 | the bytes skipped are 1 to 32; those beyond the RFC are 1 to 8, 11, 12 and 14 to 31 |
| JsonLiteral.EncodeByShifts | code/thirdpart32/cjson/cJSON.cpp:617-634 | the UTF-8 bytes are the code point's shifts by six, taken last byte first |
| JsonLiteral.WriteUtf8 | code/thirdpart32/cjson/cJSON.cpp:617-634 | the backward loop stores exactly the UTF-8 bytes behind what the output holds |
| JsonLiteral.MaskedTail | code/thirdpart32/cjson/cJSON.cpp:618-623 | the masks that store a continuation byte give 0x80 and the lowest six bits |
| JsonLiteral.MaskedFirst | code/thirdpart32/cjson/cJSON.cpp:624-632 | the masks that store the first byte give its mark and the bits that are left, for each length |
| JsonLiteral.ParseHex4At | code/thirdpart32/cjson/cJSON.cpp:485-518 | the loop with shifts computes the value of four hexadecimal digits, 0 if one is none |
| JsonLiteral.Utf16LiteralToUtf8 | code/thirdpart32/cjson/cJSON.cpp:522-640 | sequence length 0 exactly for a malformed literal, otherwise 6 or 12 and the bytes in the output |
| JsonLiteral.FindEnd | code/thirdpart32/cjson/cJSON.cpp:657-681 | finds the closing quote that escapes do not hide, or none, and counts the escapes |
| JsonLiteral.DecodeStep | code/thirdpart32/cjson/cJSON.cpp:693-747 | every turn keeps decoded output and remaining body together, and the bound on the bytes still to come |
| JsonLiteral.DecodeBody | code/thirdpart32/cjson/cJSON.cpp:690-747 | the second pass never writes past the room of the first pass, for malformed literals too, and yields the decoded bytes |
| JsonLiteral.ReadString | code/thirdpart32/cjson/cJSON.cpp:643-769 | with the allocation as the code computes it, the literal is read as specified, its NUL included |
| JsonParser.CopyNumber | code/thirdpart32/cjson/cJSON.cpp:235-264 | copies the longest run of numeric bytes, at most 63 of them, and a NUL behind it |
| JsonParser.ParseBuffer.SkipWhitespace | code/thirdpart32/cjson/cJSON.cpp:908-926 | skips to the next byte above 32, or back onto the last byte of the text |
| JsonParser.ParseBuffer.ReadNumber | code/thirdpart32/cjson/cJSON.cpp:219-293 | reads the number that the text starts with and moves behind it, or fails |
| JsonParser.ParseBuffer.ReadValue | code/thirdpart32/cjson/cJSON.cpp:1140-1193 | terminates on every text; result, new cursor and depth are those of the grammar |
| JsonParser.ParseBuffer.ReadArray | code/thirdpart32/cjson/cJSON.cpp:1274-1365 | an array is read as the grammar says, and refused if 1000 arrays and objects are open |
| JsonParser.ParseBuffer.ReadItems | code/thirdpart32/cjson/cJSON.cpp:1306-1349 | the loop over items reads the same sequence as the recursive grammar |
| JsonParser.ParseBuffer.ReadMember | code/thirdpart32/cjson/cJSON.cpp:1485-1515 | name, colon and value of one member, with whitespace between them |
| JsonParser.ParseBuffer.ReadMembers | code/thirdpart32/cjson/cJSON.cpp:1463-1522 | the loop over members reads the same sequence as the recursive grammar |
| JsonParser.ParseBuffer.ReadObject | code/thirdpart32/cjson/cJSON.cpp:1430-1536 | an object is read as the grammar says, and refused if 1000 arrays and objects are open |
| JsonParser.ParseWithOpts | code/thirdpart32/cjson/cJSON.cpp:929-1008 | the tree, or failure, and where the parse ended, for every C string |
| JsonPrinter.EscapeLength | code/thirdpart32/cjson/cJSON.cpp:801-825 | the count of escape characters predicts the length of the escaped string exactly; without any it is the string itself |
| JsonLayout.EscapeTable | code/thirdpart32/cjson/cJSON.cpp:833-888 | how each byte is written: seven with a letter, other control bytes as four lower-case digits, every other byte as it stands |
| JsonLayout.NumberIs | code/thirdpart32/cjson/cJSON.cpp:419-482 | the decimal digits of the number without a leading zero, behind a minus if it is negative |
| JsonLayout.ArrayIs | code/thirdpart32/cjson/cJSON.cpp:1368-1427 | items joined by a comma, and a blank if formatted, between brackets |
| JsonLayout.ObjectIs | code/thirdpart32/cjson/cJSON.cpp:1539-1650 | members joined by commas between braces; formatted, one a line, with as many tabs as objects and arrays are open, and a tab behind the colon |
| JsonPrinter.PrintBuffer.Ensure | code/thirdpart32/cjson/cJSON.cpp:326-403 | room is granted exactly if the text and its NUL fit the largest capacity; the buffer grows to twice the size that is needed, or to INT_MAX; reallocation, by hook or by hand, keeps all earlier text |
| JsonPrinter.PrintBuffer.UpdateOffset | code/thirdpart32/cjson/cJSON.cpp:406-416 | moves from anywhere inside the text just printed to its end |
| JsonPrinter.PrintBuffer.PrintNumber | code/thirdpart32/cjson/cJSON.cpp:419-482 | appends the digits and a NUL, if and only if they fit |
| JsonPrinter.PrintBuffer.PrintString | code/thirdpart32/cjson/cJSON.cpp:772-891 | appends the quoted string and a NUL, if and only if they fit with one byte to spare |
| JsonPrinter.StoreQuoted | code/thirdpart32/cjson/cJSON.cpp:833-888 | both ways of writing a literal store exactly its quoted form inside the granted bytes |
| JsonNodePrinter.PrintArray | code/thirdpart32/cjson/cJSON.cpp:1368-1427 | from the node of an array the buffer gets the array's text behind the earlier one; it succeeds if and only if that fits |
| JsonNodePrinter.PrintElements | code/thirdpart32/cjson/cJSON.cpp:1391-1415 | the walk along the chain of children, through their next links, appends the items with their commas |
| JsonNodePrinter.PrintObject | code/thirdpart32/cjson/cJSON.cpp:1539-1650 | from the node of an object the buffer gets the object's text, indented to the depth; it succeeds if and only if that fits |
| JsonNodePrinter.PrintEntries | code/thirdpart32/cjson/cJSON.cpp:1566-1630 | the walk along the chain of members appends their lines |
| JsonNodePrinter.PrintValue | code/thirdpart32/cjson/cJSON.cpp:1196-1271 | for every tree of nodes that holds a value: the growing buffer refines the pure printer, success if and only if the text fits, then earlier text, text and NUL, and the depth as before |
| JsonNodePrinter.PrintText | code/thirdpart32/cjson/cJSON.cpp:1018-1089 | cJSON_Print and cJSON_PrintUnformatted of a tree of nodes return a new block with exactly the pure text, or nothing if it cannot fit or the tree is null |
| JsonNodePrinter.FirstRequests | code/thirdpart32/cjson/cJSON.cpp:1196-1271 | how many bytes the first call of ensure asks for, for each kind of value |
| JsonNodePrinter.PrintBuffered | code/thirdpart32/cjson/cJSON.cpp:1091-1118 | the same for a first block of the caller's size; a negative size gives nothing; a foreign byte is copied exactly for an empty block, without a realloc hook, if the first request fits |
| JsonNodePrinter.EmptyBlockStrays | code/thirdpart32/cjson/cJSON.cpp:380-399 | instances: printing null or an empty array into an empty block meets the condition, with a result |
| JsonNodePrinter.PrintPreallocated | code/thirdpart32/cjson/cJSON.cpp:1120-1137 | succeeds if and only if the text and two bytes (one for a number) fit the caller's buffer, and never writes outside it |
| JsonMinify.MinifyPrint | code/thirdpart32/cjson/cJSON.cpp:2339-2401 | minifying the print of any tree, formatted or not, gives its unformatted print |
| JsonMinify.PrintBecomes | code/thirdpart32/cjson/cJSON.cpp:2339-2401 | the same at any depth and in front of any text |
| JsonMinify.MinifyQuote | code/thirdpart32/cjson/cJSON.cpp:2379-2391 | a quoted string stays byte for byte, blanks and slashes in it too |
| JsonMinify.MinifyTwice | code/thirdpart32/cjson/cJSON.cpp:2339-2401 | for every closed text a second pass changes nothing exactly if no kept slash is followed, behind blanks and comments, by a kept slash or star |
| JsonMinify.MinifyTwiceDiffers | code/thirdpart32/cjson/cJSON.cpp:2344-2371 | an instance where it does change something |
| JsonMinify.MinifyClosed | code/thirdpart32/cjson/cJSON.cpp:2344-2391 | a text has a minified form exactly if a byte-by-byte scan finds all its strings and comments closed |
| JsonFilter.MinifyFilters | code/thirdpart32/cjson/cJSON.cpp:2339-2401 | for every closed text: what is left is what a byte-by-byte filter keeps, that tells strings, comments and the rest apart and holds back a slash until the next byte |
| JsonMinify.OpenTexts | code/thirdpart32/cjson/cJSON.cpp:2369-2391 | instances left open: a comment, a quote, and a string that ends with a backslash |
| JsonMinify.MinifyInPlace | code/thirdpart32/cjson/cJSON.cpp:2339-2401 | for every C string: the cursor stays inside the text exactly if its strings and comments are closed, then the block holds the minified text and a NUL; what lies behind the old NUL is untouched in any case |
| JsonMinify.MinifyStep | code/thirdpart32/cjson/cJSON.cpp:2344-2396 | each turn keeps written and unread text together, and the write cursor never passes the read cursor |
| JsonMinify.SkipComment | code/thirdpart32/cjson/cJSON.cpp:2369-2377 | ends behind the comment, or on the NUL exactly if the comment does not close |
| JsonMinify.CopyLiteral | code/thirdpart32/cjson/cJSON.cpp:2378-2391 | copies a string byte for byte and stays inside the text exactly if it closes |
| JsonList.AddItemToArray | code/thirdpart32/cjson/cJSON.cpp:1763-1788 | appends to the child sequence and keeps a chain with null before its head and behind its tail; besides the first child only next and prev fields change |
| JsonList.GetArrayItem | code/thirdpart32/cjson/cJSON.cpp:1668-1685 | the child at an index, null behind the last |
| JsonList.ChildrenMeans | code/thirdpart32/cjson/cJSON.cpp:1785-1862 | what a list of children is on the heap: each points to the next one and back, the ends to nothing, and no node stands twice |
| JsonList.DetachItemViaPointer | code/thirdpart32/cjson/cJSON.cpp:1834-1862 | removes the child from the sequence, keeps the chain and clears the node's links, touching nothing but links |
| JsonList.DetachItemFromArray | code/thirdpart32/cjson/cJSON.cpp:1864-1872 | the same by index; nothing happens for an index without child |
| JsonList.InsertItemInArray | code/thirdpart32/cjson/cJSON.cpp:1904-1931 | inserts in front of the child at the index, appends behind the last, does nothing for a negative index, touching nothing but links |
| JsonList.ReplaceItemViaPointer | code/thirdpart32/cjson/cJSON.cpp:1933-1966 | puts the replacement in the child's place in the sequence and cuts the old node off, touching nothing but links |
| JsonList.ReplaceItemInArray | code/thirdpart32/cjson/cJSON.cpp:1968-1976 | at an index the replacement takes the place of the child; a negative index or a null replacement changes nothing; it faults exactly for an index behind the last child and a replacement that is not null |
| JsonList.InsertThenDetach | code/thirdpart32/cjson/cJSON.cpp:1834-1931 | inserting a node and detaching it again leaves every link of the list as it was |
| JsonList.DetachThenInsert | code/thirdpart32/cjson/cJSON.cpp:1834-1931 | so does detaching a child and inserting it at the same index |
| JsonList.SplicedLinked | code/thirdpart32/cjson/cJSON.cpp:1920-1930 | the four pointer changes of an insertion leave a well-formed chain |
| JsonList.BypassedLinked | code/thirdpart32/cjson/cJSON.cpp:1841-1856 | neighbours that point past a node leave a well-formed chain |
| JsonList.LinkCopy | code/thirdpart32/cjson/cJSON.cpp:2304-2326 | linking one more copied child keeps the copy a tree without shared nodes |
| JsonList.Duplicate | code/thirdpart32/cjson/cJSON.cpp:2260-2337 | the copy is a well-formed tree of new nodes only with the data of the original; without recursion a single node |
| JsonList.CopyMeans | code/thirdpart32/cjson/cJSON.cpp:2278-2297 | which fields a copy shares with its original, node by node |
| JsonList.CopyIsPlain | code/thirdpart32/cjson/cJSON.cpp:2278 | a copy has no reference marks at any level: copying it again changes nothing |
| JsonTree.HoldsOne | code/thirdpart32/cjson/cJSON.h:53-73 | a tree of nodes holds one JSON value at most |
| JsonTree.TypeBits | code/thirdpart32/cjson/cJSON.h:40-47 | the type bits of each kind of value |
| JsonTree.CopyHolds | code/thirdpart32/cjson/cJSON.cpp:2260-2337 | a copy holds exactly the values that the original holds |
| JsonTree.AppendTree | code/thirdpart32/cjson/cJSON.cpp:1763-1788 | on trees: the list stays a tree with the new subtree last, and the value of an array or object gets the new item or member last |
| JsonTree.InsertTree | code/thirdpart32/cjson/cJSON.cpp:1904-1931 | on trees: the list stays a tree with the new subtree in its place, and the value of an array or object changes alike |
| JsonTree.DetachTree | code/thirdpart32/cjson/cJSON.cpp:1834-1862 | on trees: list and detached subtree stay trees that share no node; the value of the array or object loses the item, which the subtree still holds |
| JsonTree.ReplaceTree | code/thirdpart32/cjson/cJSON.cpp:1933-1966 | on trees: the list stays a tree with the subtree replaced, the old one apart from it, and so is the item or member in the value |
| AesSpec.SBoxInverse | code/thirdpart32/crypt/aes256.cpp:76-112 | the inverse table undoes the substitution table |
| AesSpec.RSBoxInverse | code/thirdpart32/crypt/aes256.cpp:76-112 | and the other way round |
| AesSpec.SBoxIsAffineOfInverse | code/thirdpart32/crypt/aes256.cpp:76-93 | every table entry is the affine image of the inverse in GF(2^8), section 5.1.1 of FIPS 197 |
| AesSpec.MixColumnsInverse | code/thirdpart32/crypt/aes256.cpp:302-356 | the inverse matrix undoes the column mixing in GF(2^8), in both orders |
| AesSpec.ShiftRowsInverse | code/thirdpart32/crypt/aes256.cpp:268-399 | shifting rows right undoes shifting them left, in both orders |
| AesSpec.RoundsInverse | code/thirdpart32/crypt/aes256.cpp:403-451 | any number of rounds is undone by as many inverse rounds |
| AesSpec.CipherInverse | code/thirdpart32/crypt/aes256.cpp:403-451 | InvCipher undoes Cipher for every state and every array of round keys |
| AesSpec.InvCipherInverse | code/thirdpart32/crypt/aes256.cpp:403-451 | Cipher undoes InvCipher: the cipher is a permutation |
| Aes.AddRoundKey | code/thirdpart32/crypt/aes256.cpp:239-249 | byte k of the state is xored in place with byte 16 * round + k of the round keys, and nothing else changes; that is the round's key added to the state |
| AesKeys.KeyExpansion | code/thirdpart32/crypt/aes256.cpp:148-219 | in place, the 60 words of the key expansion of section 5.2 of FIPS 197 for a key of eight words |
| AesKeys.RconPowers | code/thirdpart32/crypt/aes256.cpp:115-116 | each round constant is x times the one before in GF(2^8) |
| Aes.SubBytes | code/thirdpart32/crypt/aes256.cpp:253-263 | substitutes all sixteen bytes in place |
| Aes.InvSubBytes | code/thirdpart32/crypt/aes256.cpp:361-371 | substitutes back all sixteen bytes in place |
| Aes.ShiftRows | code/thirdpart32/crypt/aes256.cpp:268-294 | the swaps rotate row r left by r |
| Aes.InvShiftRows | code/thirdpart32/crypt/aes256.cpp:373-399 | the swaps rotate row r right by r |
| Aes.MixByte | code/thirdpart32/crypt/aes256.cpp:302-315 | the code's sums with xtime are a row of the FIPS matrix product |
| Aes.MultiplyIsGfMul | code/thirdpart32/crypt/aes256.cpp:328-333 | the unrolled product is the product in GF(2^8) for the factors in use |
| Aes.MixColumns | code/thirdpart32/crypt/aes256.cpp:302-315 | the in-place column loop is the matrix product of section 5.1.3 of FIPS 197 |
| Aes.InvMixColumns | code/thirdpart32/crypt/aes256.cpp:340-356 | the in-place column loop is the matrix product of section 5.3.3 of FIPS 197 |
| Aes.Cipher | code/thirdpart32/crypt/aes256.cpp:403-426 | fourteen rounds in place are the cipher of section 5.1 of FIPS 197 |
| Aes.InvCipher | code/thirdpart32/crypt/aes256.cpp:428-451 | fourteen rounds in place are the inverse cipher of section 5.3 of FIPS 197 |
| AesModes.AesCtx.CipherAt | code/thirdpart32/crypt/aes256.cpp:460-464 | ECB encryption of the sixteen bytes at an offset, the rest untouched |
| AesModes.AesCtx.InvCipherAt | code/thirdpart32/crypt/aes256.cpp:466-470 | ECB decryption of the sixteen bytes at an offset, the rest untouched |
| AesModes.DecryptEncrypt | code/thirdpart32/crypt/aes256.cpp:460-470 | on blocks of bytes decryption and encryption undo each other |
| AesKnown.ExampleBlock | code/thirdpart32/crypt/aes256.cpp:148-451 | the example of appendix C.3 of FIPS 197: key, block and cipher text, through key expansion and all rounds, and back |
| AesModes.AesCtx.constructor | code/thirdpart32/crypt/aes256.cpp:226-230 | a context holds the expanded key and the vector |
| AesModes.AesCtx.SetIv | code/thirdpart32/crypt/aes256.cpp:231-234 | replaces the vector |
| BlockModes.CbcInverse | code/thirdpart32/crypt/aes256.cpp:491-520 | CBC decryption restores every buffer of whole blocks, for any pair of inverse block functions |
| AesModes.CbcRestores | code/thirdpart32/crypt/aes256.cpp:491-520 | the same for AES with any round keys and initial vector |
| BlockModes.CbcEncryptedBlock | code/thirdpart32/crypt/aes256.cpp:491-505 | block j of the result is the cipher of block j, xored byte by byte with the block of the result in front or the vector |
| BlockModes.CbcDecryptedBlock | code/thirdpart32/crypt/aes256.cpp:507-520 | block j of the result is the inverse cipher of block j, xored byte by byte with the block in front or the vector |
| BlockModes.CbcEncryptSplit | code/thirdpart32/crypt/aes256.cpp:491-505 | encrypting in two calls at a block boundary gives the same bytes as in one |
| BlockModes.CbcDecryptSplit | code/thirdpart32/crypt/aes256.cpp:507-520 | decrypting in two calls at a block boundary gives the same bytes as in one |
| BlockModes.NextIvSplit | code/thirdpart32/crypt/aes256.cpp:503-504 | and the same final vector |
| BlockModes.CbcEncryptPieces | code/thirdpart32/crypt/aes256.cpp:491-505 | however whole blocks are cut into calls on one context, any number of them, the joined bytes are those of one call |
| BlockModes.CbcDecryptPieces | code/thirdpart32/crypt/aes256.cpp:507-520 | the same for decryption |
| AesModes.AesCtx.CbcEncryptBuffer | code/thirdpart32/crypt/aes256.cpp:491-505 | in place, the buffer becomes its CBC encryption and the stored vector its last block |
| AesModes.AesCtx.CbcDecryptBuffer | code/thirdpart32/crypt/aes256.cpp:507-520 | in place, the buffer becomes its CBC decryption and the stored vector the last encrypted block |
| AesModes.AesCtx.CbcEncryptBuffers | code/thirdpart32/crypt/aes256.cpp:491-505 | one call for each of any number of buffers: together they hold the encryption of the joined contents, and the stored vector is the one of a single call |
| AesModes.AesCtx.CbcDecryptBuffers | code/thirdpart32/crypt/aes256.cpp:507-520 | the same for decryption |
| AesModes.AesCtx.IncrementIv | code/thirdpart32/crypt/aes256.cpp:542-553 | the carry loop is the increment of the counter |
| BlockModes.IncByValue | code/thirdpart32/crypt/aes256.cpp:542-553 | the counter after k increments is the big-endian number plus k modulo 2^128 |
| BlockModes.BeValueInjective | code/thirdpart32/crypt/aes256.cpp:542-553 | counters with the same number are the same bytes |
| BlockModes.CtrTwice | code/thirdpart32/crypt/aes256.cpp:528-559 | applying the mode twice from the same vector restores the data, whatever its length |
| BlockModes.CtrByte | code/thirdpart32/crypt/aes256.cpp:528-559 | byte i is xored with byte i mod 16 of the cipher of the block that writes, most significant byte first, the vector's number and i / 16 more, modulo 2^128 |
| BlockModes.CtrSplit | code/thirdpart32/crypt/aes256.cpp:528-559 | two calls split at a block boundary, the second from the advanced counter, equal one call |
| AesModes.AesCtx.CtrXcryptBuffer | code/thirdpart32/crypt/aes256.cpp:528-559 | byte i is xored with byte i mod 16 of the cipher of vector plus i/16; the stored vector advances by the blocks begun |
| Sha256Block.ChMaj | code/thirdpart32/crypt/sha256.cpp:93-106 | the code's forms of choice and majority are those of section 4.1.2 of FIPS 180-4 |
| Sha256Known.RoundConstants | code/thirdpart32/crypt/sha256.cpp:54-71 | each of the 64 constants is the first 32 places of the cube root of its prime, section 4.2.2 of FIPS 180-4 |
| Sha256Known.InitialRegisters | code/thirdpart32/crypt/sha256.cpp:132-140 | each initial register is the first 32 places of the square root of its prime, section 5.3.3 |
| Sha256Known.DigestOfAbc | code/thirdpart32/crypt/sha256.cpp:93-183 | the digest of the three bytes abc, through padding, schedule and all rounds |
| Sha256Block.RoundStep | code/thirdpart32/crypt/sha256.cpp:93-106 | one step on the rotating register file is one round on eight named variables |
| Sha256Block.WindowStep | code/thirdpart32/crypt/sha256.cpp:93-106 | the circular window of sixteen words always holds the last sixteen of the 64-word schedule |
| Sha256Block.Rtrf | code/thirdpart32/crypt/sha256.cpp:93-106 | the step in place: next schedule word, next registers, for any of the 64 rounds |
| Sha256.Sha256Context.HashBlock | code/thirdpart32/crypt/sha256.cpp:109-129 | for every block and chaining value, the compression function of section 6.2.2 of FIPS 180-4 |
| Sha256.SwapIsBigEndian | code/thirdpart32/crypt/sha256.cpp:74-78 | the byte swap reads the buffer's little-endian words as big-endian ones |
| Sha256.Sha256Context.constructor | code/thirdpart32/crypt/sha256.cpp:132-140 | a new context stands for the empty message |
| Sha256.Sha256Context.Hash | code/thirdpart32/crypt/sha256.cpp:143-157 | every call appends its bytes to the message that the context stands for, the 64-bit length carry included |
| Sha256Spec.HashBlocksSplit | code/thirdpart32/crypt/sha256.cpp:150-155 | chaining over blocks does not depend on where the blocks are split |
| Sha256Spec.PaddingLength | code/thirdpart32/crypt/sha256.cpp:165-176 | the padded message is whole blocks, one or two of them for the tail |
| Sha256Spec.PaddingBytes | code/thirdpart32/crypt/sha256.cpp:165-176 | one bit, zeros, and the two words of the length in the last eight bytes |
| Sha256Spec.LengthExact | code/thirdpart32/crypt/sha256.cpp:174-175 | below 2^61 bytes the length field is the number of bits |
| Sha256.Sha256Context.Done | code/thirdpart32/crypt/sha256.cpp:160-183 | writes the FIPS digest of everything hashed since init, through one or two last blocks |
| Sha256.DigestOfPieces | code/thirdpart32/crypt/sha256.cpp:132-183 | init, one call per piece, done: the digest of the joined pieces, however the message is cut |
| EloSpec.SeedOrder | code/judge/judge_elo.cpp:119-126 | the better rated of two contestants has the smaller expected place |
| EloResult.PlaceOfParts | code/judge/judge_elo.cpp:48-58 | the expected place is one and what each contestant adds to it |
| EloResult.SeedIsPlace | code/judge/judge_elo.cpp:119-126 | the seed is the expected place of a contestant's rating without the chance against itself |
| EloResult.SeedsAreFair | code/judge/judge_elo.cpp:118-126 | if the chances of two contestants against each other add up to one, the seeds of all add up to the places there are |
| EloSpec.NeedFromUnique | code/judge/judge_elo.cpp:60-75 | what the binary search stops at is the highest rating whose expected place is not better than the given one |
| EloSpec.RatedOrder | code/judge/judge_elo.cpp:128-132 | through seeds, geometric mean, search and truncating half: who ranks no worse and was rated higher stays ahead |
| EloResult.RatedIs | code/judge/judge_elo.cpp:128-132 | the first estimate is half the way to the needed rating, cut towards zero; that lies from 1 to 7999, and its expected place, but not that of the next rating, is no better than the geometric mean of place and seed |
| EloSpec.FirstTotal | code/judge/judge_elo.cpp:136-147 | after the first correction the total is negative, by less than two points per contestant |
| EloSpec.TopGroup | code/judge/judge_elo.cpp:149-160 | of any list: after the second correction the top group's total is below its size, or everyone lost exactly ten points |
| EloSpec.CorrectedTopGroup | code/judge/judge_elo.cpp:128-160 | the same of a run's corrected list |
| EloSpec.TotalBounds | code/judge/judge_elo.cpp:134-160 | all changes add up to strictly between -12 points per contestant and zero |
| EloSpec.RoundedRoot | code/judge/judge_elo.cpp:152 | the rounded root of n is k exactly for k(k-1) < n <= k(k+1) |
| EloSpec.TopGroupNotEmpty | code/judge/judge_elo.cpp:152 | the top group has at least one and at most all contestants, so the division is defined |
| EloSpec.CorrectedOrder | code/judge/judge_elo.cpp:93-160 | both corrections keep the order of every pair |
| EloSpec.ProcessKeeps | code/judge/judge_elo.cpp:114-168 | for every list: bounded total, the top group below its size or ten points off for everyone, new ratings at least 1, the first rating invariant for every pair, sorted by rank |
| EloResult.RunIs | code/judge/judge_elo.cpp:114-168 | everyone leaves a run with the first estimate and the same two corrections; the first takes the total t to between -2n and -n if t <= 0 and to between -n and 0 otherwise, the second is what the top group has gained on average, from none to ten points |
| EloResult.TopGroupSize | code/judge/judge_elo.cpp:152 | the top group is four times the rounded root, or everyone |
| EloResult.TwoContestants | code/judge/judge_elo.cpp:114-168 | an instance: of two contestants rated 1500 the winner goes to 1565, the other to 1433 |
| Elo.GetSeed | code/judge/judge_elo.cpp:48-58 | the loop sums the win probabilities against a rating |
| Elo.GetRatingByRank | code/judge/judge_elo.cpp:60-75 | the binary search over 1 to 8000 equals the search from the top down |
| Elo.Seeds | code/judge/judge_elo.cpp:118-126 | in place, everyone's seed and nothing else |
| Elo.Needs | code/judge/judge_elo.cpp:128-132 | in place, needed rating and first estimate, although earlier entries have changed already |
| Elo.ValidateDeltas | code/judge/judge_elo.cpp:93-112 | reports nothing exactly if no pair breaks the first, or the second, invariant |
| Elo.RatingProcess | code/judge/judge_elo.cpp:114-168 | the array ends as the specified list, and the check of the first rating invariant reports nothing |
| Compare.FindStep | code/judge/judge_util.cpp:36-91 | one turn decides the presentation of the gap or leaves that to what is still to be read, and takes at least one byte |
| Compare.FindNextNonspace | code/judge/judge_util.cpp:33-92 | terminates with both cursors at their next word or end, and turns the verdict to a presentation error exactly if the two gaps are not alike |
| Compare.CompareWord | code/judge/judge_util.cpp:121-141 | walks two words in step; whether the word sequences agree does not change |
| Compare.CompareStreams | code/judge/judge_util.cpp:111-157 | terminates; wrong answer exactly if the sequences of maximal runs without a space differ, otherwise accepted exactly if all gaps are alike, otherwise a presentation error |
| Compare.CompareFiles | code/judge/judge_util.cpp:98-165 | the same from two files; runtime error exactly if one does not open |
| Compare.StrippedAccepted | code/judge/judge_util.cpp:33-92 | texts that agree once blanks before line feeds and the end are gone are accepted |
| Compare.InsertedAccepted | code/judge/judge_util.cpp:33-92 | a copy with blanks put in before a line feed or the end is accepted |
| Compare.AcceptedExactly | code/judge/judge_util.cpp:33-157 | accepted exactly if the words agree and the two runs of spaces in front of each pair of words correspond |
| Compare.GapIsRuns | code/judge/judge_util.cpp:33-92 | two runs in front of words correspond exactly if they have as many line feeds and the same blanks behind the last one, or one has a line feed more, directly in front of its word and behind a line shorter than the other's blanks |
| Compare.EndsAlike | code/judge/judge_util.cpp:33-92 | behind the last words all spaces are alike |
| CompareText.VerdictOnTexts | code/judge/judge_util.cpp:33-157 | for all texts, put together from words, lines of blanks and what follows the last word: wrong answer exactly for different words; accepted exactly if each two gaps have as many line feeds and as many blanks behind the last, or one has a line feed more in place of blanks |
| CompareText.Pieces | code/judge/judge_util.cpp:33-157 | every text can be put together so |
| CompareText.TrailingByte | code/judge/judge_util.cpp:21-32 | each of the bytes 0, 9, 11, 12, 13 and 32 in front of a line feed or the end makes no difference |
| CompareText.OtherByte | code/judge/judge_util.cpp:21-32 | any byte but these and 10, put in anywhere, gives a wrong answer |
| CompareText.WordsAreSolid | code/judge/judge_util.cpp:33-157 | the words one behind the other are the text without these bytes |
| Compare.StripWords | code/judge/judge_util.cpp:33-92 | stripping keeps the words |
| Compare.VerdictSymmetric | code/judge/judge_util.cpp:33-157 | it does not matter which of the files is the expected one |
| Compare.InnerBlank | code/judge/judge_util.cpp:75-81 | a concrete pair with the same words and a presentation error |
| CliSpec.MatchesExactly | code/cli/cli_core.cpp:620-681 | where no word is empty and no carriage return is typed, a line matches exactly if each word is accepted at its place and no element is left |
| CliMeaning.MatchIs | code/cli/cli_core.cpp:620-681 | for every line and all words: what a match is, letter by letter, with the number of the global view and the text of the carriage return |
| CliSpec.MatchesExactlyWhen | code/cli/cli_core.cpp:620-681 | for all words: that is what a match is, for every line, exactly if no word is empty and no carriage return is typed in front of the last word, unless every element takes one |
| CliSpec.MatchesExactlyUnlessReturn | code/cli/cli_core.cpp:632-636 | with one element that takes no carriage return, exactly if none is typed |
| CliSpec.MatchListMember | code/cli/cli_core.cpp:977-1012 | the match list holds exactly the registered lines that match |
| CliMeaning.MatchListParts | code/cli/cli_core.cpp:977-1012 | the matches of two lists of lines, one behind the other, are those of each in turn |
| CliSpec.TypedReturnMatchesAnything | code/cli/cli_core.cpp:632-636 | an instance: two lines that differ where a carriage return was typed both match |
| CliSpec.ParentEarlier | code/cli/cli_view.cpp:53-118 | a view's parent stands earlier in depth-first order, even if ids repeat: climbing ends |
| CliMeaning.ParentIs | code/cli/cli_view.cpp:53-118 | the parent has the view as a son; 0 for the root and for an id that is in no view |
| CliMeaning.ResolvedAbove | code/cli/cli_core.cpp:1243-1306 | how many steps up the words are resolved: past views where they match none or several lines, and not beyond a view whose parent is none, the global or the user view |
| Cli.StrNICmp | code/util/util.cpp:68-83 | zero exactly if both strings, cut to a positive count, are equal up to case; any other count compares them whole |
| Cli.MatchName | code/cli/cli_core.cpp:659 | with the word's length as count: a prefix test without case |
| Cli.FilterCommand | code/cli/cli_core.cpp:620-681 | sets to null exactly the in-view entries that the word does not fit; succeeds if one is left |
| Cli.CountMatches | code/cli/cli_core.cpp:977-1012 | counts exactly the match list and keeps its last line |
| Cli.NothingFits | code/cli/cli_core.cpp:956-970 | if a pass leaves no candidate, no line matches |
| Cli.CollectArguments | code/cli/cli_core.cpp:1041-1064 | typed words for parameters, element names for keywords, nothing for the end |
| CliMeaning.ArgumentAt | code/cli/cli_core.cpp:1041-1064 | every element that is no end has its argument in order: the typed word for an integer, a text or an address, the element's name otherwise |
| Cli.Terminal.Execute | code/cli/cli_core.cpp:944-1071 | no match, full match or ambiguous exactly for 0, 1 or more matching lines; only a full match runs the command and can change the view |
| Cli.FindView | code/cli/cli_view.cpp:53-75 | the depth-first loop finds the first view with the id, and its parent |
| Cli.Terminal.Run | code/cli/cli_core.cpp:1243-1306 | terminates; runs the command in the nearest view, from the current one up to below the user view, that matches one line, otherwise restores the view |
| Ndp.TableIsHistory | code/ndp/ndp.cpp:149-229 | after every history no key is twice in the table, and looking up any key gives what the history says: present exactly if its last echo came after the last down or clear and fewer than 120 ticks followed, with age 120 less those ticks |
| Ndp.EchoedNeighbour | code/ndp/ndp.cpp:149-229 | after the latest echo of a key, with no down or clear behind it, a lookup gives its name and 120 less the ticks since, until there were 120 |
| Ndp.GoneNeighbour | code/ndp/ndp.cpp:187-216 | after a down or a clear without an echo behind it, or before any echo, a lookup gives nothing |
| Ndp.AddedKeeps | code/ndp/ndp.cpp:149-185 | an echo sets the key's entry to full age and touches no other |
| Ndp.DeletedKeeps | code/ndp/ndp.cpp:199-216 | a down removes the key's entry and touches no other |
| Ndp.AgedKeeps | code/ndp/ndp.cpp:218-229 | a tick takes one second from every entry and removes those without any left |
| Ndp.LookupAt | code/ndp/ndp.cpp:149-185 | without duplicates every entry of the list is the one its key looks up |
| Ndp.ExpectedNext | code/ndp/ndp.cpp:149-229 | how one more event changes what the history says |
| Ndp.NeighborTable.Add | code/ndp/ndp.cpp:149-185 | the list stays what its history makes it, after an echo |
| Ndp.NeighborTable.Del | code/ndp/ndp.cpp:199-216 | after a down |
| Ndp.NeighborTable.Age | code/ndp/ndp.cpp:218-229 | after a tick, although entries go while the loop runs |
| Ndp.NeighborTable.ClearAll | code/ndp/ndp.cpp:187-196 | after a clear |
| Ndp.NeighborTable.ProcessMsg | code/ndp/ndp.cpp:277-317 | a packet of 28 bytes counts as echo for type 1 and as down for type 2, any other as nothing |
| Base64.CodeMap | code/thirdpart32/crypt/base64.cpp:6-31 | the decoder's table undoes the encoder's |
| Base64.CodeTable | code/thirdpart32/crypt/base64.cpp:6-7 | the 64 characters in their order |
| Base64.MapTable | code/thirdpart32/crypt/base64.cpp:9-31 | what the table says of every byte: skipped, pad, invalid or its place in the alphabet |
| Base64.TestVectors | code/thirdpart32/crypt/base64.cpp:33-65 | the test vectors of section 10 of RFC 4648 |
| Base64.DecodedGroup | code/thirdpart32/crypt/base64.cpp:74-86 | any four characters of the alphabet and pads, canonical or not, give the bytes of their 24 bits, less one for each pad so far, but at least one |
| Base64.DecodesExactly | code/thirdpart32/crypt/base64.cpp:74-76 | a text decodes without complaint exactly if every byte is in the alphabet, a pad, a blank or a line break |
| Base64.EncodeLength | code/thirdpart32/crypt/base64.cpp:33-65 | 4*ceil(n/3) characters |
| Base64.ShiftsAndMasks | code/thirdpart32/crypt/base64.cpp:43-46 | for every byte the encoder's shifts and masks are quotients and remainders |
| Base64.Index1 | code/thirdpart32/crypt/base64.cpp:44 | the second index, computed with masks and shifts of two bytes, is the low bits of one and the high bits of the next |
| Base64.Index2 | code/thirdpart32/crypt/base64.cpp:45 | and so is the third index |
| Base64.GroupDigits | code/thirdpart32/crypt/base64.cpp:43-46 | these quotients and remainders are the four base-64 digits of the 24-bit group, section 4 of RFC 4648 |
| Base64.EncodeInto | code/thirdpart32/crypt/base64.cpp:33-65 | the buffer holds the encoding and a NUL; the length is returned |
| Base64.DecodeInto | code/thirdpart32/crypt/base64.cpp:67-91 | the buffer holds the decoded bytes and their number is returned, -1 exactly for an invalid character |
| Base64.DecodeSqueezed | code/thirdpart32/crypt/base64.cpp:74-76 | spaces and line breaks anywhere in any text do not change the result |
| Base64.DecodeEncode | code/thirdpart32/crypt/base64.cpp:33-91 | decoding the encoding of any bytes gives them back with their exact number |
| Base64.DecodeEncodeThen | code/thirdpart32/crypt/base64.cpp:67-91 | in front of any text an encoding decodes to its bytes and leaves its count of pads to that text |
| Base64.DecodeTwoEncodings | code/thirdpart32/crypt/base64.cpp:71-86 | two encodings in one text decode to both byte strings exactly if the first has no pads or the second holds a byte at most |
| Base64.UnfinishedGroup | code/thirdpart32/crypt/base64.cpp:87-90 | up to three characters behind an encoding are ignored, unless one is invalid |
| Base64.EncodeSolid | code/thirdpart32/crypt/base64.cpp:33-65 | an encoding has no spaces or line breaks of its own |
| Base64.RoundTrip | code/thirdpart32/crypt/base64.cpp:33-91 | the same for an encoding with spaces and line breaks put in anywhere |

## Left out

- AES with keys of 128 and 192 bits: the header selects 256.
- JSON Raw and reference items, numbers that are no integers when printed, the locale's decimal point, the rounding of strtod, the saturated integer copy of a number, error positions, cJSON_Compare.
- JSON allocation hooks beyond the choice between realloc and copying: allocation does not fail.
- JSON lists inside the parser: the parser returns sequences; the node links it sets are those of JsonList.
- JSON list operations by object key: they find a child and call the operations modelled here.
- JsonList.ReplaceItemViaPointer: freeing the replaced node is not modelled.
- JsonMinify.MinifyInPlace: what happens to a text that is not closed once the code reads behind its NUL.
- JsonList.ReplaceItemInArray: what follows once the code has followed the null pointer.
- JsonReading.ReadDocument: bytes from 128 on are taken as they stand in a string; the code does not ask whether they are UTF-8.
- Elo: rounding of doubles, the second rating invariant (it does not follow from monotonicity), overflow of int, reading and writing the database.
- Compare: text-mode translation of line ends, debug output, other locales: bytes from 128 on are no spaces.
- Cli: the tests of integer, string and address parameters, completion, the line editor and history, the position reported for a word that does not match, the limits of the argument and match arrays, notification messages.
- Ndp: sockets, byte order, timers, the fixed size of names, the display.
- Base64.DecodeInto: the capacity of the output is a demand on the caller; the code has no check.
- Threads, processes, sockets, FTP and Telnet, MySQL, scraping of other judges, consoles and test drivers.
