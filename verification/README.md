# Verification of the JSON, MQTT, Modbus and vehicle-counter cores

A Dafny model of four components of the repository, with proofs about every input, run or interleaving.
`dafny verify dfyconfig.toml` checks all of it.

**cJSON.** `JsonText` says what the printer writes and what the parser accepts, as functions on bytes; a third
outcome, `Outside`, stands for text on which the C code leaves the text or the int32 numbers. `JsonRoundTrip`,
`JsonUnicode`, `JsonMinify`, `JsonMinifyPrint` and `JsonMinifyMeaning` prove what holds of texts. `JsonTokens` and
`JsonGrammar` are a grammar that describes the parser exactly, form by form, `JsonErrors` the places where it fails,
`JsonComments` the minifier on forms with comments, and `JsonLayout` the print by its tokens. `Memory` and the
`JsonTree` modules are the nodes with their `next`, `prev` and `child` fields, the memory a tree owns, and the edits;
`JsonPrinter`, `JsonPrintTree`, `JsonScan`, `JsonParser`, `JsonDuplicate` and `JsonApi` are the C functions over nodes
and buffers, each proved to do what the functions on bytes say. Whatever reads a string or a tree asks that it is
live; `JsonTreeRun` runs edits with the detached items kept at hand.

**MQTT SDK.** `MqttLength`, `MqttPacket` and `Utf8Check` are the wire format. `MqttDispatch` and `MqttFraming` are the
receiving side, `MqttBuffer`, `MqttPack`, `MqttPackTopics`, `MqttPackConnect`, `MqttRetry`, `MqttGrow` and `MqttSend`
the sending side. `MqttAnswer` is a handler's answer from buffer to `writev_func`, `MqttDelivery` the way of any packed
packets through a buffer and a cut stream to their dispatch, and `MqttExchange` two endpoints with packets on their way
between them; `MqttReader` reads packets byte by byte, as the standard lays them out. Callbacks, `read_func` and
`writev_func` are parameters; the calls made and the bytes sent are recorded.

**Modbus.** `ModbusCrc` holds both tables, the table loop, the bit-serial CRC and the frame check; `ModbusBits` is
its arithmetic modulo the generator, and which pairs of changed bits it sees.

**Vehicle counter.** `VehicleCounter` holds the driver stamps with their handlers, the polling loop with its state
machine, the interleavings of the two as runs of a system, and the program as a machine that takes those runs.

## Where code and intent differ

The code is modelled as written. Where it does not always do what it is for, the members named here say exactly when
it does, and the intended form stands beside it where that helps.

- `Mqtt_ReadLength` gives up after three bytes (mqtt.c:127-130): `MqttLength.ReadsBackIff`.
- `Mqtt_CheckUtf8` tests `str` instead of `str+i` (mqtt.c:292): `Utf8Check.WalkAsWritten`, `WellFormedAsWritten`,
  `WalksPart`.
- `Mqtt_IsLegalUtf8` compares a plain `char` with 0x80 (mqtt.c:272), which no signed one exceeds:
  `Utf8Check.LegalIsUtf8Char`, `SignedWalkIsRightIff`, `SignednessParts`.
- `Mqtt_RecvPkt` moves as many bytes as were consumed instead of those left (mqtt.c:823-824): `MqttFraming.KeptIff`,
  `ShortTailsSuffice`, `CompactionParts`.
- `Mqtt_SendPkt` steps over the extent that holds the offset (mqtt.c:848-851, 870): `MqttSend.WrittenSendsIff`.
- `Mqtt_AppendLength` leaves `buffered_bytes` alone when the header grows (mqtt.c:167): `MqttGrow.AppendLength`.
- SUBSCRIBE and UNSUBSCRIBE are packed with flags 0 (mqtt.c:1378, 1484): `MqttPackTopics.PackSubscribe`.
- The clock call stands twice in the macros `timeradd` and `timercmp` (detec.c:38, 44), so it is read twice:
  `VehicleCounter.TimeoutIsOneSecond`, `ComparisonMisses`.
- `cJSON_AddItemToObject` frees the name of the item before it copies the one it is given (cJSON.c:521):
  `JsonTreeNames.AddItemToObject`, `MoveUnderOwnName`.
- `cJSON_Minify` steps over the terminator in a string that is never closed, which the parser accepts (cJSON.c:592):
  `JsonMinifyMeaning.OverrunsIff`, `OpenStringIsAccepted`.
- `cJSON_ReplaceItemInObject` leaks the name the item had (cJSON.c:535): `JsonTreeNames.ReplaceItemInObject`.
- A write-back wipes edges that came after the read (detec.c:71-90, dev.c:50-61): `VehicleCounter.WriteBackWipes`,
  `PassIsLost`.

## Model

| member | source | states |
|---|---|---|
| JsonRoundTrip.RoundTrip | iMX287Learn/mqtt/src/mqtt/sdk/cJSON.c:287-317 | parsing what was printed gives back the same value and stops exactly at its end: for every tree of null, false, true, int32, NUL-free strings, arrays and objects, in both layouts, at every depth, before any text that does not continue a number |
| JsonRoundTrip.StringRoundTrip | iMX287Learn/mqtt/src/mqtt/sdk/cJSON.c:155-248 | an escaped and quoted NUL-free string decodes to the same bytes, whatever follows |
| JsonRoundTrip.NumberRoundTrip | iMX287Learn/mqtt/src/mqtt/sdk/cJSON.c:96-138 | every int32 printed with %d reads back, -2147483648 included |
| JsonRoundTrip.ItemsRoundTrip | iMX287Learn/mqtt/src/mqtt/sdk/cJSON.c:320-403 | the same for the items of an array between their commas, blanks and closing bracket |
| JsonRoundTrip.MembersRoundTrip | iMX287Learn/mqtt/src/mqtt/sdk/cJSON.c:406-507 | the same for the members of an object with their names, tabs and newlines |
| JsonRoundTrip.PrintThenParse | iMX287Learn/mqtt/src/mqtt/sdk/cJSON.c:264-284 | cJSON_Parse of cJSON_Print or cJSON_PrintUnformatted is the printed tree, with or without the check for trailing text |
| JsonRoundTrip.PrintIsInjective | iMX287Learn/mqtt/src/mqtt/sdk/cJSON.c:283-317 | one printed text belongs to one tree, whichever layouts and depths it was printed with |
| JsonUnicode.EncodeThenDecode | iMX287Learn/mqtt/src/mqtt/sdk/cJSON.c:192-200 | the bytes written for a scalar value are the one UTF8-char (section 4 of RFC 3629) that stands for it |
| JsonUnicode.DecodeThenEncode | iMX287Learn/mqtt/src/mqtt/sdk/cJSON.c:192-200 | and every UTF8-char is what is written for its scalar value |
| JsonUnicode.SurrogateIsNoUtf8 | iMX287Learn/mqtt/src/mqtt/sdk/cJSON.c:182-190 | encoding a lone surrogate would not be UTF-8; the parser writes nothing for one |
| JsonUnicode.NumberReadsBack | iMX287Learn/mqtt/src/mqtt/sdk/cJSON.c:140-151 | every number below 65536, written with four hexadecimal digits in any choice of small and capital letters, reads as that number |
| JsonUnicode.UnescapePieces | iMX287Learn/mqtt/src/mqtt/sdk/cJSON.c:155-207 | a string of escapes and surrogate pairs (section 7 of RFC 8259), with digits of either case, decodes to the UTF-8 of the scalar values those digits write, in order |
| JsonUnicode.PiecesAreUtf8 | iMX287Learn/mqtt/src/mqtt/sdk/cJSON.c:179-201 | what is decoded splits into those UTF8-chars and holds no NUL |
| JsonUnicode.PiecesPassTheCheck | iMX287Learn/mqtt/src/mqtt/sdk/mqtt.c:219-304 | each decoded piece passes Mqtt_IsLegalUtf8, and the walk over the string, taken where it reads, accepts it whole |
| JsonMinify.MinifyInPlace | iMX287Learn/mqtt/src/mqtt/sdk/cJSON.c:581-596 | the loop turns its buffer into the minified text and a NUL and touches nothing behind; the write index never passes the read index |
| JsonMinify.CopyLiteral | iMX287Learn/mqtt/src/mqtt/sdk/cJSON.c:592 | a literal is moved down whole, escaped quotes included, and reading goes on behind its closing quote |
| JsonMinify.SkipLine | iMX287Learn/mqtt/src/mqtt/sdk/cJSON.c:590 | a // comment is skipped up to its newline or the end of text |
| JsonMinify.SkipBlock | iMX287Learn/mqtt/src/mqtt/sdk/cJSON.c:591 | a block comment is skipped up to the first star and slash behind its start |
| JsonMinifyPrint.MinifiedPrintIsUnformatted | iMX287Learn/mqtt/src/mqtt/sdk/cJSON.c:283-284 | minifying the formatted print gives byte for byte the unformatted print, and minifying that changes nothing |
| JsonMinifyMeaning.MinifyKeepsMeaning | iMX287Learn/mqtt/src/mqtt/sdk/cJSON.c:581-596 | every text the parser accepts as a whole, however laid out, is still accepted when minified, and for the same value, unless it is a string without a closing quote |
| JsonMinifyMeaning.OverrunsIff | iMX287Learn/mqtt/src/mqtt/sdk/cJSON.c:592 | on an accepted text the loop runs past the terminator iff the text is a string that is never closed |
| JsonMinifyMeaning.OpenStringIsAccepted | iMX287Learn/mqtt/src/mqtt/sdk/cJSON.c:166 | a quote and an a: accepted as a string, and run over by the minifier |
| JsonMinifyMeaning.MeaningOfValue | iMX287Learn/mqtt/src/mqtt/sdk/cJSON.c:287-299 | minifying acts value by value: what is left of one value reads as that value, and the rest is minified on its own |
| JsonTokens.ReadLiteral | iMX287Learn/mqtt/src/mqtt/sdk/cJSON.c:155-212 | a literal, character by character: raw bytes, a backslash and any letter but u, escapes of scalar values and pairs, and lost surrogates, decodes to what the characters mean |
| JsonTokens.LiteralOf | iMX287Learn/mqtt/src/mqtt/sdk/cJSON.c:155-212 | and whatever is decoded as a literal is such characters, closed by a quote or by the end of the text |
| JsonTokens.NumeralReads | iMX287Learn/mqtt/src/mqtt/sdk/cJSON.c:95-117 | a numeral reads as the number its digits weigh, whatever follows that cannot belong to it |
| JsonTokens.NumeralOf | iMX287Learn/mqtt/src/mqtt/sdk/cJSON.c:95-117 | and whatever is read as a number is such a numeral |
| JsonGrammar.Reads | iMX287Learn/mqtt/src/mqtt/sdk/cJSON.c:287-442 | the parser reads every form of a grammar, which covers that of RFC 8259 over int32 numbers with all its blanks and escapes, as what the form means |
| JsonGrammar.FormOf | iMX287Learn/mqtt/src/mqtt/sdk/cJSON.c:287-442 | and reads nothing else: a text that is read is such a form and then the rest |
| JsonGrammar.ParsesIff | iMX287Learn/mqtt/src/mqtt/sdk/cJSON.c:287-299 | parse_value answers with a value and a rest iff the text is a form that means the value, then the rest |
| JsonGrammar.TextsIff | iMX287Learn/mqtt/src/mqtt/sdk/cJSON.c:264-278 | a whole text is accepted for a value iff it is a form that means it, with blanks around |
| JsonGrammar.TextStartsIff | iMX287Learn/mqtt/src/mqtt/sdk/cJSON.c:264-280 | without the check for trailing text, iff it starts with blanks and such a form |
| JsonErrors.StuckAt | iMX287Learn/mqtt/src/mqtt/sdk/cJSON.c:287-299 | a value that is not read fails behind a form that has been begun, at the first token that cannot go on there: no value, comma, bracket, name or colon where one is wanted |
| JsonErrors.TextFailsWhereStuck | iMX287Learn/mqtt/src/mqtt/sdk/cJSON.c:264-278 | that is the place reported for a whole text |
| JsonErrors.TextFailsBehind | iMX287Learn/mqtt/src/mqtt/sdk/cJSON.c:275 | or, when the end is asked for, the first byte that is no blank behind a whole form |
| JsonComments.LineIsDropped | iMX287Learn/mqtt/src/mqtt/sdk/cJSON.c:590 | two slashes and all up to the end of the line are dropped and reading goes on in the next line, whatever stands there |
| JsonComments.LastLineIsDropped | iMX287Learn/mqtt/src/mqtt/sdk/cJSON.c:590 | in the last line all that is left is dropped |
| JsonComments.BlockIsDropped | iMX287Learn/mqtt/src/mqtt/sdk/cJSON.c:591 | slash, star, all up to the first star and slash, and these are dropped, whatever follows |
| JsonComments.OthersAreKept | iMX287Learn/mqtt/src/mqtt/sdk/cJSON.c:593 | every other byte outside literals is kept, a slash on its own as well |
| JsonComments.FormMinifies | iMX287Learn/mqtt/src/mqtt/sdk/cJSON.c:581-596 | minifying a form with any comments and blanks between its tokens leaves that form without them |
| JsonComments.CommentsDoNotMatter | iMX287Learn/mqtt/src/mqtt/sdk/cJSON.c:581-596 | so a text with comments, minified, is accepted and read as what the text without them means |
| JsonLayout.FormattedIsLaidOut | iMX287Learn/mqtt/src/mqtt/sdk/cJSON.c:283-284 | the formatted print is the unformatted one laid out token by token: each member on a line of its own behind as many tabs as brackets are open, a tab behind colons, a blank behind the commas of arrays |
| JsonLayout.EscapeIsStandard | iMX287Learn/mqtt/src/mqtt/sdk/cJSON.c:215-248 | what is printed for a byte is a character of section 7 of RFC 8259 that means it |
| JsonLayout.EscapeIsShortest | iMX287Learn/mqtt/src/mqtt/sdk/cJSON.c:215-248 | and the shortest there is, the only one of its length |
| Memory.Heap.StrDup | iMX287Learn/mqtt/src/mqtt/sdk/cJSON.c:49-58 | the copy has the text of a string that is live; reading one that has been freed is counted as a stray read, and the copy then holds anything |
| Memory.Heap.Free | iMX287Learn/mqtt/src/mqtt/sdk/cJSON.c:81-93 | only what is live is freed, and it is live no more, so nothing is freed twice |
| Memory.Heap.Keep | iMX287Learn/mqtt/src/mqtt/sdk/cJSON.c:209 | a decoded text becomes a live string |
| Memory.Heap.Alloc | iMX287Learn/mqtt/src/mqtt/sdk/cJSON.c:162 | a new live buffer of just that many bytes |
| JsonTree.Delete | iMX287Learn/mqtt/src/mqtt/sdk/cJSON.c:81-93 | deleting a chain frees every node, text and name it owns, each exactly once, and nothing that references among them borrow |
| JsonTree.DeleteItem | iMX287Learn/mqtt/src/mqtt/sdk/cJSON.c:84-91 | one round of that loop: the item, and all below it unless it is a reference |
| JsonTree.OwnedConcat | iMX287Learn/mqtt/src/mqtt/sdk/cJSON.c:81-93 | a chain of trees can be cut anywhere: both parts are owned, and share no memory |
| JsonTree.RootsApart | iMX287Learn/mqtt/src/mqtt/sdk/cJSON.c:515-520 | the nodes of a chain differ from one another and from all below them |
| JsonTreeEdit.SuffixObject | iMX287Learn/mqtt/src/mqtt/sdk/cJSON.c:515 | two neighbours point at each other |
| JsonTreeEdit.GetArrayItem | iMX287Learn/mqtt/src/mqtt/sdk/cJSON.c:511 | the node at that place of the chain, the first for a negative place, null past the end |
| JsonTreeEdit.Unlink | iMX287Learn/mqtt/src/mqtt/sdk/cJSON.c:525-526 | the chain is a well-formed doubly linked list without the item, and the item is a chain of its own |
| JsonTreeEdit.Swap | iMX287Learn/mqtt/src/mqtt/sdk/cJSON.c:532-534 | the chain is a well-formed doubly linked list with the new item in the place of the old, which is a chain of its own |
| JsonTreeEdit.AddItemToArray | iMX287Learn/mqtt/src/mqtt/sdk/cJSON.c:520 | appending a chain of items gives the tree whose children are the old ones and then the new ones; it owns what both owned |
| JsonTreeEdit.DetachItemFromArray | iMX287Learn/mqtt/src/mqtt/sdk/cJSON.c:525-526 | the children without one, and that one as a tree of its own; the two own what the tree owned; past the end nothing happens |
| JsonTreeEdit.DeleteItemFromArray | iMX287Learn/mqtt/src/mqtt/sdk/cJSON.c:527 | the children without one, and exactly what that one owned is freed |
| JsonTreeEdit.ReplaceItemInArray | iMX287Learn/mqtt/src/mqtt/sdk/cJSON.c:532-534 | the new item stands in the place of the old, and exactly what the old one owned is freed; past the end nothing happens |
| JsonTreeNames.StrCaseCmp | iMX287Learn/mqtt/src/mqtt/sdk/cJSON.c:39-44 | zero iff both names are null or are equal but for ASCII case; both are live |
| JsonTreeNames.NamesMatchIff | iMX287Learn/mqtt/src/mqtt/sdk/cJSON.c:39-44 | names match iff they are as long and equal but for letters from A to Z in the other case |
| JsonTreeNames.GetObjectItem | iMX287Learn/mqtt/src/mqtt/sdk/cJSON.c:512 | the first member with that name, whatever the case, or null when there is none |
| JsonTreeNames.DetachItemFromObject | iMX287Learn/mqtt/src/mqtt/sdk/cJSON.c:528 | the children without the first of that name, which becomes a tree of its own |
| JsonTreeNames.DeleteItemFromObject | iMX287Learn/mqtt/src/mqtt/sdk/cJSON.c:529 | exactly what the first member of that name owned is freed |
| JsonTreeNames.AddItemToObject | iMX287Learn/mqtt/src/mqtt/sdk/cJSON.c:521 | the item stands behind the others and its old name is freed; a freed string is read iff the name passed is the one the item has, and otherwise the item gets a copy of it |
| JsonTreeNames.MoveUnderOwnName | iMX287Learn/mqtt/src/mqtt/sdk/cJSON.c:521 | detaching a member from one object and adding it to another under the name it has reads that name after freeing it, whenever there is such a member |
| JsonTreeNames.ReplaceItemInObject | iMX287Learn/mqtt/src/mqtt/sdk/cJSON.c:535 | the item stands in the place of the first member of that name, under a copy of it; the name the item had before stays live, so it leaks; no freed string is read |
| JsonTreeNames.CreateReference | iMX287Learn/mqtt/src/mqtt/sdk/cJSON.c:517 | a nameless copy that borrows children and text and owns only itself |
| JsonTreeNames.ReferenceOwnsItself | iMX287Learn/mqtt/src/mqtt/sdk/cJSON.c:86-89 | what deleting a reference frees is the node and its name |
| JsonTreeNames.AddItemReferenceToArray | iMX287Learn/mqtt/src/mqtt/sdk/cJSON.c:522 | a new reference stands behind the others; the item it refers to is untouched and not owned |
| JsonTreeRun.Run | iMX287Learn/mqtt/src/mqtt/sdk/cJSON.c:520-535 | any sequence of appends, detaches, deletes and replacements, items detached and put back included: list and loose items are those of the same edits on plain sequences, all owned and well linked, and exactly what the deleted items owned is freed |
| JsonTreeRun.Apply | iMX287Learn/mqtt/src/mqtt/sdk/cJSON.c:520-534 | one such edit, by the function that makes it |
| JsonTreeRun.EditsConserve | iMX287Learn/mqtt/src/mqtt/sdk/cJSON.c:520-535 | in every run each item is on the list, loose or deleted, and is so once |
| JsonTreeRun.OthersKeepTheirOrder | iMX287Learn/mqtt/src/mqtt/sdk/cJSON.c:511-527 | detaching and deleting take off the item at that place, the first for a negative one, and leave the others in order |
| JsonTreeRun.DetachThenAppend | iMX287Learn/mqtt/src/mqtt/sdk/cJSON.c:520-526 | detaching an item and appending it again moves it to the end and changes nothing else |
| JsonTreeRun.MembersFollow | iMX287Learn/mqtt/src/mqtt/sdk/cJSON.c:520-535 | the members of the list are what the same edits make of the plain sequence of members |
| JsonTreeRun.ListShowsMembers | iMX287Learn/mqtt/src/mqtt/sdk/cJSON.c:520-535 | and they are what the nodes in memory stand for |
| JsonDuplicate.CopyItem | iMX287Learn/mqtt/src/mqtt/sdk/cJSON.c:560-565 | all fields are copied, texts and name into memory of their own, and the copy is no reference; nothing freed is read |
| JsonDuplicate.Duplicate | iMX287Learn/mqtt/src/mqtt/sdk/cJSON.c:554-579 | of a tree that is all live, a recursive copy is an owned tree, all of it new, for the same name and value; without recursion, for the item without its children |
| JsonPrinter.PrintStringPtr | iMX287Learn/mqtt/src/mqtt/sdk/cJSON.c:215-248 | the second pass fills exactly the len + 3 bytes counted in the first: quotes, escaped text, NUL; the string is live |
| JsonPrinter.WriteEscaped | iMX287Learn/mqtt/src/mqtt/sdk/cJSON.c:229-244 | one byte is written as its escape, inside the buffer |
| JsonPrinter.PrintInt | iMX287Learn/mqtt/src/mqtt/sdk/cJSON.c:118-138 | the decimal text of an int32, and a NUL, inside the buffer |
| JsonPrinter.ComposeArray | iMX287Learn/mqtt/src/mqtt/sdk/cJSON.c:391-402 | any len as large as counted suffices: all writes lie inside it, the buffer then holds brackets, entries and separators, and every entry has been freed |
| JsonPrinter.ComposeObject | iMX287Learn/mqtt/src/mqtt/sdk/cJSON.c:490-506 | the same for an object with its names, colons, tabs and newlines; every name and entry has been freed |
| JsonPrintTree.CollectItems | iMX287Learn/mqtt/src/mqtt/sdk/cJSON.c:364-376 | the len added up for an array is enough for its whole text; the entries are new buffers, all different |
| JsonPrintTree.CollectMembers | iMX287Learn/mqtt/src/mqtt/sdk/cJSON.c:460-476 | the len added up for an object is enough for its whole text; names and entries are new buffers, all different |
| JsonPrintTree.PrintEmptyObject | iMX287Learn/mqtt/src/mqtt/sdk/cJSON.c:450-459 | an object without members fits its depth + 4, or 3, bytes |
| JsonPrintTree.PrintArray | iMX287Learn/mqtt/src/mqtt/sdk/cJSON.c:348-403 | the printed array, at any depth and in both layouts; all that was allocated but the text is freed |
| JsonPrintTree.PrintObject | iMX287Learn/mqtt/src/mqtt/sdk/cJSON.c:442-507 | the printed object, at any depth and in both layouts; all that was allocated but the text is freed |
| JsonPrintTree.PrintItem | iMX287Learn/mqtt/src/mqtt/sdk/cJSON.c:302-317 | of a tree that is all live, borrowed parts included: a new buffer that holds the printed form of the value the nodes stand for, and nothing else stays allocated |
| JsonPrintTree.PrintIsNulFree | iMX287Learn/mqtt/src/mqtt/sdk/cJSON.c:302-317 | no byte before the terminator is NUL, so strlen measures the whole text |
| JsonPrintTree.NamedIsPrintable | iMX287Learn/mqtt/src/mqtt/sdk/cJSON.c:302-317 | a tree with named members and NUL-free texts stands for a value that can be read back |
| JsonScan.SkipBlanks | iMX287Learn/mqtt/src/mqtt/sdk/cJSON.c:261 | the first byte above 32, or the end |
| JsonScan.ParseInt | iMX287Learn/mqtt/src/mqtt/sdk/cJSON.c:96-115 | an int32 without fraction or exponent, and where it ends |
| JsonScan.ParseHex4 | iMX287Learn/mqtt/src/mqtt/sdk/cJSON.c:140-151 | four digits of either case, summed up shift by shift; 0 when one of them is none |
| JsonScan.Measure | iMX287Learn/mqtt/src/mqtt/sdk/cJSON.c:160 | the first pass counts one for each byte and each escape up to the closing quote |
| JsonScan.CountFits | iMX287Learn/mqtt/src/mqtt/sdk/cJSON.c:160-207 | what is decoded is never longer than that count |
| JsonScan.WriteUtf8 | iMX287Learn/mqtt/src/mqtt/sdk/cJSON.c:192-200 | the bytes of a code point, written from the last to the first, are its UTF-8 |
| JsonScan.DecodeUnicode | iMX287Learn/mqtt/src/mqtt/sdk/cJSON.c:179-201 | an escape or a pair of them becomes its UTF-8; a lone low surrogate, zero or a broken pair becomes nothing |
| JsonScan.ParseStringLiteral | iMX287Learn/mqtt/src/mqtt/sdk/cJSON.c:155-212 | the string decoded, inside the counted len + 1 bytes and with its NUL, and where it ends; fails iff there is no opening quote |
| JsonParser.ParseStringInto | iMX287Learn/mqtt/src/mqtt/sdk/cJSON.c:155-212 | the node becomes a string node that owns the decoded text, or nothing is allocated |
| JsonParser.ParseArrayInto | iMX287Learn/mqtt/src/mqtt/sdk/cJSON.c:320-345 | the node gets a well-formed chain of owned items for what the text says, or fails at the reported place, with all that was allocated hung below it |
| JsonParser.FillMember | iMX287Learn/mqtt/src/mqtt/sdk/cJSON.c:417-424 | one member: name, colon, value and the blanks around them |
| JsonParser.ParseObjectInto | iMX287Learn/mqtt/src/mqtt/sdk/cJSON.c:406-439 | the node gets a well-formed chain of named, owned members, or fails at the reported place |
| JsonParser.ParseItem | iMX287Learn/mqtt/src/mqtt/sdk/cJSON.c:287-299 | the node is filled with the value the text starts with, and the end or the place of the error is that of the grammar |
| JsonApi.ParseWithOpts | iMX287Learn/mqtt/src/mqtt/sdk/cJSON.c:264-278 | an owned new tree for the text, or null; null leaves no memory behind, and the end or the place of the error is reported |
| JsonApi.Print | iMX287Learn/mqtt/src/mqtt/sdk/cJSON.c:283-284 | the printed form of the tree in a new buffer, the only memory that stays allocated |
| JsonApi.PrintAndParse | iMX287Learn/mqtt/src/mqtt/sdk/cJSON.c:264-284 | printing a tree, parsing the buffer and freeing it gives a new tree, sharing nothing with the first, for the same value |
| MqttLength.ReadLength | iMX287Learn/mqtt/src/mqtt/sdk/mqtt.c:113-134 | the value and byte count, incomplete, or out of range, as the three-byte reading has it |
| MqttLength.DumpLength | iMX287Learn/mqtt/src/mqtt/sdk/mqtt.c:136-152 | the digits to base 128 with their marks, in one to four bytes, and no byte behind them is touched; -1 from 128^4 on |
| MqttLength.ReadsBack | iMX287Learn/mqtt/src/mqtt/sdk/mqtt.c:113-152 | a dumped length below 128^3 reads back with its byte count, whatever follows |
| MqttLength.ReadsBackIff | iMX287Learn/mqtt/src/mqtt/sdk/mqtt.c:113-152 | a dumped length reads back iff it is below 128^3; the others, up to 128^4 - 1, are written in four bytes and read as out of range |
| MqttLength.FourBytesReadBack | iMX287Learn/mqtt/src/mqtt/sdk/mqtt.c:113-152 | with the four bytes of section 2.2.3 of MQTT 3.1.1 every length that is written would read back |
| MqttLength.ReadExtends | iMX287Learn/mqtt/src/mqtt/sdk/mqtt.c:119-133 | an answer other than incomplete does not change when more bytes arrive |
| MqttLength.PrefixIsIncomplete | iMX287Learn/mqtt/src/mqtt/sdk/mqtt.c:119-133 | every strict prefix of a dumped length reads as incomplete |
| Utf8Check.CheckUtf8 | iMX287Learn/mqtt/src/mqtt/sdk/mqtt.c:280-304 | the walk as written, which tests the head of the string each time |
| Utf8Check.LegalIsUtf8Char | iMX287Learn/mqtt/src/mqtt/sdk/mqtt.c:219-278 | with the table length the switch with its fall-throughs accepts exactly the UTF8-chars of section 4 of RFC 3629; where char is signed, these and the strays: a tail byte alone, 0xC0 or 0xC1 with a tail byte, 0xF5 to 0xF7 with three |
| Utf8Check.StraysAreNoUtf8 | iMX287Learn/mqtt/src/mqtt/sdk/mqtt.c:272 | a stray has the length the table gives and is no UTF8-char |
| Utf8Check.RebasedWalkIsRfc3629 | iMX287Learn/mqtt/src/mqtt/sdk/mqtt.c:280-304 | testing where it reads, with unsigned bytes, the walk accepts a NUL-free string iff it is a concatenation of UTF8-chars |
| Utf8Check.RebasedWalkAccepts | iMX287Learn/mqtt/src/mqtt/sdk/mqtt.c:280-304 | for either signedness: testing where it reads, the walk accepts a NUL-free string iff it splits into what the switch accepts |
| Utf8Check.SignedWalkIsRightIff | iMX287Learn/mqtt/src/mqtt/sdk/mqtt.c:272 | where char is signed, a string that is accepted is UTF-8 iff its split holds no stray |
| Utf8Check.SignednessParts | iMX287Learn/mqtt/src/mqtt/sdk/mqtt.c:272 | two strings that pass where char is signed and are refused where it is not, by the walk as written and by the intended one |
| Utf8Check.SplitIsUnique | iMX287Learn/mqtt/src/mqtt/sdk/mqtt.c:27-36 | that concatenation is unique, strays or not |
| Utf8Check.WalkAsWritten | iMX287Learn/mqtt/src/mqtt/sdk/mqtt.c:280-304 | as written, a string is accepted iff the lengths fit and its head is legal at the greatest of them |
| Utf8Check.WellFormedAsWritten | iMX287Learn/mqtt/src/mqtt/sdk/mqtt.c:280-304 | of the well-formed strings those are accepted whose first character is as long as any, for either signedness |
| Utf8Check.AsciiIsAccepted | iMX287Learn/mqtt/src/mqtt/sdk/mqtt.c:280-304 | both walks accept all ASCII strings, whatever the signedness of char |
| Utf8Check.WalksPart | iMX287Learn/mqtt/src/mqtt/sdk/mqtt.c:292 | two strings on which the walk as written and the intended one differ, one each way |
| MqttDispatch.Endpoint.ScanTopic | iMX287Learn/mqtt/src/mqtt/sdk/mqtt.c:458-464 | whether the topic, up to its first NUL, holds a wildcard |
| MqttDispatch.Endpoint.SetUpTopic | iMX287Learn/mqtt/src/mqtt/sdk/mqtt.c:419-452 | the topic is moved over its length, or ended by a NUL, inside the body; every byte behind it stays |
| MqttDispatch.Endpoint.HandlePublish | iMX287Learn/mqtt/src/mqtt/sdk/mqtt.c:390-532 | callbacks, answers and code are those of the decoded PUBLISH; no byte of the payload and none outside the body changes |
| MqttDispatch.Endpoint.HandleId | iMX287Learn/mqtt/src/mqtt/sdk/mqtt.c:569-665 | one contract for PUBACK, PUBREC, PUBREL and PUBCOMP: illegal flags, size or id are refused, the callback is made and the next packet of the chain is sent when it succeeds |
| MqttDispatch.Endpoint.HandleSubAck | iMX287Learn/mqtt/src/mqtt/sdk/mqtt.c:667-690 | the id and the codes go to the callback, or the packet is refused |
| MqttDispatch.Endpoint.Conclude | iMX287Learn/mqtt/src/mqtt/sdk/mqtt.c:534-564 | an answer is packed only after a successful callback, and an incomplete write is reported |
| MqttDispatch.Endpoint.Dispatch | iMX287Learn/mqtt/src/mqtt/sdk/mqtt.c:708-745 | for every header and body: one verdict by type, its callbacks, answers and code, and no byte outside the body changes |
| MqttFraming.FindPacket | iMX287Learn/mqtt/src/mqtt/sdk/mqtt.c:794-812 | an encoded packet at the head of a stream is found whole, whatever follows |
| MqttFraming.ParsePackets | iMX287Learn/mqtt/src/mqtt/sdk/mqtt.c:790-820 | packets written one after another are dispatched one after another |
| MqttFraming.RefusedPacketStops | iMX287Learn/mqtt/src/mqtt/sdk/mqtt.c:814-817 | a refused packet ends the loop with its code, the packets before it dispatched |
| MqttFraming.LongPacketStops | iMX287Learn/mqtt/src/mqtt/sdk/mqtt.c:798-805 | three marked length bytes end it with -4 |
| MqttFraming.ParseExtends | iMX287Learn/mqtt/src/mqtt/sdk/mqtt.c:790-820 | what was parsed stays parsed when more bytes arrive behind the tail |
| MqttFraming.TailIsUnparsed | iMX287Learn/mqtt/src/mqtt/sdk/mqtt.c:790-828 | the bytes kept hold no packet, so none is dispatched twice |
| MqttFraming.FeedIsParse | iMX287Learn/mqtt/src/mqtt/sdk/mqtt.c:768-831 | reading a stream in pieces and keeping each tail splits it as reading it at once |
| MqttFraming.AnyCutIsSplit | iMX287Learn/mqtt/src/mqtt/sdk/mqtt.c:768-831 | any list of packets with bodies below 128^3, encoded, cut anywhere and received piece by piece, is dispatched in order, and nothing is left (with the intended compaction) |
| MqttFraming.RoomIsLeft | iMX287Learn/mqtt/src/mqtt/sdk/mqtt.c:774-788 | after any prefix of such a stream the buffer has room for more, when each packet fits it |
| MqttFraming.KeptIff | iMX287Learn/mqtt/src/mqtt/sdk/mqtt.c:822-828 | the compaction as written keeps the tail iff the tail repeats itself with the consumed count as its period, so always when it is no longer than what was consumed |
| MqttFraming.ShortTailsSuffice | iMX287Learn/mqtt/src/mqtt/sdk/mqtt.c:768-831 | while tails stay that short, the loop as written splits a stream as the intended one does, and needs no more room |
| MqttFraming.CompactionParts | iMX287Learn/mqtt/src/mqtt/sdk/mqtt.c:822-828 | a stream in two pieces on which the compaction as written delivers another packet than was sent |
| MqttFraming.Compact | iMX287Learn/mqtt/src/mqtt/sdk/mqtt.c:822-828 | what the memmove leaves at the front of the buffer: of cursor - bgn bytes as written, of the bytes not yet parsed as intended |
| MqttFraming.ParseLoop | iMX287Learn/mqtt/src/mqtt/sdk/mqtt.c:790-820 | the loop dispatches what the stream is split into, stops at the tail, and ends since a packet has two bytes at least |
| MqttFraming.RecvPkt | iMX287Learn/mqtt/src/mqtt/sdk/mqtt.c:768-831 | one call, with either compaction: failed and empty reads make no callback and no answer; else the packets dispatched with their callbacks and answers, the code, and the bytes kept |
| MqttFraming.ReceiveAll | iMX287Learn/mqtt/src/mqtt/mqtt_api.c:162-190 | the receive loop over a list of reads, with either compaction: the packets that feeding them one by one gives, with their callbacks and answers, the code and the bytes kept |
| MqttFraming.ReceivePackets | iMX287Learn/mqtt/src/mqtt/mqtt_api.c:162-190 | encoded packets, cut into any reads there is room for, are dispatched in order with their callbacks and answers, and nothing is left: with the intended compaction always, as written when the reads leave short tails |
| MqttExchange.PublishIsDelivered | iMX287Learn/mqtt/src/mqtt/sdk/mqtt.c:1178-1253 | a packed PUBLISH reaches the callback with the same topic, payload, QoS and id iff retain is clear, QoS 0 carries no DUP and the topic is not under $; under $creq it is a command; it is refused iff retain, or DUP at QoS 0, is set |
| MqttExchange.AckIsAccepted | iMX287Learn/mqtt/src/mqtt/sdk/mqtt.c:1267-1345 | every acknowledgement packed with a non-zero id is accepted by its handler with that id |
| MqttExchange.RepliesAreNearer | iMX287Learn/mqtt/src/mqtt/sdk/mqtt.c:534-665 | every reply to any packet is accepted, and is one step nearer the end of its chain |
| MqttExchange.RepliesAreSent | iMX287Learn/mqtt/src/mqtt/sdk/mqtt.c:534-665 | with successful callbacks and full writes the bytes sent are the encoded replies |
| MqttExchange.HandledAs | iMX287Learn/mqtt/src/mqtt/sdk/mqtt.c:534-665 | for any callbacks and writes: a refused packet leads to nothing and -4, a failed callback is not answered and gives its code, otherwise the reply is sent, and a short write is -14 |
| MqttExchange.DeliveryConserves | iMX287Learn/mqtt/src/mqtt/sdk/mqtt.c:586-665 | a delivery takes just the delivered message off what is still to come |
| MqttExchange.RunConserves | iMX287Learn/mqtt/src/mqtt/sdk/mqtt.c:586-665 | in any order of delivery what was delivered and what is still to come add up to what was to come |
| MqttExchange.CompleteRuns | iMX287Learn/mqtt/src/mqtt/sdk/mqtt.c:534-665 | every run is bounded, is complete iff it has as many deliveries as the messages have steps, and then has delivered each message of each chain once |
| MqttExchange.PackedIsPublish | iMX287Learn/mqtt/src/mqtt/sdk/mqtt.c:1178-1253 | every packed PUBLISH, neither retained nor a QoS 0 packet marked DUP, starts such a chain at its level |
| MqttExchange.Qos0Chain | iMX287Learn/mqtt/src/mqtt/sdk/mqtt.c:390-566 | nothing comes back for QoS 0 (section 4.3.1) |
| MqttExchange.Qos1Chain | iMX287Learn/mqtt/src/mqtt/sdk/mqtt.c:534-566 | a PUBACK, 0x40 and the id, comes back for QoS 1, and nothing more; the publisher is called back with that id (section 4.3.2 of MQTT 3.1.1) |
| MqttExchange.Qos2Chain | iMX287Learn/mqtt/src/mqtt/sdk/mqtt.c:534-665 | the chain of a QoS 2 PUBLISH is PUBREC, PUBREL, PUBCOMP, byte by byte, with one id (section 4.3.3) |
| MqttExchange.PublishesComplete | iMX287Learn/mqtt/src/mqtt/sdk/mqtt.c:534-665 | publishes of any levels, delivered in any order, are through after exactly 1, 2 or 4 deliveries each, and not before |
| MqttExchange.Qos1Deliveries | iMX287Learn/mqtt/src/mqtt/sdk/mqtt.c:534-566 | n QoS 1 publishes after exactly 2n |
| MqttExchange.Qos2Deliveries | iMX287Learn/mqtt/src/mqtt/sdk/mqtt.c:534-665 | n QoS 2 publishes after exactly 4n |
| MqttExchange.NothingIsRefused | iMX287Learn/mqtt/src/mqtt/sdk/mqtt.c:390-665 | no message of such a run is refused when no first one is |
| MqttBuffer.Align | iMX287Learn/mqtt/src/mqtt/sdk/mqtt_buffer.c:41-43 | the extent with its header, rounded up to the alignment, for sizes that do not wrap 32 bits |
| MqttBuffer.CopyTable | iMX287Learn/mqtt/src/mqtt/sdk/mqtt_buffer.c:56-57 | the old entries at the front of the new table |
| MqttBuffer.LayoutGrows | iMX287Learn/mqtt/src/mqtt/sdk/mqtt_buffer.c:79-85 | a new extent at the cursor overlaps none, is aligned and lies in the current chunk, whose end stays cursor plus available bytes |
| MqttBuffer.RoomsApart | iMX287Learn/mqtt/src/mqtt/sdk/mqtt_buffer.c:38-88 | any two extents of a buffer have disjoint rooms inside their chunks |
| MqttBuffer.Buffer.constructor | iMX287Learn/mqtt/src/mqtt/sdk/mqtt_buffer.c:9-19 | an empty buffer that holds no memory |
| MqttBuffer.Buffer.GrowTable | iMX287Learn/mqtt/src/mqtt/sdk/mqtt_buffer.c:49-62 | the table doubles plus one, keeps its entries, and has room for one more; the old one is freed |
| MqttBuffer.Buffer.NewChunk | iMX287Learn/mqtt/src/mqtt/sdk/mqtt_buffer.c:49-73 | a new current chunk, at least MIN_EXTENT_SIZE long, entered in the table |
| MqttBuffer.Buffer.AllocExtent | iMX287Learn/mqtt/src/mqtt/sdk/mqtt_buffer.c:38-88 | a new extent of the size asked for, in memory no other extent of the buffer has; the listed bytes do not change |
| MqttBuffer.Buffer.AppendExtent | iMX287Learn/mqtt/src/mqtt/sdk/mqtt_buffer.c:114-130 | the list and its bytes grow by the extent, and buffered_bytes by its length |
| MqttBuffer.Buffer.Append | iMX287Learn/mqtt/src/mqtt/sdk/mqtt_buffer.c:90-112 | the listed bytes grow by the data, copied or referenced, and buffered_bytes by its size; what the buffer took from malloc is still all held |
| MqttBuffer.Buffer.SetPayload | iMX287Learn/mqtt/src/mqtt/sdk/mqtt_buffer.c:100-107 | the payload is the data, as a copy in the extent or a reference outside of all chunks |
| MqttBuffer.Buffer.OthersKeep | iMX287Learn/mqtt/src/mqtt/sdk/mqtt_buffer.c:38-130 | filling the room of one extent changes no other extent and no other listed payload |
| MqttBuffer.Buffer.Write | iMX287Learn/mqtt/src/mqtt/sdk/mqtt_buffer.c:100-103 | bytes written into one room; every other room and the listed bytes stay |
| MqttBuffer.Buffer.WriteLength | iMX287Learn/mqtt/src/mqtt/sdk/mqtt.c:136-152 | a dumped length in one room; every other room and the listed bytes stay |
| MqttBuffer.Buffer.FreeAll | iMX287Learn/mqtt/src/mqtt/sdk/mqtt_buffer.c:26-36 | every chunk and the table are freed once |
| MqttBuffer.Buffer.Reset | iMX287Learn/mqtt/src/mqtt/sdk/mqtt_buffer.c:26-36 | the buffer is as new, and exactly what it held is freed |
| MqttPack.NothingPacked | iMX287Learn/mqtt/src/mqtt/sdk/mqtt_buffer.c:9-36 | a new or reset buffer is one into which nothing has been packed |
| MqttPack.OneMorePacket | iMX287Learn/mqtt/src/mqtt/sdk/mqtt.c:768-831 | packing behind a list of packets gives the bytes of the longer list, which is what the framer takes apart |
| MqttPack.TopicLength | iMX287Learn/mqtt/src/mqtt/sdk/mqtt.c:1191-1195 | the length of the topic, or that it holds a wildcard |
| MqttPack.PackAck | iMX287Learn/mqtt/src/mqtt/sdk/mqtt.c:1267-1345 | the buffer grows by the four bytes of the packet; refused, and unchanged, iff the id is zero |
| MqttPack.PackPublish | iMX287Learn/mqtt/src/mqtt/sdk/mqtt.c:1178-1253 | the buffer grows by exactly the encoded PUBLISH, payload copied or referenced, or each illegal argument gets its code and the listed bytes stay |
| MqttPackTopics.CheckTopics | iMX287Learn/mqtt/src/mqtt/sdk/mqtt.c:1362-1372 | the first loop: the first null or non-UTF-8 topic refuses the packet with its code, else the lengths are added up |
| MqttPackTopics.FillTopics | iMX287Learn/mqtt/src/mqtt/sdk/mqtt.c:1392-1403 | the second loop writes the id and each topic with its length, and for SUBSCRIBE its QoS, into just the room allocated |
| MqttPackTopics.PackSubscribe | iMX287Learn/mqtt/src/mqtt/sdk/mqtt.c:1347-1411 | the buffer grows by exactly the encoded SUBSCRIBE, with flags 0 as the code has them (section 3.8.1 of MQTT 3.1.1 asks for 2) |
| MqttPackTopics.PackUnsubscribe | iMX287Learn/mqtt/src/mqtt/sdk/mqtt.c:1451-1511 | the same for UNSUBSCRIBE |
| MqttPackConnect.CheckConnect | iMX287Learn/mqtt/src/mqtt/sdk/mqtt.c:912-986 | the checks on will, user and QoS, the flags byte, and the length of the body |
| MqttPackConnect.FillFields | iMX287Learn/mqtt/src/mqtt/sdk/mqtt.c:1009-1029 | the strings present fill just the room allocated, in their order |
| MqttPackConnect.PackConnect | iMX287Learn/mqtt/src/mqtt/sdk/mqtt.c:888-1036 | the buffer grows by exactly the encoded CONNECT, or each illegal argument gets its code and the listed bytes stay |
| MqttReader.ConnectReadsBack | iMX287Learn/mqtt/src/mqtt/sdk/mqtt.c:888-1040 | read byte by byte, the CONNECT says MQTT, level 4, clean session, will, QoS, retain and keep-alive as asked for, user and password set, and its strings are client id, will topic, will message, user and password in that order |
| MqttReader.ConnectIsPackedIff | iMX287Learn/mqtt/src/mqtt/sdk/mqtt.c:909-988 | exactly when a CONNECT is packed |
| MqttReader.SubscribeReadsBack | iMX287Learn/mqtt/src/mqtt/sdk/mqtt.c:1347-1449 | a SUBSCRIBE reads back as its id and each topic with the QoS behind it, in order |
| MqttReader.UnsubscribeReadsBack | iMX287Learn/mqtt/src/mqtt/sdk/mqtt.c:1451-1511 | an UNSUBSCRIBE as its id and topics |
| MqttReader.TopicsArePackedIff | iMX287Learn/mqtt/src/mqtt/sdk/mqtt.c:1347-1511 | exactly when the two are packed |
| MqttReader.FirstBadTopic | iMX287Learn/mqtt/src/mqtt/sdk/mqtt.c:1362-1372 | the first topic that is null or not UTF-8 decides the code |
| MqttReader.PublishReadsBack | iMX287Learn/mqtt/src/mqtt/sdk/mqtt.c:1178-1253 | a PUBLISH reads back as its flags, topic, id and payload |
| MqttReader.PublishIsPackedIff | iMX287Learn/mqtt/src/mqtt/sdk/mqtt.c:1178-1253 | exactly when a PUBLISH is packed |
| MqttReader.WhatIsPackedArrives | iMX287Learn/mqtt/src/mqtt/sdk/mqtt.c:390-532 | what is packed is called back as it was published, unless its topic starts with a dollar sign |
| MqttReader.LengthOnTheLine | iMX287Learn/mqtt/src/mqtt/sdk/mqtt.c:136-152 | a length is written in the fewest bytes, seven bits each, least first, all but the last marked (section 2.2.3) |
| MqttReader.PacketIsFoundIff | iMX287Learn/mqtt/src/mqtt/sdk/mqtt.c:794-812 | the framer finds a packet iff a first byte, a length field of one to three bytes and as many bytes as it weighs stand at the head |
| MqttReader.AckOnTheLine | iMX287Learn/mqtt/src/mqtt/sdk/mqtt.c:1267-1345 | the four acknowledgements, all their bytes |
| MqttReader.CalledBackIff | iMX287Learn/mqtt/src/mqtt/sdk/mqtt.c:361-766 | a packet other than PUBLISH is called back, and with what, iff it is the packet a server writes for that callback and is in order |
| MqttReader.PublishIsAcceptedIff | iMX287Learn/mqtt/src/mqtt/sdk/mqtt.c:390-532 | a PUBLISH is accepted iff it is one that a server writes: not retained, with a topic that passes, an id at QoS 1 and 2, and DUP there only |
| MqttRetry.SetPktDup | iMX287Learn/mqtt/src/mqtt/sdk/mqtt.c:1255-1265 | one bit of the first listed byte is set iff it starts a PUBLISH, and no other listed byte changes |
| MqttRetry.DupOfPublish | iMX287Learn/mqtt/src/mqtt/sdk/mqtt.c:1178-1265 | on a packed PUBLISH this gives the same PUBLISH packed with DUP |
| MqttGrow.AppendLength | iMX287Learn/mqtt/src/mqtt/sdk/mqtt.c:154-173 | the header is rewritten for the longer packet, or refused; the rest of the list stays; buffered_bytes is right afterwards iff the header keeps its length, and otherwise off by the difference |
| MqttGrow.RelengthOfPacket | iMX287Learn/mqtt/src/mqtt/sdk/mqtt.c:154-173 | on a readable packet of total length below 128^4 the new header, the body and the bytes to come encode the grown packet; the header keeps its length iff old and new length take equally many bytes; from 128^4 on the header is lost |
| MqttGrow.HeaderOutgrowsCount | iMX287Learn/mqtt/src/mqtt/sdk/mqtt.c:167 | 127 bytes and one more: a header of two bytes becomes one of three |
| MqttSend.FindFirst | iMX287Learn/mqtt/src/mqtt/sdk/mqtt.c:846-852 | the extent at which the scan stops and the bytes it has counted |
| MqttSend.FillVectors | iMX287Learn/mqtt/src/mqtt/sdk/mqtt.c:854-878 | one vector for each extent from there on, the first moved by what the code takes for the rest of the offset |
| MqttSend.SendPkt | iMX287Learn/mqtt/src/mqtt/sdk/mqtt.c:833-884 | the vectors handed to writev_func, and the result: its answer, or 0 when nothing is left to send |
| MqttSend.WrittenSendsIff | iMX287Learn/mqtt/src/mqtt/sdk/mqtt.c:842-880 | the vectors send exactly the bytes from the offset on iff the offset is a sum of leading extent lengths; otherwise there are none, or the first starts before its payload |
| MqttSend.ResumedSends | iMX287Learn/mqtt/src/mqtt/sdk/mqtt.c:833-884 | sends resumed at such offsets transmit each byte once and in order |
| MqttSend.IntendedSends | iMX287Learn/mqtt/src/mqtt/sdk/mqtt.c:846-852 | with a scan that stops at the extent holding the offset, the vectors are right for every offset |
| MqttSend.IntendedResumedSends | iMX287Learn/mqtt/src/mqtt/sdk/mqtt.c:833-884 | and sends may then be resumed at any offset |
| MqttSend.BytesToSend | iMX287Learn/mqtt/src/mqtt/sdk/mqtt.c:842-880 | from a sum of leading extent lengths on, the vectors, read from memory one after another, are just the bytes of the buffer that are left |
| MqttSend.SendBytes | iMX287Learn/mqtt/src/mqtt/sdk/mqtt.c:833-884 | so a writev_func that takes the bytes of its vectors gets those, once; 0 and no call when none are left |
| MqttAnswer.SendAnswer | iMX287Learn/mqtt/src/mqtt/sdk/mqtt.c:534-566 | an answer as the handlers make it, buffer initialised, acknowledgement packed, sent and compared with buffered_bytes, buffer destroyed: exactly the encoded bytes go to writev_func, the code says whether all were taken, and no memory stays behind |
| MqttAnswer.Respond | iMX287Learn/mqtt/src/mqtt/sdk/mqtt.c:534-688 | callback and answer of any packet, answer packed and sent through memory: the code is the one of the reaction in MqttDispatch |
| MqttDelivery.PackOne | iMX287Learn/mqtt/src/mqtt/sdk/mqtt.c:888-1511 | a call of any packer: its code, and the buffer grown by the encoding of the one packet it leads to, or of none |
| MqttDelivery.PackAll | iMX287Learn/mqtt/src/mqtt/sdk/mqtt.c:888-1511 | any calls of packers into one buffer: it holds the encodings of the packets not refused, in order |
| MqttDelivery.CutIsWhole | iMX287Learn/mqtt/src/mqtt/mqtt_api.c:162-190 | pieces cut at any sizes make up the stream |
| MqttDelivery.Deliver | iMX287Learn/mqtt/src/mqtt/sdk/mqtt.c:768-831 | any calls of packers into an empty buffer, its bytes sent, cut anywhere and received: exactly the packets not refused are dispatched, in order and once each, with their callbacks and answers, and nothing is left (either compaction, as written when tails are short) |
| ModbusCrc.HighTableIsRight | iMX287Learn/cqada/share/mbuscrc.c:5-32 | all 256 bytes of the first table are the low halves of eight bit-serial shifts with polynomial 0xA001 |
| ModbusCrc.LowTableIsRight | iMX287Learn/cqada/share/mbuscrc.c:35-62 | all 256 bytes of the second table are the high halves |
| ModbusCrc.StepByHalves | iMX287Learn/cqada/share/mbuscrc.c:64-75 | one byte taken through eight shifts equals one table step on the two halves |
| ModbusCrc.CRC16 | iMX287Learn/cqada/share/mbuscrc.c:64-75 | the table loop returns the bit-serial CRC (section 6.2.2 of the MODBUS over Serial Line guide V1.02), its two bytes in wire order, for every length below 65536 |
| ModbusCrc.RegisterIsInjective | iMX287Learn/cqada/share/mbuscrc.c:64-75 | registers that differ before the same bytes differ after them |
| ModbusCrc.TwoBytesAreInjective | iMX287Learn/cqada/share/mbuscrc.c:64-75 | two bytes enter the register without loss |
| ModbusCrc.AdjacentBytesAreDetected | iMX287Learn/cqada/share/mbuscrc.c:64-75 | messages of one length that differ, and only inside two adjacent bytes, have different CRCs |
| ModbusCrc.BurstIsInjective | iMX287Learn/cqada/share/mbuscrc.c:64-75 | three bytes that differ in sixteen successive bits enter the register without loss |
| ModbusCrc.BurstsAreDetected | iMX287Learn/cqada/share/mbuscrc.c:64-75 | messages of one length that differ, and only inside sixteen successive bits as they go over the line, have different CRCs |
| ModbusCrc.OddChangesAreDetected | iMX287Learn/cqada/share/mbuscrc.c:64-75 | messages of one length that differ in an odd number of bits, wherever these are, have different CRCs |
| ModbusBits.SquareOfShift | iMX287Learn/cqada/share/mbuscrc.c:64-75 | squaring, as a polynomial modulo the generator 0xA001 stands for, is compatible with the shift: the square of x times v is x twice times the square of v |
| ModbusBits.PowerOfTwice | iMX287Learn/cqada/share/mbuscrc.c:64-75 | so twice as many shifts of 1 are the square |
| ModbusBits.OrderIs32767 | iMX287Learn/cqada/share/mbuscrc.c:64-75 | as many shifts lead a register that holds 1 back to 1 as 32767 divides, and no others |
| ModbusBits.DifferenceShifts | iMX287Learn/cqada/share/mbuscrc.c:64-75 | the difference of two registers, taken through the same bytes, is shifted eight times for each and depends on nothing else |
| ModbusBits.TwoBitsAreDetectedIff | iMX287Learn/cqada/share/mbuscrc.c:64-75 | messages that differ in one bit each of two bytes have the same CRC iff the bits lie a multiple of 32767 apart |
| ModbusBits.TwoBitsAreDetected | iMX287Learn/cqada/share/mbuscrc.c:64-75 | so two changed bits less than 32767 bits apart are always seen |
| ModbusBits.CheckValue | iMX287Learn/cqada/share/mbuscrc.c:64-75 | the digits 1 to 9 give the check value 0x4B37, low byte first |
| ModbusBits.LeadingZeroIsSeen | iMX287Learn/cqada/share/mbuscrc.c:64-75 | a zero byte put in front changes the CRC |
| ModbusCrc.TrailerMatches | iMX287Learn/cqada/uart/comm_sub.c:35-45 | the trailer equals the CRC of what is before it iff the CRC of the whole frame is zero |
| ModbusCrc.Receiver.CheckPacket | iMX287Learn/cqada/uart/comm_sub.c:35-45 | accepts iff the frame has three bytes at least and its CRC, trailer included, is zero; the trailer goes to the caller |
| VehicleCounter.Driver.HandleX | iMX287Learn/cardet/driver/ISR.c:15-19 | the edge is the event EdgeX: in every system with these stamps at this time it leaves the driver as the event does |
| VehicleCounter.Driver.HandleY | iMX287Learn/cardet/driver/ISR.c:20-24 | the edge is the event EdgeY: in every system with these stamps at this time it leaves the driver as the event does |
| VehicleCounter.Counter.Read | iMX287Learn/cardet/driver/dev.c:40-48 | the driver stamps are copied to the channel |
| VehicleCounter.Counter.WriteBack | iMX287Learn/cardet/driver/dev.c:50-61 | the stamps of the channel are copied to the driver, over whatever came in between |
| VehicleCounter.Counter.Flows | iMX287Learn/cardet/detec/detec.c:30-65 | the method takes the step of the five-state machine |
| VehicleCounter.Counter.Loop | iMX287Learn/cardet/detec/detec.c:66-93 | an uninterrupted poll is the read, step and write-back of the interleaving model |
| VehicleCounter.Plant.constructor | iMX287Learn/cardet/detec/detec.c:30-93 | program and driver as they start are a start of the system |
| VehicleCounter.Plant.Take | iMX287Learn/cardet/detec/detec.c:30-93 | handlers, read, step and write-back of the program do to its state what their events do to the system |
| VehicleCounter.Plant.TakeAll | iMX287Learn/cardet/detec/detec.c:30-93 | every interleaved run of the program is a run of the system, so what is proved of runs holds of it |
| VehicleCounter.PollRun | iMX287Learn/cardet/detec/detec.c:66-93 | the three or two steps of a poll, run one after another, read, take one machine step, and write back iff the machine asks for it |
| VehicleCounter.InvRun | iMX287Learn/cardet/detec/detec.c:30-93 | the invariant holds after every interleaving of edges, clock and poll steps |
| VehicleCounter.Counts | iMX287Learn/cardet/detec/detec.c:30-93 | in every interleaving flows is entries minus exits, the passes counted exceed neither the X edges nor the Y edges nor the completed cycles plus one, and PASSED means an edge on both points since the last clear |
| VehicleCounter.Milliseconds | iMX287Learn/cardet/timer/gettime.c:15-24 | a normalised time of just that many milliseconds |
| VehicleCounter.TimeoutIsOneSecond | iMX287Learn/cardet/detec/detec.c:36-38 | the timeout is one second after the clock iff the clock did not pass a second between its two readings; if it passed one, the timeout is at once |
| VehicleCounter.ComparisonMisses | iMX287Learn/cardet/detec/detec.c:44 | the two-reading comparison misses an expired timeout exactly when the second ends between the readings and the microseconds restart below those of the timeout |
| VehicleCounter.OverdueCycleEnds | iMX287Learn/cardet/detec/detec.c:30-93 | a cycle whose timeout has passed is back in SCAN within three polls, whatever else happens |
| VehicleCounter.ThreePollsAreNeeded | iMX287Learn/cardet/detec/detec.c:39-47 | a poll in which the comparison misses and the cycle goes on waiting |
| VehicleCounter.PassIsCounted | iMX287Learn/cardet/detec/detec.c:39-57 | in PASSED, the step on a copy changes flows by the sign of the stamps of that copy, whatever edges come in between: in if X came first, out if Y did |
| VehicleCounter.WaitPasses | iMX287Learn/cardet/detec/detec.c:39-47 | a waiting cycle goes to PASSED iff both stamps are set at the copy and its timeout has not passed, and to END iff it has, even with both stamps set; neither counts anything, whatever edges come in between |
| VehicleCounter.CycleBegins | iMX287Learn/cardet/detec/detec.c:30-35 | a cycle begins iff a stamp of either point is set at the copy, whatever edges come in between; otherwise nothing changes |
| VehicleCounter.TriggerWaits | iMX287Learn/cardet/detec/detec.c:36-38 | and always waits next, with the timeout of the macro, uncounted |
| VehicleCounter.EndClears | iMX287Learn/cardet/detec/detec.c:57-63 | an ended cycle wipes its stamps and those of the driver, counts nothing and scans again |
| VehicleCounter.EdgeLeadsToWait | iMX287Learn/cardet/detec/detec.c:30-38 | two polls after an edge of either point the cycle waits |
| VehicleCounter.OnePointIsNotCounted | iMX287Learn/cardet/detec/detec.c:29-63 | without an edge of one point nothing is ever counted, in any run |
| VehicleCounter.LoneEdgeIsCleared | iMX287Learn/cardet/detec/detec.c:29-91 | an edge of one point alone is cleared at most three polls after its timeout has passed, uncounted, whatever comes between |
| VehicleCounter.StepSeesCopy | iMX287Learn/cardet/detec/detec.c:66-78 | the step takes the stamps of the copy, not what came since |
| VehicleCounter.WriteBackWipes | iMX287Learn/cardet/detec/detec.c:71-90 | in every run a write-back leaves no stamp and wipes unseen exactly the edges that came since the last copy; none iff none came |
| VehicleCounter.HistoryIsRight | iMX287Learn/cardet/detec/detec.c:71-90 | the history counts the edges behind the last copy of the run |
| VehicleCounter.PassIsLost | iMX287Learn/cardet/detec/detec.c:71-90 | a run in which both edges of a car come between the last step of a cycle and its write-back: three edges, no pass counted, no stamp left |

## Left out

In all components:

- Sockets, epoll, threads, UART, GPIO, kernel registration, shared memory, and the application code around them.
- Failing `malloc`: every allocation succeeds.

Of cJSON:

- Fractions, exponents, numbers beyond int32 and the field `valuedouble`: the parser model answers `Outside` for them.
- JsonScan.ParseStringLiteral: not for strings with a backslash at the end of the text or `\u` without four hex digits, on which the C code may read past the text.
- JsonScan.Measure: not for a backslash at the end of the text, for the same reason.
- JsonScan.DecodeUnicode: not for escapes without four hexadecimal digits, for the same reason.
- JsonScan.ParseInt: numbers that are an int32 without fraction or exponent.
- JsonParser.ParseStringInto: strings as ParseStringLiteral takes them.
- JsonParser.ParseItem: values with such strings and numbers; the error pointer is an out-parameter, not a global, and the decoded text is handed to the node as a value that is never written again.
- JsonParser.ParseArrayInto: items with such strings and numbers.
- JsonParser.FillMember: members with such strings and numbers.
- JsonParser.ParseObjectInto: members with such strings and numbers.
- JsonApi.ParseWithOpts: texts with such strings and numbers.
- JsonMinify.MinifyInPlace: not for a literal or block comment that is never closed, on which the C loop passes the terminator; JsonMinifyMeaning.OverrunsIff says which accepted texts these are.
- JsonMinify.CopyLiteral: not for a literal that is never closed, for the same reason.
- JsonMinify.SkipBlock: not for a block comment that is never closed, for the same reason.
- JsonPrinter.PrintInt: int32 numbers; the others are printed with `%.0f`, `%e` and `%f`.
- JsonPrinter.ComposeArray: the table of entries is a sequence, not memory that is allocated and freed.
- JsonPrinter.ComposeObject: the same for its two tables.
- JsonPrintTree.PrintItem: members and strings must have a text (the C code prints a null one as the empty string) and numbers must be int32.
- `valueint` of a parsed `true` is 1 and of a created one 0; the value of a tree does not count that field for it.
- JsonTreeEdit.AddItemToArray: the array is no reference node; editing the borrowed children of a reference, which their owner cannot see, is not modelled.
- JsonTreeEdit.DetachItemFromArray: the array is no reference node.
- JsonTreeEdit.DeleteItemFromArray: the array is no reference node.
- JsonTreeEdit.ReplaceItemInArray: the array is no reference node.
- JsonTreeNames.AddItemReferenceToArray: the array is no reference node.
- JsonTreeNames.DetachItemFromObject: the object is no reference node.
- JsonTreeNames.DeleteItemFromObject: the object is no reference node.
- JsonTreeNames.ReplaceItemInObject: the object is no reference node.
- JsonTreeNames.AddItemToObject: the object is no reference node, and the item is one item; a chain of several would be named at its first node only.
- Memory.Heap.Free: the text of a freed string can still be named in the model; that nobody reads it is what the demands for live strings, and the count of stray reads, are for.
- Integer overflow of the printer's lengths beyond 2^31, `cJSON_AddItemReferenceToObject`, the `cJSON_Create*` family and the allocation hooks.

Of the MQTT SDK:

- The data-point builder and payload fillers, `Mqtt_EraseLength`, the Append*Topic functions (their flag test never matches the packers), `Mqtt_PackCmdRetPkt`, PINGREQ and DISCONNECT.
- MqttBuffer.Buffer.AllocExtent: sizes that wrap uint32 and tables of 2^28 entries or more; an extent is an object with a place (12 bytes of header, alignment 4, 32-bit pointers) instead of bytes inside the chunk.
- MqttBuffer.Buffer.AppendExtent: for an extent of the same buffer that is not listed yet.
- MqttPack.PackPublish: topics of 65536 bytes or more, whose length would be cut to two bytes, and buffers of 2^32 bytes or 2^24 table entries; the same bounds hold for the other packers.
- MqttPackTopics.CheckTopics: topics of less than 65536 bytes.
- MqttPackTopics.PackUnsubscribe: topics of less than 65536 bytes.
- MqttPackTopics.PackSubscribe: topics of less than 65536 bytes; the length is written before the second allocation rather than after it, which no result shows.
- MqttPackConnect.CheckConnect: the client id is alphanumeric.
- MqttPackConnect.PackConnect: the client id is alphanumeric (its check cannot fire on an unsigned length), `msg_len` is 0 without a will message, and the checks stand before the two allocations.
- MqttDispatch.Endpoint.Conclude: an answer is its encoded bytes; that packing and sending it through memory comes to that is MqttAnswer.Respond.
- MqttDispatch.Endpoint.HandlePublish: the command id, a pointer to the sixth byte of the topic, which for the bare topic `$creq` points behind it, and the constant arguments for time and description.
- MqttFraming.Compact: what lies behind the receive buffer, which the code as written may read, is a parameter.
- MqttFraming.RecvPkt: `read_func` delivers no more than it is given room for, so the overflow code is never returned.
- MqttFraming.AnyCutIsSplit: with the compaction as intended; as written it holds when tails are short, as ReceivePackets says.
- MqttExchange.Qos2Deliveries: no claim under loss or duplication, since the code keeps no session state.
- MqttGrow.AppendLength: for a first extent that has room for a whole header and holds its own payload, as the packers leave it.
- MqttRetry.SetPktDup: for a buffer that holds something; the C code reads the first payload byte without asking.

Of the Modbus code:

- The other functions of comm_sub.c; the tables are laid out sixteen to a row.

Of the vehicle counter:

- Rising edges, which nothing reads, channels beyond the one there is, int overflow of `flows`, and copies torn by an edge in their middle.
- VehicleCounter.OverdueCycleEnds: counts the polls taken; how often the loop polls is up to the scheduler.
