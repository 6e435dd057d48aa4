# Verified model of the JSON library, the sandbox memory access and the directory records

This project models three parts of the repository and proves what they promise.

* `src/json.c`, a JSON parser, printer and tree library in C. The parser moves a cursor over a NUL-terminated
  text in two modes (building a tree, or only validating); the printers write through unchecked pointers into a
  growable buffer; the tree is made of doubly linked child lists that are changed in place.
* The part of `src/sandbox.cpp` that reads and writes the memory of a traced child a word at a time, and the
  scratch allocator on top of it.
* `src/dirent-builder.cpp`, which packs directory entries into self-describing records.

## How it is built

**C memory.** `CMemory.CHeap` holds the live `JsonNode` structs and the live byte blocks by address. Every access
and every `free` demands that the address is live, so a use after free or a double free would not verify; a leak
shows because contracts state the memory after a call exactly (`Built`, `Grown`, `Without`). `Shapes.Shape` is the
ghost tree of addresses of a JSON tree; `Linked` is the representation invariant and `ValueOf` the plain value.

**Specification beside code.** Functions on byte sequences (`Json.ScanValue`, `Printing.Encode`, ...) say what the
C functions compute; the methods that follow the C code statement by statement are proved equal to them
(`Parser`, `Printer`, `StringParser`, `StringPrinter`, `Lexing`); the theorems are lemmas about the functions.
`Grammar` defines sections 2 to 7 of RFC 8259 independently, as derivation trees with a text and a value, over the
character tables of `Rfc8259`, which no scanner uses. Where a function and its inverse could be wrong together
(surrogate pairs, hexadecimal digits, UTF-8, byte order, indentation), lemmas fix them by an order, a table or a rule
of their own.

**Main results**

* The parser accepts exactly the texts of the grammar and builds the value of the derivation
  (`Language.DecodeIffDerivable`).
* On every input a failing parse leaves the cursor and the memory as they were, a succeeding one adds exactly the
  cells of one well-linked tree, and validating gives the same answer (`Parser.ParseValue`, `JsonApi.JsonDecode`,
  `JsonApi.JsonValidate`); the tree passes `json_check` (`JsonApi.DecodedIsWellFormed`).
* Printing and parsing again gives the value back, at any indentation and before any continuation (behind a number,
  any that does not carry it on), exactly when no string or key contains U+001F (`RoundTrip.PrintedValueParses`,
  `RoundTrip.StringifyRoundTrip`).
* The indented text is the compact one with line ends, indentation and blanks put in by a rule that only looks at the
  marks outside strings (`Layout.StringifyIsLaidOut`); what needs no escape is printed as it stands, and with
  `escape_unicode` nothing but ASCII is (`StringEmission.PlainIsVerbatim`, `StringEmission.EscapedIsAscii`).
* UTF-8 keeps the order of strings (`Utf8.EncodingKeepsOrder`), besides being decided, unique and invertible.
* Runs of tree operations of any length keep all trees well linked, disjoint and in possession of every live cell,
  and do to memory what they do to plain values (`Forests.RunRefines`, `Forests.AllDeletedMeansAllFreed`); the
  library's calls are such operations (`TreeApi`).
* Scratch buffers lie in order, word-aligned, and survive all later writes (`ScratchRuns`); directory records read
  back in order (`Dirents.WalkPacked`, `Dirents.DirentBuilder.Data`).

**A finding.** `emit_string` escapes only bytes below 0x1F (`src/json.c:1182`), `parse_string` rejects raw bytes up
to 0x1F (`src/json.c:869`), and section 7 of RFC 8259 demands the escape for U+001F too. So a string with U+001F,
which the parser itself produces from `"\u001f"`, prints as text that does not parse. The model follows the code;
`StringEmission.Has1F` and `RoundTrip.Tainted` are the exact condition, `RoundTrip.UnitSeparatorDoesNotSurvive` the
concrete input.

**A second finding.** In `DirentBuilder::append` a name of 65509 to 65515 bytes makes the loop on `unsigned short`
run for ever, and from 65516 bytes on the wrapped `min_reclen` no longer covers the name (`Dirents.LoopEndsIff`,
`Dirents.LongNameOverruns`, `Dirents.NameFitsIff`).

**A third finding.** `copyString` stops behind a NUL only in its word loop: the last word below the limit is copied
to its end. `ChildMemory.StopsBehindNulIff` is the exact condition for nothing behind the NUL to arrive,
`ChildMemory.CopiesBehindNul` the concrete input, `ChildMemory.Delivered` what the buffer holds in every case.

## Model

| member | source | states |
|---|---|---|
| Language.DecodeIffDerivable | src/json.c:361-377 | json_decode succeeds exactly on the texts that have a derivation in the RFC 8259 grammar, and its result is the value of every such derivation, so the value is unique |
| Language.DecodeSound | src/json.c:361-377 | a derivation for every accepted text |
| Language.DecodeDocument | src/json.c:361-377 | the text of every derivation decodes to its value; with a raw U+001F in it, it is rejected |
| Language.ValueSound | src/json.c:623-691 | parse_value consumes exactly the text of a derivation without raw U+001F and yields its value; a number on its own gets what strtod makes of the text from there on, which is its value unless an x follows |
| Language.ArraySound | src/json.c:693-735 | the same for parse_array behind its bracket, blank space included |
| Language.ObjectSound | src/json.c:737-791 | the same for parse_object behind its brace |
| Grammar.ValueComplete | src/json.c:623-691 | parse_value reads the text of every derivation whole, before any continuation (behind a number on its own, any that does not carry it on), and yields its value, or fails if a raw U+001F is in it; a number on its own gets what strtod makes of the text from there on, which is its value unless an x follows |
| Grammar.ArrayComplete | src/json.c:693-735 | for array texts, before any continuation whatever |
| Grammar.ObjectComplete | src/json.c:737-791 | for object texts, before any continuation whatever |
| Grammar.ItemsComplete | src/json.c:704-722 | the loop of parse_array reads all elements of every array text behind what it already has |
| Grammar.FieldsComplete | src/json.c:749-777 | likewise for the members of an object and the loop of parse_object |
| CStrings.ConstantsAreAscii | src/json.c:623-791 | the marks and keywords are the ASCII codes of their characters |
| CStrings.ClassesOfRfc8259 | src/json.c:328-329 | is_space and is_digit accept exactly the blank space and the digits of RFC 8259 |
| Numbers.ScanSound | src/json.c:910-966 | what parse_number consumes matches the number grammar |
| Numbers.ScanComplete | src/json.c:910-966 | every number is consumed whole if what follows cannot continue it |
| Numbers.ScanLongest | src/json.c:910-966 | no longer prefix of the text is a number |
| Numbers.ContinuesIff | src/json.c:920-966 | a digit, a point and the letters e and E are exactly the bytes in front of which some number is not read to its end |
| Numbers.NumberIsValidIff | src/json.c:1249-1252 | number_is_valid holds for exactly the texts of the number grammar |
| Strings.ScanStringSound | src/json.c:793-908 | what parse_string consumes is a string literal of the grammar, and the result is what it denotes |
| Strings.ScanStringComplete | src/json.c:793-908 | every literal is read to its end with the string it denotes, whatever follows; with a raw U+001F it is rejected |
| Strings.CharsValueValid | src/json.c:793-908 | everything a literal denotes, escapes and surrogate pairs included, is valid UTF-8 |
| StringEmission.EmitStringIsLiteral | src/json.c:1108-1225 | emit_string writes a string literal of the grammar that denotes its argument; it is one RFC 8259 allows exactly when the argument has no U+001F |
| StringEmission.StringRoundTrip | src/json.c:1108-1225 | in both escaping modes, parse_string on the output of emit_string followed by anything returns the string and stops behind the literal, and fails exactly for strings with byte 0x1F |
| StringEmission.EscapingIsTransparent | src/json.c:1110-1193 | characters sent through hex escapes and surrogate pairs are read back as the raw ones |
| StringEmission.EmitStringNulFree | src/json.c:105-110 | printed strings contain no NUL, so the assertion of sb_finish holds |
| StringEmission.ShortEscapeIff | src/json.c:1129-1157 | the two-byte escapes are for exactly seven characters, the solidus not among them, with the letters RFC 8259 gives them |
| StringEmission.VerbatimIff | src/json.c:1182-1210 | a character is written as itself exactly if its first byte is at least 0x1F, no quotation mark or reverse solidus, and, with escape_unicode, ASCII |
| StringEmission.PlainIsVerbatim | src/json.c:1108-1225 | a string of such bytes is printed between quotation marks as it stands |
| StringEmission.EscapedIsAscii | src/json.c:1182-1205 | with escape_unicode only ASCII is written, whatever the string |
| StringEmission.ScanShortEscape | src/json.c:819-842 | behind a reverse solidus parse_string takes each letter of the table in section 7 of RFC 8259 for its character and fails on every other, u aside |
| StringEmission.EveryScalarByEscape | src/json.c:843-867 | every scalar value but zero, written as a hex escape or a pair of them, is read as its UTF-8 encoding |
| Utf8.ValidIffEncoding | src/json.c:206-221 | utf8_validate accepts exactly the concatenations of utf8_write_char outputs for non-zero scalar values |
| Utf8.EncodingInjective | src/json.c:265-297 | that decomposition is unique |
| Utf8.EncodingKeepsOrder | src/json.c:265-297 | encoded strings compare byte by byte as the strings do character by character |
| Utf8.WriteTwo | src/json.c:226-297 | two-byte characters are those of the table in section 3 of RFC 3629, in both directions |
| Utf8.WriteThree | src/json.c:226-297 | likewise of three bytes, without overlong forms and surrogates |
| Utf8.WriteFour | src/json.c:226-297 | likewise of four bytes, up to U+10FFFF |
| Utf8.ReadAfterWrite | src/json.c:226-297 | utf8_read_char and utf8_validate_cz recover any scalar value and its length from what utf8_write_char wrote, whatever follows |
| Utf8.WriteAfterRead | src/json.c:226-297 | writing what was read gives the same bytes, so there are no overlong forms and no surrogates |
| Utf8.ReadAllAfterWriteAll | src/json.c:226-297 | stepping with utf8_read_char recovers the scalar values of a whole string |
| Utf8.ValidateChar | src/json.c:151-203 | the branches of utf8_validate_cz give the character length and read nothing behind the terminator |
| Utf8.Validate | src/json.c:206-221 | the loop of utf8_validate decides validity of the whole string |
| Utf16.FromPairAfterToPair | src/json.c:302-323 | the surrogate pair of a supplementary code point is accepted and gives it back |
| Utf16.ToPairAfterFromPair | src/json.c:302-323 | from_surrogate_pair accepts exactly a high and a low surrogate, and the pair is the only one for its code point |
| Utf16.FromPairIsScalar | src/json.c:302-312 | a pair of surrogates gives the code point UTF-16 assigns to it, the high one counting 0x400 |
| Utf16.PairsKeepOrder | src/json.c:302-312 | the first pair gives U+10000, and later pairs give larger code points |
| Utf16.SurrogatesAreNoScalars | src/json.c:848-855 | what parse_string takes for a surrogate is exactly what is no scalar value, and is either high or low |
| Utf16.HexNumberAfterWrite | src/json.c:1303-1313 | write_hex16 writes four hex digits that denote the value |
| Utf16.ParseHex16 | src/json.c:1270-1297 | the loop of parse_hex16 succeeds exactly on four hex digits, returns their number and otherwise leaves the cursor |
| Utf16.HexNumberOfFour | src/json.c:1277-1292 | of four digits the first counts most |
| Utf16.HexTable | src/json.c:1280-1313 | write_hex16 takes the digits of the upper-case table, parse_hex16 gives those of both tables their place as value |
| Utf16.HexIsInTable | src/json.c:1280-1287 | parse_hex16 takes no other byte for a digit |
| Lexing.SkipSpaces | src/json.c:968-974 | every byte passed is blank space of the grammar and the one the cursor stops at is none |
| Lexing.ExpectLiteral | src/json.c:1254-1264 | the cursor moves behind the literal if the text starts with it and stays otherwise; no byte behind the terminator is read |
| Lexing.LexNumber | src/json.c:920-966 | the cursor code of parse_number refines the number scan; on failure the cursor stays |
| Lexing.ParseNumber | src/json.c:920-966 | the value is what strtod makes of the text from the start of the number on; on failure the cursor stays |
| StringParser.ParseString | src/json.c:793-908 | parse_string refines the literal scan in both modes; four reserved bytes suffice for every write; on failure the cursor stays and no memory is kept, on success exactly one new block holds the string |
| StringParser.ParseChar | src/json.c:815-884 | one character of a literal, at most four bytes, in the buffer or in the throwaway array |
| StringParser.ContentNulFree | src/json.c:105-110 | parsed strings contain no NUL, so the assertion of sb_finish holds |
| Parser.ParseValue | src/json.c:623-691 | in both modes parse_value succeeds exactly if the scan does; the cursor then stops where the scan stops, and stays on failure; the memory afterwards is the memory before plus, on success in build mode, exactly one well-linked tree with the scanned value |
| Parser.ParseArray | src/json.c:693-735 | the same for parse_array, including the deletion of a half-built array |
| Parser.ParseObject | src/json.c:737-791 | the same for parse_object, including the freeing of a pending key |
| Parser.ParseElements | src/json.c:704-722 | the loop of parse_array: the array holds the elements parsed so far, also on failure |
| Parser.ParseMembers | src/json.c:749-777 | the loop of parse_object: the object holds the members parsed so far, also on failure |
| Parser.ParseKey | src/json.c:750-757 | a key in its own block, freed if no colon follows |
| Parser.Discard | src/json.c:732-734 | deleting a half-built tree gives the memory before the call back |
| JsonApi.JsonDecode | src/json.c:361-377 | NULL and an unchanged memory, trailing garbage included, or exactly the cells of a tree for the decoded value are new |
| JsonApi.JsonValidate | src/json.c:433-446 | true exactly if json_decode succeeds, without touching the memory |
| JsonApi.DecodedIsWellFormed | src/json.c:361-377 | what json_decode builds is a tree that json_check accepts |
| JsonApi.JsonStringify | src/json.c:394-405 | one new block holds the printed text, nothing else changes |
| JsonApi.JsonEncode | src/json.c:379-382 | one new block holds the compact text |
| JsonApi.JsonEncodeString | src/json.c:384-392 | one new block holds the literal of the string |
| RoundTrip.PrintedValueParses | src/json.c:976-1106 | compact or indented text of any level, before any continuation (behind a printed number, any that does not carry it on), parses to the value with every number printed and rescanned, and fails exactly if a string or key contains U+001F; a printed number on its own gets what strtod makes of it and the rest, which is the rescanned one unless an x follows |
| RoundTrip.StringifyRoundTrip | src/json.c:361-405 | json_decode after json_stringify, exactly |
| RoundTrip.PrettyPreservesMeaning | src/json.c:394-405 | indenting with any blank space decodes to the same as the compact text |
| RoundTrip.EmitNumberIsValue | src/json.c:1227-1242 | what emit_number writes is a JSON value of its own, for every double |
| RoundTrip.UnitSeparatorDoesNotSurvive | src/json.c:1182 | the one-byte string 0x1F is what the text "\u001f" decodes to, it is valid, and it prints as text that does not decode |
| RoundTrip.EncodeIsText | src/json.c:976-1080 | the compact text of a value is the text of a derivation |
| RoundTrip.PrettyIsText | src/json.c:1003-1106 | the indented text of a value is the text of a derivation |
| Layout.IndentIs | src/json.c:1055-1062 | the indentation at a level is that many copies of the space string |
| Layout.PrettyIsLaidOut | src/json.c:1003-1106 | at every level and for every space string, the indented text is what the layout rule makes of the compact text |
| Layout.StringifyIsLaidOut | src/json.c:394-405 | the same for json_stringify with and without a space string |
| PrintedText.StringifyNulFree | src/json.c:105-110 | printed text contains no NUL |
| PrintedText.DecodedIsChecked | src/json.c:1315-1337 | decoded values have valid UTF-8 in every string and key |
| StringBuffer.AmortisedRun | src/json.c:56-103 | after any run of puts the buffer holds their concatenation, its capacity is 16 times a power of two and below twice the contents unless it never grew, and all growths together copied at most capacity - 16 bytes |
| StringBuffer.SB.constructor | src/json.c:56-63 | an empty buffer of capacity 16 in a new block |
| StringBuffer.SB.Grow | src/json.c:71-85 | the contents move unchanged to a capacity that is enough and less than twice what is needed |
| StringBuffer.SB.Need | src/json.c:65-69 | grows exactly if there is no room, contents unchanged |
| StringBuffer.SB.Put | src/json.c:87-92 | appends the bytes, as one step of the run |
| StringBuffer.SB.PutChar | src/json.c:94-98 | appends one byte, as one step of the run |
| StringBuffer.SB.Finish | src/json.c:105-110 | the block is a C string with the contents, whose length is the cursor's offset |
| StringBuffer.SB.Release | src/json.c:112-115 | the memory without the buffer |
| StringPrinter.EmitStringText | src/json.c:1108-1225 | emit_string writes its literal; every unchecked write stays inside the 14 reserved bytes |
| StringPrinter.WriteChar | src/json.c:1124-1216 | one character takes at most twelve bytes |
| Printer.EmitValue | src/json.c:976-1001 | emit_value on a tree in memory appends the compact text of its value and changes nothing else |
| Printer.EmitArray | src/json.c:1030-1041 | the same for emit_array, following the next pointers |
| Printer.EmitObject | src/json.c:1067-1080 | the same for emit_object |
| Printer.EmitValueIndented | src/json.c:1003-1028 | emit_value_indented appends the indented text |
| Printer.EmitArrayIndented | src/json.c:1043-1065 | the same for emit_array_indented |
| Printer.EmitObjectIndented | src/json.c:1082-1106 | the same for emit_object_indented |
| Printer.EmitNumberText | src/json.c:1227-1242 | the printed number, or null if it is no number |
| ChildLists.AppendRefines | src/json.c:536-547 | append_node's assignments turn the child sequence s into s + [c]; value, invariant and frame follow |
| ChildLists.PrependRefines | src/json.c:549-560 | prepend_node's turn it into [c] + s |
| Removal.UnlinkRefines | src/json.c:601-621 | json_remove_from_parent takes exactly that child out; the child is a tree of its own with the same value and no key; only the touched cells change |
| Removal.DeleteChildRefines | src/json.c:407-431 | json_delete on a child leaves the rest of the tree well linked with exactly that child removed, and no cell outside the tree changes |
| Nodes.AppendNode | src/json.c:536-547 | the method refines the sequence operation |
| Nodes.PrependNode | src/json.c:549-560 | the method refines the sequence operation |
| Nodes.AppendMember | src/json.c:562-566 | a member with the key comes last; the key's block becomes part of the tree |
| Nodes.RemoveFromParent | src/json.c:601-621 | the memory is the one UnlinkRefines speaks about |
| Nodes.JsonDelete | src/json.c:407-431 | terminates and frees exactly the addresses of the subtree, each while it is live, although children unlink themselves during the loop |
| Nodes.FreeChildren | src/json.c:417-425 | the loop of json_delete leaves an empty container and frees exactly the children's cells |
| Documents.AppendAnywhere | src/json.c:536-547 | on a container at any depth: the whole document stays well linked and its value is edited at that place only |
| Documents.PrependAnywhere | src/json.c:549-560 | likewise for prepend_node |
| Documents.RemoveAnywhere | src/json.c:601-621 | likewise for removal of any node below the root; the removed tree shares no cell with the document |
| Documents.DeleteAnywhere | src/json.c:407-431 | likewise for deletion of any node below the root |
| Forests.StepKeeps | src/json.c:407-621 | every operation keeps all trees well linked, disjoint and owning every live cell, and acts on the memory as on plain values |
| Forests.RunRefines | src/json.c:407-621 | the same for runs of any length from any such state |
| Forests.AllDeletedMeansAllFreed | src/json.c:407-431 | a run from empty memory that ends without trees ends with empty memory |
| Forests.ReachableIsTidy | src/json.c:407-621 | the state after any run from empty memory satisfies the invariant |
| TreeApi.JsonMkNull | src/json.c:495-498 | one new node, a tree for null |
| TreeApi.JsonMkBool | src/json.c:500-505 | a new tree for the truth value, nothing else changes |
| TreeApi.JsonMkString | src/json.c:507-517 | a new node and a new block, a tree for the string |
| TreeApi.JsonMkNumber | src/json.c:519-524 | a new tree for the number |
| TreeApi.JsonMkArray | src/json.c:526-529 | a new tree for the empty array |
| TreeApi.JsonMkObject | src/json.c:531-534 | a new tree for the empty object |
| TreeApi.JsonStrdup | src/json.c:38-45 | one new block holds the string and its terminator |
| TreeApi.JsonAppendElement | src/json.c:568-574 | the memory of the step that StepKeeps is about, on a container anywhere in a forest |
| TreeApi.JsonPrependElement | src/json.c:576-582 | likewise |
| TreeApi.JsonAppendMember | src/json.c:584-590 | likewise; the key is a fresh copy |
| TreeApi.JsonPrependMember | src/json.c:592-599 | likewise; the key is a fresh copy |
| TreeApi.JsonRemoveFromParent | src/json.c:601-621 | likewise for any node below a root |
| TreeApi.JsonDeleteNode | src/json.c:407-431 | likewise for any node below a root |
| TreeApi.JsonDeleteTree | src/json.c:407-431 | likewise for a root |
| NodeQueries.JsonFirstChild | src/json.c:479-484 | the first child of a well-linked tree; NULL without children and for every other node |
| NodeQueries.JsonFindElement | src/json.c:448-463 | the child at the index, NULL outside the list and for non-arrays |
| NodeQueries.JsonFindMember | src/json.c:465-477 | the first child with the key, NULL if there is none and for non-objects |
| NodeQueries.JsonCheck | src/json.c:1315-1383 | on every finite tree that can be walked, json_check answers exactly whether it is well linked, keyed and encoded |
| NodeQueries.LinkedIsWalkable | src/json.c:1315-1383 | every well-linked tree can be walked |
| ChildMemory.Sandbox.PeekData | src/sandbox.cpp:344-350 | the word at any mapped address |
| ChildMemory.Sandbox.PokeData | src/sandbox.cpp:480-483 | changes exactly the eight bytes of the word |
| ChildMemory.Sandbox.WriteData | src/sandbox.cpp:507-527 | changes exactly the bytes at addr to addr + length, for every length and alignment, although whole words are written |
| ChildMemory.Sandbox.CopyString | src/sandbox.cpp:366-394 | stops behind a NUL found before the last word, else delivers all maxLength bytes, and leaves the rest of the buffer alone; only mapped words are read |
| ChildMemory.StopsBehindNulIff | src/sandbox.cpp:366-394 | nothing behind the first NUL arrives exactly if that NUL lies before the last word, or at the last byte of the limit or beyond |
| ChildMemory.CopiesBehindNul | src/sandbox.cpp:366-394 | a NUL and one more byte with a limit of 2: both arrive |
| ChildMemory.StoredStringIsCopied | src/sandbox.cpp:366-394 | the C string at the address arrives whole if it fits, else its first maxLength bytes |
| ChildMemory.WriteThenCopy | src/sandbox.cpp:366-527 | copyString recovers the C string that writeData stored |
| ChildMemory.Sandbox.WriteScratch | src/sandbox.cpp:487-499 | one step of the allocator: the buffer is stored at the old segment address, the next one starts on the following word boundary |
| ChildMemory.Sandbox.ResetScratch | src/sandbox.cpp:501-505 | the next segment is the scratch area's start again |
| ScratchRuns.AddressIsNext | src/sandbox.cpp:487-499 | the address of the k-th write is the segment pointer after the first k writes |
| ScratchRuns.RegionsAreOrdered | src/sandbox.cpp:487-499 | the regions of a run are disjoint and ordered; each later one is word-aligned and less than a word behind its predecessor |
| ScratchRuns.EveryBufferIntact | src/sandbox.cpp:487-527 | after the whole run every buffer reads back intact |
| ScratchRuns.OutsideUntouched | src/sandbox.cpp:487-527 | no byte outside the regions changes |
| ScratchRuns.ScratchStringSurvives | src/sandbox.cpp:366-527 | a string written to scratch comes back through copyString after any later writes |
| Dirents.DirentBuilder.constructor | src/dirent-builder.cpp:7-10 | an empty builder with the start offset |
| Dirents.DirentBuilder.Append | src/dirent-builder.cpp:13-31 | appends exactly the record of the name, type, offset and inode, and advances both counters |
| Dirents.DirentBuilder.Data | src/dirent-builder.cpp:33-36 | a reader that walks the buffer finds everything appended, in order |
| Dirents.DirentBuilder.RecordLength | src/dirent-builder.cpp:14-20 | the loop ends with the least record length |
| Dirents.WalkPacked | src/dirent-builder.cpp:13-31 | walking by d_reclen ends exactly at the end and finds names, types, consecutive offsets and inodes in order |
| Dirents.RecLenIsLeast | src/dirent-builder.cpp:14-20 | no smaller multiple of 8 from 24 on holds the name, its NUL and the type |
| Dirents.NameFitsIff | src/dirent-builder.cpp:14-20 | in unsigned short arithmetic the loop ends in a record that holds the name exactly for names of at most 65508 bytes |
| Dirents.LoopEndsIff | src/dirent-builder.cpp:14-20 | the loop ends exactly if the wrapped min_reclen is at most 65528 |
| Dirents.LongNameOverruns | src/dirent-builder.cpp:14-20 | beyond 65508 bytes no record length covers the name, and at 65516 bytes the loop ends at once with a record of 24 bytes |
| Dirents.LoopsForever | src/dirent-builder.cpp:14-20 | from 65509 to 65515 bytes the loop does not end |
| Dirents.NameSurvivesIff | src/dirent-builder.cpp:13-31 | the reader finds the whole name in its record exactly if the name contains no NUL |
| Dirents.NumbersAreDistinct | src/dirent-builder.cpp:25-26 | different records have different inodes and offsets |
| Dirents.NumberOfBytes | src/dirent-builder.cpp:25-27 | reading a stored integer gives it back modulo its width |
| Dirents.ByteAt | src/dirent-builder.cpp:25-27 | integers are stored lowest byte first |
| Dirents.RecordLayout | src/dirent-builder.cpp:21-30 | inode, offset and length lie at 0, 8 and 16, the name at 18, then zeros, and the type in the last byte |

## Left out

- `strtod` and `sprintf("%.16g")`: uninterpreted functions. Of `strtod` only this is assumed, which is its behaviour in a locale with `.` as the decimal point: given a number of the grammar before anything but a digit, `.`, `e`, `E`, `x` or `X`, it returns what it returns for the number alone; of `sprintf`, that its output is a C string. Number values are not claimed to survive printing. Rescanned says what becomes of them.
- Other builds than 64-bit ones: the words of `src/sandbox.cpp` have 8 bytes and the header of a directory record has 18.
- `out_of_memory`, stack depth, and `int` or `size_t` overflow for buffers near 2^31 bytes: allocation succeeds and sizes are mathematical. Only the `unsigned short` of the directory records wraps.
- The C memory is a map of cells by address and not Dafny objects, because Dafny objects cannot be freed. Aliasing, update in place, and freeing are part of the model; the union members of a node are kept apart, and `tag_is_valid` is left to the type.
- Bit operations of the UTF-8, UTF-16 and hex code are written as the arithmetic they equal on bytes.
- The input text is a NUL-free byte sequence with an index for the cursor; reading at the index of the terminator yields 0 and reading further does not verify.
- The replacement of invalid UTF-8 in `emit_string`: it lies behind the `utf8_validate` assertion, which is a precondition here.
- `json_check`'s messages, and its answers on cyclic or shared structures: it is modelled on finite trees whose cells are not shared and whose strings are terminated.
- Dirents.DirentBuilder.Append: demands names of at most 65508 bytes, because for longer ones the C++ code loops for ever or writes outside its record; Dirents.NameFitsIff shows that the bound is exact. Overflow of the `int` counters after 2^31 entries is not modelled.
- ChildMemory.Sandbox.WriteData: ptrace failures and `errno` are not modelled; the words that are touched are mapped, and addresses do not wrap around.
- `copyData`, which writes whole words even past the requested length, and the rest of `src/sandbox.cpp`: fork, ptrace control, seccomp rules, signals, libuv.
- `src/codius-util.c`, the virtual file system, the Node bindings and the JavaScript side: input and output, or wrappers around foreign calls.
