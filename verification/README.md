# A verified model of the VPN system

The project models, in Dafny, the two parts of the repository that carry its algorithms: the
JSON engine that the Windows client is built with, and the lease management of the server.

## The JSON engine

Strings are sequences of nonzero bytes, numbers are reals, a tree is a value of the type `Json`.
`Render` and `ParseSpec` say what text a tree has and what tree a text has. `Printer` and
`Parser` are the imperative halves: a byte buffer that grows on demand, with its explicit offset
bumps and its `strlen` updates, and a cursor with its step back behind trailing blanks. They are
proved to compute `Render` and `ParseSpec`, and `RoundTrip` proves that parsing undoes printing.
`PrintApi` and `ParseApi` are the entry points.

What `ParseSpec` and `Render` compute is measured against definitions that do not call them and are
written out in character codes. `JsonGrammar`, with `StringGrammar` and `NumberGrammar`, is the
grammar of RFC 8259 as a relation between an input, a place in it and a value, with a strict form
and the form that the source admits: the parser reads a value exactly where one stands.
`PrintLayout` is the printed text, compact and formatted. `MinifyPieces` splits a text into what
minification keeps and what it drops.

- `Utf8` decodes `\uXXXX` escapes into UTF-8 with the masks and shifts of the source, which
  `Bits` gives an arithmetic meaning. The result is compared with section 2 of RFC 2781 and
  sections 3 and 4 of RFC 3629.
- `Strings` is about the two scans over a string literal. The first sizes the output, the second
  fills it, and the two can disagree about which backslash starts an escape.
- `Minify` overwrites a text in place; `MinifyPrint` says exactly when that turns formatted text
  into compact text.
- `Compare` is about what comparison decides, down to the tolerance for numbers; `ItemList` about the doubly linked children, where
  the `prev` of the head is the tail. `NodeTree` ties such nodes to the value they stand for and
  copies trees of them; `NodeCompare` compares them.

What the proofs found:

- Beyond RFC 8259 the parser takes quotes and control characters as plain bytes of a literal, any
  byte up to 32 for a blank, zeros in front of other digits, a point without digits on one side,
  and, behind `\u`, four characters that are not all digits for U+0000. After such characters the
  two scans over a literal can disagree, and the last escape can take the closing quote along.
- A literal whose text ends in a backslash is printed with two backslashes, and the minifier
  takes the second one and the closing quote for an escaped quote. Minifying formatted text gives
  compact text exactly when no such string stands anywhere but at the very end.
- Comparison is not reflexive. A tree compares equal to its own copy exactly when members that
  repeat a key repeat its value.
- `cJSON_PrintPreallocated` needs the text and two bytes. The header (`cJSON.h:168`) asks for
  five more than needed.

## The server

`Ipv4` and `IpPool` are the address pool: CIDR arithmetic, dotted texts, and a bitmap that
refines a set. `Ownership`, `Lease`, `LeaseSafety` and `LeaseRuns` are the lease machine. Its
state is the marked addresses, the peers of the interface, the session table, the clock, the work
list of the reaper and what the serving thread has in hand. Its steps are single effects: taking
an address, adding a peer, inserting a row, and so on, each of which may fail where the source
handles a failure. The serving thread runs one request at a time, the reaper runs beside it, and
either may be between any two of its effects when the other moves. The process may restart in any
state. `LeaseLimits` is about the cap and the length of leases, `LeaseProgress` and `LeaseBacklog`
about what the reaper gets done, `LeaseRaces` and `LeaseExactness` about the runs that go wrong,
`LeaseGrace` about the grace period, `LeaseServing` about requests that are served whole, `LeaseLive`
about what a live session is for status, logout and the cap. `Server` implements the handlers, the
reaper and the start over the concrete bitmap, peers and rows with addresses as texts. Each of them
states its answer and its effect in terms of the rows, the peers and the marks, and is a run of that
machine; `ServerTables` ties the two together. `RateLimit` is the table of failed logins, `RateTable`
what it does slot by slot, `RateTraces` what it does not do.

A session owns its address from the moment it is taken until it is released, and its peer from
the moment it is added until it is removed, whenever the row is inserted or revoked. With nothing
half done this is the plain statement: the unrevoked sessions, the marked hosts and the peers
correspond one to one.

What the proofs found:

- Down to single effects and with any grace period, ownership is exact and sessions are conserved
  in every run in which no session comes into the hands of both threads: no sweep lists the
  session that a logout has in hand, and no logout takes a session that the sweep has listed.
- This is exact. Any other event can be followed by a run, in order otherwise, after which the
  counts are wrong, and by one after which two unrevoked sessions hold one address. Only for
  ownership there is one exception: a logout may take the session whose address the reaper has
  just released, as long as nobody else has got it.
- Such events occur. A logout checks the expiry, the second ticks over, and the sweep lists the
  session: this takes two threads between two effects, and no grace period. Or a listed session
  is renewed and then logged out: this takes a grace period, and requests served whole do it. The
  source has no lock against either.
- Requests served whole keep ownership exact in every run without a grace period, also between
  two sessions of a sweep.
- The cap of five active sessions holds in every run, however the threads meet, if and only if the
  grace period is 0. With a grace period nothing but the pool bounds the number of sessions:
  expired ones do not count when a login checks the cap, and are renewed behind it. That no lease
  runs longer than a fresh one, and that no expiry ever falls, holds in every run.
- The reaper keeps up as long as fewer than one hundred sessions newly expire from one of its
  wake-ups to the next, whatever is served in between.
- The limiter is sound. For each client it is complete for the window it keeps, as long as the
  client found a slot at its failures and no check of another client leaves a gap before its live
  entry; a check that does leave one lets it have a second entry and stay free. And the window does
  not slide, so five failures in ten minutes need not limit a client.

## Reading order

`Bytes`, `Bits`, `Sets`, `Json`; then `Utf8`, `Strings`, `Numbers`, `Render`, `Printer`,
`PrintLayout`, `PrintApi`, `ParseSpec`, `Parser`, `StringGrammar`, `NumberGrammar`, `JsonGrammar`,
`ParseApi`, `RoundTrip`; `Minify`, `MinifyPieces`, `MinifyPrint`; `Compare`; `ItemList`, `NodeTree`,
`NodeCompare`. On the server side `Ipv4`, `IpPool`, `Ownership`, `Lease`, `LeaseLimits`,
`LeaseSafety`, `LeaseRuns`, `LeaseLive`, `LeaseProgress`, `LeaseBacklog`, `LeaseRequests`,
`LeaseRaces`, `LeaseExactness`, `LeaseGrace`, `LeaseServing`, `RateLimit`, `RateTable`, `RateTraces`,
`ServerTables`, `Server`. The command `dafny verify dfyconfig.toml` checks all of it.

## Assumptions

The clock does not go back. A key that is in the table is never generated again. Encoding a key
and decoding it are inverse. Removing a peer, releasing an address, and updating a row succeed;
adding a peer and inserting a row may fail. The interface has no dynamic peers after a restart. The
token column of the session table is unique, as the schema says (`db.c:48`).

## Model

| member | source | states |
|---|---|---|
| `Utf8.EncodeIsUniqueForm` | windows/client/src/cJSON.c:757-796 | the bytes written for a scalar value are the only octet sequence that the grammar of section 4 of RFC 3629 accepts for it |
| `Utf8.SurrogatePair` | windows/client/src/cJSON.c:733-752 | two code units are the UTF-16 form of a scalar value (section 2.1 of RFC 2781) exactly when they are a high and a low surrogate that combine to it (section 2.2) |
| `Utf8.LiteralMeetsStandards` | windows/client/src/cJSON.c:703-821 | with well-formed hexadecimal digits an escape decodes to the UTF-8 bytes of a scalar value exactly when its one or two code units are the UTF-16 form of that value |
| `Utf8.RejectedExactly` | windows/client/src/cJSON.c:703-752 | an escape is refused exactly when it is cut short or its code units are the UTF-16 form of no scalar value; what is accepted is always the UTF-8 form of the scalar value it escapes |
| `Utf8.ParseHex4` | windows/client/src/cJSON.c:666-699 | the shift loop gives the value of four hexadecimal digits, and 0 when one of them is not a digit |
| `Utf8.ReadCodepoint` | windows/client/src/cJSON.c:703-752 | the code point and the consumed length, or 0, for every input and every end of input |
| `Utf8.EncodeInto` | windows/client/src/cJSON.c:754-807 | the masking loop that runs from the last byte to the first writes the RFC 3629 form and touches no other byte |
| `Utf8.Utf16LiteralToUtf8` | windows/client/src/cJSON.c:703-821 | consumed length, new write position and written bytes of one escape; the rest of the output is untouched |
| `Strings.SizingIsSound` | windows/client/src/cJSON.c:837-928 | on every input, text and terminator need strictly less than the first scan allocated, also where the two scans disagree about which backslash starts an escape |
| `Strings.DecodedFits` | windows/client/src/cJSON.c:867-921 | from every position of the second scan, with or without being in the middle of an escape of the first, the bytes still to come fit in the room still left |
| `Strings.RoomForStep` | windows/client/src/cJSON.c:871-920 | one round of the second scan, with 1, 2, 6 or 12 characters read and up to 4 bytes written, uses no more room than the first scan counted for those characters |
| `Strings.ScanFindsQuote` | windows/client/src/cJSON.c:841-858 | behind the escaped form of any text, the first scan stops at the closing quote and at no earlier one |
| `Strings.DecodeEscape` | windows/client/src/cJSON.c:867-921 | decoding the escaped form of any NUL-free text gives the text back, control characters and bytes from 0x80 on included |
| `Strings.ScanEnd` | windows/client/src/cJSON.c:841-858 | the first scan ends on a quote inside the input |
| `Strings.DecodeString` | windows/client/src/cJSON.c:867-921 | a failing decode reports a position inside the literal |
| `StringGrammar.StringsAreLiterals` | windows/client/src/cJSON.c:824-951 | a string is read exactly where a literal stands, with the text that it says: the literal ends at the first quote that no backslash protects, and splits into plain bytes, the eight two-character escapes, \u forms outside the surrogates and surrogate pairs, which stand for themselves, the listed bytes and the UTF-8 of the scalar value; the text is all of that up to a NUL. What is admitted beyond section 7 of RFC 8259 is named: quotes and control characters as plain bytes, four characters that are not all digits for U+0000, a last escape that takes the closing quote along |
| `StringGrammar.DecodingStandsFor` | windows/client/src/cJSON.c:867-921 | the second scan yields just the bytes for which some such pieces between the quotes stand |
| `StringGrammar.ScanEndCloses` | windows/client/src/cJSON.c:841-858 | the first scan stops at the first quote that is not behind a backslash that is not behind one itself |
| `StringGrammar.AllocationSpelled` | windows/client/src/cJSON.c:841-862 | the block asked for is the literal with its quotes, less one byte for each backslash that is not escaped |
| `StringGrammar.StrictLiteralIsRead` | windows/client/src/cJSON.c:824-951 | every literal of section 7 of RFC 8259 is read, to its closing quote, as what its pieces stand for |
| `StringGrammar.PrintedIsStrict` | windows/client/src/cJSON.c:954-1073 | every printed literal is one of RFC 8259 whose pieces stand for the text |
| `Numbers.StrtodOfInt` | windows/client/src/cJSON.c:307-372 | reading the decimal text of any integer gives that integer and uses the whole text |
| `Numbers.SpanOfNumber` | windows/client/src/cJSON.c:325-352 | the number characters collected at a printed number are exactly its text |
| `Numbers.IntTextLength` | windows/client/src/cJSON.c:602-618 | the text of a 32-bit integer has at most 11 characters, so it fits the number buffer |
| `NumberGrammar.NumbersAreRead` | windows/client/src/cJSON.c:307-409 | a number is read exactly as far as it stands: a minus or none, digits, a point with digits, an exponent, each as far as it goes and at least one digit in all; its value is the digits as one integer with the point moved over the places behind it and by the exponent |
| `NumberGrammar.IntegersArePrinted` | windows/client/src/cJSON.c:602-618 | the printed text of an integer is a number of section 6 of RFC 8259 with that value, in digits only, without a zero in front |
| `Json.ValueIntOfInt` | windows/client/src/cJSON.c:374-388 | an integer within the 32-bit range is kept by the saturating conversion |
| `Json.ValueIntSpelled` | windows/client/src/cJSON.c:374-388 | out of the range of 32 bits the nearest end is kept, inside it the next integer toward zero |
| `Printer.PrintBuffer.Ensure` | windows/client/src/cJSON.c:490-574 | grants a request exactly when the offset, the request and one more byte stay within the limit (and allocation did not fail); the printed text survives both ways of growing |
| `Printer.PrintBuffer.UpdateOffset` | windows/client/src/cJSON.c:576-586 | moves the offset to the end of the text that was stored behind it |
| `Printer.PrintBuffer.CountEscapes` | windows/client/src/cJSON.c:976-1002 | the counted extra characters are exactly what escaping adds |
| `Printer.PrintBuffer.StoreEscaped` | windows/client/src/cJSON.c:1022-1069 | the escaping loop leaves exactly the escaped text behind the prefix |
| `Printer.PrintBuffer.PrintNumber` | windows/client/src/cJSON.c:596-663 | prints the "%d" text of a 32-bit number, or fails when the limit is short |
| `Printer.PrintBuffer.PrintStringPtr` | windows/client/src/cJSON.c:954-1073 | leaves the quoted, escaped text behind the prefix, or fails exactly when it does not fit |
| `Printer.PrintBuffer.PrintValue` | windows/client/src/cJSON.c:1423-1494 | succeeds exactly when the rendering fits the limit and the nesting is in bounds, and leaves prefix, rendering and terminator in the buffer; depth is restored |
| `Printer.PrintBuffer.PrintArray` | windows/client/src/cJSON.c:1595-1659 | the same for arrays |
| `Printer.PrintBuffer.PrintItems` | windows/client/src/cJSON.c:1616-1645 | the loop leaves the rendering of all items behind the bracket |
| `Printer.PrintBuffer.PrintMember` | windows/client/src/cJSON.c:1819-1873 | one round of the loop over members leaves indentation, key, colon, value, comma and line end |
| `Printer.PrintBuffer.PrintMembers` | windows/client/src/cJSON.c:1814-1876 | the loop leaves the rendering of all members behind the brace |
| `Printer.PrintBuffer.PrintObject` | windows/client/src/cJSON.c:1780-1896 | the same as for values, for objects |
| `PrintApi.PrintPreallocated` | windows/client/src/cJSON.c:1348-1365 | never allocates, succeeds exactly when length is at least text + 2 and nesting at most 1000, and then leaves the text and its terminator in the buffer, laid out as in PrintLayout |
| `PrintApi.Print` | windows/client/src/cJSON.c:1239-1315 | the text as laid out in PrintLayout and its terminator in a block of just that size, exactly when every allocation asked for is granted, the text and two bytes fit an int, and nesting is at most 1000; it does not depend on how the buffer grew |
| `PrintApi.PrintBuffered` | windows/client/src/cJSON.c:1317-1346 | the same text from every initial size, under the same condition; nothing for a negative size |
| `PrintLayout.PrintedText` | windows/client/src/cJSON.c:1423-1896 | the printed text, flags and depth counters resolved: compact text joins items and members by commas; formatted text puts a blank behind the comma of an item, every member on a line of its own behind as many tabs as objects and arrays are open, a tab behind its colon, and the closing brace on a line of its own |
| `PrintLayout.CharIs` | windows/client/src/cJSON.c:1033-1066 | what is printed for each of the 255 characters |
| `ParseSpec.ParseValue` | windows/client/src/cJSON.c:1368-1420 | total on every input, offset and depth: success moves strictly forward and stays inside the input, failure reports an offset inside it |
| `ParseSpec.SkipBlanks` | windows/client/src/cJSON.c:1090-1113 | skipping never moves back before its start, and from inside the input never leaves it |
| `ParseSpec.ParseText` | windows/client/src/cJSON.c:1147-1224 | the reported end or error position lies inside the input |
| `Parser.ParseBuffer.SkipWhitespace` | windows/client/src/cJSON.c:1090-1113 | the loop with its step back ends where the specification says |
| `Parser.ParseBuffer.ParseNumber` | windows/client/src/cJSON.c:307-409 | takes the longest numeric prefix of the collected characters, and moves on by just that |
| `Parser.ParseBuffer.FindEnd` | windows/client/src/cJSON.c:834-858 | finds the closing quote and counts the escapes passed |
| `Parser.ParseBuffer.DecodeInto` | windows/client/src/cJSON.c:867-921 | the second scan stays inside its allocation on every input and writes exactly the decoded bytes |
| `Parser.ParseBuffer.ParseString` | windows/client/src/cJSON.c:824-951 | accepts, rejects, and moves the offset as the specification says; every write is inside the block that was asked for |
| `Parser.ParseBuffer.ParseValue` | windows/client/src/cJSON.c:1368-1420 | terminates on every input, equals the specification in value, end and error offset, and restores depth on success |
| `Parser.ParseBuffer.ParseArray` | windows/client/src/cJSON.c:1497-1592 | the same for arrays, with the offset stepped back in front of each item |
| `Parser.ParseBuffer.ParseItems` | windows/client/src/cJSON.c:1530-1570 | the loop builds exactly the specified sequence of items |
| `Parser.ParseBuffer.ParseObject` | windows/client/src/cJSON.c:1662-1777 | the same for objects |
| `Parser.ParseBuffer.ParseMembers` | windows/client/src/cJSON.c:1695-1755 | the loop builds exactly the specified sequence of members, duplicates included |
| `ParseApi.ParseText` | windows/client/src/cJSON.c:1147-1224 | byte order mark, blanks, value and the optional demand that only the terminator follows |
| `ParseApi.Parse` | windows/client/src/cJSON.c:1131-1145 | a C string is accepted exactly when a text of the grammar of JsonGrammar stands at its start, and only as the value of that text |
| `JsonGrammar.ValuesAreRead` | windows/client/src/cJSON.c:1368-1777 | a value is read at an offset exactly when one stands there, and ends where it ends: the words, numbers and literals, brackets around items between commas, braces around members with a colon and between commas, blanks in between, nothing after a last comma, at most 1000 containers open |
| `JsonGrammar.TextsAreRead` | windows/client/src/cJSON.c:1147-1196 | an input is accepted exactly when blanks and a value stand at its start, behind a byte order mark if more than four bytes follow its first |
| `JsonGrammar.TerminatedTextsAreRead` | windows/client/src/cJSON.c:1183-1191 | with the terminator demanded exactly when, besides, everything behind the value is blank and the last byte is the terminator |
| `JsonGrammar.StandardTextsAreRead` | windows/client/src/cJSON.c:1147-1224 | every text of RFC 8259 that opens at most 1000 containers at a time is read as its value |
| `RoundTrip.ValueRoundTrip` | windows/client/src/cJSON.c:1423-1494 | wherever the text of a value stands in an input, the parser returns that value and stops right behind the text |
| `RoundTrip.TextRoundTrip` | windows/client/src/cJSON.c:1147-1224 | parsing compact or formatted text, followed by anything that does not continue a number, gives back the same tree: member order, duplicate keys, control characters and high bytes |
| `RoundTrip.PrintedRoundTrip` | windows/client/src/cJSON.c:1307-1315 | the same for a printed C string, also under the demand that nothing but the terminator follows |
| `RoundTrip.TextIsInjective` | windows/client/src/cJSON.c:1423-1494 | no two trees print alike, not even in different formats |
| `RoundTrip.ParsedNesting` | windows/client/src/cJSON.c:1497-1505 | the parser never builds a tree that is too deep for the printer |
| `RoundTrip.AcceptedTextNormalises` | windows/client/src/cJSON.c:1147-1224 | for whatever text the parser accepts with integer numbers, printing the tree and parsing again gives the same tree |
| `Minify.MinifyInPlace` | windows/client/src/cJSON.c:2924-2970 | overwrites any C string in place with its minified form, touches nothing behind it, and never writes ahead of its reading |
| `Minify.MinifyString` | windows/client/src/cJSON.c:2902-2922 | copies one string literal, whether or not it is closed |
| `Minify.SkipLineComment` | windows/client/src/cJSON.c:2875-2886 | ends behind the line, or at the terminator |
| `Minify.SkipBlockComment` | windows/client/src/cJSON.c:2888-2900 | ends behind the comment, or at the terminator |
| `Minify.MinifiedTwice` | windows/client/src/cJSON.c:2924-2970 | minifying is idempotent on every text |
| `MinifyPieces.MinifiedIsKept` | windows/client/src/cJSON.c:2875-2970 | every text splits into blanks, comments, single slashes, literals and other characters, and however it splits, its minified form is the literals and the other characters, in order and as they are; a literal ends at the first quote without a backslash right in front |
| `MinifyPrint.ValueMinified` | windows/client/src/cJSON.c:2902-2970 | minifying the formatted text of a value in front of any rest: equal to the compact text and the minified rest when no string ends in a backslash, and different otherwise |
| `MinifyPrint.MinifyCommutesWithPrinting` | windows/client/src/cJSON.c:2902-2970 | minified formatted text equals compact text if and only if no key and no string value ends in a backslash, save a string that is the very last value |
| `MinifyPrint.CompactIsMinified` | windows/client/src/cJSON.c:2924-2970 | compact text without such strings is left alone |
| `Compare.CaseInsensitiveStrcmp` | windows/client/src/cJSON.c:133-154 | zero exactly for keys that differ at most in the case of ASCII letters, otherwise the difference of the first two characters that differ |
| `NodeCompare.GetObjectItem` | windows/client/src/cJSON.c:1951-1981 | the first child with the key, or NULL |
| `NodeCompare.CompareNodes` | windows/client/src/cJSON.c:3072-3195 | over nodes in memory: false for NULL, true at once for a node and itself, and otherwise the relation Same on the values of the two trees, whether they are apart or one lies inside the other |
| `NodeCompare.CompareIntegers` | windows/client/src/cJSON.c:3072-3195 | so the answer for two different nodes with such values is whether some order of members makes the values equal |
| `NodeCompare.CompareItems` | windows/client/src/cJSON.c:3132-3152 | the walk over the children of two arrays, of equal and unequal lengths |
| `NodeCompare.CompareMembers` | windows/client/src/cJSON.c:3154-3189 | one of the two walks over the members: every member has its like on the other side |
| `Compare.SameIsSymmetric` | windows/client/src/cJSON.c:3072-3195 | comparison is symmetric on all trees, duplicate keys included |
| `Compare.CompareIsEqualUpToOrder` | windows/client/src/cJSON.c:3072-3195 | on trees with distinct keys comparison holds exactly when some permutation of the members of each object makes the trees equal |
| `Compare.CloseExactly` | windows/client/src/cJSON.c:589-593 | two numbers compare equal exactly when they differ by at most the larger magnitude over 4503599627370496 |
| `Compare.IntegersAreExact` | windows/client/src/cJSON.c:589-593 | 32-bit integers compare equal exactly when they are equal |
| `Compare.SameKeySpelled` | windows/client/src/cJSON.c:133-154 | keys agree byte by byte, or up to A-Z against a-z |
| `Compare.SameIsReordered` | windows/client/src/cJSON.c:3072-3195 | trees of 32-bit integers with distinct keys compare equal exactly when putting the members of objects in the right order makes them plainly equal |
| `Compare.ReflexiveExactly` | windows/client/src/cJSON.c:3154-3189 | a tree compares equal to a copy of itself if and only if members that repeat a key repeat its value |
| `Compare.DistinctIsConsistent` | windows/client/src/cJSON.c:3154-3189 | so it does whenever keys are distinct |
| `Compare.DuplicateKeysAreNotReflexive` | windows/client/src/cJSON.c:3154-3189 | {"a":true,"a":false} does not compare equal to its own copy |
| `NodeTree.DuplicateRec` | windows/client/src/cJSON.c:2789-2873 | over nodes in memory: a copy in new nodes only, linked as every tree is, with the value and the key of the original, exactly when every level with children is below 10000; without recurse the node alone; nothing that was there before is written |
| `NodeTree.CopyChildren` | windows/client/src/cJSON.c:2833-2862 | the walk over the children builds the linked children of the copy, with the prev of the first pointing to the last |
| `NodeTree.Round` | windows/client/src/cJSON.c:2836-2856 | one round copies one child and links it behind the last copy, and leaves the original as it was |
| `NodeTree.AppendTrees` | windows/client/src/cJSON.c:2845-2849 | a new tree apart from its elder siblings leaves all of them valid and apart |
| `NodeTree.LevelsOfChildren` | windows/client/src/cJSON.c:2836-2840 | arrays and objects count levels alike: the walk needs only the children |
| `NodeTree.LevelsArePaths` | windows/client/src/cJSON.c:2836-2840 | a tree has n levels exactly when one can go down n children |
| `NodeTree.Duplicate` | windows/client/src/cJSON.c:2784-2787 | a whole tree is copied exactly when nothing in it is 10001 children down; original and copy share no node |
| `NodeCompare.KidsAreRelated` | windows/client/src/cJSON.c:3139-3142 | children of two different nodes of a forest are two different nodes of it again, so the test for identity only matters at the top |
| `NodeCompare.DuplicateAndCompare` | windows/client/src/cJSON.c:3154-3189 | every tree the parser can build can be duplicated, and comparing the nodes of the copy with those of the original gives true exactly when repeated keys repeat their values |
| `ItemList.SuffixObject` | windows/client/src/cJSON.c:1999-2003 | links two items to each other |
| `ItemList.AddItemToArray` | windows/client/src/cJSON.c:2027-2058 | appends to the sequence of children and keeps the chains and the tail pointer; refuses NULL and the list itself |
| `ItemList.GetArrayItem` | windows/client/src/cJSON.c:1922-1949 | the child at an index, NULL when there is none |
| `ItemList.DetachItemViaPointer` | windows/client/src/cJSON.c:2258-2292 | removes just that child from the sequence, clears its links, keeps chains and tail pointer |
| `ItemList.DetachItemFromArray` | windows/client/src/cJSON.c:2294-2302 | the same by index; nothing changes when there is no such child |
| `ItemList.InsertItemInArray` | windows/client/src/cJSON.c:2334-2366 | inserts before the index, or appends past the end |
| `ItemList.ReplaceItemViaPointer` | windows/client/src/cJSON.c:2368-2415 | puts the replacement in the place of the child, single children and tails included; the old child is unlinked |
| `ItemList.ReplaceItemInArray` | windows/client/src/cJSON.c:2417-2425 | the same by index |
| `ItemList.Grow` | windows/client/src/cJSON.c:1533-1556 | links a new item behind the current one |
| `ItemList.BuildList` | windows/client/src/cJSON.c:1530-1583 | the list that the parser and the copier build has the shape that every other list operation expects |
| `ItemList.RemovalLinks` | windows/client/src/cJSON.c:2265-2283 | rewriting the neighbours of item i, and the tail pointer when i is the tail, is enough to make the rest a list |
| `ItemList.InsertionLinks` | windows/client/src/cJSON.c:2354-2364 | the same for insertion before item i |
| `ItemList.ReplacementLinks` | windows/client/src/cJSON.c:2380-2408 | the same for replacement of item i |
| `ItemList.AppendLinks` | windows/client/src/cJSON.c:2049-2054 | the same for appending behind the tail |
| `ItemList.InsertThenDetach` | windows/client/src/cJSON.c:2294-2366 | inserting and detaching at one place gives back the list and the item |
| `ItemList.Rotate` | windows/client/src/cJSON.c:2027-2302 | detaching the first child and appending it rotates the sequence |
| `Ipv4.ParseOfFormat` | server/src/ip_pool.c:98-103 | every address is read back from its dotted text |
| `Ipv4.FormatOfParse` | server/src/ip_pool.c:109-118 | a text that is read as an address is the dotted text of that address: no leading zeros, no other spelling |
| `Ipv4.AddressTextIsUnique` | server/src/ip_pool.c:109-118 | two texts that name one address agree up to their suffix |
| `Ipv4.HostTextNames` | server/src/ip_pool.c:98-103 | the "/32" text names its address and fits the 32 bytes that login reserves for it |
| `Ipv4.HostTextSpelled` | server/src/ip_pool.c:98-103 | the text is the decimal texts of ip / 2^24, ip / 2^16 % 256, ip / 2^8 % 256 and ip % 256 between dots, followed by the three characters of "/32" |
| `Ipv4.OctetText` | server/src/ip_pool.c:98-103 | the decimal text of an octet is its one, two or three digits |
| `Ipv4.HostTextIsAlone` | server/src/ip_pool.c:98-103 | the range that the text names holds that one address only |
| `Ipv4.AddressSpelled` | server/src/ip_pool.c:109-118 | a text names an address exactly when it starts with the dotted text of the address and ends there or goes on with a slash |
| `Ipv4.PrefixSpelled` | server/src/ip_pool.c:24-41 | the prefix is the decimal number behind the slash, 32 without a slash |
| `Ipv4.ParseCidr` | server/src/ip_pool.c:24-47 | accepts exactly prefixes 1 to 30 in front of which an address stands, and gives the aligned block of 2^(32 - prefix) addresses that contains it |
| `Ipv4.MaskedRange` | server/src/ip_pool.c:42-46 | the two mask expressions compute the first and the last address of that block, for any word width |
| `Ipv4.BlockIsUnique` | server/src/ip_pool.c:42-46 | there is only one such block |
| `IpPool.AllocateIsLowest` | server/src/ip_pool.c:84-109 | allocation finds an address exactly when a free host exists, and then the lowest; network, broadcast and excluded addresses are no hosts |
| `IpPool.AllocateSpelled` | server/src/ip_pool.c:84-109 | in numbers: which member is taken, when there is none, and every mark afterwards |
| `IpPool.TextNamesMember` | server/src/ip_pool.c:98-103 | the text handed out with an address names that member of the pool |
| `IpPool.OnlyHostsAreHandedOut` | server/src/ip_pool.c:84-148 | after any series of allocations, releases and marks, also releases of reserved and excluded addresses, only hosts are handed out |
| `IpPool.NotHandedOutTwice` | server/src/ip_pool.c:84-148 | a marked address is not handed out again before it is released |
| `IpPool.SetBit` | server/src/ip_pool.c:93 | the byte operation marks one member and no other |
| `IpPool.ClearBit` | server/src/ip_pool.c:125 | the byte operation unmarks one member and no other |
| `IpPool.TestBit` | server/src/ip_pool.c:87 | the byte test reads the mark of one member |
| `IpPool.PoolPrefixes` | server/src/ip_pool.c:64-72 | the size limits admit exactly prefixes 12 to 30 |
| `IpPool.AddressPool.Init` | server/src/ip_pool.c:49-82 | succeeds exactly for addresses with prefix 12 to 30; then the pool is the aligned block of 2^(32 - prefix) addresses around the address, its first and last are marked and nothing else, and the exclusion is the block its text gives, or address 0 alone |
| `IpPool.AddressPool.AllocateText` | server/src/ip_pool.c:84-109 | over the bitmap: the lowest member between the first and the last that is neither marked nor excluded, written out as a.b.c.d/32; nothing exactly when there is none; marked afterwards are what was marked, the member taken, and the excluded ones below it |
| `IpPool.AddressPool.Release` | server/src/ip_pool.c:111-128 | unmarks exactly the member the text names; fails exactly when it names none |
| `IpPool.AddressPool.MarkUsed` | server/src/ip_pool.c:130-148 | marks exactly the member the text names |
| `Ownership.AllocateKeepsIps` | server/src/api_handlers.c:265-266 | the allocated address has no holder |
| `Ownership.ReleasePendingKeepsIps` | server/src/api_handlers.c:275-276 | giving back the address of a failed login takes it from nobody |
| `Ownership.InsertKeepsIps` | server/src/api_handlers.c:297 | the new row takes over the address |
| `Ownership.ReleaseKeepsIps` | server/src/api_handlers.c:431 | releasing the address of a holder leaves every other holder its own |
| `Ownership.RevokeKeepsIps` | server/src/api_handlers.c:432 | revoking a row whose address is released changes no holding |
| `Ownership.AddKeepsPeers` | server/src/api_handlers.c:275 | a peer under a new key clashes with none |
| `Ownership.InsertKeepsPeers` | server/src/api_handlers.c:297 | the new row takes over the peer |
| `Ownership.RemoveKeepsPeers` | server/src/api_handlers.c:430 | removing the peer of a holder leaves every other holder its own |
| `Ownership.AddressesWhenQuiet` | project.md:214-221 | nothing half done: sessions hold distinct addresses, marked hosts are exactly those, other marks are reserved or excluded addresses |
| `Ownership.PeersWhenQuiet` | project.md:369-371 | nothing half done: the peers are exactly those of the unrevoked sessions |
| `LeaseSafety.LoginBeginKeeps` | server/src/api_handlers.c:250-273 | checking the cap and taking an address keeps every holding exact |
| `LeaseLimits.LoginBeginCapped` | server/src/api_handlers.c:250-259 | a login starts only where the cap leaves room for it, and takes one place |
| `LeaseSafety.LoginPeerKeeps` | server/src/api_handlers.c:275-283 | adding the peer, or failing to and releasing the address, keeps the invariant |
| `LeaseSafety.LoginInsertKeeps` | server/src/api_handlers.c:292-306 | inserting the row, or failing to and removing the peer, keeps the invariant |
| `LeaseSafety.LoginUndoKeeps` | server/src/api_handlers.c:299 | the last step of the rollback keeps the invariant |
| `LeaseSafety.LogoutBeginKeeps` | server/src/api_handlers.c:389-415 | a logout takes in hand only unrevoked sessions, and keeps the invariant when the sweep under way has not listed the one it takes |
| `LeaseSafety.LogoutPeerKeeps` | server/src/api_handlers.c:430 | each of the three effects of a logout keeps the invariant: the peer |
| `LeaseSafety.LogoutReleaseKeeps` | server/src/api_handlers.c:431 | the address |
| `LeaseSafety.LogoutRevokeKeeps` | server/src/api_handlers.c:432 | the row |
| `LeaseSafety.LogoutRevokeCounts` | server/src/api_handlers.c:432-433 | and the counts |
| `LeaseLimits.RenewBeginCapped` | server/src/api_handlers.c:497-506 | without grace a renewal takes in hand only what counts as active already |
| `LeaseSafety.RenewEndKeeps` | server/src/api_handlers.c:508-509 | the new expiry touches no holding |
| `LeaseLimits.RenewEndCapped` | server/src/api_handlers.c:508-509 | and takes no account past the cap |
| `LeaseSafety.SnapshotKeeps` | server/src/db.c:171-209 | a work list of expired sessions keeps the invariant, whatever is in hand, when it leaves out the session a logout has in hand |
| `LeaseSafety.ReapPeerKeeps` | server/src/reaper.c:26-30 | each of the three effects of the reaper keeps the invariant, whatever request is under way: the peer |
| `LeaseSafety.ReapReleaseKeeps` | server/src/reaper.c:32 | the address |
| `LeaseSafety.ReapRevokeKeeps` | server/src/reaper.c:33 | the row |
| `LeaseSafety.ReapRevokeCounts` | server/src/reaper.c:33-34 | and the counts |
| `LeaseSafety.RestartEstablishes` | server/src/main.c:25-58 | whatever the old process left behind, half-done requests and sweeps included, a restart establishes the invariant |
| `LeaseRuns.NextKeepsExact` | server/src/api_handlers.c:250-509 | every event keeps every holding exact but the two by which one session comes into the hands of both threads |
| `LeaseSafety.NextKeepsCount` | server/src/api_handlers.c:250-509 | every event that finds its row unrevoked conserves sessions |
| `LeaseRuns.NextKeeps` | server/src/api_handlers.c:250-509 | so every event keeps the invariant but those two |
| `LeaseRuns.RunKeeps` | server/src/api_handlers.c:250-509 | every run in which no session comes into the hands of both threads keeps the invariant, with any grace period |
| `LeaseRuns.EveryRunIsSafe` | project.md:214-221 | in every such run from a start on any old table: holdings are exact whenever nothing is half done, and unrevoked sessions are logins less logouts less expirations of this process |
| `LeaseServing.ServedRunsAreSafe` | project.md:214-221 | requests served whole, any number of logins, logouts, renewals, pauses, restarts and failures between any two sessions of a sweep: holdings are exact, sessions conserved, and the cap without grace kept; nothing more is asked without grace, and with it only that no logout takes a session the sweep has listed |
| `LeaseServing.TaskSettles` | server/src/api_handlers.c:250-509 | each such request, sweep step, sweep, pause or restart keeps the invariant and leaves nothing half done; a logout does when its session is not listed |
| `LeaseRuns.OwnershipIsExact` | project.md:369-371 | exactness in the middle of a sweep, too |
| `LeaseRuns.PeersNeverClash` | project.md:214-221 | not even half way through a request and a sweep do two peers share an address |
| `LeaseLimits.NextKeepsLimits` | server/src/api_handlers.c:250-509 | every event keeps the cap and the length of leases, in every state and however the threads meet |
| `LeaseLimits.EveryRunIsLimited` | server/src/db.c:263-275 | in every run from a start on any table, with no condition on how the threads meet: no lease runs longer than a fresh one, and without grace no account has more than five active sessions, also while one of them is being renewed across its expiry |
| `LeaseLimits.ExpiryNeverFalls` | server/src/api_handlers.c:508-509 | in no run, however the threads meet, does the expiry of a session ever move to an earlier time |
| `LeaseRuns.NextKeepsRow` | server/src/db.c:152-169 | no event changes who and what a row stands for, or unrevokes it |
| `LeaseRuns.RevokedStaysDead` | server/src/api_handlers.c:399-406 | once revoked by logout, reaping or restart, a token is refused by logout, renew and status in every later state of every run |
| `LeaseRuns.LoginIsAllOrNothing` | server/src/api_handlers.c:250-308 | a login adds one row, one peer and the lowest free address exactly under its conditions, and otherwise leaves nothing but marks of excluded addresses |
| `LeaseRaces.HarmlessExactlyWhenSeparate` | server/src/api_handlers.c:408-432 | in every sound state: an event is followed by counted sessions in every further run in which the threads keep apart if and only if it brings no session into the hands of both threads |
| `LeaseRaces.RaceBreaksOwnership` | server/src/api_handlers.c:408-432 | every event that does, save a logout that comes too late to release anything, is followed by such a run after which nothing is half done and two unrevoked sessions hold one address |
| `LeaseRaces.ClashSharesAddress` | server/src/reaper.c:26-33 | the run itself: the logout leaves the address free, a newcomer gets it, the sweep releases it again, another newcomer gets it |
| `LeaseRaces.RegivenShares` | server/src/reaper.c:32-33 | and the one in which the reaper has released the address, a newcomer has got it, and a logout of the old session releases it again |
| `LeaseExactness.OwnershipSurvivesExactly` | server/src/api_handlers.c:408-432 | in every sound state: an event is followed by exact ownership in every further run in which the threads keep apart if and only if it brings no session into the hands of both threads, or is a logout of the session whose address the reaper has just released and nobody has got since |
| `LeaseExactness.LateIsIdling` | server/src/api_handlers.c:430-432 | such a late logout finds peer and address gone |
| `LeaseExactness.RunKeepsOrder` | server/src/api_handlers.c:430-433 | and until it and the reaper are through with the row, whatever else goes on, nobody else is touched |
| `LeaseRaces.TakeUntil` | server/src/api_handlers.c:250-308 | logins under new accounts, keys and tokens come to any free host of the pool in the end |
| `LeaseRaces.SweepMeetsLogout` | server/src/reaper.c:17-22 | for every pool with a host and every grace period such an event comes about: a logout checks a session in its last second, the sweep of the next second lists it |
| `LeaseRaces.LogoutMeetsSweep` | server/src/api_handlers.c:497-509 | for every pool with a host and every grace period above 0 it comes about with requests served whole: a listed session is renewed, then logged out |
| `LeaseGrace.GracePiles` | server/src/api_handlers.c:497-509 | for every grace period above 0 and every n up to the hosts of the pool, a run of whole requests gathers n sessions of one account |
| `LeaseGrace.PileIsActive` | server/src/api_handlers.c:250-259 | all of them active at once |
| `LeaseGrace.PoolBoundsSessions` | server/src/api_handlers.c:265-266 | and no more than the pool has hosts, in any sound state with nothing half done |
| `LeaseGrace.CapHoldsExactlyWithoutGrace` | server/src/db.c:263-275 | the cap of five holds in every run from every table, however the threads meet, if and only if the grace period is 0, for every pool with more than five hosts |
| `LeaseProgress.ReapAll` | server/src/reaper.c:22-35 | working off a list revokes just the listed sessions |
| `LeaseProgress.SweepRevokes` | server/src/reaper.c:17-37 | one sweep revokes the lesser of 100 and all n sessions expired at its start, in whatever order the query lists them, and nothing else |
| `LeaseBacklog.SweepAmongRequests` | server/src/reaper.c:17-37 | a sweep with any requests and any time between its effects still revokes every session it lists, each counted once |
| `LeaseBacklog.InterleavedEnds` | server/src/reaper.c:22-35 | the reaper gets through its list whatever the serving thread does in between |
| `LeaseBacklog.ListedUntilRevoked` | server/src/reaper.c:22-35 | in every run a listed session stays listed until it is revoked |
| `LeaseBacklog.RoundDrains` | server/src/reaper.c:14-40 | one round, a pause with any requests and restarts and a sweep with requests in between, leaves at most the backlog before it, less 100, and what newly expired |
| `LeaseBacklog.BacklogIsBounded` | server/src/reaper.c:14-40 | when at most a sessions newly expire in each pause and at most d in each sweep, and a + d is 100 less some step, then k rounds leave at most d + n - min(step k, n) of n |
| `LeaseBacklog.RoundsClearBacklog` | server/src/reaper.c:14-40 | with nothing newly expired or renewed in the pauses, k rounds leave exactly n - min(100 k, n), so the backlog is cleared exactly from ceil(n / 100) sweeps on |
| `LeaseRequests.RequestsKeepInv` | server/src/api_handlers.c:250-509 | whole logins and renewals keep the invariant at any time, also during sweeps; a whole logout does when its session is not listed |
| `LeaseRequests.SweepKeepsInv` | server/src/reaper.c:21-36 | a whole sweep between two requests keeps it, with any list |
| `Server.VpnServer.HandleLogin` | server/src/api_handlers.c:190-353 | the answer in terms of the state: 200 exactly for a client that is not limited, an enabled account with the right password, fewer than five of whose rows are unrevoked with an end not before now, a free host, both effects succeeding and a token no row has; 429 exactly when limited or at five; 503, 500, 401, 400 and no answer likewise; with 200 one row is appended, for the lowest free host, and its peer added, otherwise rows and hosts are as before; who is recorded as a failure; and the run of the lease machine |
| `Server.VpnServer.Grant` | server/src/api_handlers.c:250-308 | cap, address and both rollbacks in the order of the source, for every combination of failures |
| `Server.VpnServer.Authenticate` | server/src/api_handlers.c:192-248 | who gets past the checks on who asks, the answer to the others, and which of them are recorded as failures |
| `ServerTables.LoginIsRun` | server/src/api_handlers.c:250-308 | how a login comes out over rows, peers and bitmap is the run of the lease machine for it |
| `ServerTables.LoginMarks` | server/src/api_handlers.c:250-308 | without the order of the steps: the answer, the row, the peer, and the marks on what may be handed out |
| `Server.VpnServer.HandleLogout` | server/src/api_handlers.c:357-442 | 200 exactly when some row has the token, is unrevoked and ends not before now; 401 for an expired, 409 for a revoked, 404 for no such row; with 200 that row is revoked, its peer removed and its address released, otherwise nothing changes; the run of the machine |
| `Server.VpnServer.HandleRenew` | server/src/api_handlers.c:446-520 | 200 exactly when some row has the token, is unrevoked and ended at most the grace period before now, 403 and 404 likewise; with 200 that row ends ttl from now and no other row changes; the run of the machine |
| `Server.VpnServer.HandleStatus` | server/src/api_handlers.c:551-575 | 200 exactly when some row has the token, is unrevoked and has an end not before now, and then that row is returned; 403 for a revoked or expired row, 404 for none; changes nothing |
| `LeaseLive.LiveTokens` | server/src/api_handlers.c:399-415 | status and logout accept a token exactly when some session has it that is neither revoked nor expired; renewal allows for the grace period |
| `LeaseLive.CapCountsLive` | server/src/db.c:263-275 | the cap counts exactly the sessions of the account whose status is accepted |
| `LeaseLive.LiveForTtl` | server/src/api_handlers.c:567-575 | in every run, however the threads meet: from any moment on, a session that is not renewed is accepted by status, by logout and in the count of the cap exactly until it is revoked or its end has passed, which is at most ttl away |
| `Server.VpnServer.CountActiveSessions` | server/src/db.c:263-275 | the number of unrevoked rows of the account whose end is not before now |
| `ServerTables.CountIsCardinality` | server/src/db.c:263-275 | the count of the machine is the size of that set of rows |
| `Server.VpnServer.GetSessionByToken` | server/src/db.c:126-150 | the one row with the token, or none |
| `Server.VpnServer.CreateSession` | server/src/db.c:110-124 | appends the row, unless the token is taken or the insertion fails; tokens stay unique |
| `Server.VpnServer.GetExpiredSessions` | server/src/db.c:171-209 | copies the selected rows, at most 100, in a buffer that starts at 64 and doubles; never writes past it |
| `ServerTables.Selected` | server/src/db.c:181 | listing the first 100 expired rows by id is one of the answers the query may give |
| `ServerTables.SelectedSize` | server/src/db.c:181 | it lists all unrevoked rows that ended before now, or 100 of them if there are more |
| `Server.VpnServer.EndSession` | server/src/reaper.c:23-34 | removes the peer, releases the address and revokes the row, and touches nothing else |
| `Server.VpnServer.ReapAt` | server/src/reaper.c:23-34 | the three effects on one session of the list, over the tables and as those of the machine |
| `Server.VpnServer.Sweep` | server/src/reaper.c:17-37 | exactly the lesser of 100 and all unrevoked rows that ended before now are revoked, their peers removed and their addresses released, and nothing else changes; the run of the machine for a sweep |
| `Server.VpnServer.StartUp` | server/src/main.c:48-58 | succeeds exactly for an address with prefix 12 to 30; then every row is revoked, no peer is left and only the first and the last address are marked; the restart of the machine |
| `Server.VpnServer.RevokeAllActiveSessions` | server/src/db.c:277-280 | revokes every row and changes nothing else |
| `RateLimit.IpHash` | server/src/api_handlers.c:49-53 | the shift-and-add loop with its 32-bit overflow computes the hash |
| `RateTable.HashIsPolynomial` | server/src/api_handlers.c:49-53 | the hash is 5381 followed by the bytes, read to the base 33, reduced once to 32 bits |
| `RateTable.SlotSpelled` | server/src/api_handlers.c:61 | the i-th slot is the hash plus i, round the table of 1024 |
| `RateTable.RecordSpelled` | server/src/api_handlers.c:55-77 | a failure is written to the first of eight slots that is empty or the own one: a count of one in an empty slot or when the first failure is more than 600 seconds ago, else one more |
| `RateTable.CheckSpelled` | server/src/api_handlers.c:79-104 | a client is refused exactly when that slot is its own, its first failure at most 600 seconds ago and its count at least five; an older count is emptied and nothing else changes |
| `RateTable.FullSpelled` | server/src/api_handlers.c:55-104 | with all eight slots taken by others a client is neither counted nor refused |
| `RateLimit.FailTable.RecordLoginFailure` | server/src/api_handlers.c:55-77 | the probing loop updates exactly one entry, or none when eight slots belong to others |
| `RateLimit.FailTable.CheckRateLimit` | server/src/api_handlers.c:79-104 | the probing loop answers for the client and empties exactly its own expired entry |
| `RateLimit.EntriesAreBacked` | server/src/api_handlers.c:59-75 | in every history no entry counts more failures than its client had since the window began |
| `RateLimit.LimitIsSound` | server/src/api_handlers.c:79-104 | a client is refused only after five failures of its own in the last 600 seconds, in every history |
| `RateLimit.HistoryLeavesNoGaps` | server/src/api_handlers.c:60-61 | as long as no check empties an entry, probing finds every entry |
| `RateLimit.OneEntryEach` | server/src/api_handlers.c:60-62 | and where probing finds every entry, each client has at most one |
| `RateLimit.TableIsFaithful` | server/src/api_handlers.c:59-75 | for a client before whose live entry no check of another left a gap, and that found a slot at the failures of its window, the entry is the window its history defines; without a window it has no live entry; gaps before others do not matter |
| `RateLimit.LimitIsComplete` | server/src/api_handlers.c:79-104 | such a client is refused exactly when that window holds five failures, also after it came back and its check emptied its entry |
| `RateLimit.FiveRecentFailuresLimit` | server/src/api_handlers.c:93-96 | such a client, when all its failures are at most 600 seconds old, is refused exactly from the fifth on |
| `RateLimit.UnemptiedIsGapFree` | server/src/api_handlers.c:79-104 | histories in which no check empties an entry leave a gap before nobody, and a client that finds a slot always found one |
| `RateTraces.WindowDoesNotSlide` | server/src/api_handlers.c:63-68 | for every client: six failures, each after the check that serves it, at 0, 590, 591, 592, 593 and 601 seconds, no gap left, a slot always found; the client is free at 601, though five are at most 600 seconds old |
| `RateTraces.CheckHarmlessExactly` | server/src/api_handlers.c:79-104 | in every served history: the check of another client leaves the limiter complete for a client, in every served history that goes on without another gap and with a slot for its failures, if and only if it leaves no gap before the live entry of that client |
| `RateTraces.GapLosesFailures` | server/src/api_handlers.c:79-104 | after a check that leaves such a gap, as many failures as the window lacks to five give the client a second entry and leave it free |
| `RateTraces.GapBreaksCompleteness` | server/src/api_handlers.c:79-104 | such checks occur, for any two clients that share their slots: one fails, the other fails, and the first comes back when its window is over |
| `RateTraces.AddressesCollide` | server/src/api_handlers.c:49-53 | there are such clients: with any beginning, the addresses that end in 120 and in 201 share their slots |

## Left out

- Utf8.LiteralMeetsStandards: digits that are not hexadecimal count as 0, as in the source, and `\u0000` ends the text as a C string.
- PrintApi.PrintBuffered: asks for an initial size above 0 unless reallocation is available, because growing by hand copies one byte more than the offset, which an empty block does not have.
- Printer.PrintBuffer.PrintNumber: floating-point texts (`%1.15g`, `%1.17g`), NaN, infinity and the locale's decimal point are not modelled; numbers print as 32-bit integers.
- Parser.ParseBuffer.ParseNumber: conversion is over reals, without rounding, overflow or locale.
- ParseSpec.ParseText: where exactly an error is reported is defined there and only proved to lie inside the input.
- Parser.ParseBuffer.ParseValue: builds values; that the linked nodes have the right shape is `ItemList.BuildList`.
- NodeCompare.CompareNodes: the tolerance for numbers is over reals; the two nodes belong to one forest.
- NodeTree.DuplicateRec: freeing the partial copy when the depth limit is reached, and failing allocations, are not modelled.
- ItemList.AddItemToArray: an item appended to a list that is not empty must have no successor, which the source relies on without checking.
- ItemList.DetachItemViaPointer: an item handed over as a child must be one, unless it has no predecessor.
- ItemList.ReplaceItemViaPointer: freeing the replaced item is not modelled.
- Ipv4.ParseCidr: `atoi` is on unbounded integers; the conversion of numbers beyond `int` is not modelled.
- IpPool.AddressPool.Init: the failure of `calloc`, and use of the pool before it is initialised, are not modelled.
- LeaseRuns.EveryRunIsSafe: for runs in which no session comes into the hands of both threads; `LeaseRaces.HarmlessExactlyWhenSeparate` and `LeaseExactness.OwnershipSurvivesExactly` show how far this can be relaxed for counts and for ownership.
- LeaseLimits.CapHolds: for a grace period of 0 only; `LeaseGrace.CapHoldsExactlyWithoutGrace` shows that it fails with every other.
- LeaseBacklog.BacklogIsBounded: a restart during a sweep ends the sweep, so rounds have restarts in their pauses only.
- Server.VpnServer.HandleLogin: parsing of the request, password hashing and the format check of tokens are parameters or left out; keys and tokens are opaque.
- Server.VpnServer.HandleStatus: traffic counters, and the answers to requests without a well-formed token, are left out; the same holds for those of `Server.VpnServer.HandleLogout` and `Server.VpnServer.HandleRenew`.
- JsonGrammar.StandardTextsAreRead: a string of the standard that holds U+0000 is read up to it.
- ServerTables.Selected: the query names no order; the implementation lists by id, the theorems about sweeps allow any order.
- RateLimit.LimitIsComplete: for a client that found a slot at the failures of its window and before whose live entry no check left a gap; `RateTraces.CheckHarmlessExactly` shows that the latter cannot be relaxed.
- RateLimit.FailTable.RecordLoginFailure: `fail_count` does not overflow.
- `cJSON_Raw`, references, constant keys, typed array constructors, allocator hooks and out-of-memory branches other than those of `ensure` and of the final block.
- NULL handling of strings inside nodes, and the type tests and getters.
- HTTP, TLS, configuration files, logging, the audit log, the Windows user interface and the VPN client itself.
- The internals of SQLite, of the kernel interface and of the cryptographic library.
