# auengine: a verified model

Five groups of self-contained code of the server are modelled here, each against what it is for.

- **XML.** `XmlText`, `XmlTree` and `XmlParser` are the recursive-descent parser, as functions on the remaining text
  and as pointer loops proved against them; `XmlPrinter` is the visitor that prints, with its depth, text flag and
  layout strings. `XmlSyntax`, `XmlRest` and `XmlUnclosed` say in literal texts what is read and
  printed, what a parse leaves, and what becomes of input that breaks off. `XmlEscaping` and `XmlRoundTrip` prove that printing and parsing undo each other and exactly when
  they do; `XmlParsed` says what holds of trees parsed from any input. `XmlDom` is the doubly linked tree in memory,
  `XmlCopy` what copying a node keeps, `XmlLocation` the row and column tracker, `Utf8` the encoder with the server's UTF-8 recogniser.
- **SHA-1 and HMAC.** `Sha1Spec` states FIPS 180-4; `Sha1`, `Sha1Context` and `HmacSha1` are the in-place schedule,
  the unrolled rounds, the streaming context and the keyed context, proved against it and against RFC 2104;
  `Sha1Vectors` derives a published digest.
- **Memcached client.** `HashRing` is the consistent-hash ring, `MemSocket` the buffered reads over an arbitrary
  network, `MemResponse` and `MemGet` the response loop, `MemProtocol` its texts written out, `MemBatch` and `MemCombine` the batched get over several
  servers, `ReadWriteBuffer` the growable byte queue.
- **Mersenne Twister.** `MersenneWords` are its bit operations; `MersenneTwister` relates the array that is rewritten in place to the infinite recurrence,
  and counts the words behind each result of the multiply-and-reject generator; `MersenneReference` has the published
  constants and the seeding by an array as one recurrence.
- **Framing.** `Framing` is the game server's loop that cuts received bytes into messages.

`Seqs`, `Arith` and `Options` hold small facts about sequences and division and the optional value.

How things are represented:

- A C string is the text from an address on, or an index into the text; its end and a NUL are the same to a reader,
  -1 or `Null` is NULL, and a step past the terminator stays at the end. Characters are bytes: everything about XML
  is stated for the byte-per-character encodings.
- Exceptions are results: `Thrown`, -1 or `false`. An exception of the socket also drops the connection.
- The network is an arbitrary list of pieces and failures for each connection, and an arbitrary list of results of
  `send`. `Stream()` is what can still be read before the first failure. A send logs its bytes.
- `FindServer` inside `Combine` is the list `found` of its results; `HashRing` says what they are.
- 32-bit and 64-bit arithmetic is by bit-vectors or by explicit remainders.
- The heap of the document tree is seen through a `Forest`: the child list of every live node, with a rank that falls
  from parent to child. `Good` says that ends, parents and both sibling links agree with the lists; deleted nodes
  leave the forest.

Where the code and what one would expect of it differ, the code is followed:

- Values that hold "&#x" do not come back: the printer copies them raw. `QuotedRoundTrip` and
  `CondensedRoundTripIff` give the exact condition, `HexRefComesBackDecoded` a value.
- `First` returns an attribute with empty name and value, while `Next` takes one for the end of the list. So the
  first attribute is always printed and copied, and such a later one hides those behind it.
- A copy is made through C strings, so values, names and attribute values are cut at the first NUL, which the parser
  does let in. `ReplaceChild` does not refuse a document, unlike the insertions, so a document can become a child;
  `Clone` then drops it. `CopyIsExact` gives the exact condition for an equal copy, `NulIsCut` and `GraftedDocument`
  the failures.
- Assigning a `ReadWriteBuffer` to itself empties it.
- The UTF-8 length table knows four-byte leads up to 0xF4 only, while the encoder goes up to 0x1FFFFF;
  `TableAgrees` gives the exact bound.
- The count that `Combine` returns exceeds the number of OK items exactly when a server answers a key twice; a
  conforming server does when a key is asked of it twice. `AlwaysSettled` and `TotalIsOk` give the condition for all
  bytes, `AnsweredTwice` the failure.
- A size from 2^31 on, announced for a requested key, reaches `GetBytes` as a negative `int`, and the C++ behaviour
  is undefined from there. `Process` has its own outcome for it, `Overrun`; `HandleGetResponse` and `Combine` then
  end with -2, and `AllDefined` says when that does not happen.
- After `RandomInitByArray` the first words are tempered without having been regenerated, because the index starts
  at 0; the position in the recurrence says so.

## Model

| member | source | states |
|---|---|---|
| XmlEscaping.EncodeCharReadsBack | Src/Tinyxml/tinyxmlparser.cpp:438-531 | whatever text follows it, the escaped form of any one character is read by `GetChar` as exactly that character, and reading stops just behind it |
| XmlEscaping.TwoHexDigits | Src/Tinyxml/tinyxmlparser.cpp:451-477 | two hexadecimal digits written by the escaping loop, walked backwards with the wrapping 32-bit multiplier, give the control character back |
| XmlEscaping.RawStretch | Src/Tinyxml/tinyxml.cpp:59-81 | once "&#x" is met, the text up to the first semicolon (or up to the last character) is copied unescaped |
| XmlEscaping.KeptReadsBack | Src/Tinyxml/tinyxmlparser.cpp:584-595 | without "&#x", escaped text followed by its closing character is read back exactly, stopping at the closing character |
| XmlEscaping.NeverLonger | Src/Tinyxml/tinyxmlparser.cpp:584-595 | read back up to its own end, an escaped value is never longer than the original, and strictly shorter if "&#x" occurs in it |
| XmlEscaping.RawClosed | Src/Tinyxml/tinyxmlparser.cpp:445-511 | a raw stretch is swallowed through its semicolon as one entity |
| XmlEscaping.QuotedRoundTrip | Src/Tinyxml/tinyxmlparser.cpp:574-637 | for every value, either quote and any text behind: escaping and then reading up to the quote gives the value and stops at the quote if and only if "&#x" does not occur; then `ReadText` ends just past the quote |
| XmlEscaping.HexRefComesBackDecoded | Src/Tinyxml/tinyxml.cpp:59-81 | the failing side at one value: "&#x41;" is copied as it stands, and comes back as "A" |
| XmlEscaping.CondenseIsJoin | Src/Tinyxml/tinyxmlparser.cpp:596-633 | the condensing loop with its owed space computes the space-separated words joined by single spaces |
| XmlEscaping.CondensedReadsBack | Src/Tinyxml/tinyxmlparser.cpp:596-633 | without "&#x", escaped text up to the next tag is condensed character by character as the decoded text would be |
| XmlEscaping.NeverLongerCondensed | Src/Tinyxml/tinyxmlparser.cpp:596-633 | condensed reading never gives more than was escaped, and strictly less if "&#x" occurs |
| XmlEscaping.SkipLeadingSpaces | Src/Tinyxml/tinyxmlparser.cpp:314-362 | skipping white space before escaped text drops exactly the leading spaces of the value |
| XmlEscaping.CondensedRoundTrip | Src/Tinyxml/tinyxmlparser.cpp:596-637 | in trimming mode, text without "&#x" comes back up to "<" with runs of spaces collapsed and end spaces removed |
| XmlEscaping.CondensedRoundTripIff | Src/Tinyxml/tinyxmlparser.cpp:596-637 | in trimming mode a text comes back unchanged if and only if it has no "&#x" and is already squeezed |
| XmlTree.ParseElement | Src/Tinyxml/tinyxmlparser.cpp:1049-1174 | parsing an element is total, and what it leaves is strictly shorter than what it got, so that the mutual recursion ends |
| XmlTree.ReadValue | Src/Tinyxml/tinyxmlparser.cpp:1177-1246 | reading content is total and never leaves more than it got |
| XmlRoundTrip.NameReadsBack | Src/Tinyxml/tinyxmlparser.cpp:401-435 | a valid name followed by a character that cannot continue it is read back exactly |
| XmlRoundTrip.AttrReadsBack | Src/Tinyxml/tinyxmlparser.cpp:1389-1464 | a printed attribute is read back with its exact name and value, whichever quote its printing chose |
| XmlRoundTrip.AttrsReadBack | Src/Tinyxml/tinyxmlparser.cpp:1088-1171 | a printed list of attributes with distinct valid names is read back in order, ahead of the rest of the tag |
| XmlRoundTrip.CommentReadsBack | Src/Tinyxml/tinyxmlparser.cpp:1335-1386 | a comment without "-->" and NUL is identified and read back exactly |
| XmlRoundTrip.CDataReadsBack | Src/Tinyxml/tinyxmlparser.cpp:1498-1535 | a CDATA text without "]]>" and NUL is identified and read back exactly |
| XmlRoundTrip.UnknownReadsBack | Src/Tinyxml/tinyxmlparser.cpp:1274-1305 | an unknown tag that the printout does not turn into another kind of node is read back exactly |
| XmlRoundTrip.ElementIdentified | Src/Tinyxml/tinyxmlparser.cpp:818-905 | a printed element is identified as an element and not as an end tag |
| XmlRoundTrip.TextStep | Src/Tinyxml/tinyxmlparser.cpp:1187-1213 | a plain text between tags becomes one text child with its value, squeezed when white space is condensed |
| XmlRoundTrip.ContentReadsBack | Src/Tinyxml/tinyxmlparser.cpp:1177-1246 | printed children are read back as the same children in normal form, up to the end tag |
| XmlRoundTrip.ElementReadsBack | Src/Tinyxml/tinyxmlparser.cpp:1049-1174 | by mutual induction over the tree, a printed element is parsed to its normal form and leaves exactly what followed |
| XmlRoundTrip.PrintParseNormal | Src/Tinyxml/tinyxmlparser.cpp:1049-1246 | for every well-formed element tree without "&#x" in its values, any text behind it and both white-space modes, parsing the stream printout consumes exactly the printout and gives the tree with its plain texts squeezed when white space is condensed |
| XmlRoundTrip.PrintParseRoundTrip | Src/Tinyxml/tinyxmlparser.cpp:1049-1246 | so a tree that is its own normal form comes back equal |
| XmlRoundTrip.KeptIsNormal | Src/Tinyxml/tinyxmlparser.cpp:1187-1246 | when white space is kept, every tree is its own normal form |
| XmlRoundTrip.DocumentRoundTrip | Src/Tinyxml/tinyxmlparser.cpp:704-796 | the same for a whole document: all top-level nodes come back in normal form and nothing is left; an empty document is an error |
| XmlParsed.SearchedPart | Src/Tinyxml/tinyxmlparser.cpp:1375-1381 | what the loops that look for an end mark collect holds neither the mark nor a terminator, on any input |
| XmlParsed.UnknownParsed | Src/Tinyxml/tinyxmlparser.cpp:1274-1305 | an unknown tag read from any input prints back as an unknown tag |
| XmlParsed.ElementParsed | Src/Tinyxml/tinyxmlparser.cpp:1049-1246 | on any input, a parsed element has valid names, distinct attributes, no blank and no adjacent plain texts, and no end marks inside comments and CDATA, at every depth |
| XmlParsed.ContentParsed | Src/Tinyxml/tinyxmlparser.cpp:1177-1246 | the same for the children that `ReadValue` collects from any input |
| XmlParsed.RoundTripIff | Src/Tinyxml/tinyxmlparser.cpp:1049-1246 | a tree without "&#x" in its values comes back equal from its printout, ahead of any text, if and only if it is as every parsed tree is and squeezed where white space is condensed |
| XmlParsed.CommentRoundTripIff | Src/Tinyxml/tinyxmlparser.cpp:1335-1386 | any value comes back from its printout as a comment if and only if it holds neither "-->" nor NUL |
| XmlParsed.CDataRoundTripIff | Src/Tinyxml/tinyxmlparser.cpp:1498-1535 | any value comes back from its printout as CDATA if and only if it holds neither "]]>" nor NUL |
| XmlParsed.UnknownRoundTripIff | Src/Tinyxml/tinyxmlparser.cpp:1274-1305 | any value comes back from its printout as an unknown tag, and not as an end tag, if and only if it holds neither ">" nor NUL and does not begin like a declaration, a comment, a CDATA text, an end tag or an element |
| XmlParsed.ParsedRoundTrip | Src/Tinyxml/tinyxmlparser.cpp:1049-1246 | an element parsed from any input whatever, if "&#x" does not occur in its values, is parsed from its own printout again, in normal form |
| XmlParser.SkipWhiteSpace | Src/Tinyxml/tinyxmlparser.cpp:314-362 | the pointer loop computes the white-space function, NULL for a NULL or ended text |
| XmlParser.StringEqual | Src/Tinyxml/tinyxmlparser.cpp:534-571 | the comparing loop is true exactly if the tag is a prefix of the non-empty text |
| XmlParser.ReadName | Src/Tinyxml/tinyxmlparser.cpp:401-435 | the loop returns the longest name and the place behind it, or NULL if none starts here |
| XmlParser.CodeBack | Src/Tinyxml/tinyxmlparser.cpp:464-499 | the backward digit loop with a wrapping multiplier computes the entity code, or -1 at a character that is no digit |
| XmlParser.GetEntity | Src/Tinyxml/tinyxmlparser.cpp:438-531 | the entity decoder computes `XmlText.GetEntity`, NULL included |
| XmlParser.GetChar | Src/Tinyxml/tinyxml.h:328-350 | one character or entity, as the function says |
| XmlParser.ReadKept | Src/Tinyxml/tinyxmlparser.cpp:582-595 | the appending loop without trimming computes the text and the stopping place |
| XmlParser.ReadCondensed | Src/Tinyxml/tinyxmlparser.cpp:596-633 | the loop with the white-space flag computes the condensed text and the stopping place |
| XmlParser.ReadText | Src/Tinyxml/tinyxmlparser.cpp:574-637 | the whole of `ReadText`, with its step past the end tag, computes the function |
| XmlParser.EncodeString | Src/Tinyxml/tinyxml.cpp:51-132 | the escaping loop with its inner copying loop computes `XmlText.Encode` for every string |
| XmlParser.UntilTag | Src/Tinyxml/tinyxmlparser.cpp:1375-1381 | the collecting loop stops at the first occurrence of the tag or at the end |
| XmlParser.ParseAttribute | Src/Tinyxml/tinyxmlparser.cpp:1389-1464 | name, equals sign and quoted or unquoted value, with every failure, as the function says |
| XmlParser.ParseComment | Src/Tinyxml/tinyxmlparser.cpp:1335-1386 | comment parsing refines the function |
| XmlParser.ParseCData | Src/Tinyxml/tinyxmlparser.cpp:1498-1535 | CDATA parsing refines the function |
| XmlParser.ParseUnknown | Src/Tinyxml/tinyxmlparser.cpp:1274-1305 | unknown-tag parsing refines the function |
| XmlParser.Identify | Src/Tinyxml/tinyxmlparser.cpp:818-905 | the classification of what starts at "<" refines the function, in the same order of tests |
| XmlParser.ParseNode | Src/Tinyxml/tinyxmlparser.cpp:818-905 | identifying and parsing one node refines the function |
| XmlParser.ParseElement | Src/Tinyxml/tinyxmlparser.cpp:1049-1086 | the start of an element refines the function, NULL for every failure |
| XmlParser.ParseAttributes | Src/Tinyxml/tinyxmlparser.cpp:1088-1174 | the attribute loop, with the duplicate check and both ends of the tag, refines the function |
| XmlParser.ParseContent | Src/Tinyxml/tinyxmlparser.cpp:1110-1135 | content and the matching end tag, with every failure, refine the function |
| XmlParser.ReadValue | Src/Tinyxml/tinyxmlparser.cpp:1177-1246 | the content loop, which goes back to before the white space when it is kept, refines the function |
| XmlParser.ParseTop | Src/Tinyxml/tinyxmlparser.cpp:747-796 | the document loop refines the function |
| XmlSyntax.NamedEntities | Src/Tinyxml/tinyxmlparser.cpp:43-50 | each of the five named references, written out, is read as its one character ahead of any text |
| XmlSyntax.LoneAmpersand | Src/Tinyxml/tinyxmlparser.cpp:526-531 | an ampersand followed by anything that begins no reference is dropped |
| XmlSyntax.EscapedCharacters | Src/Tinyxml/tinyxml.cpp:82-106 | each of the five characters that have one is escaped to its named reference, written out |
| XmlSyntax.EscapedOthers | Src/Tinyxml/tinyxml.cpp:107-130 | a character below 32 becomes "&#x", two upper-case hexadecimal digits and a semicolon; any other stays |
| XmlSyntax.DecimalReference | Src/Tinyxml/tinyxmlparser.cpp:478-511 | any 32-bit number in decimal between "&#" and a semicolon is read as its lowest byte |
| XmlSyntax.HexReference | Src/Tinyxml/tinyxmlparser.cpp:451-477 | the same for a hexadecimal number behind "&#x" |
| XmlSyntax.TagKinds | Src/Tinyxml/tinyxmlparser.cpp:818-905 | "<?xml" in any case, "<!--" and "<![CDATA[" are told apart whatever follows |
| XmlSyntax.OtherKinds | Src/Tinyxml/tinyxmlparser.cpp:818-905 | which other first characters make a tag an element, and which an unknown tag |
| XmlSyntax.SpacedAttribute | Src/Tinyxml/tinyxmlparser.cpp:1389-1464 | white space before the name and around the equals sign makes no difference |
| XmlSyntax.UnquotedAttribute | Src/Tinyxml/tinyxmlparser.cpp:1442-1463 | a value without quotes goes up to white space, a slash or a bracket and is taken as it stands |
| XmlSyntax.UnquotedRefused | Src/Tinyxml/tinyxmlparser.cpp:1452-1458 | a quote inside such a value is an error |
| XmlSyntax.AttributeWritten | Src/Tinyxml/tinyxml.cpp:1214-1238 | a value is put in double quotes unless it holds one, and then in single quotes |
| XmlSyntax.NamesEscaped | Src/Tinyxml/tinyxml.cpp:1214-1238 | the name of an attribute is escaped like its value |
| XmlSyntax.DocumentParsed | Src/Tinyxml/tinyxmlparser.cpp:1049-1246 | an element with an attribute, a text, a comment, a CDATA text and an empty element, for any of their names and contents, is parsed from the document text written out |
| XmlSyntax.DefaultLayout | Src/Tinyxml/tinyxml.cpp:1768-1876 | the printout with line breaks and four spaces of an element with an element and a comment, written out |
| XmlSyntax.OwnLine | Src/Tinyxml/tinyxml.cpp:1785-1797 | only a plain text that stands alone stays on the line of its parent; a comment or CDATA text has its own |
| XmlRest.NodeRest | Src/Tinyxml/tinyxmlparser.cpp:818-905 | what any parse of a node leaves is the end of the text it got |
| XmlRest.ElementRest | Src/Tinyxml/tinyxmlparser.cpp:1049-1174 | what the parse of an element leaves from any input stands right behind "/>" or behind the end tag with the name of the element |
| XmlUnclosed.UnclosedComment | Src/Tinyxml/tinyxmlparser.cpp:1335-1386 | a comment that is never closed goes on to the end of the input, and is no error |
| XmlUnclosed.UnclosedCData | Src/Tinyxml/tinyxmlparser.cpp:1498-1535 | nor is an unclosed CDATA section |
| XmlUnclosed.UnclosedUnknown | Src/Tinyxml/tinyxmlparser.cpp:1274-1305 | nor an unclosed unknown tag |
| XmlUnclosed.UnclosedElement | Src/Tinyxml/tinyxmlparser.cpp:1049-1174 | an element whose start tag or end tag is missing is an error |
| XmlUnclosed.WrongEndTag | Src/Tinyxml/tinyxmlparser.cpp:1125-1134 | so is an end tag with another name |
| XmlUnclosed.UnclosedValue | Src/Tinyxml/tinyxmlparser.cpp:1430-1441 | a value whose closing quote is missing goes on to the end |
| XmlUnclosed.TextOutside | Src/Tinyxml/tinyxmlparser.cpp:747-796 | the parse of a document stops without an error in front of text outside of all tags |
| XmlUnclosed.TwoWords | Src/Tinyxml/tinyxmlparser.cpp:596-637 | between two words any white space counts as one space, and at the ends it goes |
| XmlPrinter.StreamLayout | Src/Tinyxml/tinyxml.cpp:1768-1876 | with empty indentation and line breaks the visitor layout is exactly the stream printout, at every depth and in both text modes |
| XmlPrinter.TiXmlPrinter.SetStreamPrinting | Src/Tinyxml/tinyxml.h:1767-1769 | both layout strings become empty |
| XmlPrinter.TiXmlPrinter.PrintAttributes | Src/Tinyxml/tinyxml.cpp:1772-1778 | the loop over the attributes appends exactly their printout |
| XmlPrinter.TiXmlPrinter.VisitEnter | Src/Tinyxml/tinyxml.cpp:1768-1802 | appends the start tag with its layout, and sets depth and the simple-text flag for the children |
| XmlPrinter.TiXmlPrinter.VisitExit | Src/Tinyxml/tinyxml.cpp:1805-1828 | appends the end tag with its layout, and restores depth and flag |
| XmlPrinter.TiXmlPrinter.Visit | Src/Tinyxml/tinyxml.cpp:1831-1887 | appends a text, comment or unknown tag with its layout |
| XmlPrinter.TiXmlPrinter.Accept | Src/Tinyxml/tinyxml.cpp:846-857 | visiting a whole tree appends its layout and leaves depth and flag as they were |
| XmlPrinter.TiXmlPrinter.StreamPrint | Src/Tinyxml/tinyxml.cpp:1611-1630 | a fresh printer in stream mode produces exactly the printout that the round trip is proved for |
| XmlPrinter.TiXmlPrinter.DefaultPrint | Src/Tinyxml/tinyxml.h:1736-1737 | a fresh printer lays out with four spaces and line feeds |
| XmlLocation.WalkInStages | Src/Tinyxml/tinyxmlparser.cpp:196-311 | stopping at any earlier position, even inside a CR LF pair, leads to the same row, column and place |
| XmlLocation.StopsDoNotMatter | Src/Tinyxml/tinyxmlparser.cpp:196-311 | any non-decreasing sequence of stops ends exactly where one stop at the last of them does |
| XmlLocation.RowCountsBreaks | Src/Tinyxml/tinyxmlparser.cpp:196-311 | the row grows by the number of line breaks walked over, CR LF and LF CR counting once |
| XmlLocation.NoNulReaches | Src/Tinyxml/tinyxmlparser.cpp:215-240 | without NUL in the text the walk never meets the terminator |
| XmlLocation.TiXmlParsingData.Stamp | Src/Tinyxml/tinyxmlparser.cpp:196-311 | the method walks from the last stamp to the new one, or changes nothing without tabs or at a terminator |
| XmlLocation.TiXmlParsingData.StampAll | Src/Tinyxml/tinyxmlparser.cpp:196-311 | a run of `Stamp` calls at ascending positions leaves the object where one call at the last of them would |
| XmlLocation.BreaksMove | Src/Tinyxml/tinyxmlparser.cpp:224-251 | CR and LF go to the start of the next row; CR LF and LF CR are taken as one |
| XmlLocation.TabsMove | Src/Tinyxml/tinyxmlparser.cpp:253-259 | a tab goes on to the next multiple of the tab size |
| XmlLocation.PlainColumns | Src/Tinyxml/tinyxmlparser.cpp:285-302 | over other characters the column grows by their number and the row stays |
| XmlDom.SplicedOk | Src/Tinyxml/tinyxml.cpp:184-338 | turning the links of the two neighbours and setting those of the new node gives a child list with correct ends, parents and links in both directions |
| XmlDom.Relisted | Src/Tinyxml/tinyxml.cpp:184-338 | changing the list of one node, where only roots come in and what goes out is dropped with all below it, keeps the whole forest good |
| XmlDom.Edited | Src/Tinyxml/tinyxml.cpp:184-338 | the one preservation argument behind link, insert, replace and remove: pointer splice in one list, everything else untouched, gives a good forest |
| XmlDom.RewiredIsSpliced | Src/Tinyxml/tinyxml.cpp:184-338 | the pointer assignments of the operations amount to the splice at the place of the sibling |
| XmlDom.AttachClosed | Src/Tinyxml/tinyxml.cpp:184-208 | linking a root below a node outside its family creates no cycle |
| XmlDom.OnlyThroughHead | Src/Tinyxml/tinyxml.cpp:184-208 | from outside, a subtree is reachable through its head only |
| XmlDom.SiblingsApart | Src/Tinyxml/tinyxml.cpp:146-158 | the families of two children are disjoint, since climbing from a common member would reach the parent from both |
| XmlDom.TiXmlNode.DeleteChildren | Src/Tinyxml/tinyxml.cpp:146-158 | the loop that deletes the children while it steps to the next one frees exactly what is below the node, reads no freed node and frees none twice |
| XmlDom.TiXmlNode.Delete | Src/Tinyxml/tinyxml.cpp:146-158 | deleting a node frees exactly its family, whatever its own sibling and parent links say |
| XmlDom.TiXmlNode.Clear | Src/Tinyxml/tinyxml.cpp:167-181 | the node keeps its place with an empty child list, everything below it is freed, and the forest stays good |
| XmlDom.KidDeletable | Src/Tinyxml/tinyxml.cpp:290-338 | after a child has been unlinked, with or without another node in its place, its family is still intact and can be deleted |
| XmlDom.RootDropped | Src/Tinyxml/tinyxml.cpp:189-194 | deleting a root with all below it leaves a good forest |
| XmlDom.Exchanged | Src/Tinyxml/tinyxml.cpp:290-338 | taking a child out, with or without a root in its place, and dropping all below it leaves a good forest |
| XmlDom.SubtreeKept | Src/Tinyxml/tinyxml.cpp:824-843 | a subtree is the same wherever the lists of its own nodes are the same |
| XmlCopy.CopyAttributes | Src/Tinyxml/tinyxml.cpp:829-837 | the loop with `First` and `Next`, which takes an empty attribute after the first for the end, sets the attributes of the copy one by one |
| XmlCopy.AttrsCopyIff | Src/Tinyxml/tinyxml.cpp:829-837 | the copied attributes are the same if and only if there is no NUL in them, no name twice, and no empty attribute but the first |
| XmlCopy.DataCopyIff | Src/Tinyxml/tinyxml.cpp:160-164 | value and attributes of a copy, which go through C strings, are the same if and only if that holds of the attributes and the value has no NUL |
| XmlCopy.NulIsCut | Src/Tinyxml/tinyxmlparser.cpp:438-531 | "&#x00;" is read as NUL, so a value with NUL can be parsed, and a copy cuts it there |
| XmlCopy.PutLookup | Src/Tinyxml/tinyxml.cpp:829-837 | after an attribute has been set its name has the new value, and every other name what it had |
| XmlCopy.CutAtNul | Src/Tinyxml/tinyxml.cpp:160-164 | a value with a NUL is copied up to it |
| XmlDom.CopyIsExact | Src/Tinyxml/tinyxml.cpp:824-868 | `Clone` yields an equal tree if and only if at every node value and attributes are copied exactly, no leaf node has children and no document is a child |
| XmlDom.NulTreeIsCut | Src/Tinyxml/tinyxml.cpp:160-164 | the tree of such a text is changed by a copy |
| XmlDom.GraftedDocument | Src/Tinyxml/tinyxml.cpp:290-315 | after `ReplaceChild` has put in a document, no copy of the changed tree equals it |
| XmlDom.CloneUndone | Src/Tinyxml/tinyxml.cpp:189-194 | deleting a fresh copy gives back exactly the forest it was made in |
| XmlDom.CloneLinks | Src/Tinyxml/tinyxml.cpp:839-843 | each step of the copying loop adds the copy of one more child, and new nodes only |
| XmlDom.Replaced | Src/Tinyxml/tinyxml.cpp:290-315 | putting the root of a fresh copy in the place of a child is a sequence update, without what was below the child |
| XmlDom.SiblingsAre | Src/Tinyxml/tinyxml.cpp:211-338 | where a node ends up among its siblings: just before, just after or in the place of the one given, or taken out |
| XmlDom.TiXmlNode.NewRoot | Src/Tinyxml/tinyxml.cpp:135-144 | a new node joins the forest as a root without children, and nothing else changes |
| XmlDom.TiXmlNode.LinkEndChild | Src/Tinyxml/tinyxml.cpp:184-208 | for a root, or a node in no list whose parent is already set to this one: the child list grows by the node at its end and no other list changes; a document is deleted instead; the forest stays good |
| XmlDom.TiXmlNode.InsertEndChild | Src/Tinyxml/tinyxml.cpp:211-223 | appends a fresh copy; documents are refused; other lists unchanged |
| XmlDom.TiXmlNode.InsertBeforeChild | Src/Tinyxml/tinyxml.cpp:226-255 | inserts a fresh copy just before the child; refused for NULL, a foreign child or a document; other lists unchanged; the forest stays good |
| XmlDom.TiXmlNode.InsertAfterChild | Src/Tinyxml/tinyxml.cpp:258-287 | inserts a fresh copy just after the child; refused as before; other lists unchanged; the forest stays good |
| XmlDom.TiXmlNode.ReplaceChild | Src/Tinyxml/tinyxml.cpp:290-315 | puts a fresh copy in the place of the child, which goes with all below it; a document is not refused here; the forest stays good |
| XmlDom.TiXmlNode.RemoveChild | Src/Tinyxml/tinyxml.cpp:318-338 | takes the child out of the list, which goes with all below it; refused for a foreign child; the forest stays good |
| XmlDom.TiXmlNode.Clone | Src/Tinyxml/tinyxml.cpp:824-868 | the copy is a root over fresh nodes only, its tree is the copied tree of the original with values and attributes cut at NUL, and all existing lists are unchanged |
| XmlDom.TiXmlNode.CopyChild | Src/Tinyxml/tinyxml.cpp:839-843 | one step of `CopyTo`: the next child is copied and linked, or copied and deleted if it is a document |
| Sha1.NextWord | Src/memcached/sha1.c:58-59 | in the circular buffer the overwriting step computes word t of the 80-word schedule of FIPS 180-4 section 6.1.2 and keeps the last sixteen in place |
| Sha1.ChForm | Src/memcached/sha1.c:62-66 | the rewritten choice form equals Ch of FIPS 180-4 section 4.1.1, bit by bit |
| Sha1.MajForm | Src/memcached/sha1.c:62-66 | the rewritten majority form equals Maj of FIPS 180-4 section 4.1.1, bit by bit |
| Sha1.MixForm | Src/memcached/sha1.c:62-66 | the additions of one round macro are the T of the standard |
| Sha1.NextRegs | Src/memcached/sha1.c:62-66 | a round with rotated register names is step t of the standard |
| Sha1.ScheduleStart | Src/memcached/sha1.c:51-56 | seen through the swapped loads, the raw block is the sixteen big-endian words of FIPS 180-4 section 5.2.1 |
| Sha1.Blk0 | Src/memcached/sha1.c:51-56 | the first sixteen words are loaded, swapped and stored in place |
| Sha1.Blk | Src/memcached/sha1.c:58-59 | the later words are computed from the buffer and overwrite the oldest one |
| Sha1.EightyRounds | Src/memcached/sha1.c:85-105 | the eighty unrolled rounds with permuted registers compute the eighty steps of the standard and write only the block |
| Sha1.Transform | Src/memcached/sha1.c:74-114 | for every state and every 64-byte block, the state becomes its FIPS 180-4 compression with the block as it was before being overwritten; the rest of the memory stays |
| Sha1Spec.AbsorbPrefix | Src/memcached/sha1.c:132-150 | the hash after n blocks depends on those blocks only |
| Sha1Context.CounterAdds | Src/memcached/sha1.c:136-141 | the two-word bit counter with its carry test adds 8 * len modulo 2^64 |
| Sha1Context.PendingFromCount | Src/memcached/sha1.c:136-141 | the buffered length is recovered from the counter even after it has wrapped |
| Sha1Context.CounterIsLength | Src/memcached/sha1.c:156-159 | the eight counter bytes are the big-endian bit length of FIPS 180-4 section 5.1.1 |
| Sha1Context.ShaCtx.Init | Src/memcached/sha1.c:118-128 | the context stands for the empty message |
| Sha1Context.ShaCtx.Update | Src/memcached/sha1.c:132-150 | for any chunk the context stands for the message with the chunk appended: state is the fold of the compression over the full blocks, the buffer holds the pending bytes, the counter the bit length |
| Sha1Context.ShaCtx.PadAndAbsorb | Src/memcached/sha1.c:160-165 | feeding the padding byte by byte and then the length makes the absorbed text the padded message of FIPS 180-4 section 5.1.1 |
| Sha1Context.ShaCtx.Final | Src/memcached/sha1.c:151-176 | the digest is that of FIPS 180-4 for the whole message, however it was cut into chunks, and the context is wiped |
| Sha1Context.ShaCtx.Hash | Src/memcached/sha1.c:178-183 | the one-call form gives the same digest |
| Sha1Vectors.DigestOfAbc | Src/memcached/sha1.c:74-183 | the digest of "abc" that FIPS 180-4 publishes |
| Sha1Vectors.ExpandIs | Src/memcached/sha1.c:58-59 | a later word of the schedule is the sum of four earlier ones rotated left by one, FIPS 180-4 section 6.1.2 |
| Sha1Vectors.LengthReadsBack | Src/memcached/sha1.c:156-159 | the eight length bytes of any length stand for it, most significant byte first |
| HmacSha1.HmacOfShortKey | Src/memcached/sha1.c:308-354 | for every key of up to 64 bytes the code is the digest of the key xored with bytes 0x5C and padded with them, followed by the digest of the same with 0x36 before the text, RFC 2104 section 2 |
| HmacSha1.HmacOfLongKey | Src/memcached/sha1.c:254-306 | a longer key counts as its digest |
| HmacSha1.HmacCtx.Init | Src/memcached/sha1.c:246-252 | an empty key |
| HmacSha1.HmacCtx.UpdateKey | Src/memcached/sha1.c:254-306 | for any chunking the context stands for the whole key, held as bytes up to 64 and hashed beyond |
| HmacSha1.HmacCtx.EndKey | Src/memcached/sha1.c:308-334 | both pads hold the block key of RFC 2104 section 2 xored with their constants |
| HmacSha1.HmacCtx.StartMessage | Src/memcached/sha1.c:336-339 | the keyed context starts a message, also again after an earlier one |
| HmacSha1.HmacCtx.UpdateMessage | Src/memcached/sha1.c:341-343 | the chunk is appended to the message |
| HmacSha1.HmacCtx.EndMessage | Src/memcached/sha1.c:345-354 | the output is H((K0 xor opad) || H((K0 xor ipad) || text)) of RFC 2104 section 2, and the context is keyed for further messages |
| HmacSha1.HmacOnce | Src/memcached/sha1.c:365-374 | the one-call form gives the same code |
| MersenneTwister.CRandomMersenne.Init0 | Src/Shared/MersenneTwister.cpp:114-128 | the array is the expansion of the seed, and the next output is that of word N of the recurrence |
| MersenneTwister.CRandomMersenne.RandomInit | Src/Shared/MersenneTwister.cpp:131-138 | seeds and discards 37 outputs |
| MersenneTwister.CRandomMersenne.RandomInitByArray | Src/Shared/MersenneTwister.cpp:141-173 | for a key of any length the recurrence starts over from the mixed array, N + 1 outputs on; an empty key leaves the fixed seed |
| MersenneTwister.ArraySeeded | Src/Shared/MersenneTwister.cpp:141-168 | the mixed array always begins with 0x80000000, so it is never all zero |
| MersenneTwister.CRandomMersenne.MixKey | Src/Shared/MersenneTwister.cpp:151-162 | the key loop, with its wrap-around in array and key, computes the rounds of the function |
| MersenneTwister.CRandomMersenne.MixIndex | Src/Shared/MersenneTwister.cpp:163-167 | the index loop computes the rounds of the function |
| MersenneTwister.CRandomMersenne.FirstLoop | Src/Shared/MersenneTwister.cpp:188-193 | the first loop makes its words those of the next generation while their partners are still of the old one |
| MersenneTwister.CRandomMersenne.SecondLoop | Src/Shared/MersenneTwister.cpp:195-202 | the second loop and the wrap step complete the next generation, their partners being new already |
| MersenneTwister.CRandomMersenne.BRandom | Src/Shared/MersenneTwister.cpp:176-217 | over any number of calls, each result is the tempering of the next word of x[k+N] = x[k+M] xor twist(upper(x[k]) | lower(x[k+1])), and the array stays one generation of it |
| MersenneReference.RecurrenceIs | Src/Shared/MersenneTwister.cpp:176-203 | word k is word k - 227 xor the twist of the upper bit of word k - 624 and the lower bits of word k - 623 |
| MersenneWords.BlendIs | Src/Shared/MersenneTwister.cpp:182-191 | the upper bit of one word and the lower 31 of the other |
| MersenneWords.TwistIs | Src/Shared/MersenneTwister.cpp:184-192 | a word is halved, and 0x9908B0DF added without carry if it was odd |
| MersenneWords.TemperLinear | Src/Shared/MersenneTwister.cpp:208-213 | tempering is linear, so that its values at the one-bit words determine it |
| MersenneWords.TemperBits | Src/Shared/MersenneTwister.cpp:208-213 | its values at all thirty-two one-bit words, as numbers |
| MersenneReference.ReferenceSeed | Src/Shared/MersenneTwister.cpp:114-128 | the first words of the array for the published seed 5489 |
| MersenneReference.ArraySeededIs | Src/Shared/MersenneTwister.cpp:141-173 | seeding by a key of any length is one recurrence: each round mixes the word left in its place 623 rounds before with the word of the round before, and with the key or later with the place |
| MersenneTwister.LimitIsLargestMultiple | Src/Shared/MersenneTwister.cpp:286-294 | the wrapped 64-bit limit computation gives the largest multiple of the interval length within 2^32, less one |
| MersenneTwister.Uniform | Src/Shared/MersenneTwister.cpp:268-304 | for every interval length from 2 to below 2^32 and every value v below it, exactly floor(2^32 / n) of the 32-bit words are accepted and give v |
| MersenneTwister.ScaledInRange | Src/Shared/MersenneTwister.cpp:295-303 | the high half of the product is below the interval length |
| MersenneTwister.CRandomMersenne.IRandomX | Src/Shared/MersenneTwister.cpp:268-304 | the result lies in the interval, comes from the first accepted word, uses up exactly the words drawn, and the cached limit matches the last interval; degenerate intervals draw nothing |
| HashRing.LessIsBefore | Src/memcached/MemCacheClient.cpp:223-236 | the comparison contains the strict order by hash and server and never contradicts it, although it is not irreflexive |
| HashRing.Sort | Src/memcached/MemCacheClient.cpp:344-345 | sorting with that comparison gives a sorted permutation |
| HashRing.OwnerIsUnique | Src/memcached/MemCacheClient.cpp:454-511 | for a key and a service the owning server is unique |
| HashRing.FirstOfferingOwns | Src/memcached/MemCacheClient.cpp:474-495 | in a sorted ring the first offering entry met on the way round from the lower bound is the clockwise nearest |
| HashRing.NobodyOffers | Src/memcached/MemCacheClient.cpp:489-492 | once the search is back at its start, no entry of the ring offers the service |
| HashRing.OnlyMovesToNewServer | Src/memcached/MemCacheClient.cpp:294-352 | adding the entries of one new server moves keys to that server only, never between two old ones |
| HashRing.OwnerExists | Src/memcached/MemCacheClient.cpp:474-495 | where any entry offers a service, every key has an owner for it |
| HashRing.StrLessIs | Src/memcached/MemCacheClient.cpp:230-232 | texts are ordered by the first character that differs, a text before its extensions |
| HashRing.DistanceIs | Src/memcached/MemCacheClient.cpp:474-480 | the distance from a key to an entry, round the end of the ring |
| HashRing.MemCacheClient.AddServer | Src/memcached/MemCacheClient.cpp:294-352 | the ring stays sorted and gains exactly four entries, each at the hash of the address with one of the four salts, for the server and all its services; afterwards every key has an owner for every part of those services; a known address changes nothing; keys change owner only to the new server |
| HashRing.FindLowerBound | Src/memcached/MemCacheClient.cpp:474-479 | binary search by hash finds the first entry not before the key |
| HashRing.MemCacheClient.FindOwner | Src/memcached/MemCacheClient.cpp:454-495 | the cyclic search ends and finds the owner, -1 if and only if no entry offers the service |
| HashRing.MemCacheClient.FindServer | Src/memcached/MemCacheClient.cpp:454-511 | the owner if its connection succeeds, otherwise nothing |
| MemSocket.LineLengthIsFirst | Src/memcached/Socket.cpp:624-642 | a line ends at the first newline |
| MemSocket.Consumed | Src/memcached/Socket.cpp:525-560 | taking a piece of what the network delivers leaves exactly the rest |
| MemSocket.Socket.ReceiveBytes | Src/memcached/Socket.cpp:525-560 | a non-empty piece of what is available, in order, or failure and disconnection |
| MemSocket.Socket.GetByte | Src/memcached/Socket.cpp:562-573 | the next byte of the stream, whatever the chunks; failure exactly at its end |
| MemSocket.Socket.GetBytes | Src/memcached/Socket.cpp:575-599 | the next bytes of the stream, at least one and at most the size asked for |
| MemSocket.Socket.DiscardBytes | Src/memcached/Socket.cpp:601-621 | exactly the number asked for is dropped from the stream, or it is exhausted |
| MemSocket.Socket.ReceiveLine | Src/memcached/Socket.cpp:623-642 | the first line of the stream with its newline, trimmed on request; failure exactly if the stream has no newline |
| MemSocket.Socket.Disconnect | Src/memcached/Socket.cpp:150-178 | nothing is left to read |
| MemSocket.Server.SendBytes | Src/memcached/Socket.cpp:482-523 | the bytes go out in one piece, or the connection is dropped |
| ReadWriteBuffer.RoundUpEnough | Src/memcached/ReadWriteBuffer.cpp:107-111 | rounding up gives a multiple of the growth step, which is enough and never a whole step too much |
| ReadWriteBuffer.ReadWriteBuffer.SetExternalBuffer | Src/memcached/ReadWriteBuffer.cpp:81-112 | the buffer stands for the given bytes; bad arguments change nothing |
| ReadWriteBuffer.ReadWriteBuffer.SetInternalBuffer | Src/memcached/ReadWriteBuffer.cpp:114-131 | an empty internal buffer of at least the size, with a growth step of at least one |
| ReadWriteBuffer.ReadWriteBuffer.GetWriteBuffer | Src/memcached/ReadWriteBuffer.cpp:133-160 | room for the bytes asked for without losing unread ones; growth converts an external buffer; refused only for a full external one without growth |
| ReadWriteBuffer.ReadWriteBuffer.CommitWriteBytes | Src/memcached/ReadWriteBuffer.cpp:162-169 | the bytes behind the written ones join the end of the unread ones |
| ReadWriteBuffer.ReadWriteBuffer.WriteBytes | Src/memcached/ReadWriteBuffer.cpp:177-186 | the bytes are appended to the unread ones, or nothing changes |
| ReadWriteBuffer.ReadWriteBuffer.CommitReadBytes | Src/memcached/ReadWriteBuffer.cpp:194-201 | the oldest unread bytes go |
| ReadWriteBuffer.ReadWriteBuffer.ReadBytes | Src/memcached/ReadWriteBuffer.cpp:209-222 | the oldest unread bytes come out in order, or nothing changes |
| ReadWriteBuffer.ReadWriteBuffer.Compact | Src/memcached/ReadWriteBuffer.cpp:224-233 | the overlapping move keeps the unread bytes and frees the room of the read ones |
| ReadWriteBuffer.ReadWriteBuffer.Assign | Src/memcached/ReadWriteBuffer.cpp:38-52 | copying another buffer preserves its unread bytes; assigning a buffer to itself empties it |
| ReadWriteBuffer.ReadWriteBuffer.Equals | Src/memcached/ReadWriteBuffer.cpp:235-244 | equality of the unread bytes |
| ReadWriteBuffer.ReadWriteBuffer.Deallocate | Src/memcached/ReadWriteBuffer.cpp:59-72 | an empty buffer without storage |
| MemResponse.NumberReadsBack | Src/memcached/MemCacheClient.cpp:690-697 | a printed decimal number is read back by `strtoul` up to the first character that is no digit |
| MemResponse.HeaderReadsBack | Src/memcached/MemCacheClient.cpp:675-697 | the header line of any conforming value is read back with its key, flags and size |
| MemResponse.ValueFiled | Src/memcached/MemCacheClient.cpp:675-733 | one value of a response is filed or skipped by its exact length and the loop goes on behind it, even if its bytes hold "END" |
| MemResponse.ConformingResponse | Src/memcached/MemCacheClient.cpp:665-737 | for any conforming response, with anything behind it, the loop consumes exactly through the end line, files every requested value and counts the values filed |
| MemResponse.FiledExactly | Src/memcached/MemCacheClient.cpp:699-724 | with distinct keys, an answered request gets exactly the bytes, flags and CAS of its value, and every other request stays as it was |
| MemGet.ReceiveData | Src/memcached/MemCacheClient.cpp:717-723 | the loop over `GetBytes` appends exactly the announced number of bytes, below 2^31, in whatever pieces they come, or all there were |
| MemGet.Find | Src/memcached/MemCacheClient.cpp:699-703 | the first request with the key, or none |
| MemGet.HandleGetResponse | Src/memcached/MemCacheClient.cpp:665-737 | for every stream, conforming or not, and every chunking, the loop over the socket and the request objects does exactly what `Process` says: result, requests, and what is left on the stream; on a stream that begins with "END" and a line end the result is 0 and no request changes; it stops at a size for a requested key that is no C `int` |
| MemProtocol.NothingFound | Src/memcached/MemCacheClient.cpp:678 | the answer "END" leaves every request as it was, and reading ends right behind it |
| MemProtocol.OneValue | Src/memcached/MemCacheClient.cpp:675-733 | an answer with one value, written out, files it with its flags under its key or drops it, whatever its bytes are |
| MemProtocol.OneValueWithCas | Src/memcached/MemCacheClient.cpp:705-715 | the same with the CAS number that gets asks for |
| MemProtocol.OtherLinesThrow | Src/memcached/MemCacheClient.cpp:680-683 | a line that is neither the end line nor begins with "VALUE " ends the reading with an exception |
| MemProtocol.OnlyKey | Src/memcached/MemCacheClient.cpp:686-687 | so does a header without a space after the key |
| MemProtocol.OnlyFlags | Src/memcached/MemCacheClient.cpp:691-693 | flags that are not followed by a space |
| MemProtocol.SizeNotEnded | Src/memcached/MemCacheClient.cpp:695-697 | a size that is followed neither by a space nor by the line end |
| MemProtocol.CasIs | Src/memcached/MemCacheClient.cpp:710-714 | the CAS number is read behind the size, and must end the line |
| MemProtocol.ValueNotEnded | Src/memcached/MemCacheClient.cpp:726-731 | a value that is not followed by a line end |
| MemProtocol.MinusNumber | Src/memcached/MemCacheClient.cpp:690-697 | a sign before a number; minus negates modulo 2^64 |
| MemProtocol.TooLarge | Src/memcached/MemCacheClient.cpp:690-697 | too large a number saturates |
| MemProtocol.RequestsWritten | Src/memcached/MemCacheClient.cpp:583-590 | the request line for one and for two keys, written out |
| MemProtocol.NoAnswer | Src/memcached/MemCacheClient.cpp:608-621 | when sending fails or reading ends early, all requests of the server are without one and none is counted |
| MemProtocol.TrimEndIs | Src/memcached/Socket.cpp:636-642 | trimming takes all white space at the end of a line and nothing else |
| MemProtocol.AvailableIs | Src/memcached/Socket.cpp:525-560 | pieces count in order up to a failure or an empty piece |
| MemBatch.ProcessGrows | Src/memcached/MemCacheClient.cpp:665-737 | on any bytes whatever, results stay OK or NOTFOUND, keys stay, each value filed makes at most one request OK, and all of them do if and only if no key is filed twice or was OK before |
| MemBatch.AlwaysSettled | Src/memcached/MemCacheClient.cpp:571-658 | however sending and receiving go, the requests of a server end OK, NOTFOUND or NOSERVER, at most as many are OK as are counted, and exactly as many if and only if no key is answered twice |
| MemBatch.CutResponseThrows | Src/memcached/MemCacheClient.cpp:665-737 | a conforming response broken off anywhere ends in the exception |
| MemBatch.ConformingOnce | Src/memcached/MemCacheClient.cpp:665-737 | a conforming server never announces a size that is no `int`, and it answers a key twice if and only if its whole response came and holds two values for a requested key |
| MemBatch.AnsweredTwice | Src/memcached/MemCacheClient.cpp:665-737 | the failing side: "get k k" answered with k twice counts two, and one of the two requests is OK |
| MemCombine.Assign | Src/memcached/MemCacheClient.cpp:547-560 | every item gets its server, those without one end NOSERVER, and the others are listed in order |
| MemCombine.SortOnServer | Src/memcached/MemCacheClient.cpp:567-569 | the list is permuted into server order |
| MemCombine.BuildRequest | Src/memcached/MemCacheClient.cpp:576-606 | the inner loop takes exactly the adjacent requests of one server and builds the command with their keys and one CRLF |
| MemCombine.SendGroup | Src/memcached/MemCacheClient.cpp:576-621 | one round of the sending loop: the server gets one request for exactly its keys, or its requests are given up |
| MemCombine.SendAll | Src/memcached/MemCacheClient.cpp:571-623 | the sending loop cuts the list into one group per server, none missing and none twice |
| MemCombine.ReceiveGroup | Src/memcached/MemCacheClient.cpp:634-657 | the response is filed as `Process` says; after an exception all requests of the server are given up and none counts |
| MemCombine.RunIsGroup | Src/memcached/MemCacheClient.cpp:628-632 | while it waits for its response, the run of a server in the list is exactly its group |
| MemCombine.ReceiveAll | Src/memcached/MemCacheClient.cpp:625-658 | the receiving loop settles every group once and adds up the responses, unless a size that is no `int` stops it |
| MemCombine.TotalIsOk | Src/memcached/MemCacheClient.cpp:625-662 | the sum over the groups bounds the number of OK requests, with equality if and only if no server answers a key twice |
| MemCombine.OkInOrder | Src/memcached/MemCacheClient.cpp:567-569 | sorting does not change how many requests are OK |
| MemCombine.Combine | Src/memcached/MemCacheClient.cpp:526-663 | for any servers found, any failures and any bytes: each server with items is sent the command with exactly its own keys; unless a server announces a size that is no `int`, every item ends OK, NOTFOUND or NOSERVER, and the result is at least the number of OK items, and equal to it if and only if no server answers a key twice; -1 for more than 50 items |
| Framing.DrainEarly | Src/server/basesocket.cpp:32-69 | reading what has come so far first, and the rest later, makes no difference |
| Framing.ChunkingIrrelevant | Src/server/basesocket.cpp:32-69 | for every stream, legal or not, messages, leftover and connection do not depend on how the stream was cut |
| Framing.EveryFrameDelivered | Src/server/basesocket.cpp:32-69 | accepted legal frames, however cut, are delivered once each, in order and unaltered, and what is left over is the start of the next one |
| Framing.LowByteFirst | Src/server/basesocket.cpp:44 | the low byte of the length comes first |
| Framing.IllegalLength | Src/server/basesocket.cpp:46-51 | a length that is not above the header size, or is above 500, ends the connection behind the messages before it |
| Framing.RefusedMessage | Src/server/basesocket.cpp:55-63 | a message that the handler refuses is handed over, and ends the connection |
| Framing.BaseSocket.OnRead | Src/server/basesocket.cpp:32-69 | the reading loop does exactly one drain of the buffer |
| Utf8.OctetsDecode | Src/Tinyxml/tinyxmlparser.cpp:88-125 | decoding the octets of RFC 3629 section 3 gives the code point back |
| Utf8.ConvertUTF32ToUTF8 | Src/Tinyxml/tinyxmlparser.cpp:88-125 | the falling-through encoder emits the octets of RFC 3629 section 3, and nothing from 0x200000 on |
| Utf8.TableAgrees | Src/Tinyxml/tinyxmlparser.cpp:66-86 | the length table gives the number of octets emitted if and only if the code point is below 0x140000 |
| Utf8.PublishedOctets | Src/Tinyxml/tinyxmlparser.cpp:88-125 | the encoded examples of RFC 3629 section 7 |
| Utf8.LeadOccurs | Src/Tinyxml/tinyxmlparser.cpp:66-86 | every lead byte with more than one byte in the table begins the octets of some code point |
| Utf8.LeadsAnnounce | Src/Shared/Util.cpp:400-411 | how many bytes each range of lead bytes announces |
| Utf8.Refused | Src/Shared/Util.cpp:384-429 | a continuation byte in front, or a lead byte without enough of them, is refused |
| Utf8.CountOnes | Src/Shared/Util.cpp:400-411 | the shifting loop counts the leading one bits |
| Utf8.IsStringUTF8 | Src/Shared/Util.cpp:384-429 | the recogniser accepts exactly the strings of the lead and continuation language with at least one non-ASCII byte |
| Utf8.EncodedIsWellFormed | Src/Shared/Util.cpp:384-429 | any concatenation of encoded code points is in that language, and is plain ASCII only if all of them are |

## Left out

- XML declarations: a "<?xml" tag counts as a parse failure in the model.
- The tree of a failed parse: the library keeps what it had; the model keeps only the failure, without error code and location.
- The UTF-8 branches of `GetChar`, `SkipWhiteSpace`, `ReadText` and `Stamp`, and byte order marks.
- `StreamIn`, loading and saving files, `Print` to a `FILE`, and the handle classes.
- The parser builds tree values; linking its nodes into the heap is the `LinkEndChild` that `XmlDom` models.
- The circular attribute list of an element with its sentinel: attributes are a sequence in document order.
- XmlDom.TiXmlNode.LinkEndChild: the error recorded in the document is not modelled.
- XmlDom.TiXmlNode.Clone: user data, the CDATA flag, the parts of a declaration and the error state of a document are not modelled; they are copied whole.
- XmlDom.TiXmlNode.Delete: an element's own destructor runs the same loop once, in `Clear`, before the one of its base class; the attributes it deletes are values here.
- Linking a node below one of its own descendants, which the library does not detect, is outside the preconditions.
- XmlParsed.RoundTripIff: for whole trees that hold "&#x" there is no exact condition, because what a raw "&#x" swallows could by chance read the same; for single attribute values and texts there is.
- Memory allocation is taken to succeed and sizes not to overflow `size_t`.
- The big-endian variant of the SHA-1 schedule macro, and `HMAC_SHA1_Done`.
- Sha1Context.ShaCtx.Update: needs the pending bytes and the chunk together to be below 2^32 bytes, where the 32-bit sum of the source would wrap and the copy overrun its buffer; so do HmacCtx.UpdateKey and HmacCtx.UpdateMessage.
- The floating-point generators and the lock pool of the Mersenne Twister.
- MersenneTwister.CRandomMersenne.IRandomX: needs an accepted word somewhere ahead, since rejection alone does not end by itself, and an interval below 2^31 long, where `max - min + 1` does not overflow.
- `DelServer`, `ClearServers`, server names and reconnection periods; the key hash is an arbitrary function, and servers are named by their canonical address.
- HashRing.FindLowerBound: the probe of the search has no server, so where it meets an entry with the same hash it is compared by hash only.
- Multi-server delete, storing, increments and flushing; the debug assertion of `Combine` that keys hold no space.
- MemGet.HandleGetResponse: the data of a request is its unread bytes; `ReadWriteBuffer` says how they are kept.
- MemCombine.Combine: the items' `FindServer` calls are given by their results, and connecting does not disturb other connections.
- Resolving, connecting, timeouts and socket options.
- Framing.BaseSocket.OnRead: the header size and the handler are parameters; the byte queue under the read buffer is not part of this model.
- Lua bindings, modules, threads, logging, crash handling and the other server plumbing.
