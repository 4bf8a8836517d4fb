# Verified models of the server's data formats and containers

This project models the parts of the repository whose correctness is hardest to
see from one function, and proves what their documentation, comments and callers
rely on. To check it, run `dafny verify dfyconfig.toml` in this directory.

- **TinyXML** (`Xml*.dfy`). Printing and parsing as functions of bytes, the
  printer as a visitor object, the parsers as loops that are proved equal to the
  functions, and the two linked structures of the DOM. Main results: an element as
  an author may write it - any quotes, references, white space and kinds of tags -
  is read as the tree it stands for, and which start and end tags are refused;
  numeric references are read as their numbers; parsing the
  printout of an element gives the element back; whatever the input, what the
  parser accepts is well shaped, and printing it again is stable when its strings
  survive escaping, and, if its references are closed, only then; exactly which
  attribute values, texts, comments, CDATA sections and unrecognised tags survive;
  the child list and the attribute ring refine sequences, and exactly which trees
  are equal to their copies.
- **Protobuf extension sets** (`WireFormat.dfy`, `WireExamples.dfy`,
  `Extension*.dfy`, `UnknownFields.dfy`). Main results: serialized sets one after
  the other parse to the merged set if and only if neither is nested deeper than
  the recursion limit; field by field, which values a merge leaves; fields that are
  not known are stepped over exactly; sizes are exact; parsing any input keeps
  entries well typed.
- **Protobuf descriptor pool** (`Pool*.dfy`, `Import*.dfy`, `SymbolLookup.dfy`).
  Main results: a rollback restores the state at its checkpoint over every run,
  and over every run each name leads to what was added for it first among the
  additions not rolled back; a file is found exactly when its imports are sound,
  acyclic apart from self-imports and free of names defined twice, and no file
  built before defines one of their names; so the order of questions is irrelevant
  when the files they lead to define no name twice, and for two loadable files
  only then; scoped lookup is the innermost-scope rule, for each kind of symbol.
- **Protobuf symbol index** (`SymbolIndex.dfy`). Main results: the predecessor
  search is exact for all queries if and only if no stored name is a scope around
  another; the two-neighbour check keeps that invariant except in one case, which
  is stated exactly and for which a witness is given; so after any run of
  additions the search is exact if and only if that case did not occur.
- **Dynamic messages** (`DynamicLayout.dfy`, `DynamicFactory.dfy`). Main results:
  the layout never overlaps, and each field's part holds every value of its type;
  the memoised recursion terminates on recursive types and links every slot to the
  one prototype of its type.
- **The server's containers** (`TwoThreadQueue.dfy`, `ByteStream.dfy`,
  `TypedArguments.dfy`, `Bundler.dfy`). Main results: every interleaving of the
  two-thread queue is a queue; the typed argument buffer is a queue of values over
  a byte queue as long as no compaction copies memory over itself, exactly when
  that happens, and a bound on the capacity in any case; deferred deletion of
  handlers is invisible.

## How to read it

Each component has a specification on values (functions and predicates) and, where
the source changes things in place, a class or loop methods proved against it. A C
string is the sequence of its bytes, a pointer into a buffer the bytes from it on,
and a null pointer `None`; reads at the end of a buffer see its terminator. Sizes
and counters are unbounded integers unless the source relies on their width: the
entity digits of TinyXML wrap at 32 bits, varints at 32 and 64, and the counters
of the queue at 32.

Where the code differs from its comments, or from what a caller would expect, the model
follows the code:

- `EncodeString` lets `&#x` through, so a string that holds it does not survive.
- The index comment promises that no stored name is a scope around another; adding
  a name below every stored one can break it (`SymbolIndex.OverlookedWitness`).
- The comment on pending files speaks of recursive imports in general; a file that
  imports itself is accepted.
- `bundler_pool` may be asked to unbind a dead handler again; its delete list then
  names an entry twice (`Bundler.UnbindStep`, `Bundler.DoubleUnbindWitness`).
- `TStream` moves its live bytes with a `memcpy` whose source and destination may
  overlap, which is undefined (`ByteStream.CopiesDefined`,
  `TypedArguments.OverlappingPushWitness`).
- Whether a file is found can depend on what was asked before, when two files
  define one name (`ImportLoading.AskInBothOrders`).
- In UTF-8 the zero-width marks that white-space skipping swallows are also name
  bytes, so an end tag may carry some behind its name (`XmlErrors.EndTagMatches`).
- An attribute with neither name nor value ends the walk over the attributes, so
  those behind it are not copied (`XmlCopies.CopiedAttributesExact`).

## Model

| member | source | states |
|---|---|---|
| XmlUtf8.ConvertIsShortestInverse | src/Public/tinyxml/tinyxmlparser.cpp:88-126 | for every value below 0x200000 the bytes written decode to the value, are the shortest sequence that does, and the only one of that length |
| XmlUtf8.TableMatchesConvert | src/Public/tinyxml/tinyxmlparser.cpp:66-126 | the lead-byte table gives the length written exactly for the values below 0x140000 |
| XmlUtf8.ConvertUTF32ToUTF8 | src/Public/tinyxml/tinyxmlparser.cpp:88-126 | the fall-through writes into the buffer are the specified bytes, and the buffer behind them is untouched |
| XmlUtf8.MaskIsArithmetic | src/Public/tinyxml/tinyxmlparser.cpp:88-126 | on machine words the continuation mask, the shift by six and the mark of the first byte are the remainder, quotient and sum of the specification |
| XmlText.EncodeString | src/Public/tinyxml/tinyxml.cpp:52-115 | the escaping loop appends the specified escaping of the whole string |
| XmlText.PassReference | src/Public/tinyxml/tinyxml.cpp:58-77 | the inner loop copies exactly the bytes of a `&#x` reference and stops where the specification says |
| XmlTextLaws.ControlDecodes | src/Public/tinyxml/tinyxml.cpp:93-107 | a control byte escaped as `&#xHH;` is read back as that byte, in every encoding |
| XmlTextLaws.NamedDecodes | src/Public/tinyxml/tinyxml.cpp:78-92 | each named entity written is read back as its character |
| XmlTextLaws.ChunkDecodes | src/Public/tinyxml/tinyxmlparser.cpp:438-531 | one character of an escaped string that starts no reference is read back as its own bytes, multi-byte characters included |
| XmlTextLaws.KeptReadsBack | src/Public/tinyxml/tinyxml.cpp:52-115 | for every string without `&#x` that the encoding splits into characters, reading the escaped string stops at the delimiter with the string |
| XmlTextLaws.KeptRoundTrip | src/Public/tinyxml/tinyxml.cpp:52-115 | an escaped string reads back as itself up to its delimiter exactly when it holds no `&#x` |
| XmlTextLaws.RefShrinks | src/Public/tinyxml/tinyxml.cpp:58-77 | a string that starts with `&#x` never reads back whole: what comes back up to the delimiter is shorter |
| XmlTextLaws.KeptNeverGrows | src/Public/tinyxml/tinyxml.cpp:52-115 | escaping and reading back never gives more bytes than went in |
| XmlTextLaws.TextReadsBack | src/Public/tinyxml/tinyxmlparser.cpp:574-637 | what condensing makes of a text, and that it is the text exactly when the text has single inner spaces, none at its ends and no zero-width mark in front |
| XmlTextLaws.CondensingKeepsNormal | src/Public/tinyxml/tinyxmlparser.cpp:596-633 | the texts condensing leaves alone are exactly the normal ones |
| XmlBytes.SkipWhiteSpaceLoop | src/Public/tinyxml/tinyxmlparser.cpp:314-362 | both loops of white-space skipping compute the specified suffix, the three zero-width marks included |
| XmlBytes.ReadNameLoop | src/Public/tinyxml/tinyxmlparser.cpp:401-436 | the name loop takes the longest run of name bytes, or nothing when the first byte starts no name |
| XmlBytes.ReadNameExact | src/Public/tinyxml/tinyxmlparser.cpp:401-436 | a valid name followed by a byte that cannot continue it is read back exactly |
| XmlReader.ReadDigits | src/Public/tinyxml/tinyxmlparser.cpp:464-499 | the loop form refines the parser function on every input: the backward digit loop with its 32-bit place value, hexadecimal and decimal; what it yields for a number is `XmlReferences.ReferenceRead` |
| XmlReader.GetEntityAt | src/Public/tinyxml/tinyxmlparser.cpp:438-531 | the loop form refines the parser function on every input: entity reading with every error exit, and the unknown `&` that gives no bytes; which byte sequences numeric references yield is `XmlReferences.ReferenceRead` |
| XmlReader.ReadKeptAt | src/Public/tinyxml/tinyxmlparser.cpp:586-594 | the loop form refines the parser function on every input: the loop of `ReadText` that keeps white space |
| XmlReader.ReadCondensedAt | src/Public/tinyxml/tinyxmlparser.cpp:598-632 | the loop form refines the parser function on every input: the loop of `ReadText` that condenses white space |
| XmlReader.ReadTextAt | src/Public/tinyxml/tinyxmlparser.cpp:574-637 | the loop form refines the parser function on every input: `ReadText` with its null result when nothing follows the end tag |
| XmlReader.ParseAttributeAt | src/Public/tinyxml/tinyxmlparser.cpp:1392-1463 | the loop form refines the parser function on every input: attribute parsing with its error exits, quoted and unquoted |
| XmlReader.ParseUnquoted | src/Public/tinyxml/tinyxmlparser.cpp:1441-1461 | the loop form refines the parser function on every input: unquoted values end at white space, `/` or `>`, and a quote in one is an error |
| XmlReader.ParseRawMarkup | src/Public/tinyxml/tinyxmlparser.cpp:1275-1389 | the loop form refines the parser function on every input: comments, CDATA sections and unrecognised tags, up to their end mark or the end of input |
| XmlReader.ParseDeclarationAt | src/Public/tinyxml/tinyxmlparser.cpp:1572-1629 | the loop form refines the parser function on every input: the attribute loop of a declaration |
| XmlReader.ParseElementAt | src/Public/tinyxml/tinyxmlparser.cpp:1043-1176 | the loop form refines the parser function on every input: start tag, attribute loop, duplicate check, empty tags, content and end tag |
| XmlReader.ReadValueAt | src/Public/tinyxml/tinyxmlparser.cpp:1179-1247 | the loop form refines the parser function on every input: the content loop: text, blank text dropped, markup, end tag |
| XmlReader.ParseMarkupAt | src/Public/tinyxml/tinyxmlparser.cpp:818-899 | the loop form refines the parser function on every input: which parser `Identify` picks for a `<` |
| XmlReader.GetCharAt | src/Public/tinyxml/tinyxml.h:376-398 | the loop form refines the parser function on every input: one character by the lead-byte table, copied up to a NUL |
| XmlRoundTrip.AttributeRoundTrip | src/Public/tinyxml/tinyxml.cpp:1026-1053 | a printed attribute with a valid name parses back, stopping right behind its closing quote, exactly when its value holds no `&#x` |
| XmlRoundTrip.AttributesRoundTrip | src/Public/tinyxml/tinyxml.cpp:1496-1509 | a printed list of attributes of distinct names parses back in order |
| XmlRoundTrip.CommentRoundTrip | src/Public/tinyxml/tinyxml.cpp:1570-1577 | a printed comment parses back exactly when it holds no NUL and no `-->` |
| XmlRoundTrip.CDataRoundTrip | src/Public/tinyxml/tinyxml.cpp:1543-1548 | a printed CDATA section parses back exactly when it holds no NUL and no `]]>` |
| XmlRoundTrip.UnrecognisedRoundTrip | src/Public/tinyxml/tinyxml.cpp:1579-1586 | a printed unrecognised tag parses back exactly when it holds no NUL and no `>` |
| XmlRoundTrip.ContentRoundTrip | src/Public/tinyxml/tinyxmlparser.cpp:1179-1247 | printed children, indented or not, parse back as the same children up to the end tag |
| XmlRoundTrip.MarkupRoundTrip | src/Public/tinyxml/tinyxmlparser.cpp:818-899 | each printed child that is not plain text is identified as what it is and parses back |
| XmlRoundTrip.ElementRoundTrip | src/Public/tinyxml/tinyxmlparser.cpp:1043-1247 | parsing the printout of any printable element gives the element and stops right behind it, whatever follows: in stream mode, and with any white-space formatting when white space is condensed |
| XmlRoundTrip.IndentedElement | src/Public/tinyxml/tinyxmlparser.cpp:1043-1247 | the same for an element on an indented line of its own |
| XmlReprint.ElementShaped | src/Public/tinyxml/tinyxmlparser.cpp:1043-1176 | for any input, an element read to its end has valid names, no attribute twice, no blank or adjacent texts and no raw section that contains its own end |
| XmlReprint.ValueShaped | src/Public/tinyxml/tinyxmlparser.cpp:1179-1247 | the same for the children of any content read to its end tag |
| XmlReprint.MarkupShaped | src/Public/tinyxml/tinyxmlparser.cpp:818-899 | the same for each child, of whatever kind `Identify` makes it |
| XmlReprint.TagRestShaped | src/Public/tinyxml/tinyxmlparser.cpp:1081-1174 | the attribute loop keeps names valid and distinct |
| XmlReprint.PrintableParts | src/Public/tinyxml/tinyxmlparser.cpp:1043-1247 | a tree is printable exactly when it has that shape and its strings survive escaping |
| XmlReprint.ReprintIsStable | src/Public/tinyxml/tinyxmlparser.cpp:1043-1247 | for any input, an element read to its end whose strings survive escaping is printed so that it parses as itself again |
| XmlConverse.KeptInSync | src/Public/tinyxml/tinyxmlparser.cpp:586-594 | an escaped string whose references are closed is read up to its delimiter or not at all; what is read is no longer than the string, and shorter when it holds `&#x` |
| XmlConverse.CondensedInSync | src/Public/tinyxml/tinyxmlparser.cpp:598-632 | the same where white space is condensed, with the white space around it |
| XmlConverse.SkipRunInSync | src/Public/tinyxml/tinyxmlparser.cpp:314-362 | skipping white space in front of an escaped text leaves the escaped text without its leading spaces and zero-width marks |
| XmlConverse.TextFails | src/Public/tinyxml/tinyxmlparser.cpp:1179-1247 | a text child whose references are closed and that does not survive is not the first child that comes back |
| XmlConverse.AttributesFail | src/Public/tinyxml/tinyxmlparser.cpp:1081-1174 | a list of attributes one of which holds a closed `&#x` does not come back |
| XmlConverse.ContentFails | src/Public/tinyxml/tinyxmlparser.cpp:1179-1247 | children one of which does not survive do not come back |
| XmlConverse.ElementFails | src/Public/tinyxml/tinyxmlparser.cpp:1043-1176 | an element one of whose strings does not survive does not come back, whatever follows it |
| XmlConverse.RoundTripExact | src/Public/tinyxml/tinyxmlparser.cpp:1043-1247 | an element tree without declarations, whose references are closed, comes back from its printout if and only if it is printable |
| XmlConverse.ReprintExact | src/Public/tinyxml/tinyxmlparser.cpp:1043-1247 | for any input, an element read to its end whose references are closed is stable under printing and parsing if and only if its strings survive escaping |
| XmlPrinter.Printer.constructor | src/Public/tinyxml/tinyxml.h:2088-2090 | a new printer indents by four spaces and breaks lines |
| XmlPrinter.Printer.SetStreamPrinting | src/Public/tinyxml/tinyxml.h:2131-2134 | stream printing is the empty formatting |
| XmlPrinter.Printer.VisitEnter | src/Public/tinyxml/tinyxml.cpp:1496-1522 | appends indentation and the start tag; what it leaves in depth and the text flag, for simple, empty and other elements |
| XmlPrinter.Printer.VisitExit | src/Public/tinyxml/tinyxml.cpp:1524-1540 | appends the matching end tag or nothing, and restores depth and flag |
| XmlPrinter.Printer.Visit | src/Public/tinyxml/tinyxml.cpp:1542-1586 | appends one leaf as the specification prints it, on its own line unless it is the text of a simple element |
| XmlPrinter.Printer.PrintOne | src/Public/tinyxml/tinyxml.cpp:1026-1053 | appends one attribute, quoted by the quote its value does not hold |
| XmlPrinter.Printer.PrintAll | src/Public/tinyxml/tinyxml.cpp:1501-1505 | appends the attributes a walk by `Next` visits |
| XmlPrinter.Printer.PrintDeclaration | src/Public/tinyxml/tinyxml.cpp:1200-1230 | appends a declaration with its non-empty parts |
| XmlPrinter.Printer.Accept | src/Public/tinyxml/tinyxml.cpp:738-746 | visiting a node appends the specified printout of its whole subtree and leaves depth and flag as they were |
| XmlPrinter.Printer.AcceptAll | src/Public/tinyxml/tinyxml.cpp:738-746 | visiting children appends their printouts in order |
| XmlPrinter.PrintAndParse | src/Public/tinyxml/tinyxml.cpp:1496-1540 | the printer object's buffer, parsed by the loops, gives back the element |
| XmlNodes.TiXmlNode.LinkEndChild | src/Public/tinyxml/tinyxml.cpp:157-180 | appends the node; a document is refused and nothing changes; links, ends and parents again agree with the sequence, and every other node's child list stays valid |
| XmlNodes.TiXmlNode.InsertEndChild | src/Public/tinyxml/tinyxml.cpp:182-193 | appends a copy of a whole tree, attributes included; a document is refused; links, ends and parents again agree with the sequence, and every other node's child list stays valid |
| XmlNodes.TiXmlNode.InsertBeforeChild | src/Public/tinyxml/tinyxml.cpp:195-220 | inserts a copy of a whole tree, attributes included, before a child; refused exactly for a null, a stranger or a document; links, ends and parents again agree with the sequence, and every other node's child list stays valid |
| XmlNodes.TiXmlNode.InsertAfterChild | src/Public/tinyxml/tinyxml.cpp:222-247 | inserts a copy of a whole tree, attributes included, after a child; refused exactly for a null, a stranger or a document; links, ends and parents again agree with the sequence, and every other node's child list stays valid |
| XmlNodes.TiXmlNode.ReplaceChild | src/Public/tinyxml/tinyxml.cpp:249-284 | puts a copy of a whole tree, attributes included, in the place of a child; refused exactly for a null, a stranger or a document; links, ends and parents again agree with the sequence, and every other node's child list stays valid |
| XmlNodes.TiXmlNode.RemoveChild | src/Public/tinyxml/tinyxml.cpp:286-308 | removes exactly that child; refused exactly for a null or a stranger; links, ends and parents again agree with the sequence, and every other node's child list stays valid |
| XmlNodes.TiXmlNode.Clone | src/Public/tinyxml/tinyxml.cpp:748-755 | a copy of the whole tree below a node: the tree of copied contents, of new nodes only, every list in it well linked, and nothing else changed |
| XmlNodes.TiXmlNode.CloneChildren | src/Public/tinyxml/tinyxml.cpp:732-735 | copies of the children, in order, are linked to the new node |
| XmlNodes.TiXmlNode.CopyTo | src/Public/tinyxml/tinyxml.cpp:719-730 | value, user data, location, marks and strings, and the attributes a walk visits, set one by one |
| XmlNodes.TiXmlNode.SetAttribute | src/Public/tinyxml/tinyxml.cpp:658-663 | replaces the value of the first attribute of the name, or adds one at the end |
| XmlCopies.CopiedIsEqual | src/Public/tinyxml/tinyxml.cpp:719-755 | a copy equals its original exactly when, in the whole tree, no value holds a NUL and the attributes are plain |
| XmlCopies.CopiedAttributesExact | src/Public/tinyxml/tinyxml.cpp:719-730 | a copy has the same attributes exactly when their names are distinct, no name or value holds a NUL, and none but the first is without both name and value |
| XmlCopies.AllAssignedExact | src/Public/tinyxml/tinyxml.cpp:658-663 | setting attributes one by one adds them as they are exactly when their names are new and distinct and nothing is cut at a NUL |
| XmlCopies.AssignedReplaces | src/Public/tinyxml/tinyxml.cpp:658-663 | setting the value of a name that is there replaces the first attribute of the name and leaves the others, and their order, as they are |
| XmlCopies.WalkGoesOn | src/Public/tinyxml/tinyxml.cpp:988-994 | a walk by `Next` visits all attributes if and only if each one behind the first has a name or a value |
| XmlCopies.WalkedIsPrefix | src/Public/tinyxml/tinyxml.cpp:988-994 | a walk by `Next` visits all attributes exactly when none but the first is without both name and value |
| XmlNodes.SubtreeKept | src/Public/tinyxml/tinyxml.cpp:195-308 | a tree is the same tree as long as its nodes keep their children and contents and their lists stay valid |
| XmlNodes.Rewired | src/Public/tinyxml/tinyxml.cpp:195-308 | what rewiring around a cut must do to the neighbours, and that it suffices for every node of the list |
| XmlNodes.TiXmlNode.IterateChildren | src/Public/tinyxml/tinyxml.cpp:328-335 | from nothing the first child, from a child the next |
| XmlNodes.TiXmlNode.WalkForward | src/Public/tinyxml/tinyxml.cpp:328-335 | the walk along `next` visits the children in order and ends |
| XmlNodes.TiXmlNode.WalkBackward | src/Public/tinyxml/tinyxml.cpp:319-326 | the walk along `prev` is that walk reversed |
| XmlNodes.TiXmlNode.FirstChild | src/Public/tinyxml/tinyxml.cpp:310-317 | the first child of a value, or null when there is none |
| XmlNodes.TiXmlNode.LastChild | src/Public/tinyxml/tinyxml.cpp:319-326 | the last child of a value, or null when there is none |
| XmlAttributeSet.TiXmlAttributeSet.constructor | src/Public/tinyxml/tinyxml.cpp:1278-1281 | an empty set is a sentinel linked to itself |
| XmlAttributeSet.TiXmlAttributeSet.Add | src/Public/tinyxml/tinyxml.cpp:1288-1300 | appends to the ring |
| XmlAttributeSet.TiXmlAttributeSet.Remove | src/Public/tinyxml/tinyxml.cpp:1302-1318 | takes out exactly the attribute, clears its links, and changes nothing when it is not there |
| XmlAttributeSet.TiXmlAttributeSet.Find | src/Public/tinyxml/tinyxml.cpp:1339-1345 | an attribute of the name, or null exactly when there is none |
| XmlAttributeSet.TiXmlAttributeSet.FindOrCreate | src/Public/tinyxml/tinyxml.cpp:1347-1355 | the attribute of the name, or a new one at the end; names stay distinct |
| XmlAttributeSet.TiXmlAttributeSet.SetAttribute | src/Public/tinyxml/tinyxml.cpp:658-663 | on the ring, what setting an attribute does to the list of names and values; names stay distinct |
| XmlAttributeSet.TiXmlAttributeSet.Next | src/Public/tinyxml/tinyxml.cpp:988-994 | the attribute behind one, or null at the end of the ring and in front of an attribute that looks like its sentinel |
| XmlAttributeSet.TiXmlAttributeSet.Previous | src/Public/tinyxml/tinyxml.cpp:1007-1013 | the attribute before one, or null at the start of the ring and behind an attribute that looks like its sentinel |
| XmlAttributeSet.TiXmlAttributeSet.CopyTo | src/Public/tinyxml/tinyxml.cpp:719-730 | the walk over one ring sets the attributes it visits on another, and leaves its own as it was |
| XmlAttributeSet.TiXmlAttributeSet.First | src/Public/tinyxml/tinyxml.h:1110-1116 | the first attribute, or null when there is none |
| XmlAttributeSet.TiXmlAttributeSet.Last | src/Public/tinyxml/tinyxml.h:1118-1124 | the last attribute, or null when there is none |
| XmlReferences.ReferenceRead | src/Public/tinyxml/tinyxmlparser.cpp:446-512 | a decimal or hexadecimal reference to any number of 32 bits, with any leading zeros and in either letter case, is read as that number - in UTF-8 its sequence, else its low byte - and reading goes on behind the semicolon; of bigger numbers the low 32 bits count |
| XmlReferences.NumberRead | src/Public/tinyxml/tinyxmlparser.cpp:446-512 | the same for the digits that repeated division by ten or sixteen gives |
| XmlReferences.ReferenceAccepted | src/Public/tinyxml/tinyxmlparser.cpp:446-512 | what stands between marker and semicolon is accepted if and only if it writes a number |
| XmlReferences.ScanWritten | src/Public/tinyxml/tinyxmlparser.cpp:470-499 | the place value of the digit loop: exact while the number fits the word, the low eight digits of a hexadecimal one, and right modulo the word in any case |
| XmlReferences.KnownReferences | src/Public/tinyxml/tinyxmlparser.cpp:446-512 | `&#65;` and `&#x41;` are `A`, and `&#x20aC;` is the euro sign in three bytes |
| XmlSyntax.PieceRead | src/Public/tinyxml/tinyxmlparser.cpp:438-531 | a character, a named entity and a numeric reference are each read as the bytes they stand for |
| XmlSyntax.KeptPieces | src/Public/tinyxml/tinyxmlparser.cpp:586-594 | where white space is kept, text up to its delimiter is what its pieces stand for |
| XmlSyntax.CondensedPieces | src/Public/tinyxml/tinyxmlparser.cpp:598-632 | where white space is condensed, every run of it counts as one space, and as none at the end; a space written as a reference is no white space |
| XmlSyntax.ValueParses | src/Public/tinyxml/tinyxmlparser.cpp:1427-1463 | a quoted value is what its pieces stand for, an unquoted one its bytes |
| XmlSyntax.AttributeParses | src/Public/tinyxml/tinyxmlparser.cpp:1392-1463 | an attribute with either kind of quotes or none, and any white space around its equals sign |
| XmlSyntax.AttributesParse | src/Public/tinyxml/tinyxmlparser.cpp:1073-1171 | any number of attributes of distinct names, with any white space between them |
| XmlSyntax.EmptyTagCloses | src/Public/tinyxml/tinyxmlparser.cpp:1085-1095 | an empty tag closes its element |
| XmlSyntax.EndTagParses | src/Public/tinyxml/tinyxmlparser.cpp:1109-1136 | an end tag may have white space behind its name |
| XmlSyntax.TextParses | src/Public/tinyxml/tinyxmlparser.cpp:1179-1233 | a text up to the next tag, and that nothing but white space makes no node |
| XmlSyntax.PartsParse | src/Public/tinyxml/tinyxmlparser.cpp:1572-1629 | a declaration with its parts in any order and letter case; the last value of a part counts |
| XmlSyntax.ItemParses | src/Public/tinyxml/tinyxmlparser.cpp:1179-1273 | each kind of markup stands for its node, whatever follows it |
| XmlSyntax.ContentParses | src/Public/tinyxml/tinyxmlparser.cpp:1179-1273 | the content of an element, of any kinds and nesting, stands for its children up to the end tag |
| XmlSyntax.ElementParses | src/Public/tinyxml/tinyxmlparser.cpp:1043-1176 | an element as an author wrote it - empty tag or end tag, any quotes, references and white space - is read as the tree it stands for, and reading stops right behind it |
| XmlErrors.WhiteSpaceBytes | src/Public/tinyxml/tinyxmlparser.cpp:314-362 | white space is space, tab, line feed, vertical tab, form feed and carriage return |
| XmlErrors.NameAlphabet | src/Public/tinyxml/tinyxmlparser.cpp:401-436 | which bytes start a name, and which go on with it |
| XmlErrors.MarksAreSkipped | src/Public/tinyxml/tinyxmlparser.cpp:314-362 | the three zero-width sequences, skipped in UTF-8 only |
| XmlErrors.LoneSlashRefused | src/Public/tinyxml/tinyxmlparser.cpp:1085-1095 | a slash in a start tag that no bracket follows |
| XmlErrors.DuplicateRefused | src/Public/tinyxml/tinyxmlparser.cpp:1160-1171 | an attribute of a name the element has |
| XmlErrors.MissingEqualsRefused | src/Public/tinyxml/tinyxmlparser.cpp:1392-1425 | an attribute name without an equals sign |
| XmlErrors.QuoteInBareRefused | src/Public/tinyxml/tinyxmlparser.cpp:1441-1461 | an unquoted value that holds a quote |
| XmlErrors.EndTagMatches | src/Public/tinyxml/tinyxmlparser.cpp:1123-1144 | an end tag closes an element if and only if it has its name, or in UTF-8 its name and nothing but zero-width marks; any other is refused |
| XmlErrors.WrongEndTagRefused | src/Public/tinyxml/tinyxmlparser.cpp:1123-1144 | an element of any content followed by another end tag is refused |
| XmlErrors.BlankMeans | src/Public/tinyxml/tinyxmlparser.cpp:1631-1637 | text is blank if all of its bytes are white space |
| XmlErrors.LetterCase | src/Public/tinyxml/tinyxmlparser.cpp:534-555 | ignoring case, the letters of the two cases correspond, and nothing else does |
| XmlErrors.CutCharacter | src/Public/tinyxml/tinyxml.h:376-404 | a character that the input cuts short is filled up with zeros, and nothing is left to read |
| XmlErrors.OpenMarkup | src/Public/tinyxml/tinyxmlparser.cpp:1275-1389 | a comment, an unrecognised tag or a CDATA section without its end runs to the end of the input; the CDATA section is refused |
| XmlErrors.MissingEndTagRefused | src/Public/tinyxml/tinyxmlparser.cpp:1109-1122 | an element whose end tag is missing is refused |
| XmlPrinted.EscapeTable | src/Public/tinyxml/tinyxml.cpp:78-113 | what is written for each byte: five names, two upper-case hexadecimal digits for a control byte, any other byte as it is |
| XmlPrinted.ReferencePasses | src/Public/tinyxml/tinyxml.cpp:58-77 | what looks like a hexadecimal reference is written as it is up to its semicolon, whatever stands before that |
| XmlPrinted.OpenReferencePasses | src/Public/tinyxml/tinyxml.cpp:58-77 | without a semicolon it is written as it is but for the last byte |
| XmlPrinted.DeclarationRoundTrip | src/Public/tinyxml/tinyxml.cpp:1200-1228 | a declaration whose parts stand for themselves comes back as it was printed |
| XmlPrinted.PageLooks | src/Public/tinyxml/tinyxml.cpp:1496-1585 | a page with nested elements printed with line breaks, byte by byte |
| WireFormat.VarintRoundTrip | src/Public/google/protobuf/io/coded_stream.cc:422-484 | a varint reads back, 32-bit readers keeping the low bits |
| WireFormat.TagRoundTrip | src/Public/google/protobuf/io/coded_stream.cc:391-420 | a tag reads back as its field number and wire type |
| WireFormat.ZigZagRoundTrip | src/Public/google/protobuf/extension_set.cc:1161-1174 | ZigZag numbers of 32 and 64 bits fit and read back |
| Extensions.NumRoundTrip | src/Public/google/protobuf/extension_set.cc:1141-1249 | every scalar type: a value in its range is encoded so that it decodes to itself, whatever follows |
| ExtensionLaws.SerializedReadsBack | src/Public/google/protobuf/extension_set.cc:888-1067 | parsing a serialized set into any set combines it in and goes on with the rest of the input, and fails exactly when its messages are nested deeper than the recursion limit leaves room for |
| ExtensionLaws.RoundTrip | src/Public/google/protobuf/extension_set.cc:888-1067 | a set serialized and parsed is the same up to cleared and empty entries if and only if it is not nested deeper than the recursion limit |
| ExtensionLaws.ConcatenationMerges | src/Public/google/protobuf/extension_set.cc:683-1067 | two serialized sets one after the other parse to the merged set (last singular value wins, repeated values append, sub-messages merge) if and only if neither is nested deeper than the recursion limit |
| ExtensionLaws.MergeNormalised | src/Public/google/protobuf/extension_set.cc:683-823 | merging is what parsing does, up to cleared and empty entries |
| ExtensionLaws.ParsedOk | src/Public/google/protobuf/extension_set.cc:888-1056 | whatever the input, parsing keeps every entry of its registered type, label and packing |
| ExtensionLaws.ClearedOk | src/Public/google/protobuf/extension_set.cc:1096-1139 | clearing keeps a set well typed and leaves it without content |
| ExtensionLaws.ExtensionReadsBack | src/Public/google/protobuf/extension_set.cc:1141-1249 | one entry, packed, unpacked, empty or cleared, reads back into any set exactly when its nesting fits the recursion limit |
| ExtensionLaws.PackedReadsBack | src/Public/google/protobuf/extension_set.cc:892-946 | a packed payload reads back as its values |
| ExtensionLaws.RangeReadsBack | src/Public/google/protobuf/extension_set.cc:1058-1067 | a range of field numbers reads back as the entries of the range exactly when their nesting fits the recursion limit |
| ExtensionLaws.ValueReadsBack | src/Public/google/protobuf/wire_format_lite_inl.h:355-368 | one value reads back, a message merged into the one held, exactly when its nesting fits the recursion limit |
| ExtensionLaws.DepthIsNesting | src/Public/google/protobuf/wire_format_lite_inl.h:355-368 | the depth of a set: at most `n` exactly when every message in an entry that is serialized is less than `n` deep |
| ExtensionLaws.DeepestReadBack | src/Public/google/protobuf/io/coded_stream.cc:83-83 | with the default limit a hundred messages inside one another are read back, and a hundred and one are not |
| ExtensionLaws.OverlongLength | src/Public/google/protobuf/io/coded_stream.cc:112-135 | a length beyond the end of its input counts as the rest of the input for a packed field or a message, and is refused for a string |
| ExtensionSizes.ExtensionSizeExact | src/Public/google/protobuf/extension_set.cc:1251-1392 | the size computed for an entry is the number of bytes it is serialized to: packed, unpacked, empty, cleared, scalar, string and nested message |
| ExtensionSizes.RangeSizeExact | src/Public/google/protobuf/extension_set.cc:1069-1078 | the sum of sizes is the number of bytes of the whole set |
| ExtensionSizes.SizedRangeWrites | src/Public/google/protobuf/extension_set.cc:1058-1078 | serializing from cached sizes after sizing writes what serializing from exact sizes writes |
| ExtensionSizes.CachedPackedSize | src/Public/google/protobuf/extension_set.cc:1255-1303 | after sizing, the cached size of a packed entry is the length of its payload |
| ExtensionSets.ExtensionSet.Clear | src/Public/google/protobuf/extension_set.cc:676-681 | on the entries in place, what the specification function says: clears every entry |
| ExtensionSets.ExtensionSet.MaybeNewExtension | src/Public/google/protobuf/extension_set.cc:1083-1091 | on the entries in place, what the specification function says: makes sure there is an entry and says whether there was none |
| ExtensionSets.ExtensionSet.MergeOne | src/Public/google/protobuf/extension_set.cc:685-822 | on the entries in place, what the specification function says: one entry merged: repeated values appended, a singular one replaced or merged, cleared ones skipped |
| ExtensionSets.ExtensionSet.MergeFrom | src/Public/google/protobuf/extension_set.cc:683-823 | on the entries in place, what the specification function says: merges every entry of the other set |
| ExtensionSets.ExtensionSet.ByteSize | src/Public/google/protobuf/extension_set.cc:1069-1078 | on the entries in place, what the specification function says: returns the exact size and fills the caches |
| ExtensionSets.ExtensionSet.SerializeWithCachedSizes | src/Public/google/protobuf/extension_set.cc:1058-1067 | on the entries in place, what the specification function says: writes the entries of a range in number order |
| ExtensionSets.ExtensionSet.StoreValue | src/Public/google/protobuf/extension_set.cc:948-1034 | on the entries in place, what the specification function says: stores one parsed value: appended or replaced |
| ExtensionSets.ExtensionSet.ParsePackedField | src/Public/google/protobuf/extension_set.cc:892-946 | on the entries in place, what the specification function says: the packed loop, to the limit of the payload |
| ExtensionSets.ExtensionSet.ParseFieldWithExtensionInfo | src/Public/google/protobuf/extension_set.cc:888-1039 | on the entries in place, what the specification function says: one known field, in packed or plain form, or an error; a packed or message length is cut at the enclosing limit, and a message fails at the recursion limit |
| ExtensionSets.ExtensionSet.MergePartialFromCodedStream | src/Public/google/protobuf/extension_set.cc:857-886 | on the entries in place, what the specification function says: the tag loop: parses a whole input into the set, or fails; a field that is not known is stepped over, as `UnknownFields.UnknownFieldsSkipped` states |
| ExtensionSets.CopyThroughWire | src/Public/google/protobuf/extension_set.cc:1041-1078 | sizing, serializing and parsing merge a set into any other, up to cleared and empty entries, and fail exactly when it is nested deeper than the recursion limit |
| ExtensionMerging.UntouchedStays | src/Public/google/protobuf/extension_set.cc:683-823 | a field the other set lacks, or has cleared, stays as it is |
| ExtensionMerging.MergedType | src/Public/google/protobuf/extension_set.cc:683-823 | a new field is of the other set's type, label and packing, and one that is there keeps its own |
| ExtensionMerging.RepeatedAppend | src/Public/google/protobuf/extension_set.cc:685-723 | repeated values are appended |
| ExtensionMerging.RepeatedMessagesAppend | src/Public/google/protobuf/extension_set.cc:725-744 | repeated messages are appended as copies |
| ExtensionMerging.LastValueWins | src/Public/google/protobuf/extension_set.cc:746-769 | the last singular value wins |
| ExtensionMerging.SubMessagesMerge | src/Public/google/protobuf/extension_set.cc:770-816 | singular messages are merged into one another |
| ExtensionMerging.StoredValue | src/Public/google/protobuf/extension_set.cc:948-1034 | what is parsed for a field changes that field only: appended, or in place of what was there |
| ExtensionMerging.LastRecordWins | src/Public/google/protobuf/extension_set.cc:948-1034 | of two records of a singular field only the last one counts |
| ExtensionMerging.RecordsAppend | src/Public/google/protobuf/extension_set.cc:948-1034 | the records of a repeated field append their values |
| ExtensionMerging.LowNumbersFirst | src/Public/google/protobuf/extension_set.cc:1058-1067 | fields are written in the order of their numbers |
| UnknownFields.PayloadSkipped | src/Public/google/protobuf/wire_format_lite.cc:111-154 | a field of any wire type, groups included, is skipped exactly to its end; or not at all if its groups lie deeper than the recursion limit leaves room for |
| UnknownFields.RecordsSkipped | src/Public/google/protobuf/wire_format_lite.cc:156-173 | the fields of a group are skipped one by one |
| UnknownFields.UnknownFieldSkipped | src/Public/google/protobuf/extension_set.cc:857-874 | a field that is not registered, or has another wire type: the message stays as it is, and parsing goes on right behind it |
| UnknownFields.UnknownFieldsSkipped | src/Public/google/protobuf/extension_set.cc:857-886 | the same for any number of them |
| UnknownFields.StrangeSetSkipped | src/Public/google/protobuf/extension_set.cc:857-886 | a whole set of another reader, wherever it stands in the input, changes nothing |
| UnknownFields.InvalidEnumDropped | src/Public/google/protobuf/extension_set.cc:928-991 | an enum value that is not one of the type's is dropped, alone and in a packed list |
| UnknownFields.BadWireTypeRefused | src/Public/google/protobuf/wire_format_lite.cc:111-154 | a tag of the end of a group, or of a wire type there is not, ends parsing |
| UnknownFields.ZeroTagRefused | src/Public/google/protobuf/io/coded_stream.cc:391-420 | so does a zero |
| UnknownFields.CutShort | src/Public/google/protobuf/io/coded_stream.cc:422-484 | input that ends within a field is refused: an unfinished varint, too few bytes of a fixed number, a string shorter than its length |
| UnknownFields.VarintMeaning | src/Public/google/protobuf/wire_format_lite_inl.h:54-168 | what a varint means to each type: the types of 32 bits keep the low bits, any number but zero is true, and the signed types take the upper half for negative numbers |
| ExtensionSets.SkipFieldAt | src/Public/google/protobuf/wire_format_lite.cc:111-154 | what the specification function says: what is left behind a field that is not known |
| ExtensionSets.SkipMessage | src/Public/google/protobuf/wire_format_lite.cc:156-173 | the loop over the fields of a group ends at its end tag, or fails |
| WireExamples.VarintIsBase128 | src/Public/google/protobuf/io/coded_stream.cc:642-770 | a varint is the groups of seven bits of a number, lowest first, the high bit on all but the last, and no byte too many |
| WireExamples.Base128IsRead | src/Public/google/protobuf/io/coded_stream.cc:422-484 | any such bytes, ten at most, are read as the number their groups make up |
| WireExamples.ZigZagOrder | src/Public/google/protobuf/wire_format_lite.h:576-622 | 0, -1, 1, -2, 2 and so on become 0, 1, 2, 3, 4 and so on |
| WireExamples.FixedBytes | src/Public/google/protobuf/wire_format_lite.h:86-93 | fixed numbers are two's complement, lowest byte first |
| WireExamples.KeyBits | src/Public/google/protobuf/wire_format_lite.h:528-538 | a key is the field number shifted by three bits, and the wire type |
| WireExamples.WireTypes | src/Public/google/protobuf/wire_format_lite.h:86-93 | the wire type of each field type |
| WireExamples.SimpleMessage | src/Public/google/protobuf/extension_set.cc:1141-1249 | field 1, 150: `08 96 01` |
| WireExamples.StringMessage | src/Public/google/protobuf/extension_set.cc:1141-1249 | field 2, `testing`: `12 07` and the characters |
| WireExamples.EmbeddedMessage | src/Public/google/protobuf/extension_set.cc:1141-1249 | field 3, the message of field 1: `1A 03 08 96 01` |
| WireExamples.PackedMessage | src/Public/google/protobuf/extension_set.cc:1141-1249 | field 4, packed 3, 270 and 86942: `22 06 03 8E 02 9E A7 05` |
| WireExamples.NegativeNumbers | src/Public/google/protobuf/extension_set.cc:1141-1249 | a negative `int32` takes ten bytes, a negative `sint32` one |
| PoolHistory.EveryRunTold | src/Public/google/protobuf/descriptor.cc:575-838 | over every run of operations on empty tables: the lists hold what was allocated and not rolled back, in order; each string is spelled as it was allocated; and each symbol name, file name and extension leads to what was added for it first among the additions not rolled back |
| PoolHistory.ToldStep | src/Public/google/protobuf/descriptor.cc:731-838 | each addition and allocation keeps this |
| PoolHistory.RollbackStep | src/Public/google/protobuf/descriptor.cc:591-636 | rolling back drops from the tables exactly the operations since the checkpoint |
| PoolHistory.ClearStep | src/Public/google/protobuf/descriptor.cc:579-589 | clearing a checkpoint leaves its operations to the one around it |
| PoolTables.ValidKept | src/Public/google/protobuf/descriptor.cc:575-838 | every operation keeps the invariant: checkpoints are nested, every key of a surviving table entry points to a string that is still owned |
| PoolTables.SinceKept | src/Public/google/protobuf/descriptor.cc:575-838 | every operation above a checkpoint keeps what its rollback will restore |
| PoolTables.RollbackUndoes | src/Public/google/protobuf/descriptor.cc:591-636 | rolling back to a checkpoint gives the state at the checkpoint |
| PoolTables.RollbackRestores | src/Public/google/protobuf/descriptor.cc:575-636 | over every run between a checkpoint and its rollback, inner checkpoints cleared or rolled back included, all tables and lists are restored exactly |
| PoolTables.RollbackKeepsValid | src/Public/google/protobuf/descriptor.cc:591-636 | no surviving key points to a deleted string after a rollback |
| PoolTablesObject.DescriptorTables.AddCheckpointNow | src/Public/google/protobuf/descriptor.cc:575-577 | on the fields in place, what the specification function says: records the sizes of all lists |
| PoolTablesObject.DescriptorTables.ClearLast | src/Public/google/protobuf/descriptor.cc:579-589 | on the fields in place, what the specification function says: drops the last checkpoint, and the pending names when it was the outermost |
| PoolTablesObject.DescriptorTables.Rollback | src/Public/google/protobuf/descriptor.cc:591-636 | on the fields in place, what the specification function says: the erasing loops and truncations are the specified rollback |
| PoolTablesObject.DescriptorTables.AddSymbolNamed | src/Public/google/protobuf/descriptor.cc:731-739 | on the fields in place, what the specification function says: enters a new name, which then leads to the descriptor given, and remembers it; refuses a known one and changes nothing else |
| PoolTablesObject.DescriptorTables.AddFileNamed | src/Public/google/protobuf/descriptor.cc:747-754 | on the fields in place, what the specification function says: the same for a file |
| PoolTablesObject.DescriptorTables.AllocateStringNow | src/Public/google/protobuf/descriptor.cc:809-813 | on the fields in place, what the specification function says: a new string, owned until a rollback |
| PoolTablesObject.DescriptorTables.AddExtensionOf | src/Public/google/protobuf/descriptor.cc:787-795 | on the fields in place, what the specification function says: enters a new extension and remembers it, or refuses a known one |
| PoolTablesObject.DescriptorTables.AllocateMessageNow | src/Public/google/protobuf/descriptor.cc:815-820 | on the fields in place, what the specification function says: a new message, owned until a rollback |
| PoolTablesObject.DescriptorTables.AllocateFileTablesNow | src/Public/google/protobuf/descriptor.cc:822-826 | on the fields in place, what the specification function says: new file tables, owned until a rollback |
| PoolTablesObject.DescriptorTables.AllocateBytesNow | src/Public/google/protobuf/descriptor.cc:828-838 | on the fields in place, what the specification function says: a new block, owned until a rollback, or nothing for no bytes |
| ImportLoading.DescriptorPool.FindFileByName | src/Public/google/protobuf/descriptor.cc:964-977 | finds a file exactly when it is loadable (all it transitively imports exists and is sound, defines no name twice, and closes no import cycle of two or more files) and no file built before defines a name of what it imports; when the questions lead to no name twice, whatever was asked before |
| ImportLoading.DescriptorPool.TryFindFileInFallbackDatabase | src/Public/google/protobuf/descriptor.cc:1320-1333 | terminates on cyclic imports; a name enters the cache of bad files only if it is unloadable, blocked by a name of a built file, being loaded, or built |
| ImportLoading.DescriptorPool.BuildFile | src/Public/google/protobuf/descriptor.cc:3021-3249 | fails only for a file that is being loaded, unloadable, or blocked by a name of a built file; afterwards every import of the file was tried |
| ImportLoading.DescriptorPool.LoadDependencies | src/Public/google/protobuf/descriptor.cc:3069-3080 | tries every import that is not built, with the file on the pending list |
| ImportLoading.DescriptorPool.AddLoadedFile | src/Public/google/protobuf/descriptor.cc:3082-3249 | adds the file, its packages and its names to the tables before it looks its imports up, so a self-import passes; everything is taken back on an error, and only when the file is unloadable or blocked by a name of a built file |
| ImportLoading.DescriptorPool.ImportsAreLoaded | src/Public/google/protobuf/descriptor.cc:3129-3165 | accepts exactly imports that are listed once and built |
| ImportLoading.OrderedIsLoadable | src/Public/google/protobuf/descriptor.cc:964-977 | every built file is loadable: its imports were built before it, and no name was defined twice |
| ImportLoading.RejectedIsExcluded | src/Public/google/protobuf/descriptor.cc:3117-3248 | a file that cannot be added is unloadable, also when the reason is an import still being loaded, or a built file defines a name of what it imports |
| ImportLoading.FreeNames | src/Public/google/protobuf/descriptor.cc:2855-2918 | looking up a file's names and packages in the symbol table finds out exactly whether it clashes with a built file; packages may be shared |
| ImportLoading.ChainCloses | src/Public/google/protobuf/descriptor.cc:3042-3064 | importing a file of the pending list closes a cycle |
| ImportLoading.FilesAtRest | src/Public/google/protobuf/descriptor.cc:964-977 | after any questions the pool holds only loadable files among those asked for and their transitive imports, and all of them when they define no name twice |
| ImportLoading.OrderIrrelevant | src/Public/google/protobuf/descriptor.cc:964-977 | two pools asked the same questions in any order hold the same files, provided the loadable files the questions lead to define no name twice |
| ImportLoading.AskInBothOrders | src/Public/google/protobuf/descriptor.cc:964-977 | two loadable files asked for in both orders: both are found both times if and only if their imports define no name twice; otherwise the first is found and the second is not |
| ImportMeaning.LoadableMeans | src/Public/google/protobuf/descriptor.cc:3021-3249 | loadable, spelled out: everything a file leads to is in the database, without errors, lists no import twice and names no symbol like one of its packages; no two of these files lead to each other, and no two give one name to a symbol of the one and to a symbol or package of the other |
| ImportMeaning.BlockedMeans | src/Public/google/protobuf/descriptor.cc:2855-2918 | blocked, spelled out: a file built before gives a name to a symbol that something imported gives to a symbol or a package, or the other way round |
| ImportMeaning.ReachesByImports | src/Public/google/protobuf/descriptor.cc:3069-3080 | a file leads to itself, to what it imports, and to what that leads to |
| ImportMeaning.SelfImportFound | src/Public/google/protobuf/descriptor.cc:3042-3064 | a file that imports itself is loadable |
| ImportMeaning.CycleRefused | src/Public/google/protobuf/descriptor.cc:3042-3064 | two files that import each other are not |
| ImportMeaning.TwiceRefused | src/Public/google/protobuf/descriptor.cc:3129-3165 | a file that lists an import twice is not |
| ImportMeaning.SharedNameRefused | src/Public/google/protobuf/descriptor.cc:2855-2918 | nor is one that names a symbol like a symbol or a package of its import |
| ImportMeaning.OnceFound | src/Public/google/protobuf/descriptor.cc:2870-2918 | one that shares no more than a package with its import is |
| ImportLoading.SharedNameWitness | src/Public/google/protobuf/descriptor.cc:2870-2888 | two files without imports that define one message are both loadable, and clash |
| SymbolLookup.LookupSymbolNoPlaceholder | src/Public/google/protobuf/descriptor.cc:2656-2723 | the answer for a compound name is what the innermost scope that holds its first part as a message, enum, service or package holds under the name, be it nothing; for a simple name, what the innermost scope holds that holds it as a message or enum, or, when all kinds are wanted, as any symbol; scopes that hold it as another kind are passed over, and without any such scope the answer is that of the outermost level; a leading dot skips the search |
| SymbolLookup.LookupInScopes | src/Public/google/protobuf/descriptor.cc:2695-2722 | editing one scope string in a loop finds the innermost deciding scope |
| SymbolLookup.EndingKinds | src/Public/google/protobuf/descriptor.cc:258-261 | which of the seven kinds of symbols end the search, for compound and simple names in both modes |
| SymbolLookup.FurtherOut | src/Public/google/protobuf/descriptor.cc:2708-2718 | scopes that hold the first part as another kind do not count: the answer is that of the scopes further out |
| SymbolLookup.OneAnswer | src/Public/google/protobuf/descriptor.cc:2656-2723 | the rule gives exactly one answer |
| SymbolLookup.NestedMessageFound | src/Public/google/protobuf/descriptor.cc:2666-2676 | a field of `p.Q` that names `M.N` gets `p.M.N`, also if `p.Q` has a field `M` |
| SymbolLookup.OuterScopesAreHidden | src/Public/google/protobuf/descriptor.cc:2656-2723 | once a scope decides, symbols outside of it cannot change the answer |
| SymbolLookup.FirstPart | src/Public/google/protobuf/descriptor.cc:2676-2682 | the part of a name before its first dot |
| SymbolIndex.LookupIsScan | src/Public/google/protobuf/descriptor_database.cc:180-186 | under the invariant the predecessor search answers every query, valid or not, as a linear scan does |
| SymbolIndex.LookupExact | src/Public/google/protobuf/descriptor_database.h:184-233 | the search agrees with a scan on all queries exactly when no stored name is a scope around another |
| SymbolIndex.OverlapIsMissed | src/Public/google/protobuf/descriptor_database.h:184-190 | if the invariant is broken there is a query that the scan answers and the search misses |
| SymbolIndex.BetweenIsInside | src/Public/google/protobuf/descriptor_database.h:214-223 | a valid name between a scope and something inside it is inside the scope too |
| SymbolIndex.MatchIsAroundPredecessor | src/Public/google/protobuf/descriptor_database.h:200-223 | any match is the predecessor or a scope around it |
| SymbolIndex.PredecessorSplits | src/Public/google/protobuf/descriptor_database.cc:214-224 | everything up to the predecessor is at most the name, everything behind it is above |
| SymbolIndex.NeighboursSuffice | src/Public/google/protobuf/descriptor_database.cc:86-134 | checking two neighbours accepts exactly the names without a conflict, and the overlooked case: below every stored name, a scope around the first and not around the second |
| SymbolIndex.InsertSeparates | src/Public/google/protobuf/descriptor_database.cc:86-134 | adding a name keeps the invariant exactly when it conflicts with no stored name |
| SymbolIndex.DescriptorIndex.AddSymbol | src/Public/google/protobuf/descriptor_database.cc:86-134 | accepts exactly as above, adds exactly this entry at its sorted place, changes nothing when it refuses, and keeps the invariant exactly outside the overlooked case |
| SymbolIndex.DescriptorIndex.FindSymbol | src/Public/google/protobuf/descriptor_database.cc:180-186 | under the invariant: finds the entry whose name is the one searched for or stands before one of its dots, and nothing exactly when there is none; in any case what it finds is such an entry |
| SymbolIndex.NameCharacters | src/Public/google/protobuf/descriptor_database.cc:234-247 | the characters of a name, one by one |
| SymbolIndex.SubSymbolMeans | src/Public/google/protobuf/descriptor_database.cc:226-232 | a name is inside another one if it is that name, or starts with it and a dot |
| SymbolIndex.ConflictMeans | src/Public/google/protobuf/descriptor_database.cc:86-134 | a name conflicts with those it is around and those that are around it |
| SymbolIndex.ScanIsAround | src/Public/google/protobuf/descriptor_database.h:184-190 | a scan finds the one stored name that is around the one searched for |
| SymbolIndex.ValidateSymbolName | src/Public/google/protobuf/descriptor_database.cc:234-247 | accepts exactly letters, digits, underscores and dots |
| SymbolIndex.RunSeparates | src/Public/google/protobuf/descriptor_database.cc:86-134 | over every run of additions the index keeps the invariant if and only if no addition was accepted in the overlooked case |
| SymbolIndex.RunIsExact | src/Public/google/protobuf/descriptor_database.cc:86-186 | after any run of additions to an empty index the search agrees with a scan on every query if and only if no addition was accepted in the overlooked case |
| SymbolIndex.OverlookedWitness | src/Public/google/protobuf/descriptor_database.cc:119-121 | with `a.b` stored, `a` is accepted; then `a.c` is no longer found though a scan finds it |
| DynamicLayout.ComputeLayout | src/Public/google/protobuf/dynamic_message.cc:499-543 | for any field list: header, has-bits, extension set, fields and unknown fields lie in this order without overlap inside the size, less than eight bytes of padding between them, each aligned, with a has-bit for every field; each field's part holds every value of its type, at a multiple of its width |
| DynamicLayout.AlignToIsLeast | src/Public/google/protobuf/dynamic_message.cc:142-158 | rounding up gives the least multiple that is not smaller |
| DynamicLayout.SizesHold | src/Public/google/protobuf/dynamic_message.cc:94-142 | the space of a field is the fewest bytes that tell 2 to the 64 values apart for 64-bit numbers and doubles, 2 to the 32 for 32-bit numbers, floats and enums, and two for bools; a pointer for strings and messages; and the container of its own type for a repeated field |
| DynamicLayout.DisjointInOrder | src/Public/google/protobuf/dynamic_message.cc:499-543 | in addresses: object, has-bits, extensions, fields and unknown fields end before the next one starts, and within the size |
| DynamicFactory.DynamicMessageFactory.GetPrototype | src/Public/google/protobuf/dynamic_message.cc:447-452 | returns the one prototype of the type, the same on every call; the map is then closed under singular message fields and holds nothing it was not forced to add |
| DynamicFactory.DynamicMessageFactory.GetPrototypeNoLock | src/Public/google/protobuf/dynamic_message.cc:454-568 | terminates on recursive types; types being linked stay so, all others stay linked |
| DynamicFactory.DynamicMessageFactory.AddPrototype | src/Public/google/protobuf/dynamic_message.cc:484-549 | a new entry with a safe layout and no pointer set |
| DynamicFactory.DynamicMessageFactory.CrossLinkPrototypes | src/Public/google/protobuf/dynamic_message.cc:394-416 | points every singular message field to the one prototype of its type, and no other field |
| DynamicFactory.LinkedPoints | src/Public/google/protobuf/dynamic_message.cc:394-416 | in every prototype the pointer of each field that is a message and not repeated leads to the one prototype of its type - of the generated factory, if generated types are left to it, or of the map - and no other pointer is set |
| DynamicFactory.LinkedIsClosed | src/Public/google/protobuf/dynamic_message.cc:394-416 | when every prototype is linked the map is closed |
| TwoThreadQueue.EveryInterleaving | src/Public/TQueue.h:48-127 | in every interleaving: values read are a prefix of those published, no slot is written while it is read, the flagged slots are the window between the indices and hold the unread values, a flag tells full and empty, and idle counters tell emptiness although they wrap |
| TwoThreadQueue.RunKeeps | src/Public/TQueue.h:48-123 | every run of interleaved steps keeps the invariant |
| TwoThreadQueue.ApplyKeeps | src/Public/TQueue.h:48-123 | every single step of either thread keeps the invariant |
| TwoThreadQueue.HistoriesGrow | src/Public/TQueue.h:48-123 | what was published stays published, what was taken stays taken |
| TwoThreadQueue.AddsAreDelivered | src/Public/TQueue.h:48-70 | with `Add` alone no value is lost, doubled, changed or overtaken: those published and the one in flight are those handed to `Add`, in order |
| TwoThreadQueue.WindowGrows | src/Public/TQueue.h:57-58 | publishing extends the window by the slot written |
| TwoThreadQueue.WindowShrinks | src/Public/TQueue.h:108-109 | taking removes the slot read from the window |
| TwoThreadQueue.StoreKeeps | src/Public/TQueue.h:57-57 | writing a free slot disturbs nothing unread |
| TwoThreadQueue.TQueue.TryAdd | src/Public/TQueue.h:72-96 | run without interruption: appends, unless the queue is full; the state is the one the state machine reaches in six steps, or in one when the queue is full |
| TwoThreadQueue.TQueue.Read | src/Public/TQueue.h:98-123 | run without interruption: takes the oldest value, unless the queue is empty; the state is the one the state machine reaches in six steps, or in one when the queue is empty |
| TwoThreadQueue.TQueue.IsEmpty | src/Public/TQueue.h:125-127 | true exactly when nothing is unread |
| ByteStream.SafeMemcpy | src/Public/TStream.h:95-102 | the `memcpy` of src/Public/Tools.h:28-31: copies at most the room there is when source and destination do not overlap; of an overlapping copy nothing is promised but that it stays in its destination |
| ByteStream.CopiesDefined | src/Public/TStream.h:82-104 | every copy of a write is a defined one if and only if the write does not compact a stream with more live bytes than bytes read before them |
| ByteStream.WriteGoes | src/Public/TStream.h:82-104 | where a write goes and which copies it makes: behind the live bytes if there is room; at the front of the same buffer if less than all of it is needed; else in the first buffer some steps longer that leaves more room than needed |
| ByteStream.OverlapWitness | src/Public/TStream.h:93-98 | sixteen bytes of buffer, twelve in, two out, five in: ten bytes are copied over themselves |
| ByteStream.TStream.In | src/Public/TStream.h:82-104 | makes the copies listed, which are all defined if and only if no compaction overlaps, and then appends all bytes; in any case the indices are in range, the buffer is a whole number of steps long and at most one step above the peak of live bytes |
| ByteStream.TStream.GrownSize | src/Public/TStream.h:87-90 | the growth loop ends at the first size that leaves more room than is asked for |
| ByteStream.TStream.MallocNewSize | src/Public/TStream.h:124-136 | the live bytes move to the front of a bigger buffer |
| ByteStream.TStream.Compact | src/Public/TStream.h:93-98 | a copy within the buffer, defined exactly when there are no more live bytes than bytes read; then the live bytes move to the front |
| ByteStream.TStream.Append | src/Public/TStream.h:102-103 | bytes that fit are written behind the live ones, within the buffer |
| ByteStream.TStream.Out | src/Public/TStream.h:69-76 | drops bytes from the front, all of them when fewer are left |
| ByteStream.TStream.Clear | src/Public/TStream.h:46-63 | empties the stream and gives back all but one step |
| TypedArguments.CArgs.Push | src/Public/CArgs.h:27-59 | ignores a type that cannot be stored; its copies are all defined if and only if none of its writes compacts more bytes than were read, and then one typed value is appended |
| TypedArguments.FillingNeverOverlaps | src/Public/CArgs.h:27-59 | while nothing has been taken out every write is defined |
| TypedArguments.OverlappingPushWitness | src/Public/CArgs.h:27-59 | any 112 64-bit numbers, one taken out, one put in, and the next one put in copies memory over itself |
| TypedArguments.CArgs.Pop | src/Public/CArgs.h:61-99 | returns and removes the oldest value, with its type |
| TypedArguments.CArgs.PopPayload | src/Public/CArgs.h:66-96 | reads back exactly the bytes of one value of each type |
| TypedArguments.CArgs.IsEmpty | src/Public/CArgs.h:109-111 | true exactly when no value is left |
| TypedArguments.KnownBytes | src/Public/CArgs.h:33-56 | a value is one byte for its type and its bytes in memory, lowest first, and a string its length in eight bytes and its characters: one example of each type |
| TypedArguments.BytesDetermineValues | src/Public/CArgs.h:27-99 | the bytes in the stream determine the values that were put in |
| TypedArguments.PayloadUnique | src/Public/CArgs.h:33-56 | the bytes of a value tell where it ends and which value it is |
| TypedArguments.EncodeAllAppends | src/Public/CArgs.h:27-59 | appending a value appends its bytes |
| Bundler.EveryRun | src/Public/TBundler.h:60-159 | over every run that unbinds no handler twice, the delete list names each dead entry exactly once and the live handlers of every id are those of immediate deletion, in bind order |
| Bundler.BindStep | src/Public/TBundler.h:60-92 | binding a bound handler changes nothing; binding a dead one takes its entry and its pending deletion out; seen from outside the handler is appended |
| Bundler.UnbindStep | src/Public/TBundler.h:94-109 | unbinding is seen at once, and keeps the invariant exactly when the handler is not dead already |
| Bundler.DoubleUnbindWitness | src/Public/TBundler.h:94-109 | a run of one binding and one unbinding, after which a second unbinding makes the node pending twice |
| Bundler.UnbindObjectIsStep | src/Public/TBundler.h:111-129 | unbinding an object is seen at once, and keeps the invariant exactly when none of its handlers is dead already |
| Bundler.ReflushIsStep | src/Public/TBundler.h:151-159 | a flush changes nothing that is seen and leaves nothing dead |
| Bundler.EraseStep | src/Public/TBundler.h:52-55 | a pending deletion names a node that is there, and dead |
| Bundler.BundlerPool.Bind | src/Public/TBundler.h:60-92 | one binding in place; refused exactly when the handler is live |
| Bundler.BundlerPool.EraseDeleted | src/Public/TBundler.h:70-80 | finds the pending deletion of the entry and takes out both |
| Bundler.BundlerPool.Unbind | src/Public/TBundler.h:94-109 | marks the entry and appends to the delete list; true exactly when there is an entry |
| Bundler.BundlerPool.UnbindObject | src/Public/TBundler.h:111-129 | marks every entry of the object in every list |
| Bundler.BundlerPool.CallBundler | src/Public/TBundler.h:131-149 | calls exactly the live handlers of the id, in bind order |
| Bundler.BundlerPool.Reflush | src/Public/TBundler.h:151-159 | takes out exactly the dead entries and empties the delete list |

## Left out

- Document-level parsing, error codes, row and column stamps, `StreamIn`, file loading and saving, and attribute conversions of TinyXML: the parsers return the node as far as it was read and the pointer.
- XmlPrinted.DeclarationRoundTrip: for declarations whose parts hold no double quote and no `&`, since the printer escapes neither; a printable tree holds no declaration.
- The nodes the parsers build are values; linking them into a tree is modelled separately in `XmlNodes` and `XmlAttributeSet`.
- The node class holds what every kind of node holds, with its attributes as a list; `XmlAttributeSet` is the ring that refines the list. The error state that a document copies is left out, and a deleted node is only unlinked.
- XmlNodes.TiXmlNode.CopyTo: into a new node, whose list of attributes is empty.
- XmlAttributeSet.TiXmlAttributeSet.SetAttribute: demands distinct names, which the source asserts whenever it adds one.
- XmlNodes.TiXmlNode.LinkEndChild: demands that the node is not linked already, where the source only asserts that its parent is null or this node.
- XmlTextLaws.KeptRoundTrip: says nothing of UTF-8 strings that the lead-byte table does not split into characters, because a short last character swallows the delimiter or the terminator.
- XmlRoundTrip.ElementRoundTrip: with line breaks and indentation, only while white space is condensed; otherwise the formatting becomes text.
- XmlConverse.RoundTripExact: for trees in which every `&#x` of a string is followed by a `;` in the string, and whose UTF-8 strings split into characters. `GetEntity` searches for the `;` of an open reference through the markup behind the string, so the reader can swallow markup and go on inside another string; whether such a tree could still come back is left open.
- XmlReferences.ReferenceRead: of a decimal reference above 32 bits in UTF-8 it promises only that reading goes on behind it; what the code yields there depends on the width of `unsigned long`, which is taken as unbounded. `unsigned` has 32 bits.
- The coded streams read from an array, whose end is a limit; refilling a buffer from another stream, which has no limit at first, and the total-bytes limit, which is 64 MB unless it is raised, are left out. Extensions of the group type, lazy messages, unknown-field storage and the meaning of floating-point bits are left out; groups that are not known are skipped.
- What a failed parse leaves in an extension set is not specified.
- ExtensionLaws.RoundTrip: up to cleared and empty entries and for sets whose serialized form is shorter than 2 to the power 31, which is what the streams can address once the total-bytes limit is raised.
- Placeholders, underlays, options, source locations and cross-linking of descriptors: a file is its imports, the full names it defines, its packages, and one abstract bit for the validity of everything else once its imports are built; and the database stores each file under its own name.
- Lazy loading through symbols and extensions (`TryFindSymbolInFallbackDatabase`) and the `possible_undeclared_dependency_` hint of the symbol lookup; visible symbols are one map.
- Hash functions, addresses and iterators: maps, sequences and identities. The hint of the sorted insertion has no effect on where the entry goes.
- The database index by file name and by extension, and `AddFile`, which only call the operations modelled.
- Overflow of the `int` offsets of a dynamic message, and constructors and destructors of its fields. What the generated factory does is not part of this model; its prototypes are given.
- DynamicLayout.ComputeLayout: takes the sizes of C++ types as parameters, with pointers of four or eight bytes and repeated fields of at least eight.
- The queue is modelled with one producer and one consumer on sequentially consistent memory; the locks for several threads of a kind, and the sleeping of `Add`, are left out. The class form is the queue as each thread runs it while the other is idle.
- Overflow of the 32-bit signed sizes of the byte stream, its locks, and negative arguments. An overlapping `memcpy` is taken to write nothing but its destination, where it may leave any bytes. The bytes written into a stream lie in memory that is not the stream's own.
- TypedArguments.CArgs.Pop: demands a value in the queue; on an empty one the source reads stale bytes. Integers are stored little-endian, and a double is its eight bytes.
- Handlers that bind, unbind or call while they are being called, and what a second deletion of one node does.
- Sockets, event loops, logging, timers, object pools, thread wrappers and configuration: input and output, foreign calls, or only easy members.
