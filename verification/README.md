# Verification of the grow-box controller's JSON, scheduling and checksum code

This project models five pieces of the controller and proves what they compute.

- **cJSON** (`CJson*.dfy`): the parser, the string decoder, the printer with its growing buffer, deletion, the
  edits of sibling lists, copying and comparing. `CJsonItem` says what texts, strings and numbers denote;
  `CJsonParse` is the parser as a function, `CJsonRead` proves which texts it accepts, `CJsonStandard` which documents
  of RFC 8259 are among them, `CJsonSpelling` every way to write a string, `CJsonNumber` says what a number denotes
  and `CJsonStrtod` how much of a text strtod takes; `CJsonParser` is the parser as it runs, over a memory of cells
  (`CJsonMemory`) in which every allocation may be refused; `CJsonString` is its string decoder; `CJsonLayout` and
  `CJsonPrint` are the printer as a function and as it runs over that memory, and `CJsonStyle` says byte by byte what
  its two formats look like; `CJsonEdit`, `CJsonCompare` and `CJsonDuplicate` are the operations on trees in memory,
  `CJsonAlike` says what comparing decides without maps, and `CJsonDocument` is editing whole documents; `CJsonWhole`
  puts parser, printer, comparison and deletion together.
- **jsmn** (`Jsmn*.dfy`): the tokenizer as a parser object over a token array (`Jsmn`), its specification
  (`JsmnSpec`), runs over arrays of different size (`JsmnRuns`), the tokens of JSON trees (`JsmnTree`), the two
  builds side by side (`JsmnLinks`), what holds for any accepted text (`JsmnShape`), what is returned for any text, read
  without tokens (`JsmnReading`), and for the beginning of a document (`JsmnPrefix`). The flag `links` selects the
  build with `JSMN_PARENT_LINKS`.
- **jWrite** (`JWrite*.dfy`, `Digits`, `Dtoa*.dfy`): the writer's control structure (`JWrite`), its calls as
  functions (`JWriteSpec`), the document that a sequence of calls describes (`JWriteDenotation`), whole sessions
  (`JWriteSession`), which error they end with (`JWriteErrors`), what the pretty format adds (`JWriteStyle`), and the
  writer's output read by the tokenizer (`JWriteTokens`) and by cJSON (`JWriteCJson`).
- **Coolers** (`Cooler`, `Wakeup`): the duty cycle driven by polls, and the wakeup flag between request threads
  and the worker.
- **Checksums** (`Crc32`, `Crc8Table`, `Crc8Sht30`), as remainders of polynomials (`Polynomials`).

`Ascii` and `JsonText` are shared: bytes, and JSON texts that keep their white space. `JsonStyle` walks along a text and
puts white space in or takes it out. `hide` statements in proofs
keep definitions that a step does not need away from the solver.

Numbers in JSON are represented by their text, and reading and printing a number are taken to be inverse to each other;
where numbers are compared, the text stands for the number that it denotes (`CJsonNumber.NumeralValue`), rounded by a
function about which nothing is assumed.
Which requests for memory are granted is given by a predicate on the number of the request, chosen once and for all and
unknown to the code; "granted" below means that it holds for all requests that a call makes. Requests are only counted.
Memory is a map from addresses to cells; a freed address is not in the map, so that reading or freeing it twice
could not be verified. A C string in memory is identified with its bytes before the first NUL.

Two properties turned out to hold under a condition only, and the condition is exact. `modp_dtoa2` rounds to a nearest
value exactly if no tie stands just below the next whole number (`Dtoa.TextNearest`; `Dtoa.CarryLostAt` names values).
The two builds of jsmn return the same and store the same spans exactly if the plain build does not stop at a closing
bracket that closes nothing and that the build with links takes (`JsmnLinks.BuildsAgree`; `JsmnLinks.LinksDisagree`
names a text); on JSON they always agree, sizes included (`JsmnTree.LinksAgree`).

The code and what is written about it disagree in two places. RFC 8259 demands four hexadecimal digits in an escape;
cJSON takes anything there, and reads a NUL, which ends the string (`CJsonSpelling.BadHexEnds`). The position that
`jwErrorPos` reports is documented as the number of a call to jWrite; calls of `jwEnd` are not counted
(`JWriteErrors.ErrorPosition`).

## Model

| member | source | states |
|---|---|---|
| `CJsonRead.Accepts` | UI/src/cJSON/cJSON.c:1010-1087 | Every text that denotes an item nested at most 1000 deep, with any control bytes as white space between tokens and with or without a byte order mark, is parsed to its end as exactly that item. |
| `CJsonRead.AcceptsOnly` | UI/src/cJSON/cJSON.c:1010-1087 | Conversely, whatever is accepted with the terminator required is a text of that form and denotes the item that is returned, so the accepted language is characterised exactly. |
| `CJsonRead.AcceptsFirst` | UI/src/cJSON/cJSON.c:1010-1087 | Without the terminator required, what follows the value does not matter, unless it could go on a number, and the end of the value is reported. |
| `CJsonRead.FirstOnly` | UI/src/cJSON/cJSON.c:1010-1087 | Conversely, whatever is then accepted starts with a text that denotes the item that is returned, and the end reported is the end of that text. |
| `CJsonStandard.AcceptsJson` | UI/src/cJSON/cJSON.c:1222-1274 | Every document of RFC 8259 whose numbers have at most 63 bytes, whose surrogate escapes are paired and that is nested at most 1000 deep is parsed to its end as the item it denotes. |
| `CJsonStandard.ReadableDenotes` | UI/src/cJSON/cJSON.c:1222-1274 | A value of RFC 8259 denotes an item exactly if its numbers are that short and its surrogates are paired. |
| `CJsonStandard.BodySaid` | UI/src/cJSON/cJSON.c:721-812 | The two passes of the string decoder give what section 7 of RFC 8259 says a string body says, in UTF-8 and up to the first NUL, and fail exactly on a surrogate without its partner. |
| `CJsonSpelling.SpelledValue` | UI/src/cJSON/cJSON.c:587-834 | However the code points of a string are written, each as its UTF-8 bytes, with a letter behind a backslash or as one or two escaped UTF-16 units with digits in either case, the string is read as their UTF-8 text, up to the first NUL. Which letter and which units stand for which code point is stated by number. |
| `CJsonSpelling.PairValue` | UI/src/cJSON/cJSON.c:642-642 | The pair of units that section 2.2 of RFC 2781 gives for a code point beyond U+FFFF is read as that code point. |
| `CJsonSpelling.BadHexEnds` | UI/src/cJSON/cJSON.c:550-583 | Where the code differs from RFC 8259: four bytes that are not all hexadecimal digits are read as a NUL, so that the string ends there. |
| `CJsonRead.ValueRead` | UI/src/cJSON/cJSON.c:1222-1274 | A value that stands anywhere in a buffer and is followed by a byte that cannot go on a number is read whole, and the offset ends right behind it. |
| `CJsonRead.ReadValue` | UI/src/cJSON/cJSON.c:1222-1274 | A value that parse_value accepts stands in the buffer from the start to the end offset, and nests no deeper than the limit allows at its depth. |
| `CJsonRead.ElemsRead` | UI/src/cJSON/cJSON.c:1351-1442 | The loop of parse_array reads all comma separated elements in order and stops at the bracket. |
| `CJsonRead.MembersRead` | UI/src/cJSON/cJSON.c:1507-1613 | The loop of parse_object reads all keys and values in order and stops at the brace. |
| `CJsonRead.StringRead` | UI/src/cJSON/cJSON.c:708-834 | A quoted body is read as its decoding, wherever it stands. |
| `CJsonRead.NumberRead` | UI/src/cJSON/cJSON.c:276-351 | A numeral that strtod takes whole is read whole. |
| `CJsonRead.ReadNumber` | UI/src/cJSON/cJSON.c:276-351 | What parse_number accepts is a numeral of the text. |
| `CJsonRead.SkipToEnd` | UI/src/cJSON/cJSON.c:973-991 | White space in front of the terminator is passed over, and the step back from the end of the buffer leaves the offset on the terminator. |
| `CJsonParse.ParseValue` | UI/src/cJSON/cJSON.c:1222-1274 | Totality: on every terminated buffer the offset stays inside it and grows on success, the depth never passes the limit, and no byte outside is looked at. |
| `CJsonParse.ParseElems` | UI/src/cJSON/cJSON.c:1380-1423 | The same for the element loop despite its step back: every nested value starts at a larger offset, and success ends on a bracket. |
| `CJsonParse.ParseFields` | UI/src/cJSON/cJSON.c:1537-1594 | The same for the member loop. |
| `CJsonParser.ParseWithOpts` | UI/src/cJSON/cJSON.c:1010-1087 | Over memory whose allocations may be refused at any time: an item is returned exactly if the text denotes one and all requests are granted. It is that item, can be read to its end, and memory has grown by exactly what its tree owns: nothing in it is a reference, every string has its bytes and every member its key. Otherwise memory is as it was. The end position is the one the specification gives. |
| `CJsonParser.ParseBuffer.ParseValue` | UI/src/cJSON/cJSON.c:1222-1274 | Refines the specification in place, exactly if all requests are granted; on failure memory is unchanged, and on success only the item itself and new cells differ, and the item owns all its parts at every depth. |
| `CJsonParser.ParseBuffer.ParseArray` | UI/src/cJSON/cJSON.c:1351-1442 | The linked list that the loop builds is well formed and holds the elements in order, each owning all its parts, or everything built so far has been deleted. |
| `CJsonParser.ParseBuffer.ParseObject` | UI/src/cJSON/cJSON.c:1507-1613 | The same for members: the parsed name moves from the value to the key of its item, and every member has its key. |
| `CJsonParser.ParseBuffer.ParseElement` | UI/src/cJSON/cJSON.c:1380-1412 | One round of the array loop: a new item is linked behind the list, filled or left blank, and the list stays well formed. |
| `CJsonParser.ParseBuffer.ParseMember` | UI/src/cJSON/cJSON.c:1537-1583 | One round of the object loop, with its three ways to fail. |
| `CJsonParser.ParseBuffer.ParseString` | UI/src/cJSON/cJSON.c:708-834 | The item owns a new string with the decoded body, or memory is unchanged and the offset stands where decoding stopped. |
| `CJsonParser.ParseBuffer.ParseNumber` | UI/src/cJSON/cJSON.c:276-351 | Copies at most 63 number bytes and takes what strtod takes of them. |
| `CJsonParser.ParseBuffer.SkipWhitespace` | UI/src/cJSON/cJSON.c:973-991 | Passes over control bytes and blanks, and steps back from the end. |
| `CJsonParser.ParseBuffer.AppendBlank` | UI/src/cJSON/cJSON.c:1382-1402 | A zeroed item at the end of a list, linked both ways, or an unchanged memory. |
| `CJsonString.DecodeBody` | UI/src/cJSON/cJSON.c:752-816 | For every byte buffer the second pass stays inside an output of the estimated size, terminator included, and on success the output is the decoded body. |
| `CJsonString.PaidFits` | UI/src/cJSON/cJSON.c:721-748 | What is paid for by consumed bytes less skipped escapes fits the estimate, wherever the second pass stands; this is why the passes may disagree about escape boundaries. |
| `CJsonString.PaidStep` | UI/src/cJSON/cJSON.c:752-812 | Every step of the second pass keeps that balance, including invalid hexadecimal digits and backslashes swallowed by an escape. |
| `CJsonString.FindEnd` | UI/src/cJSON/cJSON.c:721-748 | The first pass finds the closing quote and counts the escapes before it. |
| `CJsonString.Utf16ToUtf8` | UI/src/cJSON/cJSON.c:587-705 | One or two UTF-16 escapes become the UTF-8 bytes of their code point, or the output is unchanged. |
| `CJsonString.WriteUtf8` | UI/src/cJSON/cJSON.c:643-702 | The loop that writes a code point backwards leaves its UTF-8 bytes. |
| `CJsonString.ParseHex4` | UI/src/cJSON/cJSON.c:550-583 | Four hexadecimal digits give their number, anything else 0. |
| `CJsonItem.Utf8Read` | UI/src/cJSON/cJSON.c:643-702 | The bytes written for a code point that is no surrogate are its one well-formed UTF-8 sequence, both ways; the escapes never yield a surrogate. |
| `CJsonItem.Utf8Decodes` | UI/src/cJSON/cJSON.c:643-702 | Well-formed UTF-8 sequences encode code points that are no surrogates, each only the one whose bytes it is. |
| `CJsonItem.EncodedValue` | UI/src/cJSON/cJSON.c:837-956 | An escaped string is a string body of RFC 8259 that decodes to the string. |
| `CJsonSpelling.EscapedShortest` | UI/src/cJSON/cJSON.c:911-951 | The printer writes every character below 0x80 in the shortest way that RFC 8259 allows, with lower-case digits. |
| `CJsonSpelling.EscapedOnly` | UI/src/cJSON/cJSON.c:911-951 | There is only one such way. |
| `CJsonItem.NumberWhole` | UI/src/cJSON/cJSON.c:276-351 | Every number of RFC 8259 of at most 63 bytes is read whole. |
| `CJsonLayout.RoundTrip` | UI/src/cJSON/cJSON.c:1097-1170 | For every item of null, booleans, numerals, NUL-free strings, arrays and objects nested at most 1000 deep, parsing its formatted or unformatted print gives the item back, to the end of the text. |
| `CJsonLayout.ParsedPlain` | UI/src/cJSON/cJSON.c:1010-1087 | Whatever is parsed, with or without the terminator required, is such an item. |
| `CJsonLayout.ParsedRoundTrip` | UI/src/cJSON/cJSON.c:1097-1170 | So the print of whatever has been parsed is parsed to its end as the same item. |
| `CJsonLayout.LayoutDenotes` | UI/src/cJSON/cJSON.c:1277-1348 | What the printer writes at any depth is a JSON text of RFC 8259 that denotes the item, whatever the format. |
| `CJsonStyle.PrintedStyle` | UI/src/cJSON/cJSON.c:1277-1727 | On the bytes: the unformatted print has no white space outside strings; the formatted one is the unformatted one with a space behind every comma in an array, a line break behind every opening brace and every member, as many tabulators as containers are open in front of every member and closing brace, and a tabulator behind every colon; taking white space outside strings out of it gives the unformatted one again. |
| `CJsonStyle.RawStands` | UI/src/cJSON/cJSON.c:1318-1334 | Raw text is printed as it is. |
| `CJsonPrint.PrintableParts` | UI/src/cJSON/cJSON.c:1277-1348 | A tree can be printed exactly if none of its nodes is of invalid kind, raw without a text, or a number too long for the buffer. |
| `CJsonPrint.BufferParses` | UI/src/cJSON/cJSON.c:1097-1170 | Whatever stands behind the terminator, parsing a buffer that an item has been printed into gives the item back. |
| `CJsonPrint.PrintPreallocated` | UI/src/cJSON/cJSON.c:1202-1219 | Prints the tree at an address: succeeds exactly if it can be printed and the length is two bytes more than the text, without asking for memory; the buffer then starts with the text and a terminator and is unchanged behind it. Nothing behind the length is ever written. |
| `CJsonWhole.ReadAgain` | UI/src/cJSON/cJSON.c:1010-1170 | Parsing a text, printing the item in either format and parsing the print, in one memory: a second item is returned exactly if the text denotes one whose numbers fit the printer's buffer and whose print is not too long, and all requests are granted. It is the same item, beside the first and apart from it; without duplicate keys the two compare equal, however numbers are rounded. |
| `CJsonWhole.ReadsSame` | UI/src/cJSON/cJSON.c:1010-1170 | With both deleted, memory is as it was, whatever happened; without duplicate keys the comparison comes out equal exactly under that condition. |
| `CJsonWhole.PlainPrintable` | UI/src/cJSON/cJSON.c:484-548 | A tree of such an item is printed exactly if its numbers fit the buffer of print_number. |
| `CJsonWhole.PlainProper` | UI/src/cJSON/cJSON.c:2840-2963 | A parsed tree is fit for comparison exactly if no object of it repeats a key. |
| `CJsonPrint.Print` | UI/src/cJSON/cJSON.c:1097-1160 | Returns exactly the text with its terminator, exactly if the item can be printed, the text is not too long and all requests for memory are granted, for both ways of growing. |
| `CJsonPrint.PrintBuffered` | UI/src/cJSON/cJSON.c:1172-1200 | The same for a start buffer of any size, which is returned as it is. |
| `CJsonPrint.PrintBuffer.PrintValue` | UI/src/cJSON/cJSON.c:1277-1348 | The text of the tree at an address stands behind what was there before, which is undisturbed, and a buffer that cannot grow keeps what is behind the terminator; the result is true exactly if the buffer can be made long enough, the tree can be printed and all requests since the start are granted. |
| `CJsonPrint.PrintBuffer.PrintArray` | UI/src/cJSON/cJSON.c:1445-1504 | The same for arrays, with the depth restored. |
| `CJsonPrint.PrintBuffer.PrintObject` | UI/src/cJSON/cJSON.c:1616-1727 | The same for objects, formatted or not. |
| `CJsonPrint.PrintBuffer.PrintElements` | UI/src/cJSON/cJSON.c:1468-1490 | The loop along the sibling pointers writes the elements with their commas, exactly if they can be printed and there is room for them. |
| `CJsonPrint.PrintBuffer.PrintMembers` | UI/src/cJSON/cJSON.c:1642-1700 | The loop along the sibling pointers writes the lines of the members, exactly if they can be printed and there is room for them. |
| `CJsonPrint.PrintBuffer.PrintMember` | UI/src/cJSON/cJSON.c:1644-1699 | A line of a formatted object, or a member of an unformatted one. |
| `CJsonPrint.PrintBuffer.PrintString` | UI/src/cJSON/cJSON.c:837-956 | Both the copying and the escaping branch leave the quoted, escaped string with its terminator in the space that was reserved. |
| `CJsonPrint.PrintBuffer.PrintNumber` | UI/src/cJSON/cJSON.c:484-548 | Exactly if the text of the number fits the temporary buffer and there is room, it stands in the buffer with its terminator. |
| `CJsonPrint.PrintBuffer.CountEscapes` | UI/src/cJSON/cJSON.c:863-889 | The estimate is the exact length of the escaped string. |
| `CJsonPrint.PrintBuffer.PutEscaped` | UI/src/cJSON/cJSON.c:911-951 | The escape of one byte. |
| `CJsonPrint.PrintBuffer.Ensure` | UI/src/cJSON/cJSON.c:383-469 | Room for the bytes and one more behind the offset, exactly if the buffer is or can be made long enough; nothing before the offset changes. |
| `CJsonPrint.PrintBuffer.Grow` | UI/src/cJSON/cJSON.c:430-468 | Growing by realloc or by hand keeps what stands before the offset, or gives the buffer up, exactly if the request is refused. |
| `CJsonPrint.PrintBuffer.UpdateOffset` | UI/src/cJSON/cJSON.c:471-481 | The search for the terminator ends behind the text that has been printed. |
| `CJsonPrint.ObjectText` | UI/src/cJSON/cJSON.c:1616-1727 | Written member by member, the lines of print_object are the layout of the object. |
| `CJsonPrint.LayoutNoNul` | UI/src/cJSON/cJSON.c:471-481 | What is printed holds no NUL, so measuring it finds its end. |
| `CJsonMemory.Memory.Delete` | UI/src/cJSON/cJSON.c:224-245 | Frees exactly what the item and its later siblings own, each piece once, and never touches the children of references or constant keys. |
| `CJsonMemory.OwnReads` | UI/src/cJSON/cJSON.c:224-245 | A tree that owns all its parts can be read to its end, and what it reads is what it owns, so that deleting it leaves nothing behind. |
| `CJsonMemory.Memory.Allocate` | UI/src/cJSON/cJSON.c:212-221 | A new address, or NULL exactly if the request is not granted. |
| `CJsonMemory.ChainCat` | UI/src/cJSON/cJSON.c:1830-1834 | Two sibling chains are one well-formed chain exactly if they are linked to each other both ways. |
| `CJsonEdit.AddItemToArray` | UI/src/cJSON/cJSON.c:1858-1885 | Appends the tree to the sequence of children; only the parent, the item and the last child are written, and of the parent only its child pointer. |
| `CJsonEdit.InsertItemInArray` | UI/src/cJSON/cJSON.c:2155-2182 | Inserts the tree at the index, or appends it past the end; a negative index, a NULL array or a NULL item past the end changes nothing. Nothing but the links in the list, those of the tree and the child pointer of the parent changes. |
| `CJsonEdit.DetachItemViaPointer` | UI/src/cJSON/cJSON.c:2085-2113 | Removes the tree from the sequence of children; it is left linked to nothing, both parts stay well formed, and nothing outside the list but the child pointer of the parent changes. |
| `CJsonEdit.DetachItemFromArray` | UI/src/cJSON/cJSON.c:2115-2123 | The same by index; out of range and for a NULL array nothing happens. |
| `CJsonEdit.ReplaceItemViaPointer` | UI/src/cJSON/cJSON.c:2184-2217 | Puts the replacement in the place of the tree and frees exactly what the tree owns; nothing else but the child pointer of the parent changes, and replacing an item by itself changes nothing. |
| `CJsonEdit.EditInTree` | UI/src/cJSON/cJSON.c:2085-2217 | Any such edit leaves the whole document around the parent in place, with the edited list at that node. |
| `CJsonEdit.EditApart` | UI/src/cJSON/cJSON.c:2085-2217 | The edited document still owns nothing twice, so that edits can follow each other, and owns what it did with one list in the place of the other. |
| `CJsonDocument.ListsAt` | UI/src/cJSON/cJSON.c:2085-2217 | The children of any node that a document owns are a list that can be edited. |
| `CJsonDocument.RehungHolds` | UI/src/cJSON/cJSON.c:2085-2217 | After an edit the node has the edited list, so that it can be edited again. |
| `CJsonDocument.MoveItem` | UI/src/cJSON/cJSON.c:2115-2182 | Detaching by index and inserting by index, one after the other: the document is in place with the item moved within a list or to a list of any other node that is left; it owns the same memory as before, and nothing outside it changes. Out of range nothing happens. |
| `CJsonDocument.MovedBack` | UI/src/cJSON/cJSON.c:2115-2182 | Moving the item back from there gives the document as it was. |
| `CJsonDocument.MoveAndReturn` | UI/src/cJSON/cJSON.c:2115-2182 | Moved and moved back, every cell of memory is as it was. |
| `CJsonEdit.GetArrayItem` | UI/src/cJSON/cJSON.c:1753-1769 | The child at the index, or NULL past the end. |
| `CJsonCompare.Compare` | UI/src/cJSON/cJSON.c:2840-2963 | Case sensitive, on items without invalid parts and with distinct sibling keys, it decides whether both mean the same, with objects as maps, arrays as sequences and numbers as what they denote after any one rounding. |
| `CJsonAlike.MeaningAlike` | UI/src/cJSON/cJSON.c:2840-2963 | What comparing decides, said node by node: the same kind, equal numbers after rounding, equal strings, elements alike in order, and the same names with members alike in any order. |
| `CJsonCompare.CompareArrays` | UI/src/cJSON/cJSON.c:2896-2918 | Decides equality of the sequences of meanings. |
| `CJsonCompare.Within` | UI/src/cJSON/cJSON.c:2920-2954 | One of the two loops over objects decides containment of one map in the other. |
| `CJsonCompare.GetObjectItem` | UI/src/cJSON/cJSON.c:1782-1812 | The first child that has the name, whole and in its place in the list, or NULL if none has it before the first child without a name; among properly named children it is the one that carries the name. |
| `CJsonCompare.FoundFirst` | UI/src/cJSON/cJSON.c:1782-1812 | Every child before the one that is found has a name, and another one. |
| `CJsonCompare.TreeUnique` | UI/src/cJSON/cJSON.c:2865-2869 | An address stands for one tree, which makes the shortcut for identical items right. |
| `CJsonNumber.ZeroBehind` | UI/src/cJSON/cJSON.c:2880-2885 | Equal numbers need not be spelled alike: one more zero behind the decimal places changes nothing. |
| `CJsonNumber.ExponentRead` | UI/src/cJSON/cJSON.c:319-323 | A number followed by e or E, a sign and digits is its value times that power of ten. |
| `CJsonStrtod.Taken` | UI/src/cJSON/cJSON.c:319-323 | What strtod takes of a text is a number: a sign, digits with a point among them or around them, and an exponent. |
| `CJsonStrtod.Longest` | UI/src/cJSON/cJSON.c:319-323 | And no longer part from the start of the text is one. |
| `CJsonDuplicate.Duplicate` | UI/src/cJSON/cJSON.c:2564-2641 | A copy is returned exactly if all requests for memory are granted; a recursive copy agrees with its source node by node, owns new memory only and is no reference anywhere. Without a copy, memory is as it was. |
| `CJsonDuplicate.DuplicateCompares` | UI/src/cJSON/cJSON.c:2564-2641 | A recursive copy of an item that is fit for comparison compares equal to it. |
| `CJsonDuplicate.CopyEqual` | UI/src/cJSON/cJSON.c:2564-2641 | After copying, source and copy can be read and mean the same, and the copy owns nothing that the source can reach. |
| `CJsonDuplicate.CopyNode` | UI/src/cJSON/cJSON.c:2571-2603 | The node and its strings, or nothing. |
| `CJsonDuplicate.CopyMeans` | UI/src/cJSON/cJSON.c:2564-2641 | A copy means the same as its source and is as fit for comparison. |
| `CJsonDuplicate.SolidReads` | UI/src/cJSON/cJSON.c:2564-2641 | A copy can be read to its end, so that it can be compared and copied itself. |
| `JsmnTree.DocRun` | boards/sensors/Coolers_Controller/firmware/Inc/jsmn.h:268-453 | For every JSON tree with any white space and enough tokens, the tokenizer returns the number of tokens and yields exactly the preorder list: exact spans, member and element counts, 1 for keys, and parents in the build with links. |
| `JsmnTree.LinksAgree` | boards/sensors/Coolers_Controller/firmware/Inc/jsmn.h:308-358 | On JSON the build with parent links returns the same and stores the same tokens, parents aside. |
| `JsmnLinks.BuildsAgree` | boards/sensors/Coolers_Controller/firmware/Inc/jsmn.h:268-453 | For every text and capacity: the two builds return the same code and store tokens of the same kinds, starts and ends exactly if the plain build does not stop at a closing bracket with no open container that the build with links takes; there the plain build returns INVAL and the other goes on from the same tokens. |
| `JsmnLinks.BuildsAgreeByText` | boards/sensors/Coolers_Controller/firmware/Inc/jsmn.h:268-453 | By the text alone: for every capacity the two builds agree on all texts in which no bracket closes more than is open, counted outside strings and primitives; on the others the plain build fails, for want of tokens or at the bracket. |
| `JsmnLinks.StrayByText` | boards/sensors/Coolers_Controller/firmware/Inc/jsmn.h:328-358 | Unless it runs out of tokens, the plain build stops at such a bracket exactly if the text, read with a stack of bracket kinds only, comes to one. |
| `JsmnLinks.StrayStep` | boards/sensors/Coolers_Controller/firmware/Inc/jsmn.h:308-358 | At such a bracket the build with links goes on exactly if the root above the last token is of that kind and the superior token is not -1. |
| `JsmnLinks.LinksDisagree` | boards/sensors/Coolers_Controller/firmware/Inc/jsmn.h:308-358 | A text on which the two builds differ. |
| `JsmnRuns.RestartsAreOneRun` | boards/sensors/Coolers_Controller/firmware/Inc/jsmn.h:268-453 | Any chain of calls interrupted by NOMEM, each with a larger array, ends in the state and result of one call with the last array. |
| `JsmnRuns.CapacityExact` | boards/sensors/Coolers_Controller/firmware/Inc/jsmn.h:268-453 | A successful call returns the number of tokens it used, the counting call returns the same, every larger array gives the same result and every smaller one NOMEM. |
| `JsmnRuns.CountFirst` | boards/sensors/Coolers_Controller/firmware/Inc/jsmn.h:280-286 | An array of the size that the counting call returned is never too small. |
| `JsmnReading.ResultByText` | boards/sensors/Coolers_Controller/firmware/Inc/jsmn.h:443-450 | By the text alone: the plain build returns the number of tokens for a complete text, JSMN_ERROR_PART for one that ends inside a string or a container, and JSMN_ERROR_INVAL for one with a bad escape, a bad byte in a primitive, or a closing bracket that closes nothing or the wrong kind, whichever comes first; JSMN_ERROR_NOMEM only with fewer tokens than bytes. |
| `JsmnReading.LinksByText` | boards/sensors/Coolers_Controller/firmware/Inc/jsmn.h:268-453 | On a text that is not broken the build with links returns the same. |
| `JsmnReading.CountByText` | boards/sensors/Coolers_Controller/firmware/Inc/jsmn.h:268-453 | What the counting call returns, by the text alone. |
| `JsmnPrefix.CutIsPart` | boards/sensors/Coolers_Controller/firmware/Inc/jsmn.h:443-450 | Every cut inside the root of a JSON document whose root is a container or a string gives JSMN_ERROR_PART, in both builds and with any number of tokens that is large enough. |
| `JsmnShape.AcceptedShape` | boards/sensors/Coolers_Controller/firmware/Inc/jsmn.h:268-453 | On any accepted text and in both builds: starts increase strictly, spans are closed, lie in the text, are pairwise nested or disjoint, and containers span brackets of their kind. |
| `JsmnShape.RunShape` | boards/sensors/Coolers_Controller/firmware/Inc/jsmn.h:268-453 | That invariant holds wherever a run of either build stops. |
| `JsmnShape.RunSizeSum` | boards/sensors/Coolers_Controller/firmware/Inc/jsmn.h:288-305 | The sizes add up to the number of tokens made while there was a superior token. |
| `JsmnShape.SizeIsChildren` | boards/sensors/Coolers_Controller/firmware/Inc/jsmn.h:288-305 | With parent links the size of a token is the number of tokens that name it as parent, on any text. |
| `Jsmn.Parser.Parse` | boards/sensors/Coolers_Controller/firmware/Inc/jsmn.h:268-453 | The loop over parser and token array ends in the state, result and tokens of the specification, and leaves entries it did not allocate alone. |
| `Jsmn.Parser.ParseByte` | boards/sensors/Coolers_Controller/firmware/Inc/jsmn.h:278-433 | One round of the loop. |
| `Jsmn.Parser.ParseCounting` | boards/sensors/Coolers_Controller/firmware/Inc/jsmn.h:268-453 | Without a token array it only counts. |
| `Jsmn.Parser.ParseTokens` | boards/sensors/Coolers_Controller/firmware/Inc/jsmn.h:268-453 | The loop over a token array. |
| `Jsmn.Parser.ParsePrimitive` | boards/sensors/Coolers_Controller/firmware/Inc/jsmn.h:135-187 | A primitive token up to the next delimiter, or a resumable error exit. |
| `Jsmn.Parser.ParseString` | boards/sensors/Coolers_Controller/firmware/Inc/jsmn.h:193-262 | A string token between its quotes, or a resumable error exit. |
| `Jsmn.Parser.CloseBracket` | boards/sensors/Coolers_Controller/firmware/Inc/jsmn.h:308-358 | The search for the open container, and its two variants. |
| `Jsmn.Parser.OpenBracket` | boards/sensors/Coolers_Controller/firmware/Inc/jsmn.h:281-307 | A new container token, counted for its superior. |
| `Jsmn.Parser.AllocToken` | boards/sensors/Coolers_Controller/firmware/Inc/jsmn.h:106-119 | The next token, reset, or NULL. |
| `Jsmn.Parser.constructor` | boards/sensors/Coolers_Controller/firmware/Inc/jsmn.h:459-463 | The state of jsmn_init. |
| `JWriteSession.SessionResult` | boards/sensors/Coolers_Controller/firmware/Src/jWrite.c:63-116 | jwClose returns OK exactly for well-structured calls whose document fits; for well-structured calls the buffer holds the prefix of the document that fits, and BUF_FULL is returned exactly when it does not fit. |
| `JWriteSession.ErrorSticks` | boards/sensors/Coolers_Controller/firmware/Src/jWrite.c:84-116 | After an error, later calls write nothing and the error stays. |
| `JWriteSession.OkMeansStructured` | boards/sensors/Coolers_Controller/firmware/Src/jWrite.c:84-99 | A close without error means that the calls were balanced and used the right kind of container throughout. |
| `JWriteErrors.SessionCode` | boards/sensors/Coolers_Controller/firmware/Src/jWrite.c:84-116 | The code that jwClose returns is that of the first structural error, or BUF_FULL; in a buffer that is large enough it is that of the first structural error. |
| `JWriteErrors.ErrorPosition` | boards/sensors/Coolers_Controller/firmware/Src/jWrite.c:122-125 | jwErrorPos gives one more than the members and elements put up to the first error, the failing call included; calls of jwEnd are not counted. |
| `JWriteErrors.PositionAtEnd` | boards/sensors/Coolers_Controller/firmware/Src/jWrite.c:122-125 | Without an error it is one more than all members and elements. |
| `JWriteErrors.MemberIntoArray` | boards/sensors/Coolers_Controller/firmware/Src/jWrite.c:347-365 | What a member that is put into an array leaves in the buffer: the line break, the key and the colon. |
| `JWriteErrors.ElementIntoObject` | boards/sensors/Coolers_Controller/firmware/Src/jWrite.c:370-382 | What an element that is put into an object leaves: the line break. |
| `JWriteErrors.EndOfRoot` | boards/sensors/Coolers_Controller/firmware/Src/jWrite.c:104-116 | What jwEnd at the root leaves: the closing bracket. |
| `JWriteTokens.WriterToTokens` | boards/sensors/Coolers_Controller/firmware/Src/jWrite.c:136-253 | Whenever jwClose returns OK for plain calls, the tokenizer accepts the written bytes and its tokens are the root and every key and value, in call order. |
| `JWriteTokens.NumbersArePlain` | boards/sensors/Coolers_Controller/firmware/Src/jWrite.c:150-160 | The numbers that the writer formats are JSON primitives. |
| `JWriteCJson.WriterToCJson` | boards/sensors/Coolers_Controller/firmware/Src/jWrite.c:136-253 | Whenever jwClose returns OK for plain calls, cJSON parses the written bytes to their end as the item that the calls describe. |
| `JWriteCJson.NumbersAreLiteral` | boards/sensors/Coolers_Controller/firmware/Src/jWrite.c:150-160 | cJSON reads the numbers that the writer formats whole: integers as they are, others as a nearest multiple of 10^-6, exactly if no carry was lost in writing. |
| `CJsonNumber.WrittenNearest` | boards/sensors/Coolers_Controller/firmware/Src/jWrite.c:449-557 | The number read back from the writer's text is a nearest multiple of 10^-prec, exactly if no carry was lost. |
| `JWriteDenotation.ValueWritten` | boards/sensors/Coolers_Controller/firmware/Src/jWrite.c:136-253 | Every nested value is written as the text of what its calls describe. |
| `JWriteStyle.DocumentStyle` | boards/sensors/Coolers_Controller/firmware/Src/jWrite.c:278-287 | On the bytes: a compact document has no white space outside strings; the pretty one is the compact one with a line break and four blanks for every open container before every member, element and closing bracket of a container that has any, a line break before that of an empty root, and a blank behind every colon; taking that out gives the compact one again. |
| `JWriteStyle.SessionStyle` | boards/sensors/Coolers_Controller/firmware/Src/jWrite.c:63-99 | So two sessions with the same calls that end without error, one pretty and one compact, differ in that white space only. |
| `JWrite.Control.OpenRoot` | boards/sensors/Coolers_Controller/firmware/Src/jWrite.c:63-77 | Opening clears the buffer and writes the root bracket. |
| `JWrite.Control.CloseRoot` | boards/sensors/Coolers_Controller/firmware/Src/jWrite.c:84-99 | Closing writes the root bracket or reports the nesting error. |
| `JWrite.Control.EndCurrent` | boards/sensors/Coolers_Controller/firmware/Src/jWrite.c:104-116 | Ends the current container. |
| `JWrite.Control.ObjHead` | boards/sensors/Coolers_Controller/firmware/Src/jWrite.c:347-365 | The start of every member, with its comma, line break and key. |
| `JWrite.Control.ArrHead` | boards/sensors/Coolers_Controller/firmware/Src/jWrite.c:370-382 | The start of every element. |
| `JWrite.Control.Putch` | boards/sensors/Coolers_Controller/firmware/Src/jWrite.c:312-320 | Writes a byte if there is room for it. |
| `JWrite.Control.ObjString` | boards/sensors/Coolers_Controller/firmware/Src/jWrite.c:144-148 | A member with a string value. |
| `JWrite.Control.ObjInt` | boards/sensors/Coolers_Controller/firmware/Src/jWrite.c:150-154 | A member with the decimal text of any 32-bit integer. |
| `JWrite.Control.ObjDouble` | boards/sensors/Coolers_Controller/firmware/Src/jWrite.c:156-160 | A member with the decimal text of a number. |
| `JWrite.Control.ObjNode` | boards/sensors/Coolers_Controller/firmware/Src/jWrite.c:174-194 | A member that opens a container. |
| `JWrite.Control.ArrNode` | boards/sensors/Coolers_Controller/firmware/Src/jWrite.c:237-253 | An element that opens a container. |
| `Digits.DecimalRead` | boards/sensors/Coolers_Controller/firmware/Src/jWrite.c:413-426 | Reading back what the integer formatter writes gives the number. |
| `CJsonNumber.DecimalNumber` | boards/sensors/Coolers_Controller/firmware/Src/jWrite.c:413-426 | What the integer formatter writes is a number of section 6 of RFC 8259: no leading zero and no sign but a minus. |
| `CJsonNumber.TextNumber` | boards/sensors/Coolers_Controller/firmware/Src/jWrite.c:449-557 | So is what the other formatter writes, and its decimal places do not end in a zero. |
| `Digits.Itoa10` | boards/sensors/Coolers_Controller/firmware/Src/jWrite.c:413-426 | For every 32-bit integer the buffer starts with the decimal text and a terminator. |
| `Digits.StrReverse` | boards/sensors/Coolers_Controller/firmware/Src/jWrite.c:401-406 | Reverses the part of the buffer in place. |
| `Dtoa.TextNearest` | boards/sensors/Coolers_Controller/firmware/Src/jWrite.c:449-557 | The text denotes a nearest multiple of 10^-prec exactly if the discarded remainder is not one half just below the next whole number. |
| `Dtoa.CarryLostAt` | boards/sensors/Coolers_Controller/firmware/Src/jWrite.c:493-499 | 0.95 with one place and 0.9999995 with six are such values: the text denotes one tenth. |
| `Dtoa.TieLost` | boards/sensors/Coolers_Controller/firmware/Src/jWrite.c:493-499 | So is, with any number of places, the value half a unit below 1. |
| `Dtoa.LostCarryRead` | boards/sensors/Coolers_Controller/firmware/Src/jWrite.c:493-499 | In that case the carry is lost: the text denotes the whole part and one tenth. |
| `Dtoa.TextRead` | boards/sensors/Coolers_Controller/firmware/Src/jWrite.c:449-557 | In all other cases it denotes the rounded value with its sign. |
| `Dtoa.TieRead` | boards/sensors/Coolers_Controller/firmware/Src/jWrite.c:491-502 | Half way between two neighbours an odd number of units is rounded up and an even one down, except that a whole number and a half unit is rounded up; just below the next whole number the carry is lost. |
| `Dtoa.WholeTieRead` | boards/sensors/Coolers_Controller/firmware/Src/jWrite.c:515-523 | Without decimal places a tie goes to the even number. |
| `Dtoa.PlacesClamped` | boards/sensors/Coolers_Controller/firmware/Src/jWrite.c:471-476 | Fewer than 0 or more than 9 decimal places are taken as 0 or 9. |
| `DtoaBuffer.Dtoa2` | boards/sensors/Coolers_Controller/firmware/Src/jWrite.c:449-557 | The digit loops and the reversal leave that text and a terminator in the buffer; beyond the range of an int it is the text of sprintf. |
| `Cooler.CoolerTime.CheckSchedule` | UI/src/app_cl.cpp:34-145 | A poll whose command works, or that needs none, leaves the cooler running exactly if it is wanted; a poll whose command fails leaves the state as it was; before the start nothing changes and nothing is sent. A command is sent exactly if the state is not the wanted one, with the power of the cooler or with 0. |
| `Cooler.CoolerTime.FindInterval` | UI/src/app_cl.cpp:75-83 | The loop finds the hour of the schedule that the time falls into. |
| `Cooler.LastPoll` | UI/src/app_cl.cpp:34-145 | After any polls, a last poll that works or needs no command leaves the wanted state. |
| `Cooler.LastThatCounts` | UI/src/app_cl.cpp:34-145 | After any polls the state is the one wanted at the last watched poll that worked, whatever failed after it. |
| `Cooler.Decided` | UI/src/app_cl.cpp:34-145 | Every run has such a poll or is left in its first state. |
| `Cooler.SwitchesBounded` | UI/src/app_cl.cpp:34-145 | Over a day of polls in order that starts with the cooler off, with commands failing at any time, it is switched at most twice for every interval. |
| `Cooler.MinutesOfADay` | UI/src/app_cl.cpp:34-145 | Polled every minute, the cooler runs for the work period of every full hour and of the rest. |
| `Wakeup.NeverLost` | UI/src/app_cl.cpp:147-160 | In every interleaving of writers and worker, an announced change has been read, or is signalled, or the worker is about to read. |
| `Wakeup.ChangesAreSeen` | UI/src/app_cl.cpp:193-260 | An announced change is read after at most three steps of the worker, any other after its sleep. |
| `Wakeup.SleepsOn` | UI/src/app_cl.cpp:147-160 | Unless it is woken, the worker sleeps second by second and does not read the settings before its seconds are over. |
| `Wakeup.WholePeriod` | UI/src/app_cl.cpp:193-260 | So from one reading to the next there is a whole period of sleep if nobody wakes the worker. |
| `Wakeup.StepKeeps` | UI/src/app.cpp:710-722 | Every step of writers and worker keeps the invariant. |
| `Crc32.Crc32Wiki` | UI/src/utils.c:712-786 | The table-driven sum is the bit-serial division by the reflected generator, from any register and for every message. |
| `Crc32.Remainder` | UI/src/utils.c:712-786 | The sum is a remainder of polynomials, with the generator given by its exponents: the bits of the message times x^32, the register added to the highest 32 of them, are a multiple of it plus the sum. |
| `Crc32.RemainderUnique` | UI/src/utils.c:712-786 | No other word is. |
| `Crc32.TableAt` | UI/src/utils.c:715-780 | Every entry of the table is eight steps of the division. |
| `Crc32.Pieces` | UI/src/utils.c:782-785 | The sum of a message can be computed piece by piece. |
| `Crc32.Linear` | UI/src/utils.c:782-785 | The sum is linear in register and message. |
| `Crc8Table.Crc8Tab` | UI/src/utils.c:789-817 | The table-driven sum is the bit-serial division by the reflected generator. |
| `Crc8Table.Remainder` | UI/src/utils.c:789-817 | The same for x^8 + x^5 + x^4 + 1 and a register that starts with 0. |
| `Crc8Table.RemainderUnique` | UI/src/utils.c:789-817 | No other byte is that remainder. |
| `Crc8Table.TableAt` | UI/src/utils.c:791-808 | Every entry of the table is eight steps of the division. |
| `Crc8Sht30.Crc8` | UI/src/utils.c:822-840 | The two loops compute the division of the block. |
| `Crc8Sht30.Remainder` | UI/src/utils.c:822-840 | The checksum is a remainder of polynomials: the bits of the block times x^8, the highest eight of them inverted, are a multiple of x^8 + x^5 + x^4 + 1 plus the checksum. |
| `Crc8Sht30.RemainderUnique` | UI/src/utils.c:822-840 | No other byte is. |
| `Polynomials.RestLeft` | UI/src/utils.c:831-838 | A register that shifts in the bits of a message and subtracts the divisor whenever its highest power comes out holds the rest of the division. |
| `Polynomials.RestUnique` | UI/src/utils.c:831-838 | There is only one rest. |
| `Crc8Sht30.OddSeen` | UI/src/sensors.cpp:140-152 | An odd number of flipped bits in data or checksum is always seen, at any length. |
| `Crc8Sht30.BurstSeen` | UI/src/sensors.cpp:140-152 | Any errors within eight successive bits are always seen, at any place and length. |
| `Crc8Sht30.SerialBits` | UI/src/utils.c:822-840 | The sum over bytes is the division of their bits, highest first. |

## Left out

- CJsonPrint.PrintBuffer.Grow: with a start buffer of size 0 and no realloc, the source copies one byte from the empty buffer; the model copies none.
- CJsonPrint.PrintBuffer.PrintValue: the size of the source's int and size_t is modelled only where it compares with INT_MAX; the text of a number is taken from the node.
- CJsonPrint.Print: the final copy is written once for both kinds of hooks; buffers that are given up are not accounted for in a memory of cells.
- CJsonLayout.RoundTrip: numbers stand for their text; conversion between text and double (strtod, the formats with 15 and 17 digits, the locale's decimal point), NaN and infinity, and the saturated valueint are not modelled. Numerals of 26 to 63 bytes can be parsed but are refused by print_number.
- CJsonParser.ParseBuffer.ParseString: the decoded bytes are written into an array and become the new string as a whole; a decoded NUL ends the string.
- CJsonParser.ParseWithOpts: a NULL text and the global error pointer are not modelled. Where parsing stops in a text that is refused is only stated by the parser as a function (`CJsonParse`), not by the text alone.
- CJsonCompare.Compare: only the case sensitive mode; the rounding to double is any function; items with repeated sibling keys, missing keys or missing strings get no promise, because there the source compares first matches and addresses.
- CJsonDuplicate.Duplicate: valueint is not copied, as it is not modelled.
- CJsonEdit.InsertItemInArray: as the source does, it relies on a new item that is linked to nothing, and that is not NULL where an item stands at the index.
- JsmnTree.DocRun: the build with JSMN_STRICT, and calls that go on with a longer text, are not modelled; positions and counts are unbounded.
- Jsmn.Parser.Parse: the loop is written once for each of its two modes, and its switch as ParseByte.
- JWriteSession.SessionResult: nothing is promised about a terminator in an exactly full buffer.
- JWriteErrors.SessionCode: which of the two codes is returned when a call both breaks the structure and fills the buffer is only stated by the calls as functions (`JWriteSpec`).
- The functions of jWrite for booleans and null: they pass a fixed text to the functions for raw text, which are modelled.
- DtoaBuffer.Dtoa2: what sprintf writes beyond the range of int is a parameter; NaN is left out; numbers are reals, so the rounding of the double product does not occur.
- Digits.Itoa10: negating the smallest 32-bit integer, which C leaves undefined, is modelled in two's complement.
- Cooler.CoolerTime.CheckSchedule: unsigned arithmetic does not wrap; the log messages and the worker's refusal of a work period of 0 are left out.
- Wakeup.NeverLost: time, the sensors and the clock are not modelled; thread cancellation is not modelled.
- Object edits by name, references, the Create and Add families of cJSON, and case insensitive lookup: they compose what is proved here.
- cJSON_Minify: its string scan takes the second backslash of an escaped backslash for an escape.
- The web server, the database, configuration, logging, serial and sensor input and output, and the firmware drivers.
- The serial queue of the firmware, which drops unread data when its head reaches the end.
