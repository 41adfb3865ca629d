# Verification model of dds2mqtt

dds2mqtt bridges a DDS domain and an MQTT broker.  Samples of one struct type are written as JSON
text by an embedded copy of cJSON, read back the same way, and handed between three threads through
bounded queues.  This project models that code in Dafny 4.11 and proves what it is relied on for.

    dafny verify dfyconfig.toml

## How the model is built

- **Values and memory.**  `Json.dfy` is the contents of an item and of everything below it.
  `Heap.dfy` is the same item in memory: class `Item` has the fields of `struct cJSON`, and a ghost
  `Tree` says which cells make up an item and all it owns.  `Models(t, j)` says that the cells of
  `t` hold the contents `j`, with every child list NULL-ended, doubly linked, and `head->prev` its
  tail.  Class `Allocator` stands for the allocation hooks: any request may be refused, as a
  schedule says, and its ghost field `live` is the ledger of cells allocated and not released.
- **Parser.**  `JsonStrings.dfy` and `JsonGrammar.dfy` say what the recursive descent accepts, as
  functions of the text.  `Parser.dfy` is the descent itself, over a buffer with an offset and a
  depth, building items; it is proved to accept exactly what those functions do, whatever is
  refused, and to release everything when it fails.  `JsonDocument.dfy` is concrete syntax with
  blanks anywhere, its text and its value; `Reparse.dfy` and `Soundness.dfy` prove that the parser
  accepts exactly the texts of such documents, and `Rfc8259.dfy` picks out the grammar of RFC 8259.
- **Numbers.**  `Doubles.dfy` is the C `double` among the reals, with rounding to the nearest and
  to the even one in a tie.  `Numbers.dfy` is `strtod` and the text `print_number` chooses,
  `NumberSyntax.dfy` the number syntax of RFC 8259 with its exact value, and `PrintedDigits.dfy`
  what 15 and 17 significant digits are good for.
- **Printer.**  `JsonRender.dfy` is the text of a tree, formatted or not.  `Printer.dfy` is the
  growing buffer with its lagging offset, proved to write exactly that text and to fail exactly
  when the space does not suffice.  `Indentation.dfy` says how the formatted text is laid out, by
  its characters alone.
- **Round trips.**  `RoundTrip.dfy` and `Reparse.dfy` join the two.
- **Lists of children.**  `HeapLists.dfy` and `HeapEdit.dfy` are the links themselves;
  `HeapBuild.dfy`, `HeapArrays.dfy` and `HeapCopy.dfy` create, add, insert, detach, replace, delete
  and duplicate with what the items hold before and after; `HeapScript.dfy` is any sequence of
  such edits.
- **Minifier.**  `Minify.dfy` is the in-place compactor against an out-of-place specification;
  `MinifyPrint.dfy` says when it turns the formatted print into the unformatted one, and
  `MinifyText.dfy` what it keeps of any text.
- **Comparison.**  `Compare.dfy` says what `cJSON_Compare` decides and when that is an equality;
  `HeapCompare.dfy` is the comparison and the look-up in memory.
- **Queue.**  `Vector.dfy` is the array-backed deque.
- **Proxy.**  `Proxy.dfy` is the DDS loop, the MQTT loop and the receive loop as a state machine.
  A step is a lock operation, a read of a shared length or a change of a queue; `nftp_vec_pop` tests
  the length and takes the queue's mutex in one step, and a change of a queue and the release of
  its mutex are one step.  A run is any interleaving.  The two client loops are the same program
  with the roles exchanged, so one set of steps, indexed by the side, stands for both.
  `ProxyProgress.dfy` is what such runs are bound to get done.
- **Codec.**  `Bridge.dfy` is the two conversions between the struct and JSON text as functions, and
  `HelloWorld.dfy` the C functions on the struct and on items in memory.  `Payload.dfy` is the text
  that goes out, written out.

Pointers that may be NULL are nullable references; the exact pieces of text a C string function
sees are given by `CString`.  The texts `sprintf` writes for `%1.15g` and `%1.17g` are a parameter
`Sprintf`; `PrintedDigits.Correct` is what the C standard says of them.

Results worth knowing before reading on:

- The parser accepts a JSON text of RFC 8259 if and only if it is nested at most 1000 deep, its
  surrogate escapes are paired and its numbers have at most 63 bytes (`Rfc8259.AcceptedIff`).  It
  accepts more than the grammar, and `Soundness.AcceptsExactly` says what.
- A double survives printing and parsing if and only if its 15 digit text denotes it or does not
  compare equal (`Numbers.NumberSurvives`): `print_number` keeps that text as soon as it is within
  DBL_EPSILON of the value, so that some doubles drift (`Numbers.NumberDrifts`).  Numbers that were
  written with at most 15 significant digits do not (`PrintedDigits.FifteenDigits`).
- The minifier takes the quote after an escaped backslash for an escaped quote.  It relates the two
  prints of a tree exactly when no string or name that ends in a backslash is followed by anything
  but closing brackets of arrays (`MinifyPrint.MinifiesPrint`).
- `cJSON_Compare` is transitive on trees exactly where `compare_double` is on their numbers
  (`Compare.TransitiveIff`), which is not everywhere (`Compare.NotTransitive`).
- Popping from the head never makes room at the tail of a queue again.  With the overflow guard
  described below, a queue accepts 24 appends in its life, so that the proxy delivers at most 24
  messages to the two networks together (`Proxy.DeliveryBudget`).  A run that comes to rest has
  lost a message if and only if more than 24 were received (`Proxy.LosesNothingIffWithinBudget`);
  `Proxy.TwentyFifthIsLost` is one that has.
- What has been received gets delivered under every schedule in which threads that have work keep
  taking steps (`ProxyProgress.EveryFairScheduleDelivers`).  That a thread is merely scheduled
  would not be enough: the other loop may hold the mutex each time it is tried
  (`ProxyProgress.CanBeKeptOut`).
- `HelloWorld_to_MQTT` loses the cells of its inner object if and only if that is made while the
  outer object, or the copy of the name "example_stru", is refused: `cJSON_AddItemToObject` fails
  and nobody deletes the item (`HelloWorld.BuildObject`, `HelloWorld.LosesInnerObject`).

## Model

| member | source | states |
|---|---|---|
| `Unicode.SurrogatesDecode` | src/cJSON.c:673-677 | The code point computed from a surrogate pair is the one RFC 2781 section 2.2 assigns, between U+10000 and U+10FFFF. |
| `Unicode.SurrogatesEncode` | src/cJSON.c:648-677 | Every scalar value above the basic plane is spelled by a surrogate pair that decodes to it, and by no other. |
| `Unicode.HexDigitIs` | src/cJSON.c:592-620 | The hexadecimal digits are 0 to 9 and the letters a to f in either case, with their values, and no other byte is one. |
| `Unicode.Utf8Bytes` | src/cJSON.c:681-718 | Each tail byte of an encoding carries the six bits of its position and the lead byte its mark and the remaining bits, as the loop that writes them last to first has it. |
| `Unicode.BitForms` | src/cJSON.c:703-718 | The bit operations that put the bytes together are the sums and quotients used here. |
| `Unicode.SurrogateBits` | src/cJSON.c:673-677 | So are those that put a pair together. |
| `Unicode.Utf8RoundTrip` | src/cJSON.c:681-718 | A strict UTF-8 decoder (RFC 3629 section 3: shortest forms, no surrogates) gives back every sequence of scalar values from its encoding. |
| `Doubles.Representable` | src/cJSON.c:315-364 | Every significand of at most 53 bits with an exponent from -1074 on is a double: rounding leaves it alone. |
| `Doubles.RoundIsDouble` | src/cJSON.c:361-366 | What a number is rounded to is a double. |
| `Doubles.Nearest` | src/cJSON.c:361-366 | No double is nearer to a number than what it is rounded to. |
| `Doubles.Gap` | src/cJSON.c:522-528 | Two doubles are a last place apart, or half of one just below a power of two. |
| `Doubles.Significand` | src/cJSON.c:361-366 | Conversely every positive double is a significand of at most 53 bits times a power of two from 2^-1074 on. |
| `Doubles.TieToEven` | src/cJSON.c:361-366 | Half-way between two neighbours the one with the even significand is taken. |
| `Numbers.DecimalReadsBack` | src/cJSON.c:312-383 | The number reader takes every plain decimal integer whole, for the nearest double. |
| `Numbers.IntegerPrints` | src/cJSON.c:531-590 | An integer of at most 15 digits prints as its decimal digits, in the 26 byte buffer, and reads back unchanged. |
| `Numbers.NumberSurvives` | src/cJSON.c:547-560 | A double that one of its two texts denotes survives printing and reading if and only if its 15 digit text denotes it or is not within DBL_EPSILON of it. |
| `Numbers.RereadIsNear` | src/cJSON.c:522-560 | Whatever `print_number` writes for such a double reads back as a number within DBL_EPSILON of it. |
| `Numbers.NumberDrifts` | src/cJSON.c:522-560 | Not every double survives: 5404319552844596 / 2^54 is one, prints as 0.3, and comes back as another. |
| `Numbers.Saturate` | src/cJSON.c:366-375 | The integer form of a number always lies in the range of `int`. |
| `Numbers.ValueInt` | src/cJSON.c:366-375 | For every number: `valueint` is the one integer of no greater magnitude and no other sign that is less than 1 away, or the limit of `int` that is passed. |
| `Numbers.CompareIff` | src/cJSON.c:522-528 | `compare_double` holds if and only if the difference is at most 2^-52 of one of the two numbers, so of the larger one. |
| `NumberSyntax.SyntaxScans` | src/cJSON.c:312-383 | `strtod` reads every number text of RFC 8259 section 6 to its end, for the double nearest to its exact value. |
| `NumberSyntax.TokenIffFits` | src/cJSON.c:322-364 | Such a text is taken whole if and only if it has at most 63 bytes. |
| `NumberSyntax.ReadPrefix` | src/cJSON.c:329-364 | What `strtod` takes of a text that begins like a number is a number, with any leading zeros and with digits on one side of the point at least. |
| `NumberSyntax.LongestPrefix` | src/cJSON.c:329-364 | And it is the longest such number the text begins with. |
| `NumberSyntax.TokenIffLoose` | src/cJSON.c:329-364 | The tokens the parser takes whole are exactly those numbers of at most 63 bytes. |
| `NumberSyntax.TokenValue` | src/cJSON.c:361-383 | Each denotes the double nearest to its exact value. |
| `PrintedDigits.SeventeenDigits` | src/cJSON.c:559-560 | A text right to half a unit of the 17th significant digit denotes the double it was printed from: the reason for the second format. |
| `PrintedDigits.FifteenDigits` | src/cJSON.c:552-560 | The double nearest to a decimal of at most 15 significant digits, printed to 15 digits, is that decimal again, so that every such number survives. |
| `PrintedDigits.CorrectPrints` | src/cJSON.c:531-590 | If `sprintf` rounds as the C standard says, every finite double prints as a number of the grammar in 25 bytes, and one of its texts denotes it. |
| `JsonStrings.ParseString` | src/cJSON.c:728-856 | An accepted literal ends just after a closing quote inside the text. |
| `JsonStrings.Step` | src/cJSON.c:781-841 | A turn of the second pass moves on, and at most one byte past the closing quote. |
| `JsonStrings.SkipsStep` | src/cJSON.c:743-769 | The count of escapes grows by at most one over one byte, by none over a byte that is no backslash, and by at most one over two bytes. |
| `JsonStrings.StepFits` | src/cJSON.c:781-841 | One turn of the second pass writes at most as many bytes as it reads, less one for each escape the first pass counted there, even where the passes disagree about where escapes begin. |
| `JsonStrings.DecodeFits` | src/cJSON.c:743-856 | For every input the decoded literal and its NUL fit `allocation_length + 1`. |
| `JsonStrings.DecodeStops` | src/cJSON.c:779-843 | The second pass reads nothing past the closing quote. |
| `JsonStrings.DecodePieces` | src/cJSON.c:779-843 | The second pass turns spelled characters into their bytes, whatever follows them. |
| `JsonStrings.GroupedSpells` | src/cJSON.c:643-677 | Every literal of RFC 8259 section 7, however its surrogate escapes stand, is spelled by characters in which they are paired where they can be. |
| `JsonStrings.ParsesPieces` | src/cJSON.c:728-856 | Every string literal of section 7, wherever it stands, is accepted if and only if each of its surrogate escapes is in a pair, and then denotes its characters. |
| `JsonStrings.UnicodeEscapes` | src/cJSON.c:592-726 | Any scalar values, each spelled as an escape or a surrogate pair in any hexadecimal case, decode to their UTF-8 encodings, and those bytes decode back to them. |
| `JsonStrings.UnpairedSurrogateFails` | src/cJSON.c:643-671 | A literal is refused if the second pass comes to an unpaired surrogate, whatever is before and after it. |
| `JsonStrings.EscapeSpells` | src/cJSON.c:858-970 | What the printer writes for a C string is a literal of the grammar that denotes exactly that string. |
| `JsonStrings.EscapeIs` | src/cJSON.c:858-970 | Which spelling is chosen for each byte, as text: a short escape where there is one, `\u00` and two lower case digits for other control characters, and the byte itself otherwise. |
| `JsonGrammar.SkipBlanks` | src/cJSON.c:993-1015 | The skip stays inside the text, and on a final NUL it stays there. |
| `JsonGrammar.NumberRun` | src/cJSON.c:329-356 | The run holds number characters only, at most 63, and ends before another kind of character or at that limit. |
| `JsonGrammar.ParseValue` | src/cJSON.c:1264-1322 | An accepted value ends after where it starts and before the final NUL, which bounds the recursion and every read. |
| `JsonGrammar.ParseElements` | src/cJSON.c:1391-1478 | So does an accepted list of elements. |
| `JsonGrammar.ParseMembers` | src/cJSON.c:1535-1637 | And of members. |
| `JsonDocument.ParsesNumber` | src/cJSON.c:311-383 | A number token is taken whole when what follows is no number character. |
| `JsonDocument.ParsesElements` | src/cJSON.c:1423-1456 | The elements of a document are read as their values, with any blanks between tokens. |
| `JsonDocument.ParsesMembers` | src/cJSON.c:1567-1615 | The members of a document likewise. |
| `JsonDocument.ParsesDoc` | src/cJSON.c:1264-1322 | The parser takes every document within the nesting limit whose surrogates are paired and whose numbers `strtod` takes whole within 63 bytes for its value, wherever it stands and whatever follows it. |
| `JsonDocument.ParsesSource` | src/cJSON.c:1036-1126 | The text of such a document, with any blanks and with or without a byte order mark, is accepted as exactly the tree it denotes, and the parse ends where the text does. |
| `Reparse.AcceptedIffReadable` | src/cJSON.c:1036-1126 | The text of any document, whatever order the characters of its numbers are in, is accepted as a whole if and only if it is nested at most 1000 deep, its surrogates are paired and `strtod` takes its numbers whole within 63 bytes. |
| `Reparse.LoneNumberIsCut` | src/cJSON.c:329-364 | A number on its own, when nothing is demanded of what follows, is read as far as `strtod` gets in its first 63 bytes. |
| `Reparse.UnreadableFails` | src/cJSON.c:1264-1322 | A document that is nested too deep for where it stands, or has an unpaired surrogate or an unreadable number anywhere, is refused; a number may instead end before another number character. |
| `Reparse.ParsedIsTidy` | src/cJSON.c:1264-1322 | Every accepted text, well formed or not, gives a tree with blank unused fields, names exactly in objects, C strings and doubles throughout, and at most 1000 levels. |
| `Reparse.ParsePrintParse` | src/cJSON.c:1128-1210 | Parsing any text, printing in either format and parsing again gives the same tree if and only if the 15 digit text of each number denotes it or does not compare equal. |
| `Reparse.CorrectlyPrinted` | src/cJSON.c:531-590 | With a correct `sprintf` that covers every accepted text whose numbers do not overflow. |
| `Reparse.ShortDecimalsSurvive` | src/cJSON.c:531-590 | Trees whose numbers were written with at most 15 significant digits survive. |
| `Reparse.SmallIntegersSurvive` | src/cJSON.c:531-590 | So do trees of integers of at most 15 digits, with any `sprintf` that writes those as plain decimal. |
| `Rfc8259.ReadableIff` | src/cJSON.c:322-356 | A document of the grammar of RFC 8259 can be read if and only if its surrogate escapes are paired and its numbers have at most 63 bytes. |
| `Rfc8259.AcceptedIff` | src/cJSON.c:1036-1126 | Main result for the grammar: a JSON text is accepted as a whole, for the tree it denotes, if and only if it is nested at most 1000 deep, every surrogate escape is in a pair and every number has at most 63 bytes; otherwise it is refused. |
| `Rfc8259.NumberValue` | src/cJSON.c:361-383 | A number of the grammar denotes the double nearest to its exact value. |
| `Rfc8259.LongNumberIsCut` | src/cJSON.c:329-364 | A longer number on its own, when nothing is demanded of what follows, is cut to its first 63 bytes. |
| `Rfc8259.MoreThanTheGrammar` | src/cJSON.c:329-364 | The parser takes 01, 1. and -.5 for numbers, which the grammar does not have. |
| `Rfc8259.Names` | src/cJSON.c:1271-1287 | The three names of section 3 as text and the items they denote, field by field. |
| `Rfc8259.Structure` | src/cJSON.c:1391-1637 | Brackets, braces, colons and quotation marks as characters, and where they stand in the text of a document. |
| `Rfc8259.Separators` | src/cJSON.c:1423-1456 | Elements and members are separated by a comma, and the last one is followed by the closing character. |
| `Rfc8259.Values` | src/cJSON.c:1288-1322 | What arrays, strings and numbers denote, field by field, with the `valueint` of the number. |
| `Rfc8259.Members` | src/cJSON.c:1535-1637 | What objects denote, and that a member has its name as `string`. |
| `Rfc8259.Escapes` | src/cJSON.c:792-823 | The escapes of section 7 in ASCII and the characters they stand for. |
| `Rfc8259.Unescaped` | src/cJSON.c:743-841 | The other spellings of a character, and which bytes need none. |
| `Rfc8259.NumberShape` | src/cJSON.c:322-352 | The signs, the point and the letter of a number of section 6 as text. |
| `Soundness.SoundLiteral` | src/cJSON.c:728-856 | Every accepted literal with hexadecimal escapes is that of paired characters that denote the result, although the two passes find the escapes on their own. |
| `Soundness.SoundNumber` | src/cJSON.c:312-383 | The bytes an accepted number takes are a token that denotes it. |
| `Soundness.SoundValue` | src/cJSON.c:1264-1322 | The bytes any accepted value takes are a document that denotes it. |
| `Soundness.SoundElems` | src/cJSON.c:1423-1456 | So are those of the elements or members of a list. |
| `Soundness.AcceptsExactly` | src/cJSON.c:1036-1126 | A C string whose `\u` escapes are hexadecimal is accepted as a whole for a tree if and only if it is the text of a readable document, nested at most 1000 deep, that denotes the tree. |
| `RoundTrip.LayoutText` | src/cJSON.c:1480-1533 | The text of either printer is the text of a document of the grammar. |
| `RoundTrip.LayoutValue` | src/cJSON.c:1639-1739 | That document denotes the tree with its numbers read back from their text, and is nested as deep as the tree. |
| `RoundTrip.PrintThenParse` | src/cJSON.c:1206-1214 | The formatted or unformatted print of a raw-free tree nested at most 1000 deep, parsed again, is the tree with its numbers read back from their text. |
| `RoundTrip.RereadIdentity` | src/cJSON.c:1264-1322 | Reading the text back gives the same item if and only if its unused fields are blank, names are where they belong and the 15 digit text of each number denotes it or is not kept. |
| `RoundTrip.PrintThenParseIdentity` | src/cJSON.c:1206-1214 | Printing and parsing a tree whose numbers one of their texts denotes is the identity if and only if the tree is as the parser leaves trees and the 15 digit text of each number denotes it or does not compare equal. |
| `Indentation.FormattedIsIndented` | src/cJSON.c:1480-1739 | The formatted text of a raw-free tree is the unformatted one laid out by a scan of its characters: a line for each member and each closing brace, on every line a tab for each bracket that is open, a colon followed by a tab, elements by a comma and a space. |
| `Indentation.CompactIsSolid` | src/cJSON.c:1480-1739 | The unformatted text has no blank outside its string literals. |
| `Heap.Allocator.Reallocate` | src/cJSON.c:476-485 | A reallocation keeps the bytes that fit and replaces one live cell by another; refused, it changes nothing. |
| `Heap.Delete` | src/cJSON.c:254-275 | Releases exactly the cells an item, the items after it and all below them own, each once, and respects references and constant names. |
| `Heap.Release` | src/cJSON.c:257-274 | One turn of its loop releases exactly the cells of one item. |
| `Heap.ModelsOwned` | src/cJSON.c:254-275 | Whatever holds contents can be released. |
| `Parser.ParseBuffer.SkipWhitespace` | src/cJSON.c:993-1015 | Moves past every blank, but back onto the last byte when all of them are. |
| `Parser.ParseBuffer.SkipUtf8Bom` | src/cJSON.c:1017-1034 | Skips the mark exactly when it is there and more than four bytes are. |
| `Parser.ParseBuffer.CopyNumber` | src/cJSON.c:329-356 | Copies the longest run of number characters, at most 63. |
| `Parser.ParseBuffer.ParseNumber` | src/cJSON.c:311-383 | Accepts what `strtod` does; the item holds the value and, as `valueint`, the integer next to it toward zero or the limit of `int`; on failure nothing has changed. |
| `Parser.ParseBuffer.ParseHex4` | src/cJSON.c:592-620 | Four hexadecimal digits in either case, or 0 as soon as one is not a digit. |
| `Parser.ParseBuffer.EncodeUtf8` | src/cJSON.c:681-722 | Writes the UTF-8 encoding of the code point at the output position, inside the buffer. |
| `Parser.ParseBuffer.Utf16LiteralToUtf8` | src/cJSON.c:622-726 | Decodes one or two escapes, or reports failure, exactly as the specification of a literal says. |
| `Parser.ParseBuffer.FindStringEnd` | src/cJSON.c:743-769 | Finds the closing quote and counts the escapes before it. |
| `Parser.ParseBuffer.DecodeStep` | src/cJSON.c:781-841 | One turn of the second pass writes exactly the bytes of the character and nothing before them. |
| `Parser.ParseBuffer.DecodeLiteral` | src/cJSON.c:779-843 | Decodes the whole literal into the allocated buffer, never past its end, and ends it with a NUL. |
| `Parser.ParseBuffer.ParseString` | src/cJSON.c:728-856 | Succeeds if and only if the literal is accepted and the allocation is not refused; the item then holds the string in one new cell, and otherwise everything is released. |
| `Parser.ParseBuffer.ParseName` | src/cJSON.c:1586-1599 | A name is parsed as a string and moved; the item is otherwise as it was. |
| `Parser.ParseBuffer.NextElement` | src/cJSON.c:1424-1451 | One turn of the loop: the list has one more item that holds the value, or can be released with the item that failed. |
| `Parser.ParseBuffer.NextMember` | src/cJSON.c:1568-1609 | The same for a member. |
| `Parser.ParseBuffer.ElementsLoop` | src/cJSON.c:1423-1456 | The elements up to the closing bracket become a well-linked list of new items that hold them; on failure all of it is released. |
| `Parser.ParseBuffer.MembersLoop` | src/cJSON.c:1567-1615 | The same for members, whose names are moved from `valuestring` to `string`. |
| `Parser.ParseBuffer.ParseArray` | src/cJSON.c:1391-1478 | Accepts exactly the arrays of the grammar within the nesting limit, restores the depth, and gains exactly the cells of the children. |
| `Parser.ParseBuffer.ParseObject` | src/cJSON.c:1535-1637 | The same for objects. |
| `Parser.ParseBuffer.ParseScalar` | src/cJSON.c:1272-1310 | The branches for keywords, strings and numbers: likewise. |
| `Parser.ParseBuffer.ParseValue` | src/cJSON.c:1264-1322 | Succeeds if and only if the grammar accepts and no allocation is refused; then the offset has advanced past the value, the depth is restored, and the cells gained are exactly those of the value, which the item holds; otherwise nothing is gained. |
| `Parser.ParseWithOpts` | src/cJSON.c:1036-1126 | Returns a root if and only if the text is accepted and no allocation is refused; the live new cells are then exactly those reachable from it, every list well linked, and otherwise none is left. |
| `HeapLists.FinishList` | src/cJSON.c:1458-1469 | Closing the list makes the head point back to the tail and the item hold the children. |
| `HeapEdit.ChildrenUnique` | src/cJSON.c:1742-1780 | The links determine the sequence of children. |
| `HeapEdit.AddItemToArray` | src/cJSON.c:1872-1899 | The children become those there were followed by the item; adding NULL, to NULL or to itself fails and changes nothing. |
| `HeapEdit.GetArrayItem` | src/cJSON.c:1764-1780 | The child at the index, or NULL past the end. |
| `HeapEdit.DetachItemViaPointer` | src/cJSON.c:2115-2144 | The children become those there were without the item, which then points nowhere. |
| `HeapEdit.InsertItemInArray` | src/cJSON.c:2190-2213 | The item stands before the child at the index, or last when there is none; a negative index fails. |
| `HeapEdit.EditedAt` | src/cJSON.c:2146-2213 | Where every child is after an insertion and after a detachment. |
| `HeapEdit.ReplaceItemViaPointer` | src/cJSON.c:2215-2256 | The replacement takes the place of the child, all of whose cells are released, and of no other. |
| `HeapBuild.CreateNumber` | src/cJSON.c:2344-2362 | A new detached item with the number and, as `valueint`, the integer next to it toward zero or the limit of `int`; NULL when refused. |
| `HeapBuild.CreateObject` | src/cJSON.c:2439-2447 | A new detached object without members. |
| `HeapBuild.CreateString` | src/cJSON.c:2364-2378 | A new detached item with a copy of the string; refused at either allocation, nothing is left. |
| `HeapBuild.Attach` | src/cJSON.c:1902-1905 | The contents of the owner are what they were with the item's contents last, and no cell belongs to both. |
| `HeapBuild.SetKey` | src/cJSON.c:1942-1958 | The item holds the same under the new name, whose old cell is released. |
| `HeapBuild.AddItemToObject` | src/cJSON.c:1927-1961 | The item becomes the last member under a copy of the name, replacing the name it had, if and only if the one allocation, of that copy, is not refused; otherwise nothing has changed. |
| `HeapBuild.AddNumberToObject` | src/cJSON.c:2049-2061 | One member more, which is returned, or NULL and no change, with no cell left over; and how many allocations are requested. |
| `HeapBuild.AddStringToObject` | src/cJSON.c:2063-2075 | The same for strings. |
| `HeapArrays.DetachItemFromArray` | src/cJSON.c:2146-2154 | The child at the index is detached and holds what it held; the array holds what is left, and the two share no cell. |
| `HeapArrays.InsertInArray` | src/cJSON.c:2190-2213 | The array holds its old contents with the item's before the index, or last. |
| `HeapArrays.ReplaceItemInArray` | src/cJSON.c:2258-2267 | The array holds its old contents with the item's in the place of the child, exactly whose cells are released; an index out of range changes nothing. |
| `HeapArrays.DeleteItemFromArray` | src/cJSON.c:2156-2159 | The array holds what is left without the child, exactly whose cells are released. |
| `HeapArrays.WithoutInserted` | src/cJSON.c:2146-2213 | Detaching at the index undoes an insertion there. |
| `HeapScript.RunEdit` | src/cJSON.c:2115-2267 | One append, insertion, replacement, deletion, move or copy of a child changes the contents as the same edit of a sequence does, or not at all when an allocation is refused. |
| `HeapScript.RunScript` | src/cJSON.c:1872-2267 | After any sequence of such edits the array holds what the same edits make of its old contents, owns exactly the cells gained, and nothing is left over. |
| `HeapCopy.Strdup` | src/cJSON.c:194-211 | The C string with its NUL in one new cell, or NULL if that is refused. |
| `HeapCopy.CopyFields` | src/cJSON.c:2604-2627 | The copy has the fields, the text and the name of the item in cells of its own, without its reference mark. |
| `HeapCopy.CopyKids` | src/cJSON.c:2628-2652 | The children are copied and linked in order; whatever fails, what was made can be released. |
| `HeapCopy.Duplicate` | src/cJSON.c:2587-2662 | Unless an allocation is refused, a detached, well-linked copy in new cells with the same contents, without the children when not recursive; otherwise everything allocated is released. |
| `Printer.PrintBuffer.Ensure` | src/cJSON.c:435-506 | Succeeds if and only if the end offset plus one fits the space and no allocation is refused; the text survives, and the old buffer is released in either case. |
| `Printer.PrintBuffer.Grow` | src/cJSON.c:476-503 | With `realloc` or by hand the text moves to the new buffer; refused, the old one is gone. |
| `Printer.PrintBuffer.UpdateOffset` | src/cJSON.c:508-520 | Finds the NUL inside the buffer and moves the offset to the end of the text. |
| `Printer.PrintBuffer.PrintNumber` | src/cJSON.c:531-590 | Writes the 15 digit text, or the 17 digit one if that does not compare equal, if it has at most 25 bytes and fits. |
| `Printer.PrintBuffer.CountEscapes` | src/cJSON.c:883-906 | The first pass computes exactly the length of the escaped text. |
| `Printer.PrintBuffer.PutString` | src/cJSON.c:924-969 | The second pass writes exactly the escaped text between quotes, inside the reserved space. |
| `Printer.PrintBuffer.PutEscaped` | src/cJSON.c:929-965 | One byte becomes exactly its escape, nothing before it changes. |
| `Printer.PrintBuffer.PrintStringPtr` | src/cJSON.c:858-970 | The literal of a string, or of the empty one for NULL, if and only if it fits. |
| `Printer.PrintBuffer.PrintElements` | src/cJSON.c:1503-1522 | The loop writes the elements with their separators if and only if they can be printed and fit. |
| `Printer.PrintBuffer.PrintMember` | src/cJSON.c:1664-1717 | One turn writes indentation, name, colon, value and separator if and only if they fit. |
| `Printer.PrintBuffer.PrintArray` | src/cJSON.c:1480-1533 | Succeeds if and only if the whole text and two bytes fit, and restores the depth. |
| `Printer.PrintBuffer.PrintObject` | src/cJSON.c:1639-1739 | The same, with indentation, names and separators. |
| `Printer.PrintBuffer.PrintValue` | src/cJSON.c:1324-1389 | With enough space and no refused allocation, exactly the text of the tree, ended by a NUL, after the text already there, depth restored; with less, or for a tree that cannot be printed, failure; no other cell is gained or lost. |
| `Printer.Print` | src/cJSON.c:1142-1204 | The text of the tree in one new cell of exactly its size, if and only if it can be printed, two bytes more fit INT_MAX and no allocation is refused; nothing else is gained. |
| `Printer.FitBuffer` | src/cJSON.c:1169-1190 | The text moves to a cell of exactly its size and the buffer is released. |
| `Printer.PrintBuffered` | src/cJSON.c:1216-1242 | The same text from any initial size. |
| `Printer.PrintPreallocated` | src/cJSON.c:1244-1262 | A printable tree is printed if and only if the buffer has two bytes more than its text; nothing is allocated. |
| `Minify.SkipOnelineComment` | src/cJSON.c:2664-2675 | From the slashes to after the line feed, or to the end. |
| `Minify.SkipMultilineComment` | src/cJSON.c:2677-2688 | From the opening to after the closing, or to the end. |
| `Minify.MinifyString` | src/cJSON.c:2690-2711 | Copies a string down in place, without touching what is still to be read. |
| `Minify.MinifyInPlace` | src/cJSON.c:2713-2753 | The array holds the out-of-place minified text of what it held; nothing after the old final NUL is touched. |
| `Minify.MinifyTurn` | src/cJSON.c:2721-2748 | Every turn moves on, and the write position never passes the read position. |
| `Minify.Minified` | src/cJSON.c:2713-2753 | The minified text is no longer than the text. |
| `Minify.MinifiedNoNul` | src/cJSON.c:2713-2753 | The minified text is a C string. |
| `Minify.Idempotent` | src/cJSON.c:2713-2753 | Minifying again changes nothing. |
| `MinifyPrint.MinifiesString` | src/cJSON.c:2690-2711 | A printed string is copied whole and the minifier is outside it again exactly when the string does not end in a backslash. |
| `MinifyPrint.MinifiesRender` | src/cJSON.c:2713-2753 | What the minifier makes of the formatted text of a tree before any other text: the unformatted text, outside or inside a string, or something that differs from it at once. |
| `MinifyPrint.MinifiesPrint` | src/cJSON.c:2713-2753 | Minifying the formatted print gives the unformatted print if and only if no string or name ending in a backslash is followed by anything but the closing brackets of arrays. |
| `MinifyPrint.CleanPrintsMinify` | src/cJSON.c:2713-2753 | In particular for every raw-free tree without such strings and names. |
| `MinifyText.MinifiesParts` | src/cJSON.c:2664-2753 | Of a text made of blanks, comments, lone slashes, strings and other bytes the minifier keeps the strings and the other bytes, in order, and nothing else. |
| `MinifyText.MinifiesText` | src/cJSON.c:2713-2753 | Every text whatever is made of such parts, with at most a comment or a string left open at its end. |
| `Compare.Symmetric` | src/cJSON.c:2844-2961 | Comparison is symmetric on all trees. |
| `Compare.IntegersCompare` | src/cJSON.c:522-528 | On integers below 2^52 `compare_double` is equality. |
| `Compare.TransitiveIff` | src/cJSON.c:2844-2961 | Whatever numbers are allowed, comparison is transitive on all trees with them, repeated and missing names included, if and only if `compare_double` is on the numbers. |
| `Compare.IntegersTransitive` | src/cJSON.c:522-528 | So it is with integers below 2^52. |
| `Compare.NotTransitive` | src/cJSON.c:522-528 | With all doubles it is not: 1, 1 + 2^-52, 1 + 2^-51. |
| `Compare.FindTable` | src/cJSON.c:1791-1822 | Look-up among named items finds what the map of first occurrences under canonical names says. |
| `Compare.Find` | src/cJSON.c:1791-1822 | What a look-up finds is there and has the name. |
| `Compare.FindAlike` | src/cJSON.c:1791-1822 | Names that match are found, or not, alike. |
| `Compare.MatchIff` | src/cJSON.c:136-157 | Two names match without regard to case if and only if they have the same length and at every position the same byte or the two forms of one of the 26 letters. |
| `Compare.FindsFirst` | src/cJSON.c:1791-1822 | A look-up finds the first item under such a name and nothing if there is none; a case-sensitive one gives up at an item without a name. |
| `Compare.EqualIffSame` | src/cJSON.c:2844-2961 | On trees with distinct names comparison holds if and only if arrays agree in order and objects agree as maps. |
| `Compare.Reflexive` | src/cJSON.c:2844-2961 | A tree with distinct names equals its duplicate if and only if all its types are valid and its strings have a text. |
| `Compare.KeyOrderIrrelevant` | src/cJSON.c:2922-2955 | Objects with the same members in any order compare equal. |
| `HeapCompare.CaseInsensitiveStrcmp` | src/cJSON.c:136-157 | Equal exactly when both are there and agree at every position but for the case of the 26 letters. |
| `HeapCompare.Strcmp` | src/cJSON.c:2887-2895 | Two C strings are equal exactly when their bytes are. |
| `HeapCompare.LookUp` | src/cJSON.c:1791-1822 | `get_object_item` on items in memory does what the look-up in their contents does. |
| `HeapCompare.GetObjectItem` | src/cJSON.c:1791-1822 | The first member whose name is the given one, or differs from it in the case of letters only; NULL if there is none. A case-sensitive look-up gives up at an item without a name. |
| `HeapCompare.CompareElements` | src/cJSON.c:2898-2918 | Arrays compare element by element and in length. |
| `HeapCompare.CompareMembers` | src/cJSON.c:2924-2937 | Every member of one object is found in the other and compares equal. |
| `HeapCompare.Compare` | src/cJSON.c:2844-2961 | Decides exactly the comparison of the contents; NULL equals nothing and an item itself if its type is valid. |
| `Vector.Vec.constructor` | src/vector.c:19-36 | A new vector is empty and starts at a quarter of its size. |
| `Vector.Vec.Append` | src/vector.c:48-52 | A push at the tail. |
| `Vector.Vec.Push` | src/vector.c:94-124 | At either end, as on a sequence; without room, or with another flag, an error and no change. |
| `Vector.Vec.Pop` | src/vector.c:126-153 | The entry at either end, taken off the sequence; an error when empty. |
| `Vector.Vec.Insert` | src/vector.c:54-74 | The entry before the position, the rest shifted; past the end, or at a negative position, at the tail. |
| `Vector.Vec.Delete` | src/vector.c:76-92 | The entry at the position, taken out, the rest shifted. |
| `Vector.Vec.Get` | src/vector.c:155-165 | The entry at the index, or an error outside the sequence. |
| `Vector.Vec.GetIdx` | src/vector.c:167-177 | The least index of the entry, or an error when it is not there. |
| `Vector.Vec.Cat` | src/vector.c:179-201 | The other vector's entries at the tail, if they all fit; the other is unchanged. |
| `Vector.RunFits` | src/vector.c:48-201 | In every run the entries stay inside the array, and a failed operation changes nothing. |
| `Vector.PopUndoesPush` | src/vector.c:94-153 | The pop at the same end undoes an accepted push. |
| `Vector.DeleteUndoesInsert` | src/vector.c:54-92 | Deletion at the position undoes an accepted insertion. |
| `Vector.QueueIsFifo` | src/vector.c:94-153 | Over any run of appends and head pops, what was popped followed by what is left is what was there followed by what was accepted. |
| `Vector.AppendBudget` | src/vector.c:30-32 | In such a run the end of the entries moves by one for every accepted append and never back, so that a new vector accepts at most 24. |
| `Vector.SpentForGood` | src/vector.c:109-113 | Once the budget is used up every further append fails. |
| `Vector.GuardTooLate` | src/vector.c:109-113 | The guard of `nftp_vec_push` itself never refuses in a run of a new queue, although there is a slot if and only if fewer than 24 appends were accepted. |
| `Proxy.LocksStep` | src/dds_client.c:144-203 | Every step keeps: each mutex is held by exactly the thread that is in a section it guards. |
| `Proxy.FlowPop` | src/dds_client.c:144-149 | Taking a handle from the own queue moves it along its path and nothing else. |
| `Proxy.FlowTake` | src/mqtt_client.c:227-233 | Receiving adds a message at the end of its path; a handle that cannot be allocated takes out exactly that message. |
| `Proxy.FlowAppend` | src/mqtt_client.c:235-237 | Appending to the own queue keeps the order; an overflow takes out exactly that message. |
| `Proxy.FlowWork` | src/dds_client.c:183-208 | Delivering or forwarding keeps the order; an overflow takes out exactly that message. |
| `Proxy.LoseOne` | src/mqtt_client.c:189-199 | Losing a message takes it out of the sequence of survivors and leaves the others in order. |
| `Proxy.InvStep` | src/dds_client.c:139-209 | Every step of every thread keeps the invariant of the proxy. |
| `Proxy.Safe` | src/mqtt_client.c:201-269 | The invariant holds after every run, whatever the interleaving and the environment. |
| `Proxy.Delivered` | src/dds_client.c:139-209 | In every run, what was sent to a network is the first part of the messages received from the other one without the lost ones, each once, in order and none of another origin; the rest of them are on the way, in order. |
| `Proxy.DeliveryBudget` | src/mqtt_client.c:246-267 | No run, however long, sends more than 24 messages to the two networks together. |
| `Proxy.NothingLostWithinBudget` | src/vector.c:109-113 | Until more than 24 messages have been received from both networks together, and unless `malloc` fails, none is lost: every one is delivered or on the way, in order. |
| `Proxy.LosesNothingIffWithinBudget` | src/vector.c:109-113 | Of a run that ends with nothing on the way, unless `malloc` fails, no message was lost if and only if at most 24 were received in all. |
| `Proxy.AllDelivered` | src/vector.c:109-113 | Whatever `malloc` does, a run that delivered everything and lost nothing received at most 24. |
| `Proxy.TwentyFifthIsLost` | src/mqtt_client.c:189-199 | A run that loses one: the 25th of 25 messages that arrive before the MQTT loop runs. |
| `Proxy.NoDeadlock` | src/dds_client.c:144-203 | In every run, a thread that cannot step holds no mutex and waits for one whose holder can step. |
| `Proxy.QueuesAreFair` | src/mqtt_client.c:156-167 | In every run no pop meets an empty queue, although the length of `rmsgq` is read unlocked, and a client's queue holds at most one entry the client put there itself. |
| `ProxyProgress.LeftStep` | src/dds_client.c:139-209 | What is left to do, a measure of queues, hands and positions, grows in no step that receives nothing and shrinks in every such step of a thread that has work. |
| `ProxyProgress.LeftFalls` | src/mqtt_client.c:201-269 | Over any continuation that receives nothing it never grows, and it shrinks once any thread that had work at the start has stepped. |
| `ProxyProgress.EveryFairScheduleDelivers` | src/dds_client.c:139-209 | After any run, 8000 rounds that receive nothing, in each of which every thread with work takes a step, leave nothing on the way; with at most 24 messages received and no failed `malloc`, each network has been sent exactly the messages of the other, in order. |
| `ProxyProgress.EveryRunGoesOn` | src/dds_client.c:139-209 | Such a round exists after every run. |
| `ProxyProgress.EveryRunCanDeliver` | src/mqtt_client.c:201-269 | After every run some continuation that receives nothing leaves nothing on the way. |
| `ProxyProgress.EveryRunCanReceive` | src/dds_client.c:155-181 | After every run some continuation receives one more message from either network, and nothing else. |
| `ProxyProgress.AnyTwentyFour` | src/mqtt_client.c:246-267 | Any number of messages from either network, 24 in all, can be exchanged in full: each network is sent exactly those of the other, in order. |
| `ProxyProgress.CanBeKeptOut` | src/dds_client.c:144-184 | A loop with nothing to do can go round for ever and hold its mutex each time the other loop, which wants to pass a handle on, is tried: only steps taken count. |
| `Bridge.NumberThereAndBack` | src/cJSON.c:366-375 | An integer printed and read back has the `valueint` of its clamp to `int`. |
| `Bridge.FindsMember` | src/HelloWorldMQTTTypes.c:53-74 | Each name of the struct finds its own member, the comparison of names being case-insensitive. |
| `Bridge.SamplePrints` | src/HelloWorldMQTTTypes.c:31-34 | Every sample with terminated messages can be printed and its text is far below the limit of the printer. |
| `Bridge.ThereAndBack` | src/HelloWorldMQTTTypes.c:8-78 | A sample converted to text and back keeps its messages, its enumeration and every integer of at most 32 bits but `uint32`; that one, `int64` and `uint64` are clamped to the range of `int`. |
| `Bridge.UnchangedIffNarrow` | src/HelloWorldMQTTTypes.c:8-78 | The journey changes nothing if and only if those three are in the range of `int`. |
| `Bridge.SampleMembers` | src/HelloWorldMQTTTypes.c:15-29 | The tree of a sample written out: each field under its own name, in the order of the calls. |
| `Bridge.CompleteIff` | src/HelloWorldMQTTTypes.c:52-76 | A tree can be read if and only if it has a member under each of the eleven names and the inner one, and both messages have at most 255 bytes. |
| `Bridge.FilledByName` | src/HelloWorldMQTTTypes.c:52-76 | Each field is filled from the member under its own name. |
| `Bridge.Conversions` | src/HelloWorldMQTTTypes.c:53-72 | An `int` becomes the one value of the type of the field that differs from it by a multiple of the size of the type. |
| `Payload.PayloadIs` | src/HelloWorldMQTTTypes.c:15-34 | The payload of a sample byte for byte: names, numbers, messages, tabs, colons, commas and line feeds. |
| `HelloWorld.BuildObject` | src/HelloWorldMQTTTypes.c:15-29 | For every schedule of refusals: which members the object has, the number of requests, and that the cells lost are exactly those of the inner object, if and only if it was made but the outer object or the copy of its name was refused. |
| `HelloWorld.AttachStru` | src/HelloWorldMQTTTypes.c:29-29 | The inner object becomes the last member, or is lost if and only if the outer one is not there or the copy of the name is refused. |
| `HelloWorld.NothingRefused` | src/HelloWorldMQTTTypes.c:15-29 | Without refusals the object is that of the sample and nothing is lost. |
| `HelloWorld.OneRefusal` | src/HelloWorldMQTTTypes.c:15-29 | Of all schedules with a single refusal exactly two lose the inner object: the first request and the twenty-seventh. |
| `HelloWorld.LosesInnerObject` | src/HelloWorldMQTTTypes.c:15-29 | A run that loses it: with the first request of a new heap refused there is no object, and cells stay live. |
| `HelloWorld.Fill` | src/HelloWorldMQTTTypes.c:52-76 | The struct is filled if and only if every member is there and the messages fit, with each field converted from the `valueint` of its own member. |
| `HelloWorld.HelloWorldToMqtt` | src/HelloWorldMQTTTypes.c:8-36 | For every schedule of refusals: the payload is the formatted text of the object with the members that were granted, without refusals the text of the sample byte for byte; it is NULL if and only if the object was refused, cannot be printed or something was refused while it was; all that is gained besides is the inner object, exactly when it is lost. |
| `HelloWorld.MqttToHelloWorld` | src/HelloWorldMQTTTypes.c:38-78 | The struct is filled, each field from the member under its own name, if and only if the text parses, every member is there and the messages fit; then every cell is released. |

## Left out

- Vector.Vec.Push: does not model the tail guard of line 110 of src/vector.c, which lets one entry more through than the array has slots (`Vector.GuardTooLate` says when); the guard of `nftp_vec_insert` (line 59) stands for both, and `Proxy.dfy` builds on it.
- Vector.Vec.Append: the same guard.
- Vector.Vec.Delete: requires a non-empty vector, because `v->len-1` is unsigned in the source.
- Vector.Vec.constructor: a refused allocation in `nftp_vec_alloc`; nor are NULL vectors and the stub `resize` modelled, and the mutexes are in `Proxy.dfy`.
- Vector.Vec.Cat: the two vectors are different ones; the proxy never joins queues.
- Doubles.RoundIsDouble: rounding has no upper limit, so a text beyond the largest double is read as a larger number instead of infinity; negative zero is zero, and locale decimal points are not modelled.
- Numbers.NumberSurvives: `compare_double` is computed exactly; in doubles its product is rounded below 2^-970, where it can differ.
- Printer.PrintBuffer.PrintNumber: NaN and infinities, which print as null, are no values of the model; a number text longer than the 26 byte buffer is refused rather than written past it.
- PrintedDigits.CorrectPrints: `sprintf` is not modelled but assumed to round to the nearest decimal of 15 and 17 significant digits, in the syntax of RFC 8259 section 6.
- Rfc8259.AcceptedIff: bytes of 128 and more in strings are taken as they come, well-formed UTF-8 or not.
- Soundness.AcceptsExactly: texts with `\u` escapes whose four bytes are not hexadecimal digits, which the second pass reads as a NUL wherever the first pass ends the literal.
- HeapBuild.AddItemToObject: the branch for a constant name, of `cJSON_AddItemToObjectCS`.
- HeapEdit.AddItemToArray: the item is not yet in a list; one that is still linked elsewhere keeps links into both.
- HeapCopy.CopyFields: items marked as references, and names marked constant, which the copy would share.
- Parser.ParseWithOpts: the entry for C strings only, not for a length given by the caller; `global_error`, and `return_parse_end` after a failure, are not modelled.
- Printer.PrintBuffered: without `realloc` the initial size must not be 0, since the copy by hand reads one byte of the old buffer.
- Printer.PrintPreallocated: the length is taken to be the size of the caller's array, so that staying in the reserved space is staying in the array.
- RoundTrip.PrintThenParse: `cJSON_Raw` items, whose text can be anything, and numbers whose text is no token of at most 63 bytes.
- HeapCompare.Compare: two different items under comparison share no cells, so that the shortcut for identical items applies at the top only.
- HeapCopy.Duplicate: the same; constant names and references are respected in `Heap.Delete` only.
- HeapEdit.ReplaceItemViaPointer: the replacement is not yet in the list.
- HeapEdit.InsertItemInArray: the item is not yet in a list; NULL before an existing child, which the source would follow, is excluded.
- HeapScript.RunScript: the new items are numbers, and a detached child goes back into the same array; the mutators under it are proved for any items.
- HelloWorld.HelloWorldToMqtt: `m2->len` is the constant 256 whatever the text, which is taken as NUL-terminated.
- HelloWorld.MqttToHelloWorld: where it reports failure the C code would follow a NULL pointer or write past an array.
- Proxy.Safe: the DDS and NNG calls are steps whose outcome the environment chooses; a receive that fails appends NULL, which is a numbered message like any other here, so that the messages received include those; start-up before `mqtt_connect` returns, shutdown, and the contents of samples, which share one buffer, are not modelled.
- The `cJSON_Is...` predicates, `cJSON_InitHooks`, version functions, array constructors and the remaining thin wrappers would only add easy members.
- The demo programs src/publisher.c and src/subscriber.c, and src/main.c.
