# A verified model of a push-notification daemon's core

The repository is a daemon that reads JSON push commands out of Redis, keeps them in a bounded queue
and lets worker threads send them. This project models its three hard parts in Dafny and proves
properties of them. Each operation that works step by step in the source is a method (on a class with
the source's fields where there is one) that is proved against a pure function; the laws are lemmas
about those functions.

**The JSON library (`parson.c`).**
Text is a sequence of bytes in front of an implicit NUL; a read past the NUL is a verification error.
`Utf8`, `Strings`: the UTF-8 verifier, the string scanner, the escape decoder and the escaper; `Literals`:
the grammar of string content, written apart from the decoder.
`Values`, `ObjectStore`, `ArrayStore`: values with the capacities of their blocks, and the growable
blocks as classes over arrays. `Parser`: the recursive descent over one shared cursor. `Serializer`: the
measuring and the writing pass. `Layout`, `Pieces`, `RoundTrip`, `JsonTheorems`: token sequences, text
spread with white space and comments, and the round trip. `Comments`: the comment blanker.
`CommentTheorems`: when a comment is invisible.
`ParserOutput`: what parsing can return. `Grammar`, `Acceptance`: the grammar of accepted texts and the
proof that the parser accepts exactly them. `PrettyLines`: pretty text line by line. `Paths`: dotted get, set and remove. `Equality`, `DeepCopy`:
order-insensitive equality, and the copy as nodes in memory.

**The Redis client (`redisclient.h`, `anet.c`).**
`Resp` and `Framing`: the request encoder, a pure reply decoder, and the proofs that both formats are
self-delimiting. `Wire`: a socket that hands over its stream in pieces chosen by an adversary, the read
loops over it, and the write loop of `anet.c`. `Server`: a server as a FIFO state machine over a store;
MGET, MSET, SINTER, SUNION, MULTI and EXEC are spelled out (by their upper-case names), every other
command is an arbitrary function, and so are the order in which a set is listed, the commands a server
refuses to queue, and the text of a refusal. `Batches`, `Sharding`,
`Cluster`: the client over several connections, with an arbitrary hasher. A loop over a `std::map` of
sockets takes the sockets in any order.

**The command queue (`files.cpp`, `event_drive.cpp`).**
`Queue`: two semaphores, a mutex and a list as a transition system with one program counter per thread,
for any number of producers and consumers.

Assumptions that the source relies on and the model states: a consuming `recv` right after a peek returns
all the bytes it asks for if it asks for no more than was seen (`redisclient.h:2645-2649`); sockets of
different connections are different and positive; a server's status and error texts are single lines, and
an error text has at least four characters; SINTER and SUNION are answered by an error if any key holds
something other than a set; signals do not interrupt a call forever; between two calls of the client
nothing is on its way.

Where the code and its own words differ, the model follows the code:

- `read_line` documents a limit of 2048 bytes, but its count is never advanced (`redisclient.h:2617-2650`),
  so the limit never takes effect; `Wire.Socket.ReadLine` reads lines of any length.
- An error reply of fewer than five bytes makes `substr` throw (`redisclient.h:2577-2579`):
  `Framing.ShortErrorThrows`.
- `send_` only looks for -1, so a `write` that returns 0 loses the rest of a message without an error
  (`redisclient.h:2294-2302`, `anet.c:197-208`): `Wire.SilentLoss`; `Wire.LosesSilently` says exactly when.
- The byte in front of a member name is skipped whatever it is (`parson.c:438-439`, `parson.c:592`), so that
  `{xa":1}` is an object with the member `a`: `JsonTheorems.OpeningQuoteIgnored` and `UnquotedNameParses`.
- A string literal whose closing quote is the last byte of the text is refused (`parson.c:549-550`).
- A `-` without a digit is taken as the number 0 and not consumed (`parson.c:692-697`), so that no array or
  object holds one: `Grammar.ParsedIsDerived`.
- The scan for block comments runs first and knows nothing of line comments (`parson.c:919-920`), so a quote,
  an open block comment or a star at the head of a line comment changes what the text behind it is read as:
  `CommentTheorems.InvisibleExactly`. A line comment that the end of the text cuts off loses only its two
  slashes: `CommentTheorems.CutLineIsRead`.
- A name that is already present is refused only after the block has grown (`parson.c:306-314`).
- A control byte other than the five with a short escape is written raw (`parson.c:851-857`) and refused
  on the way back (`parson.c:521-522`): `JsonTheorems.RoundTrips` says exactly when the round trip holds.
- A parsed object has no spare room, so one with 481 or more members takes no new name, although the limit
  is 960 (`parson.c:306-309`, `parson.c:620`): `ObjectStore.AddFailsExactly`.

## Model

| member | source | states |
|---|---|---|
| `Utf8.IsValidUtf8` | parson.c:203-213 | accepts a byte string exactly when it is a concatenation of the well-formed sequences of the table in section 4 of RFC 3629 |
| `Utf8.VerifyIsTable` | parson.c:161-201 | the arithmetic test for overlong forms, surrogates and range accepts one sequence exactly when a row of the RFC 3629 table matches there |
| `Utf8.EncodeVerifies` | parson.c:161-201 | the RFC 3629 encoding of every scalar value is accepted and recomputed to the same code point |
| `Utf8.EncodeOrder` | parson.c:460-482 | code points and their encodings, as strings of bytes, have the same order (section 1 of RFC 3629) |
| `Utf8.ValidIsWellFormed` | parson.c:203-213 | from any position, accepting the rest of a string is the same as the rest being well-formed |
| `Strings.SkipQuotes` | parson.c:438-451 | the scan never passes the terminator, and when it closes it stands just behind a quote |
| `Strings.SkipQuotesIsBalanced` | parson.c:438-451 | the scan closes at a position exactly when content without open escapes or bare quotes, and then a quote, end there |
| `Strings.UnitIsSpelled` | parson.c:457-458 | four bytes are read as a number exactly if they are its four hexadecimal digits, the most significant first, in either letter case |
| `Strings.Transcodes` | parson.c:453-490 | for every scalar value, the hexadecimal text of its `\u` escape or of its surrogate pair (sections 2.1 and 2.2 of RFC 2781) decodes to bytes that the verifier accepts and recomputes to the same code point |
| `Strings.OnlyScalarsTranscode` | parson.c:453-490 | whatever decodes is the hexadecimal text of a scalar value or of its surrogate pair: a lone or reversed surrogate never does |
| `Strings.CombineSplits` | parson.c:478 | joining the two halves of a supplementary code point gives it back |
| `Strings.CombineJoins` | parson.c:478 | every pair of surrogates is the pair of the code point it joins to |
| `Strings.WriteUtf8` | parson.c:460-482 | the bytes written are the RFC 3629 encoding and the pointer is left on the last of them |
| `Strings.ReadTrail` | parson.c:470-477 | a second escape with a trail surrogate is found exactly when it stands there, without reading past the closing quote |
| `Strings.ReadCodePoint` | parson.c:457-478 | the escape is read exactly when it denotes a code point, and both pointers end where that escape ends |
| `Strings.ParseUtf16` | parson.c:453-490 | succeeds exactly on an escape or pair that denotes a code point, writes its encoding, and never reads past the closing quote or writes past the bytes read |
| `Strings.ProcessOne` | parson.c:502-528 | one round consumes at least as many bytes as it writes, stays inside the literal, and leaves balanced content behind |
| `Strings.ProcessString` | parson.c:495-541 | on any literal that skip_quotes closes, decodes it or refuses it as the decoding function does, with every read before the closing quote and every write inside the buffer |
| `Strings.DecodePreservesUtf8` | parson.c:495-541 | if the raw literal is valid UTF-8, so is what it decodes to |
| `Strings.CStringPreservesUtf8` | parson.c:495-541 | cutting the decoded bytes at a NUL keeps them valid UTF-8 |
| `Strings.Decode` | parson.c:495-541 | the decoded string is never longer than the literal |
| `Strings.DecodeEscapeAll` | parson.c:495-541 | escaping and decoding is the identity exactly for strings without a control byte that has no short escape; any other string is refused; the escaped form is always balanced |
| `Strings.EscapeTable` | parson.c:506-513 | the one-letter escapes are those of the table in section 7 of RFC 8259, each with its meaning, and no other letter is one |
| `Strings.EscapeByteTable` | parson.c:842-857 | the serialiser escapes exactly the bytes of that table, each with its own letter |
| `Literals.GrammarDecodes` | parson.c:438-541 | every string content of the grammar in section 7 of RFC 8259, spelled with any mix of plain bytes, short escapes, `\u` escapes and pairs, is scanned as balanced and decoded to what it means |
| `Literals.DecodedIsGrammar` | parson.c:495-541 | whatever content is decoded is spelled by that grammar and means what it was decoded to |
| `Values.LadderGrows` | parson.c:307-309 | a block that grew from empty reaches the caps 960 and 122880 exactly, so doubling never refuses it earlier |
| `Values.GrowExactly` | parson.c:307 | the first block has room for 15 entries, a later one for twice as many as the one before |
| `ObjectStore.JsonObject.Resize` | parson.c:324-354 | succeeds exactly for a non-zero capacity, keeps the members and allocates new blocks |
| `ObjectStore.JsonObject.NGetValue` | parson.c:356-366 | the value of the first member whose whole name is the given prefix |
| `ObjectStore.JsonObject.GetValue` | parson.c:356-366 | the value of the first member of that name |
| `ObjectStore.JsonObject.AddValue` | parson.c:301-322 | the result and the whole new state are those of the specified add, including growth and the refusals |
| `ObjectStore.JsonObject.SetValue` | parson.c:1457-1474 | overwrites in place or adds, with the whole new state |
| `ObjectStore.JsonObject.RemoveValue` | parson.c:1567-1585 | the last member takes the place of the removed one, with the whole new state |
| `ObjectStore.JsonObject.ClearAll` | parson.c:1605-1616 | no members, same capacity |
| `ObjectStore.AddRefines` | parson.c:301-322 | adding to the arrays is adding to a finite map that may be out of room |
| `ObjectStore.SetRefines` | parson.c:1457-1474 | setting in the arrays is updating the map, and fails only for a new name without room |
| `ObjectStore.RemoveRefines` | parson.c:1567-1585 | swap-with-last removal is removal from the map |
| `ObjectStore.RemovedLookup` | parson.c:1567-1585 | after a removal every other name is looked up as before |
| `ObjectStore.AddKeepsGood` | parson.c:301-322 | names stay distinct and count <= capacity <= 960 |
| `ObjectStore.SetKeepsGood` | parson.c:1457-1474 | names stay distinct and count <= capacity <= 960 |
| `ObjectStore.RemoveKeepsGood` | parson.c:1567-1585 | names stay distinct and count <= capacity <= 960 |
| `ObjectStore.ApplyRefines` | parson.c:1457-1616 | each of add, set, remove and clear keeps the invariant and commutes with the map view |
| `ObjectStore.RunRefines` | parson.c:301-366 | every sequence of add, set, remove and clear on any object keeps names distinct and count <= capacity <= 960, and gives exactly the answers, the map and the capacity of a finite map with a bounded block: a new name is refused when the block is full and may not double, and never otherwise |
| `ObjectStore.GrownRunRefines` | parson.c:301-366 | for an object grown from empty, growth is invisible: every sequence answers exactly as a finite map that refuses a new name when, and only when, it holds 960 |
| `ObjectStore.FullAtCap` | parson.c:306-309 | an object grown from empty is out of room exactly when its map holds 960 names |
| `ObjectStore.AddFailsExactly` | parson.c:306-314 | a non-null value is refused exactly when a full block could not double within 960, or the name is present; a trimmed object of 481 members or more takes no new name, one of 480 or fewer does |
| `ObjectStore.AddAppends` | parson.c:315-320 | a new member comes last |
| `ObjectStore.SetKeepsPlaces` | parson.c:1457-1474 | a member that is set again keeps its place, and every other member its place and value |
| `ObjectStore.RemoveMovesLast` | parson.c:1573-1580 | the last member takes the place of the removed one, and all others keep theirs |
| `ArrayStore.JsonArray.Resize` | parson.c:402-418 | succeeds exactly for a non-zero capacity and keeps the items |
| `ArrayStore.JsonArray.AddItem` | parson.c:389-400 | appends, or refuses when a full block could not double within 122880, with the whole new state |
| `ArrayStore.FullAtCap` | parson.c:390-393 | an array grown from empty takes an item exactly until it holds 122880 |
| `Text.SpacesSpelled` | parson.c:43 | white space is blank, tab, line feed, vertical tab, form feed and carriage return, and nothing else |
| `Parser.Cursor.SkipToQuote` | parson.c:438-451 | the cursor ends where the scan ends and never passes the terminator |
| `Parser.Cursor.QuotedString` | parson.c:545-553 | the literal and the cursor behind it, or a refusal; the cursor always moves |
| `Parser.IsDecimalText` | parson.c:215-226 | refuses a leading zero before a digit and any hexadecimal marker, and nothing else |
| `Parser.Cursor.Value` | parson.c:555-577 | for every text and cursor the parser terminates with the value and the cursor of the parsing function, without passing the terminator |
| `Parser.Cursor.Object` | parson.c:579-626 | as the parsing function for an object |
| `Parser.Cursor.Members` | parson.c:591-625 | the loop adds member after member to the object's blocks and then trims them |
| `Parser.Cursor.AddMember` | parson.c:592-610 | one name, colon and value, added or refused, with the object's whole new state |
| `Parser.Cursor.MemberRound` | parson.c:591-617 | one round of the loop; a further round needs a comma, so the cursor has moved |
| `Parser.Cursor.CloseObject` | parson.c:618-625 | the closing brace and the trim; trimming to nothing fails |
| `Parser.Cursor.Array` | parson.c:628-664 | as the parsing function for an array |
| `Parser.Cursor.Items` | parson.c:639-663 | the loop adds item after item to the array's block and then trims it |
| `Parser.Cursor.AddItem` | parson.c:640-649 | one value, added or refused, with the array's whole new state |
| `Parser.Cursor.ItemRound` | parson.c:639-655 | one round of the loop; a further round needs a comma, so the cursor has moved even after a `-` that consumed nothing |
| `Parser.Cursor.CloseArray` | parson.c:656-663 | the closing bracket and the trim; trimming to nothing fails |
| `Parser.Cursor.Boolean` | parson.c:679-690 | the two literals by prefix |
| `Parser.Cursor.Number` | parson.c:692-703 | the longest integer prefix if its text is decimal; a bare `-` succeeds and consumes nothing |
| `Parser.JsonParseString` | parson.c:904-911 | total: every byte string gives the value of the parsing function or none, and only an object or array is accepted |
| `Parser.ParseValue` | parson.c:555-577 | the cursor never moves back and never passes the terminator |
| `ParserOutput.ParsedIsSound` | parson.c:555-712 | every value returned has distinct names in each object, sizes within the caps, no node deeper than 19, strings without NUL and blocks cut to size |
| `ParserOutput.MembersAreSound` | parson.c:591-625 | the member loop keeps distinct names and sound values at every round |
| `ParserOutput.ItemsAreSound` | parson.c:639-663 | the item loop keeps the cap and sound values at every round |
| `ParserOutput.TightIsTrimmed` | parson.c:618-622 | for a parsed value trimming changes nothing |
| `Grammar.NumberIsNumeral` | parson.c:692-703 | a number is taken exactly if the text up to there is an integer as printed, or `-0`, and neither a further digit nor a hexadecimal rest follows |
| `Grammar.LeadingZeroRefused` | parson.c:215-226 | `01`, `-01`, `0x1` and `-0x1` are refused, whatever follows |
| `Grammar.DecimalDigits` | parson.c:215-226 | of digits with a minus sign or without, exactly those with a leading zero are refused |
| `Grammar.ParsedIsDerived` | parson.c:555-712 | for every text and cursor, the text of a returned value is derived by the grammar of matching brackets, commas between entries and none behind the last, quoted names, colons and values, and means that value; the only exception is a bare `-` |
| `Grammar.QuotedDerived` | parson.c:438-553 | a string that was read is spelled by the string grammar between any first byte and a closing quote |
| `Grammar.ItemsDerived` | parson.c:639-663 | the rest of an accepted array is items separated by commas and a closing bracket |
| `Grammar.MembersDerived` | parson.c:591-625 | the rest of an accepted object is named values separated by commas and a closing brace |
| `Acceptance.TreeParses` | parson.c:555-712 | every text the grammar derives is parsed to its meaning, if that keeps to the limits |
| `Acceptance.SlotsParse` | parson.c:639-663 | derived items complete the array with their meanings, in order |
| `Acceptance.PairsParse` | parson.c:591-625 | derived members with distinct names complete the object with their meanings, in order |
| `Acceptance.AcceptedIsGrammar` | parson.c:904-911 | a text is accepted with a value exactly if it begins, behind white space, with an array or object that the grammar derives and that means the value, within the limits on nesting, sizes and distinct names |
| `Acceptance.AcceptedCloses` | parson.c:618-663 | an accepted object ends in a closing brace and an accepted array in a closing bracket |
| `Acceptance.CutTextRefused` | parson.c:904-911 | an accepted text cut off anywhere in front of its closing byte is refused; cut off behind it, it gives the same value |
| `Acceptance.BlankInFront` | parson.c:906 | white space in front of a text means nothing |
| `Acceptance.DepthLimit` | parson.c:555-557 | arrays in one another are accepted up to twenty deep and no deeper |
| `Serializer.Output.Value` | parson.c:725-833 | measuring and writing produce the same text, and every write, with the NUL behind it, stays inside the room measured for it |
| `Serializer.Output.Array` | parson.c:736-760 | as specified for an array, inside its room |
| `Serializer.Output.Object` | parson.c:761-795 | as specified for an object, inside its room; a member's value is looked up by its name |
| `Serializer.Output.String` | parson.c:835-862 | the escaped literal, inside its room |
| `Serializer.Output.Append` | parson.c:873-878 | appends the text, and in the writing pass leaves a NUL behind it |
| `Serializer.Output.AppendIndent` | parson.c:864-871 | four blanks for each level |
| `Serializer.SerializationSize` | parson.c:1214-1218 | the number of bytes the writing pass produces, plus one, for compact and pretty alike |
| `Serializer.SerializeToBuffer` | parson.c:1220-1230 | succeeds exactly when the buffer holds the measured size, fills exactly size-1 bytes and a NUL, and leaves the rest of the buffer, or on failure all of it, alone |
| `Serializer.SerializeToString` | parson.c:1252-1268 | a fresh buffer with the text and one NUL, without slack |
| `RoundTrip.ParseLaid` | parson.c:555-712 | the tokens of a value, however much white space stands between them, parse to exactly that value, trimmed, and end behind the last token; a value with an unescapable control byte is refused |
| `RoundTrip.ItemsLaid` | parson.c:628-664 | the items of an array, laid out from any index on, complete the array in order |
| `RoundTrip.MembersLaid` | parson.c:579-626 | the members of an object, laid out from any index on, complete the object in order |
| `RoundTrip.ParsePrinted` | parson.c:692-703 | a printed integer that no digit follows parses back to itself |
| `RoundTrip.ParseQuoted` | parson.c:545-553 | a written string literal that is not the end of the text reads back as the string, exactly if it is clean |
| `RoundTrip.PrintedIsDecimal` | parson.c:811-816 | what `%d` prints passes the decimal test |
| `Decimal.PrintedDigit` | parson.c:815-816 | each byte of a printed number is the decimal digit of its place |
| `Decimal.PrintedLength` | parson.c:815-816 | there are as many digits as the number needs |
| `Decimal.PrintedSign` | parson.c:815-816 | a negative number is a minus sign and the digits of its magnitude |
| `Pieces.EmitSpaced` | parson.c:725-833 | compact and pretty output are the tokens of the value with white space between them and nothing else |
| `Pieces.ParseSpaced` | parson.c:904-911 | any text that is the tokens of a value with white space between them parses to that value |
| `Pieces.StripSpaced` | parson.c:725-833 | removing white space outside strings leaves the tokens |
| `JsonTheorems.RoundTrips` | parson.c:725-911 | parsing either serialisation of an object or array gives back the value, members in order, exactly if no string holds an unescapable control byte, and nothing otherwise |
| `JsonTheorems.ParsedRoundTrips` | parson.c:904-911 | what was parsed and holds no such byte survives another round unchanged |
| `JsonTheorems.ControlByteDoesNotRoundTrip` | parson.c:851-857 | a string with byte 1 is written raw and refused |
| `JsonTheorems.OpeningQuoteIgnored` | parson.c:438-439 | a name reads the same whatever byte stands where its opening quote should be |
| `JsonTheorems.UnquotedNameParses` | parson.c:591-598 | a member name without its opening quote, behind any other byte, is accepted |
| `JsonTheorems.CompactIsTokens` | parson.c:725-833 | compact output is the tokens with nothing between them |
| `JsonTheorems.PrettyIsSpacedCompact` | parson.c:725-833 | pretty output without its white space outside strings is the compact output |
| `PrettyLines.PrettyIsLines` | parson.c:736-795 | pretty output is, line by line: each entry on a line of its own, indented by four blanks for each container around it, brackets and commas where they belong |
| `PrettyLines.LinesAreLines` | parson.c:835-862 | no such line breaks, because a line feed inside a string is written as an escape |
| `Comments.BlankOut` | parson.c:274-275 | exactly the given stretch becomes blanks |
| `Comments.BlankComment` | parson.c:273-283 | one comment becomes blanks of the same length; without its end only the opening does, and scanning stops |
| `Comments.RemoveRound` | parson.c:266-286 | one round of the scan, with the state of quotes and escapes |
| `Comments.RemoveComments` | parson.c:258-287 | the buffer becomes what the blanking function says, in place, with its length and NUL kept |
| `Comments.Remove` | parson.c:258-287 | blanking preserves the length |
| `Comments.JsonParseStringWithComments` | parson.c:913-930 | both kinds of comment are blanked before parsing |
| `Comments.RemoveNotes` | parson.c:919 | in text made of tokens, white space and comments, the first scan turns exactly the block comments into white space, whatever quotes or slashes their bodies hold, and leaves quiet line comments as line comments |
| `Comments.RemoveLines` | parson.c:920 | the second scan turns exactly the line comments into white space |
| `Comments.ScanLine` | parson.c:258-287 | the first scan crosses a line comment and its line feed, in a string or not as its quotes say, unless a block comment is open there |
| `CommentTheorems.CommentsAreTransparent` | parson.c:913-930 | block comments and quiet line comments between the tokens of a value, and anything behind its last token, a comment cut off by the end of the text included, do not change what is returned |
| `CommentTheorems.QuietIsInvisible` | parson.c:913-930 | a quiet line comment in front of any text is invisible |
| `CommentTheorems.LoudIsVisible` | parson.c:919-920 | for every other line comment there is a text that is read differently behind it |
| `CommentTheorems.InvisibleExactly` | parson.c:919-920 | a line comment is invisible in front of every text exactly if its quotes come in pairs, the block comments that open in it close in it, and no star follows its slashes |
| `Comments.PlainIsQuiet` | parson.c:919-920 | a line comment without quotes and stars is quiet |
| `CommentTheorems.StarIsVisible` | parson.c:919-920 | a star behind the slashes makes any text behind the line refused |
| `CommentTheorems.OpenNoteSwallows` | parson.c:276-282 | what a block comment that stays open in a line comment swallows has no part in the result |
| `CommentTheorems.CutLineIsRead` | parson.c:274-279 | a line comment that the end of the text cuts off is read as text, but for its two slashes |
| `CommentTheorems.OutputHasNoComments` | parson.c:258-287 | blanking leaves serialiser output as it is |
| `Paths.DotSetGets` | parson.c:1492-1521 | after a successful dotted set, the dotted get at that path gives the value |
| `Paths.DotSetKeeps` | parson.c:1492-1521 | a successful dotted set leaves the get at every path that is neither prefix nor extension |
| `Paths.DotSetSucceeds` | parson.c:1492-1521 | a dotted set succeeds exactly when no name on the way is a non-object and the first new name finds room |
| `Paths.DotSetFails` | parson.c:1492-1521 | a failing dotted set leaves the object as it was up to the size of its blocks |
| `Paths.FailedDotSetKeepsLookups` | parson.c:1492-1521 | a failing dotted set leaves the lookups of all paths |
| `Paths.DotRemoveSucceeds` | parson.c:1587-1603 | a dotted remove succeeds exactly when the path is present, and changes nothing otherwise |
| `Paths.DotRemoveErases` | parson.c:1587-1603 | the named leaf and everything below it is gone |
| `Paths.DotRemoveKeeps` | parson.c:1587-1603 | every unrelated path is looked up as before |
| `Paths.DotSetKeepsStored` | parson.c:1492-1521 | distinct names and capacities stay in order at every depth |
| `Paths.DotRemoveKeepsStored` | parson.c:1587-1603 | distinct names and capacities stay in order at every depth |
| `Paths.DotGetJoined` | parson.c:961-967 | a get along two joined paths is a get of the second in the object the first leads to |
| `Paths.UndottedIsName` | parson.c:1492-1603 | along a path without a dot the three operations are those of a single name |
| `Paths.DotSetBelow` | parson.c:1492-1521 | after a successful dotted set, a get below the path is a get inside the value, and nothing else is there |
| `Paths.DotSetAbove` | parson.c:1492-1521 | after a successful dotted set, nothing but an object or nothing was on the way, and each is the old object, or an empty one, with the rest of the path set |
| `Paths.DotRemoveAbove` | parson.c:1587-1603 | after a successful dotted remove, every object on the way is still there and has lost nothing but the rest of the path |
| `Paths.DotRemoveLeaf` | parson.c:1587-1603 | the object that held the leaf has one member fewer: that name is gone and every other child is as before |
| `Equality.JsonValueEquals` | parson.c:1672-1731 | the loops compute the recursive comparison |
| `Equality.EqualsIsMeaning` | parson.c:1672-1731 | two values with distinct names are equal exactly when their meanings, objects as maps, are the same |
| `Equality.EqualsIsEquivalence` | parson.c:1672-1731 | reflexive, symmetric and transitive |
| `Equality.EqualsIgnoresOrder` | parson.c:1672-1731 | objects whose members are permutations of each other are equal |
| `Equality.SameNames` | parson.c:1705-1714 | with distinct names and equal counts, inclusion of the names one way is inclusion both ways |
| `DeepCopy.Node.AddItem` | parson.c:389-400 | appends a child or refuses it, keeping the nodes of the tree accounted for |
| `DeepCopy.Node.AddMember` | parson.c:301-322 | adds a named child or refuses it, keeping the nodes of the tree accounted for |
| `DeepCopy.Copy` | parson.c:1142-1212 | always succeeds; the copy consists of fresh nodes only and holds the source's content |
| `DeepCopy.CopyArray` | parson.c:1150-1168 | the same for an array, item by item |
| `DeepCopy.CopyObject` | parson.c:1169-1188 | the same for an object, looking values up by name |
| `DeepCopy.CopyEqualsSource` | parson.c:1142-1212 | the copy has the same members and items in the same order, up to the size of blocks |
| `DeepCopy.CopyIsEqual` | parson.c:1142-1212 | json_value_equals holds between a copy and its source |
| `DeepCopy.CopyThenChange` | parson.c:1142-1212 | changing any node of the source leaves the copy |
| `DeepCopy.ChangeOne` | parson.c:1142-1212 | of two values without a common node, changing one leaves the other |
| `DeepCopy.ItemFits` | parson.c:1160 | no add of an array copy is refused |
| `DeepCopy.MemberFits` | parson.c:1182 | no add of an object copy is refused |
| `Resp.MakeCmd.ToBytes` | redisclient.h:266-280 | the loop writes the array of bulk strings of all arguments |
| `Resp.MakeCmd.Append` | redisclient.h:236-240 | one more argument at the end |
| `Resp.MakeCmd.AppendAll` | redisclient.h:249-253 | the arguments of a vector at the end |
| `Framing.CommandRead` | redisclient.h:266-280 | an encoded command is decoded into its arguments, whatever bytes they hold and whatever follows |
| `Framing.CommandsRead` | redisclient.h:2380-2393 | any concatenation of encoded commands is decoded into the argument lists in order |
| `Framing.DecodeInPieces` | redisclient.h:2380-2393 | cutting the stream anywhere and decoding the left-over bytes with what arrives next gives the same commands |
| `Framing.MultiStable` | redisclient.h:2380-2393 | a reply once complete is decoded the same when more bytes arrive |
| `Framing.BulkRead` | redisclient.h:2354-2378 | a bulk string is decoded to its bytes, consuming exactly its own text |
| `Framing.ReplyRead` | redisclient.h:2568-2597 | every well-formed reply is decoded to the client's view of it, consuming exactly its bytes |
| `Resp.ToInt32Wraps` | redisclient.h:2581-2583 | the stored number is the one 32-bit number that differs from the one received by a multiple of 2^32 |
| `Framing.IntArrives` | redisclient.h:2426-2441 | an integer reply of 32 bits is returned as it was sent |
| `Framing.RequestText` | redisclient.h:266-280 | the request for one key, byte for byte |
| `Framing.StatusText` | redisclient.h:2574-2576 | of a status line, what is behind the plus |
| `Framing.ErrorText` | redisclient.h:2577-2579 | of an error line, what is behind the minus, the code and a blank |
| `Framing.NilText` | redisclient.h:2358-2359 | a nil gives the text that stands for a missing value |
| `Framing.NegativeCounts` | redisclient.h:2354-2393 | a negative count is an exception for a list, and a length below -1 for a string |
| `Resp.LexIntExactly` | redisclient.h:2351 | an integer is digits with a sign in front of them or without, and nothing else |
| `Resp.TrimEndExactly` | redisclient.h:2655 | of a line all trailing carriage returns and line feeds are cut off, and nothing else |
| `Framing.ShortErrorThrows` | redisclient.h:2577-2579 | an error line throws exactly when it has fewer than four bytes behind the minus |
| `Wire.Socket.Take` | anet.c:182-193 | one system call: -1 for a signal or an error, 0 at the end of the stream, else between one byte and what was asked for, in order; a peek leaves the stream |
| `Wire.Socket.Recv` | redisclient.h:381-397 | retries after signals; then bytes of the stream in order, or an exception exactly for a closed connection or an error |
| `Wire.Socket.ReadLine` | redisclient.h:2606-2656 | for every schedule the trimmed line up to the first line feed, with exactly that line consumed, or an exception if there is none |
| `Wire.Socket.ReadN` | redisclient.h:2525-2544 | exactly the next n bytes, or an exception if there are fewer |
| `Wire.Socket.RecvNumber` | redisclient.h:2335-2352 | for every schedule the number the pure decoder gives |
| `Wire.Socket.RecvStatus` | redisclient.h:2304-2327 | for every schedule the status text the pure decoder gives |
| `Wire.Socket.RecvBulk` | redisclient.h:2354-2378 | for every schedule the bulk string the pure decoder gives, the missing value for a nil |
| `Wire.Socket.RecvBulks` | redisclient.h:2389-2390 | for every schedule the list the pure decoder gives |
| `Wire.Socket.RecvMulti` | redisclient.h:2380-2393 | for every schedule the array the pure decoder gives, an exception for a nil |
| `Wire.Socket.RecvSet` | redisclient.h:2395-2406 | for every schedule the set and count the pure decoder gives; a count below -1 reads nothing |
| `Wire.NegativeSetCount` | redisclient.h:2395-2406 | a count of -1 is an exception, a smaller one is returned as it is |
| `Wire.Socket.NextReplyType` | redisclient.h:2546-2566 | the kind by the first byte, without consuming it |
| `Wire.Socket.RecvGenericReply` | redisclient.h:2568-2597 | for every schedule the value the pure decoder gives, consuming exactly that reply's bytes |
| `Wire.DecodeReply` | redisclient.h:2568-2597 | whatever is returned is what the stream decodes to in one piece; without an error of the connection, it always is |
| `Wire.Socket.AnetRead` | anet.c:182-193 | -1 exactly when the last call met a signal or an error; otherwise the next bytes up to the count, fewer only at the end of the stream |
| `Wire.Outlet.AnetWrite` | anet.c:197-208 | the bytes delivered and the result for every sequence of partial, empty and failing writes |
| `Wire.ProgressDelivers` | anet.c:197-208 | under positive writes of any size the whole buffer is delivered |
| `Wire.FullCount` | anet.c:197-208 | the full count is returned exactly when everything was delivered |
| `Wire.LosesSilently` | redisclient.h:2294-2302 | a send returns normally without having delivered its message exactly when a write of nothing comes before a failing one and before the end of the message |
| `Wire.FailsExactly` | anet.c:197-208 | -1 is returned exactly if a failing write comes before a write of nothing and before the end |
| `Wire.Transfer` | anet.c:197-208 | commands written through partial writes and received in pieces of any size come out as they went in |
| `Server.FeedInPieces` | redisclient.h:2294-2302 | in how many pieces a message arrives makes no difference to the server |
| `Server.FeedBatch` | redisclient.h:748-769 | a batch leaves on an idle connection the replies, in order, and nothing else |
| `Server.NextReply` | redisclient.h:764-768 | the first reply read is the answer to the first command, and leaves the replies to the others |
| `Server.RunConcat` | redisclient.h:748-769 | a server answers commands as it answers any first part of them and then the rest |
| `Batches.Config.Route` | redisclient.h:2449-2456 | every key goes to one of the open sockets, whatever the hasher |
| `Batches.RouteByHasher` | redisclient.h:2449-2456 | a lone connection serves every key; of several, with different sockets, exactly the one the hasher names |
| `Batches.SequentialOne` | redisclient.h:741-746 | one command changes only the server of its key and gives its reply |
| `Batches.SequentialConcat` | redisclient.h:748-769 | one-at-a-time execution of a batch is that of any first part and then of the rest |
| `Batches.GroupedNext` | redisclient.h:752-756 | adding a command to the text of its socket keeps every socket's text the encoding of its share in order |
| `Batches.OutstandingNext` | redisclient.h:764-768 | after reading one reply where the next command went, every connection holds the replies to its share of the remaining commands |
| `Batches.FeedTransaction` | redisclient.h:771-803 | a transaction is answered by OK, QUEUED or a refusal for each command, an array header, and the replies of the accepted commands run one after another |
| `Batches.QueueUp` | redisclient.h:791-796 | between MULTI and EXEC every command is queued and answered by QUEUED, or refused |
| `Batches.QueuedIsAccepted` | redisclient.h:791-796 | all answers are QUEUED exactly when the server accepts every command, and then EXEC runs them all |
| `Batches.StatusOnly` | redisclient.h:2304-2327 | only a status reply is taken as a status; an error reply raises an exception |
| `Cluster.Client.Send` | redisclient.h:2294-2302 | under any positive partial writes the server gets the whole message; an unknown socket is an exception and nothing changes |
| `Cluster.Client.ExecOne` | redisclient.h:741-746 | the answer of the key's server, and nothing left unread |
| `Cluster.Client.Group` | redisclient.h:750-756 | the loop builds each socket's share |
| `Cluster.Client.SendAll` | redisclient.h:758-762 | in any order of the sockets, each connection ends up with the replies to its share |
| `Cluster.Client.Collect` | redisclient.h:764-768 | reading in the order of the commands gives each its own reply and empties every connection |
| `Cluster.Client.Exec` | redisclient.h:748-769 | for any spread of keys, exec gives command i the reply it would have had if the commands were sent one at a time, leaves the stores the same, and leaves no unread byte on any socket |
| `Cluster.Client.TransactionSocket` | redisclient.h:773-785 | the common socket and the whole transaction text; none exactly when two commands go to different servers |
| `Cluster.Client.PassPreamble` | redisclient.h:790-798 | succeeds exactly if every command was answered by QUEUED, and then consumes exactly the answers in front of the replies |
| `Cluster.Client.ExecTransaction` | redisclient.h:771-804 | for commands of one server that all are accepted, the replies and stores of running them in order, with nothing unread; an exception if one is refused, and an exception before anything is sent if there is none or they go to different servers |
| `Sharding.IndexCovered` | redisclient.h:811-820 | a position is in the index list of its key's server and of no other |
| `Sharding.IndicesIncrease` | redisclient.h:811-820 | no position is listed twice |
| `Sharding.IndexAt` | redisclient.h:811-820 | the j-th index of a server is the position of its j-th key |
| `Sharding.KeyAt` | redisclient.h:811-820 | a key is asked of a server exactly when it lives there |
| `Sharding.MgetAfterMset` | redisclient.h:639-837 | what mget reads after mset is the last value given for the key, or what was there before |
| `Sharding.PairsLand` | redisclient.h:643-654 | storing a server's share of the pairs gives each of its keys what storing all of them would |
| `Sharding.AfterSetsRepresents` | redisclient.h:639-665 | sharded or not, setting the pairs in order gives the same store |
| `Sharding.SetsByServer` | redisclient.h:1465-1500 | every key names a set exactly when every server finds only sets in its share |
| `Sharding.IntersectionAt` | redisclient.h:1465-1500 | one server's answer is what the sets on it have in common |
| `Sharding.UnionAt` | redisclient.h:1531-1560 | one server's answer is what is in any of the sets on it |
| `Sharding.IntOnly` | redisclient.h:2426-2441 | only an integer reply is taken as an integer |
| `Cluster.Client.GroupPositions` | redisclient.h:811-820 | the loop builds each server's keys and their positions |
| `Cluster.Scatter` | redisclient.h:834-835 | the values of one server land at the positions of its keys and nowhere else |
| `Cluster.Client.Mget` | redisclient.h:806-837 | position i gets what its own server holds for key i, duplicates and missing values included, and nothing is left unread |
| `Cluster.Client.GroupPairs` | redisclient.h:643-654 | the loop builds each server's share of the pairs |
| `Cluster.Client.Mset` | redisclient.h:639-665 | the servers together hold what a single store holds after setting the pairs one by one in order, and nothing is left unread |
| `Cluster.Client.GroupExpiring` | redisclient.h:680-700 | each server's pairs, its EXPIRE commands and their number |
| `Cluster.Client.Msetex` | redisclient.h:676-715 | whatever servers answer to EXPIRE, returns normally exactly if every answer is the integer 1, and then nothing is left unread |
| `Sharding.ShareAt` | redisclient.h:680-700 | for each key of a server, in order: its value stands behind it in the MSET, and its EXPIRE names it and the seconds |
| `Sharding.MsetexDecodes` | redisclient.h:702-707 | what a server decodes from its text is MSET with its pairs and then, for each of its keys in order, EXPIRE, the key and the printed seconds |
| `Cluster.Client.RecvOnes` | redisclient.h:711-712 | succeeds exactly if every reply is the integer 1 |
| `Cluster.Client.GetSocket` | redisclient.h:2458-2477 | the common socket of the keys, or -1 exactly when they differ |
| `Cluster.Client.GroupKeys` | redisclient.h:1467-1471 | the loop builds each server's keys |
| `Cluster.Client.Sinter` | redisclient.h:1465-1500 | an exception exactly if a key holds something other than a set; otherwise, for a non-empty key list, exactly the members of all named sets, wherever they live, and their number; an empty list leaves the set |
| `Cluster.Client.CollectIntersection` | redisclient.h:1482-1497 | returns exactly if every server found sets, with what the sets have in common and nothing unread |
| `Cluster.Client.Sunion` | redisclient.h:1531-1560 | an exception exactly if a key holds something other than a set; otherwise adds exactly the members of any named set, wherever they live; from an empty set, returns their number |
| `Cluster.Client.UnionOn` | redisclient.h:1558-1559 | the same for keys of one server, with the count of the reply |
| `Cluster.Client.CollectUnion` | redisclient.h:1551-1555 | returns exactly if every server found sets, with the members of any of them and nothing unread |
| `Queue.InitInv` | files.cpp:17-19 | the initialised queue satisfies the invariant |
| `Queue.StepConserves` | files.cpp:241-248 | every step keeps both semaphores plus operations in flight at 1280, and the list equal to the full count plus pushes and pops in flight |
| `Queue.StepExcludes` | files.cpp:354-359 | every step keeps the critical section with the holder of the mutex |
| `Queue.StepOrders` | files.cpp:345-364 | every step keeps what was taken plus the list equal to what was stored, in order |
| `Queue.StepChecks` | event_drive.cpp:356-367 | every step keeps stored and held commands acceptable to is_data_ok |
| `Queue.RunInv` | event_drive.cpp:587-616 | the invariant holds in every reachable state |
| `Queue.Safety` | files.cpp:241-248 | in every reachable state, for any number of threads: conservation at 1280, at most 1280 items, one thread in the critical section, no take from an empty list, first in first out, and the consumer's own check never refuses |
| `Queue.NoDeadlock` | event_drive.cpp:587-616 | with a producer and a consumer, some thread can step in every state that satisfies the invariant |
| `Queue.RunProgresses` | event_drive.cpp:587-616 | with a producer and a consumer looping forever, no reachable state has every thread blocked |
| `Queue.OffersAreStored` | event_drive.cpp:356-362 | in every reachable state the offers that is_data_ok let through are, each exactly once, the commands stored and those a producer still holds |
| `Queue.TakenAreWorked` | event_drive.cpp:592-598 | in every reachable state the commands taken are, each exactly once, those worked on and those a consumer still holds |
| `Queue.OfferIsStored` | files.cpp:241-248 | with the mutex free and room left, an accepted offer has a continuation in which its thread stores it last in the list and is back where it was |
| `Queue.FirstIsTaken` | files.cpp:345-358 | with the mutex free and a command in the list, a waiting consumer has a continuation in which it takes the first one |
| `Queue.TakenIsWorked` | event_drive.cpp:592-598 | an acceptable command that was taken is worked on next |
| `Queue.DataOkExactly` | files.cpp:379-399 | a command is let through exactly if it has a positive number, a key, a receiver type from 2 to 5, a message type of 1 or 2, and names one of the three platforms |
| `Queue.HolderSteps` | files.cpp:243-247 | the holder of the mutex can always step |
| `Queue.RolesLast` | event_drive.cpp:587-616 | a producer stays a producer and a consumer a consumer |

## Left out

- Parser.Cursor.Number: reads a sign and decimal or hexadecimal digits where `strtod` also reads fractions, exponents and `inf`, because numbers are integers here.
- Parser.JsonParseString: refuses texts whose numbers have a fraction or an exponent, for the same reason.
- Serializer.Output.Value: has no `%f` branch, for the same reason.
- Floating point: numbers are integers printed by the `%d` branch; `strtod` reads a sign and digits, decimal or hexadecimal, so `%f` output, fractions, exponents, `-inf` and the cast of a double to an int are not modelled. The epsilon of equality is compared on integers.
- The `int` totals of the serialiser are unbounded integers; an output of 2^31 bytes or more is not modelled.
- Allocation failure, `free`, leaks, custom allocators, NULL arguments to the library's functions, and reading and writing of files.
- Bit masks and shifts in the UTF-8 and UTF-16 code are written as division and remainder.
- `json_array_remove`, which lowers the count before it fetches the last item (`parson.c:1337-1339`), so that removing any other item stores NULL; and `json_validate`, whose array branch takes success for failure (`parson.c:1642`).
- The typed getters, setters and appenders, which only wrap the modelled ones.
- Paths work on values: a write through the pointer to a nested object is the exchange of that member in the enclosing object, so sharing of nested objects is not modelled there; `DeepCopy` has the nodes in memory.
- DeepCopy.Copy: requires that sizes are within the caps and names are distinct, as every object or array built by the library has them.
- `lexical_cast` beyond the range of `long`: the model's integers are unbounded until a reply is stored as an `int`.
- Cluster.Client.Exec: requires that no command is EXEC, whose nested reply inside a transaction the client cannot read; after an exception the state of the connections is not described.
- Cluster.Client.ExecTransaction: after an exception the state of the connections is not described, as for exec.
- Cluster.Client.Sunion: what has already been added to the set when an exception is raised is not described.
- Cluster.Client.Msetex: expiry times themselves are not part of the store; the answers to EXPIRE are arbitrary.
- The key-vector forms of `mset` and `msetnx`, which route by the whole key list, the remaining one-command wrappers, the `distributed_*` classes, and everything under `#if 0`.
- Cluster.Client.Send: errors of a connection are modelled in `Wire`; the client's operations assume connections that stay up.
- A server that blocks because its send buffer is full, replies that never come, and reconnecting.
- Queue: the model starts from initialised semaphores; the copy of the queue object by value in `gain_config_value`, fairness, and the work of `data_push` and `store_data_msql` are not modelled. `get_data_redis` up to its check is one step that offers an arbitrary command.
- The libcurl push, MySQL, MD5, iconv, logging, daemonising, configuration files, `string_filter`, and the set-up of sockets in `anet.c`.
