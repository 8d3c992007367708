# hpav_test: a Dafny model of its JSON engine, MD5, message reassembly and file transfer

hpav_test drives HomePlug AV stations over raw Ethernet. Its configuration files are JSON, read,
merged and written by a fork of parson (`hpav_test/libjson/parson.c`). Keys are derived with a
streaming MD5. Replies arrive as management message entries (MMEs) that are captured, grouped,
defragmented and sometimes decrypted. Files move to and from a station by a stop-and-wait protocol,
and tone maps come run-length encoded. This project models these parts and proves what they are for.

`dafny verify dfyconfig.toml` checks everything.

## What is modelled, and how

**JSON texts.** `JsonGrammar` is the parser as functions over a text and a position; `JsonParser` is the
parser itself, a cursor moved by methods, and each method is proved equal to its function.
`JsonText` says which text a value has in either layout; `JsonSerializer` writes it into a byte array
(or only measures it, when there is no buffer), at any place in memory. `Doubles` is the rounding of IEEE
754 binary64, subnormal numbers and overflow included; the parser's numbers are such doubles.
`JsonRounding` says which value a text stands for, since numbers are printed with six decimals;
`JsonRoundTrip` and `JsonDocument` connect the two ends. `JsonStrings` gives string literals and UTF-8 their
meaning (RFC 8259 section 7, RFC 3629 section 3). `JsonSyntax` has the texts the library reads, as trees: any
white space, any spelling of numbers and strings, and the value each tree spells; the texts of RFC 8259 are the
strict ones among them. `JsonNumerals`, `JsonPieces` and `JsonSpelling` prove that the parser reads that value,
`JsonFinding` and `JsonLanguage` that it reads nothing else. `JsonLayout` describes the pretty text by a
reformatter of the compact one.

**JSON in memory.** `JsonTable` is the growable table behind an object, as a value and as a finite map.
`JsonNodes` are objects and arrays: classes whose contents are changed in place, with other nodes inside
them; a node has a form (its contents with the capacities they are held in) and denotes a map or a
sequence. `JsonNumbers` is the equality of doubles, with its tolerance; `JsonDenotation` says what a value
denotes when member order does not matter, and when two such values are the same; `JsonAlgebra` has merge
and diff on them twice, exact and with the tolerance. `JsonEquals`, `JsonCopy`, `JsonMerge` and `JsonDiff`
run equality, deep copy, merge and diff on nodes and prove them against that; `JsonReading` holds their
lemmas about nodes. `JsonBuild` makes the nodes of a parsed value, `ConfFile` merges two configuration
files from their texts on, and `ConfFailures` has texts on which that goes wrong.

**MD5.** `Md5Words` compares operations on 64-bit registers that are never masked with the 32-bit
words of RFC 1321. `Md5Block` is the unrolled compression loop against the formulas of section 3.4.
`Md5Stream` is the context with its buffer and two-word bit counter. `Md5Vectors` derives two digests of
RFC 1321 appendix A.5 from them, so that the 64 constants, the initial words and the byte order are the standard's.

**Messages.** `Reassembly` groups frames by key and joins fragments. `MmeReceive` is the capture
callback and the theorem about interleaved messages. `EncryptedPayload` frames, encrypts, sends,
receives and decrypts an Ethernet frame.

**Files.** `FileWrite` is a state machine of client, device and network, in which every message ever
sent may arrive at any later time, any number of times, or never. `FileSave` is the transfer loop for
reading a file, on any outcomes of its requests.

**Tone maps.** `Tonemap` is the nibble decoder with its list, and an encoding of runs.

`Bytes`, `Octets` and `Sequences` hold what several modules share.

## Where the code differs from what one would expect

- A string with a raw control character is written as it is and rejected when read back, so is plus infinity
  (which the text `1e999` gives), and a number is printed with six decimals at most. `RoundTrip` gives the
  exact condition for a value to come back: among others, every number is the double nearest to a decimal one
  of six places. What comes back without that is `Printed` (`ReadBack`), which the library's own equality does
  not tell from the value when there is no infinity and no NaN in it (`PrintedSame`).
- A zero before an exponent, as in `0e5` or `-0E1`, is legal in RFC 8259 and rejected here, because the test for
  leading zeros only makes an exception for a point (`hpav_test/libjson/parson.c:217-226`).
- Beyond RFC 8259 the parser reads vertical tabs and form feeds as white space, numbers like `1.` and `-.5`, the
  words `-inf`, `-infinity` and `-nan` in either case, strings that are not UTF-8, a name that opens with any
  character in place of its quote (`{xk":1}`), and anything at all after the value. A bare minus is read as a
  zero (`OddRead`), and a literal cut off at the end of the text loses its last character (`CutOff`).
  `ReadExactly` says that this is all: both ways, which texts are read, and as what.
- A quote with nothing after it makes the length of the literal wrap: nothing is allocated, and the
  terminator is written there. `OutputFits` says that this is the one such literal.
- The size of a compact text leaves no byte for its terminator, so `json_serialize_to_string` always writes
  one byte past its block (`SerializeToString`); the pretty size does leave one.
- Number equality has a tolerance of 0.000001 and compares a rounded difference of doubles. It is no
  equivalence: not reflexive on infinities and NaNs, and not transitive even on numbers of six decimals
  (`ToleranceIsNotTransitive`); 1 and 1.000001 are taken for equal (`OneIsNearNext`). For the doubles nearest
  to multiples of 1/n, up to any bound from 2 to 4000, it is equality, and transitive, exactly for n below a
  million (`EqualOnGrid`, `TransitiveOnGrid`); up to 2^32 it is equality for n up to half a million, five
  decimals for instance (`CoarseGrid`); and it is on all integers (`WholeSeparates`).
- Merge leaves members alone that are equal in that sense, so it is not always the recursive merge of both:
  `LosesNumber` shows it on two texts. `NearMergeIsMerge` gives the exact condition for two values. For all
  values with numbers from a set, the code's merge is the recursive one, and associative, exactly when equality
  tells the numbers of the set apart (`MergesWhereSeparate`, `AssociatesWhereSeparate`, `MergeOnGrid`).
- Merge does not report a nested merge that failed, so success does not mean that all was merged:
  `DropsMember` shows it on two texts. A merge fails exactly when its first object cannot hold the names of
  both, and leaves the code's merge exactly when there is room at every level, which the capacities before
  the call decide (`MergeNodes`, `Fits`), and for parsed values the counts (`MergeFiles`). At most 480
  members in every object of the result are always room enough (`SmallFits`).
- A group of fragments that fails in the middle of the chain, after a good one, makes the next packet
  be written through a null pointer, and a fragment shorter than the header is copied with a negative size
  (`DefragFrames` says when; `MissingBetween` and `ShortFragment` show it on inputs).
- A file of more than 65535 fragments of 1024 bytes is cut to 16 bits of fragment count and the transfer
  still ends in success (`TooLarge`); `SuccessIsFaithful` gives the exact limit.
- Three requests for a fragment that stay without answer end a transfer; a loss before them does not
  (`SurvivesLosses`).
- A fragment that arrives twice during a read is appended twice: `RepeatedAnswer` shows it on one, and
  `TwoAtOnce` on two that arrive together, of which only the first is taken note of.
  `FileIsSource` says which answers give the file.
- The tone map decoder drops a pending run at the end, or a pending run before a final half byte;
  `DecodesExactly` says for which runs nothing is lost. Its list has 4097 places, and a longer tone map is
  written past its end (`WritesPast`).

## Model

| member | source | states |
|---|---|---|
| JsonDocument.WriteAndRead | hpav_test/libjson/parson.c:905-909 | A value measured, written and parsed comes back as it was printed, exactly when its nesting is within the limit, its strings are printable and it holds no plus infinity; it comes back the same exactly when, moreover, every number is the double nearest to a decimal one of six places; and `json_value_equals` takes what comes back for the value whenever there is no infinity and no NaN in it. |
| JsonRoundTrip.RoundTrip | hpav_test/libjson/parson.c:556-578 | Parsing a value's text in either layout with any suffix after it gives the value, stopping at the end of its text, if and only if nesting is within the limit, strings are printable, no number is plus infinity, and every number is the double nearest to a decimal one of six places. |
| JsonRoundTrip.ReadBack | hpav_test/libjson/parson.c:556-578 | What the parse gives for every value: the value with its numbers as printed, or failure on a string that is not printable, on plus infinity or on nesting. |
| JsonRoundTrip.ParseText | hpav_test/libjson/parson.c:556-578 | The same at any position of any text, any indentation level and any depth. |
| JsonRoundTrip.ParseMembersText | hpav_test/libjson/parson.c:580-627 | The member loop, entered after k members, collects the rest in order, or fails on a name, a string or depth. |
| JsonRoundTrip.ParseItemsText | hpav_test/libjson/parson.c:629-665 | The item loop, entered after k items, collects the rest in order, or fails on a string or depth. |
| JsonRoundTrip.UnescapeEscaped | hpav_test/libjson/parson.c:498-546 | Unescaping what the serializer wrote for a string gives the string if it has no raw control characters and fails otherwise. |
| JsonRoundTrip.LiteralEndEscaped | hpav_test/libjson/parson.c:441-454 | The scan for the closing quote runs over an escaped string to its end, past every escaped quote. |
| JsonRoundTrip.NumberRead | hpav_test/libjson/parson.c:693-704 | What is printed for a double, with or without decimals, is read back as the double nearest to what is printed, and the read stops at its end. |
| JsonRoundTrip.WordRead | hpav_test/libjson/parson.c:693-704 | `-inf` and `-nan`, which printf writes, are read back. |
| JsonRounding.RoundedIs | hpav_test/libjson/parson.c:816-819 | Printing and reading loses nothing of a double exactly when it is the double nearest to some decimal number of six places. |
| JsonRounding.PrintedIs | hpav_test/libjson/parson.c:812-825 | Nothing of a value is lost exactly when that holds of all its numbers. |
| JsonRounding.RoundedNear | hpav_test/libjson/parson.c:1729-1731 | A double and what is read back for it are never told apart, although both printing and reading round. |
| JsonRounding.PrintedSame | hpav_test/libjson/parson.c:1729-1731 | A value without infinities and NaNs and what its text stands for are never told apart by the library's equality. |
| JsonParser.ParseDocument | hpav_test/libjson/parson.c:905-909 | The parser ends on every text; what it returns has distinct names, counts within the caps, numbers that are doubles, and at most 19 containers around any value, so 20 one in another. |
| JsonLanguage.ReadExactly | hpav_test/libjson/parson.c:556-704 | At any place of any text and at any depth, but for a bare minus and an unclosed literal: the parser returns a value and a position if and only if white space and a spelling of that value stand there, end at that position, and are within the limits (at most 20 containers one in another, 960 members an object, 122880 items an array, distinct names, no leading zeros, no x behind a NaN). |
| JsonLanguage.ParseExactly | hpav_test/libjson/parson.c:905-909 | The parser run on any such text: its result is some value exactly when the text begins with a spelling of it. |
| JsonLanguage.OddRead | hpav_test/libjson/parson.c:693-704 | A bare minus is read as a zero that is not passed over; an unclosed literal, if it is read, is a string and takes the rest of the text. |
| JsonLanguage.CutOff | hpav_test/libjson/parson.c:548-554 | A literal without escapes that ends with the text instead of a quote is read without its last character. |
| JsonLanguage.FindsNode | hpav_test/libjson/parson.c:556-578 | Whatever the parser accepts, a tree that spells it is found, and it ends where the parser stopped. |
| JsonLanguage.FindsEntries | hpav_test/libjson/parson.c:580-627 | The same for what the member loop accepts, entered after any members. |
| JsonLanguage.FindsItems | hpav_test/libjson/parson.c:629-665 | The same for what the item loop accepts, entered after any items. |
| JsonSpelling.ParseStrict | hpav_test/libjson/parson.c:905-909 | Every text of RFC 8259, with any of the four white-space characters in any gap, is parsed to the value it spells exactly when it is within the limits, and rejected otherwise. Characters of strings are Unicode scalar values other than NUL. |
| JsonSpelling.ParseSpelled | hpav_test/libjson/parson.c:905-909 | The same for every text the library reads, RFC 8259 or not, with anything behind it that does not continue the value. |
| JsonSpelling.ParseNode | hpav_test/libjson/parson.c:556-578 | The same for a value spelled anywhere in a text, at any depth, with the position where the parse stops. |
| JsonSpelling.ParseSpelledItems | hpav_test/libjson/parson.c:629-665 | The item loop, entered after k items, reads the rest with their gaps, or fails when an item or the count is past a limit. |
| JsonSpelling.ParseSpelledEntries | hpav_test/libjson/parson.c:580-627 | The member loop, entered after k members, reads the rest with their gaps, or fails on a repeated name, a value or the count. |
| JsonNumerals.NumeralRead | hpav_test/libjson/parson.c:693-704 | A number, with digits before a point or behind one, is read as the double nearest to what its digits mean in powers of ten, sign and exponent included, or as an infinity beyond the doubles; the read stops at its end. It fails exactly for a leading zero that is neither alone nor before a point. |
| JsonNumerals.InfinityRead | hpav_test/libjson/parson.c:693-704 | A minus and the word for infinity, short or long and in any mixture of cases, is read as minus infinity. |
| JsonNumerals.NanRead | hpav_test/libjson/parson.c:217-226 | A minus and `nan`, with or without characters in parentheses, is read as a NaN, unless one of these is an x. |
| JsonSyntax.StrictMeaning | hpav_test/libjson/parson.c:498-546 | A string of RFC 8259 means the UTF-8 of its code points. |
| JsonSyntax.StrictRefused | hpav_test/libjson/parson.c:217-226 | Of the numbers of RFC 8259 exactly those are refused that are a single zero, without fraction, before an exponent. |
| JsonParser.ParseValueAt | hpav_test/libjson/parson.c:556-578 | The cursor method returns what the grammar says and leaves the cursor there; it never moves back or past the terminator. |
| JsonParser.ParseObjectAt | hpav_test/libjson/parson.c:580-627 | The member loop on the cursor agrees with the grammar, duplicates, missing colons and full objects included. |
| JsonParser.ParseMemberAt | hpav_test/libjson/parson.c:591-617 | One round of it: fails, or adds one member and leaves the rest of the object to the grammar. |
| JsonParser.ParseArrayAt | hpav_test/libjson/parson.c:629-665 | The item loop on the cursor agrees with the grammar. |
| JsonParser.Cursor.SkipQuotes | hpav_test/libjson/parson.c:441-454 | The cursor stops after the closing quote, or at the end of the text. |
| JsonParser.Cursor.GetQuotedString | hpav_test/libjson/parson.c:548-554 | The literal at the cursor is read and the cursor is past it, also when the literal is not closed. |
| JsonParser.ProcessStringLoop | hpav_test/libjson/parson.c:498-546 | The loop over a literal, one unit at a time, gives the unescaped text up to its first NUL. |
| JsonGrammar.ParseValue | hpav_test/libjson/parson.c:556-578 | Every value returned has distinct names, fits the caps and the remaining depth, holds doubles, and ends inside the text. |
| JsonValue.FitsLevels | hpav_test/libjson/parson.c:556-559 | A value passes the depth test of the parser, at any depth, exactly when no value in it is inside more than 19 containers altogether. |
| JsonStrings.LiteralMeansItsCodePoints | hpav_test/libjson/parson.c:456-554 | Every literal RFC 8259 section 7 allows, short escapes and surrogate pairs included and NUL excluded, is read as the UTF-8 of its code points, which the validator accepts. |
| JsonPieces.QuotedRead | hpav_test/libjson/parson.c:548-554 | A closed literal of legal characters, stray bytes and `\u0000`, whatever it opens with, is read as their bytes up to the first NUL, and is passed over. |
| JsonFinding.FindsQuoted | hpav_test/libjson/parson.c:548-554 | A closed literal that is read is made of such pieces and nothing else. |
| JsonStrings.HexDigits | hpav_test/libjson/parson.c:144-147 | The sixteen hexadecimal digits, in either case, have the values 0 to 15, and no other byte is one. |
| JsonStrings.HexSpelled | hpav_test/libjson/parson.c:456-462 | Four of them are read as the number they write in base 16. |
| JsonStrings.OutputFits | hpav_test/libjson/parson.c:498-554 | For every literal, closed or not and legal or not, the bytes written and the terminator fit the allocated block, except exactly for a quote with nothing after it, whose length wraps and whose block is empty. |
| JsonStrings.IsValidUtf8 | hpav_test/libjson/parson.c:205-215 | The validator accepts a string exactly when it is the UTF-8 of some scalar values. |
| JsonStrings.DecodeEncode | hpav_test/libjson/parson.c:163-215 | The validator passes over the encoding of any scalar values and sees these code points. |
| JsonStrings.EncodeDecode | hpav_test/libjson/parson.c:163-215 | What the validator accepts is the encoding of the scalar values it saw: no overlong forms, no surrogates. |
| JsonSerializer.Serialize | hpav_test/libjson/parson.c:1212-1286 | The pass without a buffer and the pass with one give the length of the text; the second leaves exactly the text and its terminator and touches nothing else. |
| JsonSerializer.SerializeValue | hpav_test/libjson/parson.c:726-834 | Anywhere in a larger text and at any level, the characters of the value are the next ones written. |
| JsonSerializer.SerializeMember | hpav_test/libjson/parson.c:768-793 | One round of the member loop: margin, name, separator, the value found by that name, comma and line break. |
| JsonSerializer.AppendQuoted | hpav_test/libjson/parson.c:836-863 | A string is written quoted, with its escapes, whether or not there is a buffer. |
| JsonSerializer.SerializeToBuffer | hpav_test/libjson/parson.c:1218-1229 | At any place in memory and for any size: success exactly when the size is at least the one asked for; what is past the block changes exactly when a compact text fills it. |
| JsonSerializer.SerializeToString | hpav_test/libjson/parson.c:1253-1269 | In a block of exactly the size asked for, the pretty text and its terminator fit, and the compact text always puts its terminator one byte past the block. |
| JsonLayout.PrettyIsLaid | hpav_test/libjson/parson.c:726-834 | The pretty text of every value is what a reformatter that knows brackets, commas, colons and quotes makes of the compact text: a line and four spaces a level after each opening bracket and comma and before each closing bracket, a space after each colon, and nothing in literals or in empty brackets. |
| JsonLayout.CompactIsTidy | hpav_test/libjson/parson.c:836-863 | A compact text holds no raw backspace, tab, line feed, form feed or carriage return, and no solidus without a backslash before it. |
| JsonLayout.EscapedExactly | hpav_test/libjson/parson.c:841-861 | Exactly eight bytes are written with a backslash before a letter or themselves. |
| JsonTable.RunRefines | hpav_test/libjson/parson.c:303-369 | After any adds, sets, removes, clears and trims the parallel arrays stand for the map these operations build, and a lookup of the i-th name gives the i-th value. |
| JsonTable.AddMeaning | hpav_test/libjson/parson.c:303-325 | An add succeeds exactly for a new name with room or a capacity up to 480, and then extends the map. |
| JsonTable.SetMeaning | hpav_test/libjson/parson.c:1465-1482 | A set overwrites the map at a name, and fails only when an add would. |
| JsonTable.RemoveMeaning | hpav_test/libjson/parson.c:1575-1593 | A removal, which swaps the last member in, takes the name and nothing else out of the map. |
| JsonTable.AddReaches | hpav_test/libjson/parson.c:303-325 | How many members a table can ever hold depends on its capacity alone: adds of new names fail exactly at that count, which adds do not change. |
| JsonTable.AddFromDoubled | hpav_test/libjson/parson.c:303-325 | A table grown from empty fails only at 960 members. |
| JsonNodes.ObjectNode.Add | hpav_test/libjson/parson.c:303-325 | In place: the table grows as its specification says, the node denotes one field more, and the new value keeps its nodes. |
| JsonNodes.ObjectNode.SetValue | hpav_test/libjson/parson.c:1465-1482 | In place: the value under a name is overwritten or added. |
| JsonNodes.ObjectNode.Remove | hpav_test/libjson/parson.c:1575-1593 | In place: the node denotes the same without the name; fails exactly for an absent one. |
| JsonNodes.ObjectNode.Clear | hpav_test/libjson/parson.c:1613-1624 | In place: nothing is left, and the capacity stays. |
| JsonNodes.ObjectNode.Trim | hpav_test/libjson/parson.c:327-357 | Resizing to the count changes the capacity only, and fails on an empty object. |
| JsonNodes.ObjectNode.Find | hpav_test/libjson/parson.c:359-369 | The index of a name, or the count. |
| JsonNodes.ArrayNode.Add | hpav_test/libjson/parson.c:392-403 | In place: one item more at the end, the capacity doubled when it is used up; fails exactly when that passes 122880. |
| JsonNodes.ArrayNode.Trim | hpav_test/libjson/parson.c:405-422 | Resizing to the count changes the capacity only, and fails on an empty array. |
| JsonNodes.RoomFromDoubled | hpav_test/libjson/parson.c:392-403 | An array grown from empty fails only at 122880 items. |
| Doubles.FlClose | hpav_test/libjson/parson.c:1731-1731 | Rounding to a double moves a number by half a unit in the last place at most, or by half the least subnormal one. |
| Doubles.FlTwice | hpav_test/libjson/parson.c:695-695 | What is rounded to a double is a double. |
| JsonNumbers.EqualOnGrid | hpav_test/libjson/parson.c:1729-1731 | On the doubles nearest to multiples of 1/n, up to any bound from 2 to 4000, the equality of numbers is equality exactly for n below a million. |
| JsonNumbers.TransitiveOnGrid | hpav_test/libjson/parson.c:1729-1731 | It is transitive on them exactly then. |
| JsonNumbers.CoarseGrid | hpav_test/libjson/parson.c:1729-1731 | Up to 2^32, it is equality on the doubles nearest to multiples of 1/n for n up to half a million. |
| JsonNumbers.WholeSeparates | hpav_test/libjson/parson.c:1729-1731 | It is equality on all integers. |
| JsonNumbers.OneIsNearNext | hpav_test/libjson/parson.c:1729-1731 | 1 and the double nearest to 1.000001 are taken for equal. |
| JsonNumbers.ToleranceIsNotTransitive | hpav_test/libjson/parson.c:1729-1731 | The doubles nearest to 1.000002, 1.000003 and 1.000004, on which it is not transitive. |
| JsonDenotation.SameReflexive | hpav_test/libjson/parson.c:1680-1739 | A value equals itself exactly when there is no infinity and no NaN in it. |
| JsonDenotation.SameSymmetric | hpav_test/libjson/parson.c:1680-1739 | Equality is symmetric on all values, although only one side's names are looked up. |
| JsonDenotation.SameDecidesOn | hpav_test/libjson/parson.c:1680-1739 | On values with numbers from a set, equality decides whether two denote the same and are finite, exactly when it tells the numbers of the set apart. |
| JsonDenotation.SameTransitiveOn | hpav_test/libjson/parson.c:1680-1739 | It is transitive on them exactly when it is so on the numbers. |
| JsonDenotation.SameOnGrid | hpav_test/libjson/parson.c:1680-1739 | Both hold on the doubles nearest to multiples of 1/n, up to any bound from 2 to 4000, exactly for n below a million. |
| JsonEquals.EqualNodes | hpav_test/libjson/parson.c:1708-1723 | On nodes: true exactly when the denoted fields are the same, up to the tolerance. |
| JsonEquals.EqualLists | hpav_test/libjson/parson.c:1694-1707 | On arrays: as many items, and each the same. |
| JsonEquals.EqualValues | hpav_test/libjson/parson.c:1680-1739 | On any values: true exactly when they are the same up to the tolerance. |
| JsonCopy.DeepCopy | hpav_test/libjson/parson.c:1140-1210 | A copy denotes the same, is made of new nodes only, inside arrays too, keeps the order of names, and never meets a capacity limit. |
| JsonCopy.CopyNode | hpav_test/libjson/parson.c:1169-1190 | The same for one object: adding its members to an empty one always succeeds. |
| JsonCopy.CopyList | hpav_test/libjson/parson.c:1152-1168 | The same for one array, item by item through the array's add. |
| JsonCopy.CopyAndCompare | hpav_test/libjson/parson.c:1140-1210 | A copy compares equal exactly when the value is finite. |
| JsonAlgebra.MergeAssociative | hpav_test/libjson/parson.c:1741-1795 | The recursive merge of maps is associative. |
| JsonAlgebra.MergeTwice | hpav_test/libjson/parson.c:1741-1795 | Merging the same value again changes nothing. |
| JsonAlgebra.MergeEmpty | hpav_test/libjson/parson.c:1741-1795 | The empty object is neutral on both sides. |
| JsonAlgebra.MergeKinds | hpav_test/libjson/parson.c:1777-1791 | An object stays against any other kind, and anything else is replaced by the second value; two objects merge field by field, and a field that only one has stays. |
| JsonAlgebra.MergeSelf | hpav_test/libjson/parson.c:1741-1795 | Merging a value with itself changes nothing. |
| JsonAlgebra.MergeSame | hpav_test/libjson/parson.c:1777-1777 | Where equality holds with the tolerance, merging would take over the second value. |
| JsonAlgebra.NearMergeIsMerge | hpav_test/libjson/parson.c:1777-1777 | Skipping equal values, as the code does, leaves the recursive merge exactly when nothing compared is taken for equal without being so. |
| JsonAlgebra.ApartOn | hpav_test/libjson/parson.c:1777-1777 | So it does for any values with numbers that equality tells apart. |
| JsonAlgebra.NearIsNotMerge | hpav_test/libjson/parson.c:1777-1777 | Two objects, with 1 and 1.000001 under one name, for which it does not. |
| JsonAlgebra.MergesWhereSeparate | hpav_test/libjson/parson.c:1777-1777 | For all values with numbers from a set, the code's merge is the recursive one exactly when equality tells these numbers apart. |
| JsonAlgebra.AssociatesWhereSeparate | hpav_test/libjson/parson.c:1741-1795 | The code's merge is associative on such values exactly then. |
| JsonAlgebra.MergeOnGrid | hpav_test/libjson/parson.c:1741-1795 | Both hold on the doubles nearest to multiples of 1/n, up to any bound from 2 to 4000, exactly for n below a million. |
| JsonAlgebra.MergeOnCoarse | hpav_test/libjson/parson.c:1741-1795 | Both hold for n up to half a million up to 2^32, and on all integers. |
| JsonAlgebra.NearMergeTwice | hpav_test/libjson/parson.c:1741-1795 | Merging the same value again changes nothing in the code's merge either, whatever the numbers. |
| JsonAlgebra.NearMergeEmpty | hpav_test/libjson/parson.c:1741-1795 | The empty object is neutral in the code's merge. |
| JsonAlgebra.MergeDiff | hpav_test/libjson/parson.c:1797-1836 | Merging the recursive difference into the origin is merging the modified value into it. |
| JsonAlgebra.NearMergeDiff | hpav_test/libjson/parson.c:1797-1836 | The same for the difference and the merge as the code computes them, whatever the numbers. |
| JsonAlgebra.NearDiffIsDiff | hpav_test/libjson/parson.c:1826-1829 | The code's difference is the recursive one exactly when everything compared is taken for equal if and only if it is equal: nothing else is within the tolerance, and no infinity or NaN stands against itself. |
| JsonAlgebra.ToldIsApart | hpav_test/libjson/parson.c:1826-1829 | Where one side is finite, that is the condition of merging. |
| JsonAlgebra.DiffSharesNothing | hpav_test/libjson/parson.c:1821-1834 | No member left in a difference equals the origin's, at any level. |
| JsonAlgebra.DiffOfSame | hpav_test/libjson/parson.c:1826-1829 | Nothing is left of an object that equals the origin. |
| JsonMerge.MergeNodes | hpav_test/libjson/parson.c:1741-1795 | In place: fails exactly when a cannot hold the names of both; a denotes the code's merge exactly when there is room at every level, and the recursive merge exactly when, moreover, nothing compared is taken for equal without being so. |
| JsonMerge.MergeMember | hpav_test/libjson/parson.c:1764-1793 | One round of the loop: this name is merged as far as there is room, and no other changes. |
| JsonMerge.MergePresent | hpav_test/libjson/parson.c:1777-1791 | A name a has already: left alone, merged into or replaced, with the exact conditions for this name; an add after a removal never fails. |
| JsonMerge.MergeChild | hpav_test/libjson/parson.c:1780-1782 | Merging into a nested object changes this member and no other, whether or not the nested merge succeeds. |
| JsonMerge.SmallFits | hpav_test/libjson/parson.c:303-325 | A result with at most 480 members in every object always has room, whatever the capacities. |
| JsonMerge.MergeValues | hpav_test/libjson/parson.c:1741-1795 | The operation on values: fails without change when one is not an object; success and result as above; b is unchanged. |
| JsonDiff.DiffNodes | hpav_test/libjson/parson.c:1797-1836 | In place on a copy of the modified object: what is left denotes the code's difference. |
| JsonDiff.DiffShared | hpav_test/libjson/parson.c:1822-1833 | One round for a name both have: removed when equal, else diffed when both are objects, else kept. |
| JsonDiff.DiffValues | hpav_test/libjson/parson.c:1797-1836 | The operation on values: nothing changes when one is not an object. |
| JsonDiff.DifferenceOf | hpav_test/libjson/parson.c:1797-1836 | Deep copy and diff together: the difference shares nothing with the origin at any level. |
| JsonDiff.MergeDifference | hpav_test/libjson/parson.c:1741-1836 | Copy, diff and merge, one after the other: success exactly when origin can hold the names of both, and the origin becomes the merge with the modified object exactly when there is room for that at every level. |
| JsonBuild.Build | hpav_test/libjson/parson.c:580-665 | The nodes the parser makes of a value with distinct names and counts within the caps: no add fails, and every capacity is trimmed to the count. |
| ConfFile.MergeFiles | hpav_test/hpav_test/conf_file.c:132-141 | From two texts: parsed, built and merged. Whether success is reported, and whether the result is the recursive merge, as conditions on what the two texts denote alone. |
| ConfFile.MergeParsed | hpav_test/hpav_test/conf_file.c:132-141 | The same for two parsed values. |
| ConfFile.TrimmedFits | hpav_test/libjson/parson.c:619-624 | Without spare capacity, room at every level is a matter of counts. |
| ConfFailures.DropsMember | hpav_test/libjson/parson.c:1780-1782 | Two texts, with 481 members and one more below a name, on which success is reported and the one more is missing. |
| ConfFailures.LosesNumber | hpav_test/libjson/parson.c:1777-1777 | The texts `{"k":1}` and `{"k":1.000001}`, on which success is reported and the 1 stays. |
| Md5Words.LowStep | hpav_test/libhpav_mtk/openssl_md5.c:122-145 | One operation on 64-bit registers with the portable rotation agrees in its low 32 bits with RFC 1321 section 3.4. |
| Md5Words.LowRotate | hpav_test/libhpav_mtk/openssl_md32_common.h:193-193 | The portable rotation, upper half polluted, is a 32-bit rotation in its lower half. |
| Md5Words.LowMix | hpav_test/libhpav_mtk/openssl_md5.c:122-125 | The four rewritten auxiliary functions are the textbook ones in their lower half. |
| Md5Block.LineOf | hpav_test/libhpav_mtk/openssl_md5.c:169-236 | Each of the 64 lines names the word and the rotation that the formulas of the RFC give. |
| Md5Block.StepAgrees | hpav_test/libhpav_mtk/openssl_md5.c:127-145 | After every line the registers agree with the RFC's words. |
| Md5Block.Compress | hpav_test/libhpav_mtk/openssl_md5.c:147-243 | After all 64 lines, in place and in turn, they agree. |
| Md5Block.BlocksAppend | hpav_test/libhpav_mtk/openssl_md5.c:165-242 | Folding blocks one after the other is folding their concatenation. |
| Md5Stream.Context.BlockDataOrder | hpav_test/libhpav_mtk/openssl_md5.c:147-243 | For any number of blocks the context's words are the RFC's, although the registers are 64 bits wide. |
| Md5Stream.Context.constructor | hpav_test/libhpav_mtk/openssl_md5.c:69-77 | A new context stands for the empty message. |
| Md5Stream.Context.Update | hpav_test/libhpav_mtk/openssl_md32_common.h:282-338 | A context that stands for m stands for m and the input afterwards: words, buffer and bit counter. |
| Md5Stream.Context.Final | hpav_test/libhpav_mtk/openssl_md32_common.h:347-383 | The digest of the message padded as sections 3.1 to 3.3 of RFC 1321 say. |
| Md5Stream.Context.Pad | hpav_test/libhpav_mtk/openssl_md32_common.h:347-372 | One or two blocks, as the length fits or not, come to the same as appending the padding. |
| Md5Stream.CountMore | hpav_test/libhpav_mtk/openssl_md32_common.h:289-298 | Two words with a carry hold eight times the length modulo 2^64. |
| Md5Stream.Md5OfPieces | hpav_test/libhpav_mtk/openssl_md32_common.h:282-383 | However a message is cut into updates, the digest is that of the whole. |
| Md5Stream.Md5 | hpav_test/libhpav_mtk/openssl_md5.c:79-90 | One call gives that digest. |
| Md5Vectors.EmptyDigest | hpav_test/libhpav_mtk/openssl_md5.c:69-90 | The digest of the empty message is d41d8cd98f00b204e9800998ecf8427e, as in RFC 1321 A.5. |
| Md5Vectors.AbcDigest | hpav_test/libhpav_mtk/openssl_md5.c:69-90 | The digest of "abc" is 900150983cd24fb0d6963f7d28e17f72. |
| Md5Stream.PaddedIsShortest | hpav_test/libhpav_mtk/openssl_md32_common.h:352-361 | No smaller number of whole blocks has room for the message, a one bit and the length. |
| Md5Stream.PaddingIsInjective | hpav_test/libhpav_mtk/openssl_md32_common.h:347-372 | Messages of less than 2^61 bytes are told apart by their padded forms. |
| Md5Stream.DigestIsInjective | hpav_test/libhpav_mtk/openssl_md32_common.h:269-273 | A digest determines the four words it was made of. |
| Reassembly.AddToGroupList | hpav_test/libhpav/hpav_mme.c:150-219 | One frame more: every key has one group, holding its frames in order of arrival, in order of first arrival. |
| Reassembly.GroupFrames | hpav_test/libhpav/hpav_mme.c:357-361 | The same for all frames. |
| Reassembly.DefragGroup | hpav_test/libhpav/hpav_mme.c:222-332 | For frames of any length: a packet of the first frame and what the others carry exactly when the fragments are all there, in order, and none but the first is shorter than the header; a complete group with such a fragment copies a negative size. |
| Reassembly.Assemble | hpav_test/libhpav/hpav_mme.c:288-327 | The sizes added up are exactly what the copies fill, unless a copy has a negative size. |
| Reassembly.DefragFrames | hpav_test/libhpav/hpav_mme.c:334-388 | The packets of all complete groups in order, or a fault exactly when a failed group follows a good one and is not the last, or a complete group has a fragment too short. |
| Reassembly.MissingBetween | hpav_test/libhpav/hpav_mme.c:366-381 | Three frames of ordinary length on which the null packet is written through. |
| Reassembly.ShortFragment | hpav_test/libhpav/hpav_mme.c:314-321 | Two short frames on which a negative size is copied. |
| MmeReceive.Callback.RxCallback | hpav_test/libhpav/hpav_mme.h:176-227 | After any traffic the chain holds the wanted frames in order (the latest alone when sniffing), with the counts and the stop flag. |
| MmeReceive.FragmentsJoin | hpav_test/libhpav/hpav_mme.c:222-332 | The fragments of a message of 1 to 16 pieces join to the message, its header once. |
| MmeReceive.FragmentFields | hpav_test/libhpav/hpav_mme.c:829-841 | The header set up for a fragment is read back as its key, count and number. |
| MmeReceive.FirstArrivals | hpav_test/libhpav/hpav_mme.c:150-219 | Keys are listed in the order of their first frames. |
| MmeReceive.EveryMessage | hpav_test/libhpav/hpav_mme.c:334-388 | When the frames interleave the fragments of messages, every group gives back its message. |
| MmeReceive.Receive | hpav_test/libhpav/hpav_mme.c:150-388 | From any traffic that mixes the fragments of messages with distinct keys, each message's own in order, with frames of another destination or type, callback and defragmentation give each message once, in the order in which their first fragments arrive. |
| MmeReceive.ReceiveTaken | hpav_test/libhpav/hpav_mme.c:150-388 | The same from what the callback takes of the traffic. |
| MmeReceive.HeaderHolds | hpav_test/libhpav/hpav_mme.c:255-262 | The size taken for a header is five bytes and the three of the identifier, which are there exactly for types from 0xA000 to 0xBFFF. |
| EncryptedPayload.Exchange | hpav_test/libhpav/hpav_mme.c:500-685 | Encrypt, encode, build, defragment, decode and decrypt give back any frame, exactly when the message fits one payload. |
| EncryptedPayload.EncryptWithDak | hpav_test/libhpav/hpav_mme.c:549-631 | The message's fields and initialization vector, and all of the plain text that is sealed: filler, frame, checksum, protocol fields copied from bytes 28 to 31 of the frame, padding, and the filler's size. |
| EncryptedPayload.DecryptsBy | hpav_test/libhpav/hpav_mme.c:690-762 | For any plain text that holds a frame: sealed with the device's key (0) or the network's key (1), or not sealed (15), it gives the frame, whatever the other key; any other kind gives nothing. |
| EncryptedPayload.EncodedHeader | hpav_test/libhpav/hpav_mme.c:427-458 | An encoded message has version 1, type 0x6006, no fragments, and the size of its parts. |
| EncryptedPayload.EncodedFields | hpav_test/libhpav/hpav_mme.c:427-458 | The byte positions of key kind, network status, protocol fields, initialization vector, length and data, the low byte of two first. |
| EncryptedPayload.FrameIs | hpav_test/libhpav/hpav_mme.c:81-111 | A frame is built exactly for payloads of at most 1500 bytes: addresses, type 0x88E1, payload, and zeros up to the least size. |
| EncryptedPayload.FillBuffer | hpav_test/libhpav/hpav_mme.c:571-616 | The moving pointer fills the buffer exactly, to a multiple of 16 bytes. |
| EncryptedPayload.DecodeEncode | hpav_test/libhpav/hpav_mme.c:427-478 | Decoding an encoded message gives every field back. |
| EncryptedPayload.NotPadded | hpav_test/libhpav/hpav_mme.c:81-111 | A packet of the least size or more is framed without padding and read back as it was. |
| EncryptedPayload.ReceiveInd | hpav_test/libhpav/hpav_mme.c:334-388 | An unfragmented frame goes through defragmentation unchanged; a fragment alone gives nothing. |
| EncryptedPayload.ExtractHeld | hpav_test/libhpav/hpav_mme.c:669-681 | Of any text whose last byte is the size of what stands before a frame, the frame is extracted. |
| EncryptedPayload.ExtractOnly | hpav_test/libhpav/hpav_mme.c:669-681 | Whatever is extracted is a frame with exactly as much before it as the last byte says. |
| FileWrite.StepGood | hpav_test/hpav_test/test_mtk.c:2567-2651 | Every step of client, device and network keeps every fragment below the client's number stored. |
| FileWrite.StoredInEveryState | hpav_test/hpav_test/test_mtk.c:2567-2651 | In every reachable state that has not failed, each fragment below the client's number is on the device. |
| FileWrite.SuccessMeansWritten | hpav_test/hpav_test/test_mtk.c:2556-2559 | A transfer that ends well leaves the source on the device, byte for byte. |
| FileWrite.SuccessIsFaithful | hpav_test/hpav_test/test_mtk.c:2556-2651 | Success means a faithful copy exactly for files of at most 65535 fragments. |
| FileWrite.TooLarge | hpav_test/hpav_test/test_mtk.c:2556-2559 | Every larger file has a run that ends well without its end. |
| FileWrite.SuccessHappens | hpav_test/hpav_test/test_mtk.c:2567-2651 | Every file has a run that ends well. |
| FileWrite.SurvivesLosses | hpav_test/hpav_test/test_mtk.c:2618-2651 | For any file and any number of losses before each fragment, a run with these losses ends well if and only if no number is three or more. |
| FileWrite.RetryCanSucceed | hpav_test/hpav_test/test_mtk.c:2618-2651 | In every reachable state in which the client waits, a time-out makes it send the same fragment again exactly when it has lost fewer than two before, and a good end can still be reached from there; otherwise it has failed. |
| FileWrite.AfterLosses | hpav_test/hpav_test/test_mtk.c:2618-2651 | After n losses in a row the client is at the same fragment, ready to send for n below three and failed at three. |
| FileWrite.RefusalEnds | hpav_test/hpav_test/test_mtk.c:2612-2620 | In every reachable state in which the client waits, any request sent can be refused, and a refusal that arrives, alone or with other confirmations, ends the transfer in failure. |
| FileWrite.CallFailureEnds | hpav_test/hpav_test/test_mtk.c:2603-2610 | From every reachable state in which the client sends or waits, a failing call ends the transfer where it is. |
| FileWrite.OneSide | hpav_test/hpav_test/test_mtk.c:2567-2651 | A step changes the client or the device, never both; a client that is done stays as it is; and one about to send looks at no confirmation, but sends exactly the request of its fragment or fails. |
| FileWrite.Undisturbed | hpav_test/hpav_test/test_mtk.c:2567-2651 | Without disturbance n rounds bring the client to fragment n, and nothing further is stored. |
| FileSave.Save | hpav_test/hpav_test/test_mtk.c:2567-2651 | For any outcomes, with answers late, repeated, together with others or failing: the file is what the fragments up to any failure wrote, and the loop ends exactly on a failure, three unanswered requests in a row, or a batch that starts with the last fragment. |
| FileSave.Process | hpav_test/hpav_test/test_mtk.c:2301-2366 | All confirmations of a batch are written, up to the first failure. |
| FileSave.FileIsSource | hpav_test/hpav_test/test_mtk.c:2336-2346 | Whatever the pieces hold, the file is all of them in order if and only if the answers from the last fragment 0 on are 0, 1 and so on to the last, each once. |
| FileSave.SaveInTurn | hpav_test/hpav_test/test_mtk.c:2567-2651 | When answers come one at a time, none late or repeated: the file is fragments 0 to k, each once; success is the whole file; and at most three requests a fragment are made. |
| FileSave.RepeatedAnswer | hpav_test/hpav_test/test_mtk.c:2567-2651 | An answer that comes twice: the loop ends in success and the file has the fragment twice. |
| FileSave.TwoAtOnce | hpav_test/hpav_test/test_mtk.c:2301-2366 | Two answers at once: both are written, the second is asked for again, and the loop ends in success with the fragment twice. |
| FileSave.EachOnce | hpav_test/hpav_test/test_mtk.c:2336-2346 | Replies in order, each once, write the file. |
| FileSave.ReplyTwice | hpav_test/hpav_test/test_mtk.c:2336-2346 | For given pieces, the latest reply coming again spoils the file exactly when it is not the first and not empty. |
| Tonemap.DecodeTonemap | hpav_test/libhpav/hpav_utils.c:488-548 | The loops over bytes, nibbles and repetitions leave in memory, from the start of the list on, what the nibble machine outputs, and nothing after it changes. |
| Tonemap.DecodeRuns | hpav_test/libhpav/hpav_utils.c:488-548 | End to end: the list the decoder leaves for the packed nibbles of runs whose decoding fits it is their expansion exactly for the kept runs. |
| Tonemap.WritesPast | hpav_test/libhpav/hpav_utils.c:494-532 | 71 runs of 58 places, the last 21 of which are written past the end of the list. |
| Tonemap.DecodesExactly | hpav_test/libhpav/hpav_utils.c:488-548 | Decoding encoded runs gives their expansion exactly when nothing is pending at the end, nor before a final half byte that names a modulation. |
| Tonemap.AfterRuns | hpav_test/libhpav/hpav_utils.c:500-532 | What is pending after any runs, and that all before it is out. |
| Tonemap.FeedRun | hpav_test/libhpav/hpav_utils.c:503-531 | A run's nibbles take the machine from any state between runs to the state after the run. |

## Left out

- JsonRoundTrip.RoundTrip: finite numbers outside the range of a 64-bit integer, whose conversion in the code is undefined, and strings that hold a NUL; of an infinity or a NaN the conversion, undefined too, is taken to give another number.
- JsonLanguage.OddRead: of an unclosed literal with escapes in it, which string is read is not stated; `CutOff` does so without them, and `OutputFits` bounds what is written for any.
- EncryptedPayload.Exchange: the filler and padding bytes and the checksum are parameters, because they come from a random source and zlib; the code fixes the filler to five bytes; AES-CBC is any pair of functions of which one undoes the other.
- FileSave.Save: every confirmation is a failure or carries some fragment of the one file and announces its number of fragments.
- FileWrite.SuccessMeansWritten: the device is taken to confirm a fragment only after storing it and to echo the fragment count; its other behaviour is free.
- MmeReceive.Callback.RxCallback: a captured frame holds a header; of a shorter one the callback reads what lies behind it, which is unspecified.
- Doubles are the reals they stand for: negative zero is zero, and the sign and the payload of a NaN are not kept. `strtod` and `printf` are taken to round to nearest, ties to even.
- The contents of a node are sequences that the methods reassign; allocation, failing allocation and freeing are not modelled.
- The parser returns values; adding a member while parsing tests names and capacity as the table does, and `JsonBuild` makes the nodes afterwards.
- Sizes and lengths are unbounded integers, except the length of a literal and the counters of MD5 and of the transfer; a text beyond two gigabytes overflows the int that the serializer returns.
- Comments in JSON, dotted names, reading and writing of files, and `json_validate` are not part of this model.
- The capture loop, timeouts, printing, command parsing, the file checksum, and transfers to several stations.
