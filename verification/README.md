# Verification of the .TEN C library

This project models the parts of the library whose correctness is hard to see, and proves what they promise.

- **JSON** (`Json`, `JsonString`, `JsonParse`, `JsonGrammar`, `JsonMembers`, `JsonRoundTrip`, `JsonUnique`,
  `JsonStrict`, `JsonLiberties`, `JsonTokens`, `JsonPrinted`, `JsonObject`, `JsonMemory`, `JsonNode`, `JsonReader`,
  `JsonPrinter`, `JsonEngine`). The reader and the printer are given as functions on byte strings, and the grammar of
  sections 2 to 7 of RFC 8259, with the library's liberties, as syntax trees with a rendering and a meaning. The
  functions are proved against the grammar in both directions, and it is known of every tree what reading makes of its
  printed text; the grammar is unambiguous, and it is compared with the strict one. `JsonTokens` and `JsonPrinted` say
  what is read and printed byte by byte, without the names that reader and printer use for bytes. `JsonReader` and
  `JsonPrinter` are the code as it runs: a cursor, a string that is appended to, recursion and loops, with allocations
  that may fail, on trees as they are stored (`JsonNode`): growable lists, and objects that are a hash map with the
  list of its keys (`JsonObject`).
- **Numbers** (`Binary64`, `Seventeen`, `Strtod`, `Numerals`, `NumberFormat`). Numbers of 64 bits as integers times
  powers of two, correct rounding of real numbers to them, the texts that `strtod` takes (section 7.22.1.3 of C17), as
  it takes them and as numerals with a value, and what `%lld` and `%.17g` write; seventeen digits tell all numbers
  apart.
- **Thread pool** (`ThreadPool`, `ThreadPoolQueue`). A step system: a step is one critical section, or one thing done
  outside the lock, and unlock and signal are two steps. Invariants and bounds hold over every run, that is over every
  interleaving of any number of workers and submitters, with spurious wakeups. `ThreadPoolQueue` has the linked queue
  and the flag; its methods are the critical sections, and any interleaving of them is a run of the step system.
- **Hash map** (`HashMap`). Chains of linked entries with cached hashes, relinked in place when the table grows, with
  the memory of the values overwritten in place. The hash is any function; keys are compared by what they point at.
- **HTTP/1.1** (`HttpText`, `HttpHead`, `HttpMessage`, `HttpRequest`, `HttpLongLines`, `HttpResponse`, `HttpHeaders`,
  `HttpLines`, `HttpSocket`, `HttpWire`, `HttpExchange`). What a writer sends, the loops that send and receive in pieces
  of any size, the splitter that works in place on a NUL terminated copy of the head, and the header table; and that
  reading undoes writing (sections 3, 5 and 6 of RFC 9112), exactly when it does. `HttpWire` has the bytes themselves.
- **Encodings** (`Utf`, `Base64`, `Codec`, `Transcoder`). UTF-8 and UTF-16 (section 3 of RFC 3629, section 2 of
  RFC 2781) and base64 (section 4 of RFC 4648) on bit vectors, and in numbers; lifted over the loops by lemmas about any
  code.
- **Growable arrays** (`GrowList`, `GrowBuffer`). Contents as sequences, and the amortised bound.

Common modules are `Bytes` and `Decimal`. Sizes are ideal integers: the code's sums and products of sizes are taken
not to overflow.

## What the proofs bring out

Where the code does not do what one might expect of it, a lemma says exactly when, and another shows an input.

- The base64 decoder accepts `=` before the last group and ignores unused bits; such texts decode but are not what the
  encoder writes: `Base64.EncodeOfDecode`, with `Base64.EarlyPadAccepted` and `Base64.UnusedBitsAccepted`.
- The UTF-8 decoder accepts encoded surrogates, which do not come back: `Utf.Utf8RoundTrip`, with
  `Utf.SurrogateAccepted`. A zero unit becomes a NUL in the UTF-8 string: `Utf.Utf16RoundTrip`, with `Utf.ZeroAccepted`.
- The JSON printer loses the sign of a negative zero, and writes `inf` and `nan`, which the reader refuses. Negative
  zero and infinity come out of accepted texts: `JsonRoundTrip.PrintedReads` and `JsonRoundTrip.ParseOfPrint`, with
  `JsonLiberties.ZeroLosesItsSign` and `JsonLiberties.InfinityIsLost`.
- The JSON reader accepts control characters inside literals, and whatever `strtod` takes for numbers, and refuses an
  escaped high surrogate without a low one: `JsonStrict.AcceptedIsStrictExactly` and
  `JsonStrict.StrictIsAcceptedExactly`, with `JsonLiberties.ControlCharacterAccepted`,
  `JsonLiberties.LeadingZeroAccepted` and `JsonLiberties.LoneLowSurrogateAccepted`. A `\u0000` adds nothing to a
  string: `JsonStrict.LiteralReadsFullyExactly`, with `JsonLiberties.ZeroEscapeAddsNothing`.
- The JSON reader does not look whether an append could be done: without memory, characters of strings are missing.
  `JsonReader.Parser.ReadContents`, with `JsonReader.MissingCharacter`. So it is with the headers of a message:
  `HttpLines.ParseHead`.
- A message with a `Content-Length` of -2 is refused like one with a bad first line, because the reader uses that
  number for it: `HttpMessage.HeadReads`, with `HttpRequest.MinusTwoRefused`.
- The limit on a message head is tested after the search: a head that ends at byte 65537 is always found, one that
  ends up to a piece later is found or not as the stream happens to be cut: `HttpSocket.HeadLimitExact`, with
  `HttpSocket.LateHead`.
- A path with a space is cut at it, a header name with a colon is split there, and spaces before a value are dropped:
  `HttpRequest.PathExact` and `HttpMessage.RereadExact`, with `HttpRequest.SpacedPath`, `HttpRequest.ColonInName` and
  `HttpRequest.SpaceBeforeValue`.
- A request line of 254 bytes or more is cut off with its line end, and swallows the Host line; a Host line that is too
  long swallows the next header. When path, table and length come back all the same: `HttpLongLines.PathBackExact`,
  `HttpLongLines.TableBackExact`, `HttpLongLines.OwnTableBackExact` and `HttpLongLines.LengthBackExact`, with
  `HttpLongLines.LongPathLosesHost`, `HttpLongLines.LongHostLosesLength` and `HttpLongLines.OwnHostComes`.
- A submitter that has unlocked may give its signal after the pool has been freed. None does if none is under way when
  the shutdown starts, and only then is the pool safe: `ThreadPool.ShutdownIsSafeExactly`, with `ThreadPool.LateSignal`.

## Model

| member | source | states |
|---|---|---|
| `JsonRoundTrip.ParseOfPrint` | Code/dotten/core/src/json/json.c:583-920 | Reading what the printer writes for any tree that the constructors build (NUL-free strings, distinct keys, any numbers) gives that tree back, with the order of elements and of keys, exactly if no number in it is a negative zero, or infinite or undefined without a sign |
| `JsonRoundTrip.PrintedReads` | Code/dotten/core/src/json/json.c:583-920 | For every such tree, what reading gives: the tree but for the sign of its zeros, or a refusal exactly if a number in it is infinite or undefined without a sign |
| `NumberFormat.NumberBackExact` | Code/dotten/core/src/json/json.c:569-871 | What `strtod` makes of the text printed for a number of 64 bits, by `%lld` or `%.17g`, is that number exactly if it is no negative zero, and neither infinite nor undefined without a sign |
| `Seventeen.SeventeenDigits` | Code/dotten/core/src/json/json.c:855-871 | The 17 significant digits of any finite number but zero are rounded back to that number |
| `NumberFormat.GeneralReads` | Code/dotten/core/src/json/json.c:855-871 | In whichever of its styles `%.17g` writes the digits, without the zeros at the end, they are read whole and stand for the same number |
| `NumberFormat.NumberFits` | Code/dotten/core/src/json/json.c:852-867 | The text of any number fits the buffer of 32 bytes that it is formatted into |
| `Binary64.RoundsBack` | Code/dotten/core/src/json/json.c:569-581 | What is less than half a last place away from a number is rounded to it, also just below a power of two |
| `Binary64.RoundIsNearest` | Code/dotten/core/src/json/json.c:569-581 | Of all finite numbers none is nearer to a real number than the one that it is rounded to |
| `Binary64.TiesToEven` | Code/dotten/core/src/json/json.c:569-581 | If another number is as near, the one that a real number is rounded to has its last bit zero |
| `Binary64.RoundsExactly` | Code/dotten/core/src/json/json.c:569-581 | A real number is rounded to exactly itself if and only if it is an integer below 2 to the 53, times two to a power from -1074 to 971 |
| `Binary64.RoundOverflows` | Code/dotten/core/src/json/json.c:569-581 | A real number is rounded to infinity exactly from half a last place above the greatest number on |
| `Strtod.NumberStops` | Code/dotten/core/src/json/json.c:569-581 | The bytes that `strtod` takes are the same whatever follows them that cannot belong to a number |
| `Strtod.NumberAlone` | Code/dotten/core/src/json/json.c:569-581 | The bytes that it takes are taken whole by themselves |
| `Numerals.LongestNumeral` | Code/dotten/core/src/json/json.c:569-581 | `strtod` takes the longest numeral of section 7.22.1.3 of C17 that a text starts with, and nothing if there is none |
| `Numerals.NumeralTaken` | Code/dotten/core/src/json/json.c:569-581 | Every numeral, decimal or hexadecimal, with or without a point, an exponent and its sign, is taken whole, and its value is its digits times a power of ten or two, rounded; each digit's worth by a literal table |
| `JsonEngine.PrintThenRead` | Code/dotten/core/src/json/json.c:769-951 | The same on the running printer and reader, with the memory for it: the text printed of a stored tree, with a terminator and whatever bytes behind it, is read as a new stored tree for the same value but for the sign of zeros, or refused |
| `JsonGrammar.ParseTextExact` | Code/dotten/core/src/json/json.c:769-800 | The reader accepts exactly the texts of the grammar, with any white space between tokens and any number that `strtod` takes, and gives the value that the grammar gives them; both directions |
| `JsonGrammar.ValueComplete` | Code/dotten/core/src/json/json.c:583-767 | Every rendering of a syntax tree, with white space around it and anything allowed behind it, is read as the meaning of the tree and leaves the rest |
| `JsonGrammar.ValueSound` | Code/dotten/core/src/json/json.c:583-767 | Whatever the reader accepts is a rendering of some valid syntax tree, whose meaning is the value returned |
| `JsonGrammar.ElemsComplete` | Code/dotten/core/src/json/json.c:653-681 | The element loop reads every list of rendered elements, in order, after those it already has |
| `JsonGrammar.MembersComplete` | Code/dotten/core/src/json/json.c:701-756 | The member loop reads every list of rendered members and sets them one after another on the object so far |
| `JsonGrammar.MembersSound` | Code/dotten/core/src/json/json.c:701-756 | What the member loop accepts is a list of rendered members |
| `JsonGrammar.NumberComplete` | Code/dotten/core/src/json/json.c:569-581 | Every text that `strtod` takes whole is read as its number, in front of whatever cannot belong to it |
| `JsonTokens.BlankInFront` | Code/dotten/core/src/json/json.c:410-417 | A space, tab, line feed or carriage return in front of any text changes nothing |
| `JsonTokens.BlankBehind` | Code/dotten/core/src/json/json.c:769-800 | Nor does one behind any text |
| `JsonTokens.FrontExact` | Code/dotten/core/src/json/json.c:583-767 | In front of an accepted text stand only those four bytes, and then what its value starts with |
| `JsonTokens.WordsExact` | Code/dotten/core/src/json/json.c:591-615 | A text reads as null, true or false exactly if it is that word, by its bytes, between white space |
| `JsonTokens.NumbersExact` | Code/dotten/core/src/json/json.c:569-581 | A text reads as a number exactly if it is a numeral that starts with a digit or a minus sign, between white space, and the number is what the numeral is written for |
| `JsonTokens.StringsExact` | Code/dotten/core/src/json/json.c:475-567 | A text reads as a string exactly if it is a literal between white space, made of pieces that stand for the bytes of the string, piece by piece in literal bytes: a byte as it is, the eight short escapes, an escape with its code point in UTF-8, and a pair of them |
| `JsonTokens.LiteralRefused` | Code/dotten/core/src/json/json.c:491-557 | A literal is refused from the first place on where neither a piece nor a quotation mark stands, whatever follows |
| `JsonTokens.OtherEscapeRefused` | Code/dotten/core/src/json/json.c:512-556 | So it is when another byte than the eight, and not `u`, follows a backslash |
| `JsonTokens.ArraysExact` | Code/dotten/core/src/json/json.c:643-689 | A text reads as an array exactly if, between white space, it is brackets around white space or around texts with commas between them, each of which reads as its element |
| `JsonTokens.ObjectsExact` | Code/dotten/core/src/json/json.c:691-765 | A text reads as an object exactly if, between white space, it is braces around white space or around texts of a key, a colon and a value, with commas between them, and the object is those members set one after another |
| `JsonRoundTrip.PrintIsNormalForm` | Code/dotten/core/src/json/json.c:769-920 | The tree read from any accepted text is well-formed, and if what is printed for it can be read, printing a second time changes nothing |
| `JsonRoundTrip.ObjectTextMeaning` | Code/dotten/core/src/json/json.c:701-757 | An object text with repeated keys reads as its members set one after another: each key once, with its last value, in the order of first appearance |
| `JsonPrinted.PrintedWords` | Code/dotten/core/src/json/json.c:842-850 | The words printed, by their bytes |
| `JsonPrinted.PrintedString` | Code/dotten/core/src/json/json.c:804-838 | A string is printed in quotation marks, each byte as a literal table has it: a backslash and a letter for the quotation mark, the backslash, the line feed, the carriage return and the tab, `\u00` and two hexadecimal digits for any other control character, and the byte itself for the rest |
| `JsonPrinted.PrintedArray` | Code/dotten/core/src/json/json.c:873-890 | An array is printed in brackets, its elements with commas between them |
| `JsonPrinted.PrintedObject` | Code/dotten/core/src/json/json.c:892-915 | An object is printed in braces, its members, each a key, a colon and a value, with commas between them, in order |
| `JsonPrinted.PrintedWhole` | Code/dotten/core/src/json/json.c:852-864 | A whole number below ten to the 15 is printed in decimal without leading zeros, with a minus sign if it is negative |
| `JsonPrinted.PrintedFraction` | Code/dotten/core/src/json/json.c:855-867 | Any other finite number is printed as 17 digits nearest to it, without the zeros at their end, in the style that `%.17g` has for its exponent |
| `JsonPrinted.PrintedOther` | Code/dotten/core/src/json/json.c:855-867 | What is infinite or undefined is printed as `inf` or `nan`, behind a minus sign if it has one |
| `JsonLiberties.ControlCharacterAccepted` | Code/dotten/core/src/json/json.c:493-503 | A literal with a raw control character is accepted and keeps it |
| `JsonLiberties.LoneLowSurrogateAccepted` | Code/dotten/core/src/json/json.c:535-549 | A `\u` escape of a low surrogate alone is accepted and appends its three bytes |
| `JsonLiberties.ZeroEscapeAddsNothing` | Code/dotten/core/src/json/json.c:443-473 | A literal of `\u0000` is accepted and reads as the empty string |
| `JsonLiberties.LeadingZeroAccepted` | Code/dotten/core/src/json/json.c:569-581 | `01` is accepted and reads as 1 |
| `JsonLiberties.InfinityIsLost` | Code/dotten/core/src/json/json.c:855-871 | `1e+1024` is accepted, and what is printed for its value is refused |
| `JsonLiberties.ZeroLosesItsSign` | Code/dotten/core/src/json/json.c:855-871 | `-0` is accepted, and what is printed for its value reads as another |
| `JsonMembers.SetMembersMeaning` | Code/dotten/core/src/json/json.c:321-362 | Members set one after another: the keys are distinct and are those that came, each has its last value, and they stand in the order of first coming |
| `JsonMembers.SetMembersFresh` | Code/dotten/core/src/json/json.c:349-361 | Members with new, distinct keys are appended as they are |
| `JsonParse.ParseValue` | Code/dotten/core/src/json/json.c:583-589 | A value that is read takes at least one byte of the text, which is why the recursion and both loops end |
| `JsonString.ParseStringOfText` | Code/dotten/core/src/json/json.c:475-838 | Unescaping undoes escaping for every NUL-free byte string, whatever follows the literal |
| `JsonString.ItemsAreACodec` | Code/dotten/core/src/json/json.c:491-557 | One item of a literal (raw byte, short escape, `\u` escape, surrogate pair in any hex case) is read exactly where it is written |
| `JsonString.EscapeIsUtf8` | Code/dotten/core/src/json/json.c:427-473 | The bytes appended for a `\u` escape or pair are the UTF-8 sequence that the UTF-8 decoder reads as its code point |
| `JsonString.EscapeOfScalar` | Code/dotten/core/src/json/json.c:523-551 | Every scalar value is the code point of some escape, or of a pair of them |
| `JsonString.LiteralsAreNulFree` | Code/dotten/core/src/json/json.c:491-557 | What a literal reads as never contains a zero byte |
| `JsonUnique.TextHasOneTree` | Code/dotten/core/src/json/json.c:583-800 | No text has two syntax trees, and the white space around them is the same |
| `JsonStrict.AcceptedIsStrictExactly` | Code/dotten/core/src/json/json.c:583-800 | An accepted text is one of RFC 8259 exactly if its literals hold no control characters as they are and its numbers are written as section 6 has them |
| `JsonStrict.StrictNumberExact` | Code/dotten/core/src/json/json.c:569-581 | The numbers of section 6 of RFC 8259 are the decimal numerals without a leading zero that have digits in front of the point, and behind it if there is one, with a minus sign or without |
| `JsonStrict.StrictIsAcceptedExactly` | Code/dotten/core/src/json/json.c:523-551 | A text of RFC 8259 is accepted exactly if each escape of a high surrogate is followed by that of a low one |
| `JsonStrict.LiteralReadsFullyExactly` | Code/dotten/core/src/json/json.c:443-557 | An accepted literal reads as the characters that it stands for exactly if none of them is a zero |
| `JsonReader.Parser.SkipWhitespace` | Code/dotten/core/src/json/json.c:410-417 | Moves the cursor forward over white space, and to where the reader as a function goes |
| `JsonReader.Parser.ReadEscape` | Code/dotten/core/src/json/json.c:523-551 | Reads a `\u` escape or pair, or refuses it, exactly as one item of a literal is defined; a low half is needed after a high one |
| `JsonReader.Parser.ReadItem` | Code/dotten/core/src/json/json.c:491-557 | One turn of the literal loop appends what one item stands for, and moves the cursor over that item |
| `JsonReader.Parser.ReadContents` | Code/dotten/core/src/json/json.c:489-567 | The loop over a literal appends what its items stand for, each as far as there is memory for it, and stops behind the closing quote; it fails exactly when the literal is bad |
| `JsonReader.MissingCharacter` | Code/dotten/core/src/json/json.c:499-503 | The literal `"a"` is read as an empty string when there is no memory for the append |
| `JsonReader.Parser.ReadString` | Code/dotten/core/src/json/json.c:475-567 | Returns the unescaped contents, or fails; if neither an allocation fails nor the literal is bad, it is the whole of them |
| `JsonReader.Parser.ReadValue` | Code/dotten/core/src/json/json.c:583-767 | The recursive reader builds a new stored tree for exactly the value that the reader as a function gives; if an allocation fails it refuses, or builds a tree for some value, of a text that is accepted in any case; the cursor stays within the text, never goes back, and a value takes at least a byte |
| `JsonReader.Parser.ReadElement` | Code/dotten/core/src/json/json.c:653-681 | One turn of the element loop adds the node read to the growable list, so that the rest of the text is read into the longer list, or refuses for want of memory |
| `JsonReader.Parser.ReadElements` | Code/dotten/core/src/json/json.c:653-681 | The element loop builds a list of nodes for the elements that the reader as a function gives, and ends |
| `JsonReader.Parser.ReadNumber` | Code/dotten/core/src/json/json.c:569-581 | Takes what `strtod` takes, and makes a node of its number |
| `JsonReader.Parser.ReadMember` | Code/dotten/core/src/json/json.c:701-756 | One turn of the member loop sets one member in the object store, so that the rest of the text is read into the updated members, or refuses for want of memory |
| `JsonReader.Parser.ReadMembers` | Code/dotten/core/src/json/json.c:701-756 | The member loop builds, in the map and the key list, nodes for the members that the reader as a function gives |
| `JsonReader.ParseBuffer` | Code/dotten/core/src/json/json.c:769-800 | Reads the C string at the head of a buffer: one value and nothing but white space behind it; it may refuse for want of memory |
| `JsonPrinter.PrintString` | Code/dotten/core/src/json/json.c:804-838 | Appends the escaped literal of a C string |
| `JsonPrinter.PrintValue` | Code/dotten/core/src/json/json.c:840-920 | The recursive printer, on a stored tree, appends the text of the value that it stands for, of which reading is known, and no NUL; unless an append fails, which it does not notice |
| `JsonPrinter.PrintElements` | Code/dotten/core/src/json/json.c:873-890 | The loop over the growable list appends the text of the elements, in order, with commas between |
| `JsonPrinter.PrintMember` | Code/dotten/core/src/json/json.c:898-912 | A member is printed with the key from the list and the node found for it in the hash map |
| `JsonPrinter.LookUp` | Code/dotten/core/src/json/json.c:900-903 | The key list gives the key of member i, and the hash map, looked up with it, a node for its value |
| `JsonPrinter.PrintFields` | Code/dotten/core/src/json/json.c:892-915 | The loop over the key list appends the text of the members, in order |
| `JsonNode.OneValue` | Code/dotten/core/src/json/json.c:13-29 | A stored tree stands for one value |
| `JsonNode.InMore` | Code/dotten/core/src/json/json.c:13-29 | It stands for it whatever other memory there is |
| `JsonNode.SetDenotes` | Code/dotten/core/src/json/json.c:321-362 | Setting a node for a value, among nodes for members, gives nodes for the members with the value set |
| `JsonNode.AddElement` | Code/dotten/core/src/json/json.c:277-286 | Adding a node to a stored array adds its value at the end, and touches nothing that the elements are made of; without memory it changes nothing |
| `JsonNode.SetField` | Code/dotten/core/src/json/json.c:364-382 | Setting a node in a stored object sets its value among the members, and touches nothing that the others are made of; without memory it changes nothing |
| `JsonPrinter.Stringify` | Code/dotten/core/src/json/json.c:922-951 | The text is a C string, the text of the value if no allocation fails |
| `JsonObject.ObjectStore.SetOwned` | Code/dotten/core/src/json/json.c:321-362 | Replaces the value where the key stands or appends a member; after a failed allocation the members are unchanged, and the list keeps the first string of each key |
| `JsonObject.ObjectStore.Append` | Code/dotten/core/src/json/json.c:343-361 | When the list has no room the map entry is taken out again and nothing has changed |
| `JsonObject.ObjectStore.Replace` | Code/dotten/core/src/json/json.c:326-342 | A replace keeps the position and the string of the key |
| `JsonObject.ObjectStore.Set` | Code/dotten/core/src/json/json.c:364-382 | Setting a copy of a key never reorders the keys that are there |
| `JsonObject.ObjectStore.Get` | Code/dotten/core/src/json/json.c:299-317 | Finds the value of a key exactly when the members have it |
| `JsonObject.ObjectStore.KeyAt` | Code/dotten/core/src/json/json.c:383-401 | Key number i of the list is that of member i |
| `JsonObject.ObjectStore.Count` | Code/dotten/core/src/json/json.c:288-297 | The size of the map is the number of members |
| `JsonObject.ObjectStore.ReadAll` | Code/dotten/core/src/json/json.c:892-913 | Every key of the list is found in the map: the printer's loop reads all the members in order |
| `JsonObject.ObjectStore.SetAll` | Code/dotten/core/src/json/json.c:321-362 | After any run of sets, some failing, list and map agree and the members are those of the sets that succeeded |
| `JsonObject.SameSize` | Code/dotten/core/src/json/json.c:288-297 | A list and a map in step have the same number of keys |
| `JsonObject.ReplaceInStep` | Code/dotten/core/src/json/json.c:326-342 | A new value for a present key keeps list and map in step and is the functional update in place |
| `JsonObject.AppendInStep` | Code/dotten/core/src/json/json.c:343-361 | A new key at the end of the list and in the map keeps them in step and is the functional append |
| `ThreadPool.StepInv` | Code/dotten/core/src/thread_pool/thread_pool.c:22-221 | Every step of worker, submitter, destroyer or spurious wakeup keeps conservation of tasks, sufficiency of wakeups and the order of shutdown |
| `ThreadPool.TakenInOrder` | Code/dotten/core/src/thread_pool/thread_pool.c:22-187 | In every run accepted tasks are those taken, in order, followed by the queue; as multisets, accepted = finished + running + queued, so none is lost or run twice |
| `ThreadPool.JoinedMeansDone` | Code/dotten/core/src/thread_pool/thread_pool.c:189-221 | When all workers are joined every accepted task has run exactly once, and the loop that frees leftovers finds none |
| `ThreadPool.NoLostWakeup` | Code/dotten/core/src/thread_pool/thread_pool.c:30-48 | While a worker sleeps, queue length <= pending signals + awake workers without a task; nobody sleeps after the broadcast, and nobody leaves while there is a task |
| `ThreadPool.WorkerStepDrains` | Code/dotten/core/src/thread_pool/thread_pool.c:26-54 | 2 queued + 2 running + seeking goes down by exactly one on every worker step |
| `ThreadPool.WorkersGoOn` | Code/dotten/core/src/thread_pool/thread_pool.c:26-54 | After the broadcast some worker step is possible exactly as long as some worker has not left |
| `ThreadPool.RunsOutOfWork` | Code/dotten/core/src/thread_pool/thread_pool.c:22-187 | In any run the number of steps that workers and signals take is at most the initial work plus four per submit, one per spurious wakeup and one per worker for the broadcast |
| `ThreadPool.LeftAlone` | Code/dotten/core/src/thread_pool/thread_pool.c:22-187 | Left to itself a pool comes to rest within 2 queued + 2 workers + 2 signals steps, and a run of worker steps alone is exactly as long as what it takes off 2 queued + 2 running + seeking |
| `ThreadPool.QuietMeansStuck` | Code/dotten/core/src/thread_pool/thread_pool.c:22-55 | No worker step or signal is possible exactly when no signal is pending and every worker sleeps or has left |
| `ThreadPool.RestMeansAllRun` | Code/dotten/core/src/thread_pool/thread_pool.c:22-221 | When a pool has come to rest in any run, every accepted task has run; after the broadcast all workers have left |
| `ThreadPool.DestroyCanEnd` | Code/dotten/core/src/thread_pool/thread_pool.c:189-221 | After the broadcast, from any state, a run of bounded length joins every worker and releases the pool with nothing left over |
| `ThreadPool.NothingAfterFree` | Code/dotten/core/src/thread_pool/thread_pool.c:182-221 | In any run: once the pool is freed no step touches it exactly if no submitter has its signal still to give |
| `ThreadPool.QuietShutdownIsSafe` | Code/dotten/core/src/thread_pool/thread_pool.c:182-221 | If no signal is still to be given when the shutdown starts, then in any run from there nothing touches the freed pool |
| `ThreadPool.ShutdownIsSafeExactly` | Code/dotten/core/src/thread_pool/thread_pool.c:182-221 | And only then: with a signal still to be given there is a run from the shutdown to the freed pool in which it touches that |
| `ThreadPool.LateSignal` | Code/dotten/core/src/thread_pool/thread_pool.c:182-221 | A run in which a signal is given to the freed condition |
| `ThreadPoolQueue.Pool.Submit` | Code/dotten/core/src/thread_pool/thread_pool.c:141-187 | Without memory, or once the pool is being shut down, refuses and changes nothing; else links the task at the end of the shared queue, as the step of that name |
| `ThreadPoolQueue.Pool.Look` | Code/dotten/core/src/thread_pool/thread_pool.c:30-48 | What a worker does under the lock: sleeps, leaves, or unlinks the oldest task, as the step of that name |
| `ThreadPoolQueue.Pool.Enqueue` | Code/dotten/core/src/thread_pool/thread_pool.c:171-180 | Head, tail and links hold the old queue followed by the new task |
| `ThreadPoolQueue.Pool.Dequeue` | Code/dotten/core/src/thread_pool/thread_pool.c:42-47 | Takes the first task off the linked queue and resets the tail when it was the last |
| `ThreadPoolQueue.Pool.Free` | Code/dotten/core/src/thread_pool/thread_pool.c:209-215 | The loop over what is left in the queue finds nothing once all workers are joined |
| `ThreadPoolQueue.Pool.Execute` | Code/dotten/core/src/thread_pool/thread_pool.c:22-221 | Any interleaving run on the linked queue is a run of the step system |
| `HashMap.Map.Run` | Code/dotten/core/src/map/map.c:177-332 | Any run of set, get, contains and remove, with any hash and any failing allocations, answers and leaves behind what it would on a mathematical map; and the table stays valid: unique keys, each entry once and in the bucket of its correct cached hash, 4 count <= 3 buckets, and 16 buckets doubled some number of times |
| `HashMap.Map.ReadsLastWrite` | Code/dotten/core/src/map/map.c:177-308 | After any run a key has the value of the last call that successfully set it, or none if that call removed it |
| `HashMap.Map.Set` | Code/dotten/core/src/map/map.c:177-239 | Succeeds exactly if the key is there or the needed allocations do; then the map is updated, keeping a key as first stored; otherwise it is unchanged; the table doubles exactly when the load rule says so |
| `HashMap.Map.Get` | Code/dotten/core/src/map/map.c:241-260 | The value of the key, exactly if the map has it |
| `HashMap.Map.Contains` | Code/dotten/core/src/map/map.c:310-320 | True exactly if the map has the key |
| `HashMap.Map.Count` | Code/dotten/core/src/map/map.c:322-332 | The number of keys in the map |
| `HashMap.Map.Remove` | Code/dotten/core/src/map/map.c:262-308 | Removes exactly that key, and says whether it was there |
| `HashMap.Map.Find` | Code/dotten/core/src/map/map.c:67-83 | Walking one chain with cached hashes finds the entry of the key, or shows that there is none |
| `HashMap.Map.Walk` | Code/dotten/core/src/map/map.c:73-80 | Stops at the first matching entry of a chain, with the entry before it |
| `HashMap.Map.WalkFinds` | Code/dotten/core/src/map/map.c:67-83 | An entry equal to the key can only be in the bucket of its hash, and only the indexed one |
| `HashMap.Map.Insert` | Code/dotten/core/src/map/map.c:207-235 | Links a new entry, with memory of its own, and adds just its key to the map |
| `HashMap.Map.Overwrite` | Code/dotten/core/src/map/map.c:189-195 | Overwrites the value in place and keeps the stored key |
| `HashMap.Map.Grow` | Code/dotten/core/src/map/map.c:197-205 | Doubles the table and leaves the map as it was; after a growth one more entry keeps the load within three quarters |
| `HashMap.Relink` | Code/dotten/core/src/map/map.c:85-113 | The in-place rehash hangs exactly the same entries in the new table, each once and in the bucket of its hash |
| `HashMap.RelinkChain` | Code/dotten/core/src/map/map.c:96-107 | Moving one chain entry by entry loses none and makes no cycle |
| `HashMap.LinkInFront` | Code/dotten/core/src/map/map.c:102-104 | Putting an entry in front of its chain keeps every other chain |
| `HashMap.Unlink` | Code/dotten/core/src/map/map.c:280-290 | Making the predecessor, or the bucket, skip an entry takes just that entry out |
| `HashMap.TableSizeFacts` | Code/dotten/core/src/map/map.c:133-199 | A table size of 16 doubled any number of times is at least 16, a multiple of 4, and stays of that form when doubled |
| `HttpExchange.RequestOverWire` | Code/dotten/core/src/http/http.c:535-825 | A request without CRLF or NUL in its lines, whose head ends within 64 KiB, on connections that hold: whatever pieces it is sent and received in, it comes out as its written text reads, also when its first two lines are cut off; with its body exactly if it has headers or its Host line fits |
| `HttpExchange.FittingRequestOverWire` | Code/dotten/core/src/http/http.c:535-825 | And if those two lines fit their 256-byte buffer: with its method and body, its path up to the first space, and the table that its written headers make |
| `HttpExchange.ResponseOverWire` | Code/dotten/core/src/http/http.c:535-856 | A response without CRLF or NUL in its header lines, whose head ends within 64 KiB, on connections that hold, comes out with its status, headers and body exactly if its status is positive |
| `HttpExchange.ReceiveMessage` | Code/dotten/core/src/http/http.c:636-686 | However the stream is cut, a head ending within the limit is read as the function on the text reads it, but for headers that there is no memory for, and the body is the next Content-Length bytes; whatever is returned was read so from a head that ends at most a piece beyond 64 KiB |
| `HttpExchange.ReceiveBytes` | Code/dotten/core/src/http/http.c:535-686 | A message given by its bytes, with a `Content-Length` in any mixture of cases as its only one, is received with its first line, its headers set one after another, and the bytes that the number says as its body |
| `HttpExchange.SendRequest` | Code/dotten/core/src/http/http.c:793-825 | Sends the whole request text, or the part that the connection takes before it breaks |
| `HttpExchange.SendResponse` | Code/dotten/core/src/http/http.c:827-856 | Sends the whole response text, or the part that the connection takes before it breaks |
| `HttpExchange.WriteHeaders` | Code/dotten/core/src/http/http.c:781-791 | Writes one line for each pair of the table, in order |
| `HttpWire.RequestOnTheWire` | Code/dotten/core/src/http/http.c:793-825 | A request in bytes: the word of its method, a space, the path, ` HTTP/1.1` and CRLF, then `Host: ` and the host, each cut off after 255 bytes, then the caller's lines, the lines of `Content-Length` and `Connection: close`, an empty line and the body |
| `HttpWire.ResponseOnTheWire` | Code/dotten/core/src/http/http.c:827-856 | A response in bytes: `HTTP/1.1 `, the status, the phrase of each known status or `Unknown`, and then as in a request |
| `HttpWire.RequestLineExact` | Code/dotten/core/src/http/http.c:607-634 | A request line is read exactly if the word in front of its first space is one of the six, by their bytes, as that method and the path up to the next space |
| `HttpWire.StatusLineExact` | Code/dotten/core/src/http/http.c:692-712 | A status line is read exactly if the number behind its first space, of blanks, a sign and digits, is positive, as that number |
| `HttpWire.SpacelessRefused` | Code/dotten/core/src/http/http.c:607-712 | A first line without a space is refused as either |
| `HttpWire.HeaderLineExact` | Code/dotten/core/src/http/http.c:572-581 | A line is the header of a name up to its first colon, with the value behind that and any spaces, and none if there is no colon |
| `HttpWire.NumberReads` | Code/dotten/core/src/http/http.c:583-588 | A number is what its digits write by a literal table, behind blanks and a sign or none, up to the first byte that is no digit; zero if there are none |
| `HttpWire.HeadExact` | Code/dotten/core/src/http/http.c:535-601 | A head given by its first line and its headers, in bytes, is refused exactly if the line cannot be read or the length is -2, and is read else as that line, the headers set one after another, and the length |
| `HttpWire.LastLengthReads` | Code/dotten/core/src/http/http.c:583-588 | The length is the number of the last header named `content-length` in any mixture of cases, by the bytes of that name |
| `HttpRequest.RequestReads` | Code/dotten/core/src/http/http.c:793-825 | What is read from a written request, whether its first two lines fit or are cut off: where its head ends, and its start, table and length |
| `HttpRequest.RequestReadsFitting` | Code/dotten/core/src/http/http.c:793-825 | If both lines fit: the method, the path up to its first space, the table of all the headers, the length of the body |
| `HttpLongLines.PathBackExact` | Code/dotten/core/src/http/http.c:805-806 | A path comes back exactly if it has no space and its line fits, or the cut spares the path and the space behind it, or cuts off just what the Host line starts with |
| `HttpLongLines.TableBackExact` | Code/dotten/core/src/http/http.c:805-815 | Exactly when the table comes back, for all inputs, in terms of which lines fit, of the names of the headers behind the Host line, and of whether a host that is cut off ends like the next line |
| `HttpLongLines.OwnTableBackExact` | Code/dotten/core/src/http/http.c:805-815 | For a caller whose names differ, the first from the writer's: exactly if the Host line fits, and the request line does or the first header is read under the name `Host` itself |
| `HttpLongLines.LengthBackExact` | Code/dotten/core/src/http/http.c:808-815 | The length read is that of the body exactly if the caller has headers or the Host line fits |
| `HttpLongLines.LongHostLosesLength` | Code/dotten/core/src/http/http.c:808-815 | A GET for a host of 248 bytes or more, without headers, comes back without its length and with another table |
| `HttpLongLines.OwnHostComes` | Code/dotten/core/src/http/http.c:808-815 | A caller that sets a Content-Length and a Host of its own gets its table back, however long the host |
| `HttpLongLines.LongPathLosesHost` | Code/dotten/core/src/http/http.c:805-809 | A GET of a path of 241 to 250 bytes comes back with its path and without a Host header |
| `HttpRequest.SpacedPath` | Code/dotten/core/src/http/http.c:607-634 | The path `a b` of a GET is read as `a` |
| `HttpRequest.ColonInName` | Code/dotten/core/src/http/http.c:572-581 | A header named `a:b` is read under the name `a` |
| `HttpRequest.SpaceBeforeValue` | Code/dotten/core/src/http/http.c:572-581 | A space before a value is dropped |
| `HttpRequest.MinusTwoRefused` | Code/dotten/core/src/http/http.c:583-600 | A head with a readable first line and a Content-Length of -2 is refused |
| `HttpResponse.ResponseReads` | Code/dotten/core/src/http/http.c:692-712 | The pure round trip of a response; unreadable exactly if the status is not positive |
| `HttpResponse.StatusLineFits` | Code/dotten/core/src/http/http.c:839-840 | The status line of any 32-bit status fits its buffer |
| `HttpMessage.ClosingFits` | Code/dotten/core/src/http/http.c:814-815 | The end of the head fits its buffer for any 64-bit body size |
| `HttpRequest.PathExact` | Code/dotten/core/src/http/http.c:626-632 | The path comes back whole exactly if it has no space |
| `HttpMessage.RereadExact` | Code/dotten/core/src/http/http.c:572-581 | A header comes back as it was exactly if its name has no colon and its value no leading space |
| `HttpMessage.HeadReads` | Code/dotten/core/src/http/http.c:535-601 | A head of plain lines is refused exactly if its first line is unreadable or its last Content-Length reads as -2; otherwise its table is its headers set one after another |
| `HttpMessage.TableReads` | Code/dotten/core/src/http/http.c:66-118 | With faithful headers every name reads, in any case, as the value last written for it |
| `HttpMessage.HeadEndOfBlock` | Code/dotten/core/src/http/http.c:190-205 | The first empty line of a written message is the one behind its head, whatever the body holds |
| `HttpMessage.LinesOfBlock` | Code/dotten/core/src/http/http.c:543-593 | The line splitter gives back the lines that were written |
| `HttpMessage.LengthOfAll` | Code/dotten/core/src/http/http.c:583-600 | The length read is that of the body, whatever headers the caller set |
| `HttpResponse.StatusLineReads` | Code/dotten/core/src/http/http.c:692-712 | The status line of a positive status reads as that status, and of any other as nothing |
| `HttpText.GetOfSet` | Code/dotten/core/src/http/http.c:66-131 | Setting a header changes what is read for that name, and for every name that differs from it only in that a byte of 0x41 to 0x5A stands for that byte plus 0x20, and for no other; names stay different |
| `HttpText.CiExact` | Code/dotten/core/src/http/http.c:48-64 | Names are the same to the table exactly if they are equally long and at each place the bytes are equal, or one of them is of 0x41 to 0x5A and the other is that plus 0x20 |
| `HttpText.TableMeaning` | Code/dotten/core/src/http/http.c:66-131 | After any run of sets the names differ and each reads as its last value |
| `HttpText.ParseMethod` | Code/dotten/core/src/http/http.c:144-167 | Parses a method name exactly if it is the name of that method |
| `HttpHead.HeadEndStays` | Code/dotten/core/src/http/http.c:190-205 | An end of head found in what has come so far stays the first when more comes |
| `HttpHeaders.CiStrcmp` | Code/dotten/core/src/http/http.c:48-64 | Returns 0 exactly for names that are equally long and at each place equal, or one of 0x41 to 0x5A and the other 0x20 more |
| `HttpHeaders.HeaderTable.Set` | Code/dotten/core/src/http/http.c:66-118 | Overwrites the value of the first pair of that name, keeping its name, or appends, growing the array by doubling from four; fails exactly for want of the memory it needs, and then changes nothing |
| `HttpHeaders.HeaderTable.Get` | Code/dotten/core/src/http/http.c:120-131 | The value of the first pair whose name differs from the one asked for only so, and none exactly if there is no such pair |
| `HttpLines.ParseHead` | Code/dotten/core/src/http/http.c:535-601 | Splitting the text in place by writing NULs gives what the reader as a function makes of it, up to a first NUL; a header that there is no memory for is missing from the table, and nothing else |
| `HttpLines.TakeNextLine` | Code/dotten/core/src/http/http.c:543-593 | One turn of the loop reads one line, keeps its header if there is memory, and leaves the rest of the text untouched |
| `HttpLines.CutLine` | Code/dotten/core/src/http/http.c:545-556 | Writing a NUL at the line end leaves the first line as a C string and the others where they are |
| `HttpLines.CutAt` | Code/dotten/core/src/http/http.c:572-577 | Writing a NUL at a character splits the C string in two and touches nothing behind it |
| `HttpLines.FirstOfRequest` | Code/dotten/core/src/http/http.c:607-634 | Method and path are cut out of the line in place |
| `HttpLines.FirstOfResponse` | Code/dotten/core/src/http/http.c:692-712 | The status is cut out of the line in place |
| `HttpSocket.ReadUntilHeadersEnd` | Code/dotten/core/src/http/http.c:208-238 | Nothing is lost or read twice; a head that ends at byte 65537 or before is found however the stream is cut, none is found beyond 64 KiB and a chunk, or if there is none |
| `HttpSocket.HeadLimitExact` | Code/dotten/core/src/http/http.c:208-238 | A head is found in every cutting of its stream exactly if it ends at byte 65537 or before, and in some cutting exactly if it ends at most a piece beyond 64 KiB |
| `HttpSocket.LateHead` | Code/dotten/core/src/http/http.c:208-238 | There is a stream whose head ends in between |
| `HttpSocket.ReadBody` | Code/dotten/core/src/http/http.c:242-277 | Returns the next Content-Length bytes of prefix and stream, or all there are, and takes no byte more |
| `HttpSocket.SendAll` | Code/dotten/core/src/http/http.c:763-779 | Sends all the data in order in any number of pieces, and fails exactly if the connection breaks first |
| `HttpSocket.FindHeadEnd` | Code/dotten/core/src/http/http.c:190-205 | Finds the first CRLF CRLF, or shows that there is none |
| `Utf.Utf8Exact` | Code/dotten/core/src/encoding/encoding.c:209-244 | A text decodes to code points exactly if it is their encoding, all within range; so no overlong form is accepted |
| `Utf.Utf8ValidIffSegmentation` | Code/dotten/core/src/encoding/encoding.c:431-457 | A text decodes exactly if it is a concatenation of accepted sequences, and the segmentation is unique |
| `Utf.DecodeOneOfEncodeOne` | Code/dotten/core/src/encoding/encoding.c:209-244 | The decoder reads back every code point that the encoder writes, whatever follows |
| `Utf.EncodeOneOfDecodeOne` | Code/dotten/core/src/encoding/encoding.c:377-398 | Re-encoding what one step of the decoder accepts gives its bytes |
| `Utf.EncodeOneIsUtf8` | Code/dotten/core/src/encoding/encoding.c:377-398 | The bytes written for a code point are those of section 3 of RFC 3629, in quotients and remainders by 64 |
| `Utf.EncodeUnitsIsUtf16` | Code/dotten/core/src/encoding/encoding.c:292-301 | The units written for one are those of section 2.1 of RFC 2781, in quotients and remainders by 1024 |
| `Utf.JoinedInNumbers` | Code/dotten/core/src/encoding/encoding.c:326-345 | A pair of surrogates joins to 65536, plus 1024 times the one, plus the other |
| `Utf.Utf16Exact` | Code/dotten/core/src/encoding/encoding.c:312-404 | UTF-16 decodes to scalar values exactly if it is their encoding |
| `Utf.Utf16RoundTrip` | Code/dotten/core/src/encoding/encoding.c:248-404 | UTF-16 that is accepted is restored through a UTF-8 C string exactly if it has no zero unit |
| `Utf.Utf8RoundTrip` | Code/dotten/core/src/encoding/encoding.c:248-404 | UTF-8 that is accepted is restored through UTF-16 exactly if it encodes no surrogate |
| `Utf.SurrogateAccepted` | Code/dotten/core/src/encoding/encoding.c:209-404 | ED A0 80 is accepted as the unit D800, which has no UTF-8 |
| `Utf.ZeroAccepted` | Code/dotten/core/src/encoding/encoding.c:248-404 | A zero unit is accepted and comes back as no unit |
| `Transcoder.Utf8Validate` | Code/dotten/core/src/encoding/encoding.c:431-457 | The validation loop returns true exactly for concatenations of accepted sequences |
| `Transcoder.ConvertUtf8` | Code/dotten/core/src/encoding/encoding.c:248-310 | Two passes: the array has exactly the size counted, and holds the conversion and a zero |
| `Transcoder.ConvertUtf16` | Code/dotten/core/src/encoding/encoding.c:312-404 | Two passes: the array has exactly the size counted, and holds the conversion and a zero |
| `Transcoder.Utf16ThereAndBack` | Code/dotten/core/src/encoding/encoding.c:248-404 | Both loops one after the other restore UTF-16 exactly if no unit is zero |
| `Codec.Count` | Code/dotten/core/src/encoding/encoding.c:262-277 | The first pass counts exactly what the second will write, or rejects the text |
| `Codec.Write` | Code/dotten/core/src/encoding/encoding.c:285-305 | The second pass fills the array with the conversion and the terminator |
| `Codec.DecodesIffSegmentation` | Code/dotten/core/src/encoding/encoding.c:431-457 | For any code whose decoder and encoder undo each other, what decodes is what can be segmented, in one way |
| `Base64.DecodeOfEncode` | Code/dotten/core/src/encoding/encoding.c:22-119 | Decoding undoes encoding for every byte sequence; the length is exact and the text canonical |
| `Base64.EncodeOfDecode` | Code/dotten/core/src/encoding/encoding.c:61-119 | Encoding restores an accepted text exactly if `=` is only in its last group and the unused bits are zero |
| `Base64.GroupInNumbers` | Code/dotten/core/src/encoding/encoding.c:43-55 | A group of one to three bytes is written as the letters of the digits in base 64 of the number that they write, a letter more than there are bytes, and `=` for the others, by the table of section 4 of RFC 4648, letter by letter |
| `Base64.EncodedInGroups` | Code/dotten/core/src/encoding/encoding.c:22-59 | A text of bytes is that of its first three, and that of the others |
| `Base64.UnusedBitsAccepted` | Code/dotten/core/src/encoding/encoding.c:61-119 | `QR==` decodes, and is not canonical |
| `Base64.EarlyPadAccepted` | Code/dotten/core/src/encoding/encoding.c:61-119 | `QQ==QQ==` decodes, and is not canonical |
| `Base64.EncodeBytes` | Code/dotten/core/src/encoding/encoding.c:22-59 | The loop fills an array of exactly the encoded size and a terminator |
| `Base64.DecodeText` | Code/dotten/core/src/encoding/encoding.c:61-119 | The loop reads the C string at the head of a buffer; it rejects exactly the texts that do not decode, and otherwise fills the array with the bytes |
| `GrowList.List.Run` | Code/dotten/core/src/list/list.c:57-153 | After any run of add, insert and remove, some failing for want of memory, the list holds what a sequence would, and reallocation has moved at most two elements per addition |
| `GrowList.List.AmortizedBound` | Code/dotten/core/src/list/list.c:57-82 | With reservations too, what reallocation has moved is at most twice the most asked for |
| `GrowList.List.Insert` | Code/dotten/core/src/list/list.c:89-125 | Inserts at the index, shifting the rest up in place; refuses an index out of range, and fails exactly when a full list gets no memory, changing nothing |
| `GrowList.List.RemoveAt` | Code/dotten/core/src/list/list.c:127-153 | Removes at the index, shifting the rest down in place, or says that the index is out of range |
| `GrowList.List.Grow` | Code/dotten/core/src/list/list.c:57-82 | Makes room, at least doubling, and keeps the contents; without memory changes nothing |
| `GrowList.List.Reserve` | Code/dotten/core/src/list/list.c:197-210 | Makes room for a count and keeps the contents |
| `GrowList.RemoveOfInsert` | Code/dotten/core/src/list/list.c:84-153 | A removal undoes an insertion at the same place |
| `GrowBuffer.Buffer.Run` | Code/dotten/core/src/buffer/buffer.c:42-119 | After any run of writes and clears, some failing for want of memory, the buffer holds what a sequence would, and reallocation has moved at most twice the bytes written, cleared or not |
| `GrowBuffer.Buffer.Write` | Code/dotten/core/src/buffer/buffer.c:42-85 | Appends the bytes, reallocating only when they do not fit; fails exactly when it then gets no memory, changing nothing |
| `GrowBuffer.Buffer.Clear` | Code/dotten/core/src/buffer/buffer.c:111-119 | Empties the buffer and keeps its memory |
| `GrowBuffer.NewCapacity` | Code/dotten/core/src/buffer/buffer.c:60-68 | Doubling stops at a capacity that fits and is less than twice what is needed |

## Left out

- Strtod.NumberValue: the C locale, correct rounding to the nearest of even the longest texts, and no payload of a NaN. `JsonReader.Parser.ReadNumber` takes the bytes and the number from the functions that define them, without a loop of its own.
- NumberFormat.NumberText: a number beyond the range of `long long` counts as not whole; the conversion in the code is undefined for it. A NaN has a sign and is written `nan` or `-nan`.
- JsonReader.Parser.ReadValue: a node is a value with its list or store on the heap; strings are values. When an allocation fails, which value a tree stands for is not said beyond what `JsonReader.Parser.ReadContents` says of one literal.
- JsonPrinter.PrintValue: for well-formed values only; what is missing when an append fails is not said.
- JsonStrict.AcceptedIsStrictExactly: that the bytes of a text are UTF-8, as section 8.1 of RFC 8259 asks, is not part of the strict grammar here.
- JsonObject.ObjectStore.SetOwned: the value replaced is not freed; that it is not stored elsewhere is not modelled.
- HashMap.Map.Set: the hash is any function of the key's contents, not FNV-1a in particular; a key's contents do not change while it is stored; null arguments are left out.
- ThreadPool.StepInv: mutual exclusion and the release of the lock by a wait are assumed; there is one destroyer. A submit is one step up to its signal, so one that has not taken the lock when the pool is freed is not a step of the model. A pool of which only some workers could be created is left out.
- HttpExchange.ReceiveMessage: only the allocations for headers may fail.
- HttpSocket.ReadUntilHeadersEnd: an error of the socket counts as the end of the stream.
- HttpHead.Atol: on ideal integers, without the C library's behaviour on overflow.
- GrowList.List.AmortizedBound: a reallocation is counted as moving the whole old capacity.
- Freeing memory, `ten_json_destroy` and the other destructors: the Dafny heap is garbage collected.
- The server's accept loop and its handler, the connecting and closing of sockets, and `ten_http_client_send` around the calls modelled here.
- Files, plug-ins, processes, time, logging, `platform/` and the Rust bindings.
- Hexadecimal, ASCII validation, path helpers and error tables: easy beside the rest.
- The error code that is kept per thread, and the checks for null arguments.
