# Verified models of libfastjson, liblognorm and the rsyslog action engine

The project models four components of the vendored C sources, each as it is
written (loops, in-place updates, error returns), and proves it against a simple
specification.

- **libfastjson.** `TokenerSpec` is the push-down automaton of the incremental
  parser as functions on a value; `Tokener` is the code, with its stack, its tight
  loops and its `redo_char` jumps, proved equal to it. `PrintSpec` is the text of a
  value; `Printer` and `BufferedPrinter` are the two printers. `Reading`,
  `RoundTrip` and `JsonCodec` prove that printing and parsing are inverse, `Chunking`
  that it does not matter how the text is cut, `Cuts` which cuts of arbitrary bytes are
  noticed, `TokenerSafety` and `TokenerValues` what holds for arbitrary bytes and for the
  values made of them, and `Unicode` and `UnicodeCuts` what becomes of unicode escapes.
  `Numbers` and `Documents` are a grammar of documents, with comments and the other liberties
  that the tokener allows, and their meaning, without the automaton; `DocumentTokens` and
  `DocumentReader` prove that every document is read as what it means, `DocumentErrors` what is
  refused. `Layout` says what the printed text looks like without the printer. `StoreSpec` and
  `ObjectStore` are the pages that hold an object's children, and `StoredPrinter` prints them.
- **liblognorm v2.** `Pdag` is the parse DAG and its ordered search, `Normalizer`
  the recursive code, `Optimizer` the sorting and compaction, `PdagRefs` and
  `PdagMemory` the reference counts, `RuleTree` and `RuleBase` the way from rules to
  the DAG, and `Alternatives`, `AlternativeWords` and `AlternativeRules` what alternatives accept.
- **liblognorm v1.** `RadixTree` builds the prefix-compressed tree, `RadixLookup`
  searches it.
- **rsyslog.** `ActionRetry` is retry and suspension, `ActionLimits` the rate limits.
- `SyslogTime` is the conversion of timestamps.

A byte is a Dafny `char`, a C string a `string`, and the NUL byte the character 0. A
`len` argument is the length of the string that is passed; a call with `len == -1` is
modelled by appending the NUL. Pointers into the DAG and into the radix tree are
indices into a sequence of nodes; in the DAG nodes are created after the nodes that
point to them, so every edge leads to a larger index. The output module, the clock, the
shutdown flag, field parsers and the floating-point scanner are parameters.

What the proofs brought to light, each stated by a lemma or contract:

- A NUL inside a comment makes the tokener return the value it has, although an array
  or object is still open (`TokenerSafety.PrematureExample`).
- The end of a chunk is noticed inside a number (`Chunking.CutNumberExample`) and in the
  middle of a surrogate pair, and nowhere else (`Cuts.SplitIsInvisible`).
- A chunk that ends between a high surrogate's escape and the digits of the next one
  leaves the tokener in a state from which the next digit shifts by a negative amount;
  the model calls the outcome `Undefined`. `Chunking.CutPairExample` is an input, and
  `TokenerSafety.CallDefined` says exactly when it happens.
- With `len == -1` the text `\uD83` at the end of a string makes the tokener look behind
  the terminating NUL (`Chunking.BehindTheNulExample`, `Cuts.BehindTheNul`).
- Code points whose low 16 bits look like a surrogate are not decoded exactly
  (`Unicode.EscapesDecodeExactly`); U+1D800 is one (`Unicode.LookalikeExample`).
- `-Infinity` is refused by a tokener that has read a word or a unicode escape before, because
  the position in the word is not reset (`DocumentErrors.MinusInfinityExample`,
  `DocumentTokens.MinusInfinity`).
- A block comment that ends in two stars and a slash goes on, because a star takes the next
  character with it (`Documents.StaysOpen`, `DocumentTokens.TakeGap`).
- `buffer_printf` counts the terminating NUL twice (`BufferedPrinter.Buffer.Printf`).
- `setPrefix` copies from the wrong place for every offset but 0, which is the only
  one in use (`RadixTree.StoredPrefixAlways`).
- Where `char` is signed, the v1 lookup fails on bytes from 80 hexadecimal on that have
  become part of a prefix (`RadixLookup.SignedAccepted`, `RadixLookup.SignedExample`).
- A parser that a node already has can keep alternatives from joining
  (`Alternatives.JoinExample`), and of a sequence that follows the first alternative all
  but the first parser is demanded behind the earlier ones as well, so that alternatives say
  what they mean only in one form (`AlternativeWords.AltsLanguage`,
  `AlternativeWords.AlternativesSay`, `AlternativeRules.SequenceLastAccepts`).
- An execution is forgotten when the clock is read behind it, and with it the interval
  (`ActionLimits.SafeIffNotBehind`).
- A module that answers tryResume with DISABLE_ACTION is called without end
  (`ActionRetry.SpinExample`).
- In full-match mode a terminal node at the end of the message replaces an end node
  that was found below it (`Pdag.MatchSound` says which node is returned).
- Strict mode refuses single quotes around strings but not around the names of members
  (`Documents.Valid`, `DocumentReader.ReadPairs`).

`dafny verify dfyconfig.toml` checks everything.

## Model

| member | source | states |
|---|---|---|
| JsonCodec.PrintAndParse | rsyslog/vendored_src/libfastjson/libfastjson/json_tokener.c:236-953 | Running the printer code and then the tokener code gives the value back when its deepest node is at a level below the maximum depth, and the depth error otherwise, for every printable value and every combination of flags. |
| JsonCodec.PrintAndParseChunks | rsyslog/vendored_src/libfastjson/libfastjson/json_tokener.c:236-953 | The text of an array or object, cut anywhere and fed chunk by chunk to the tokener code, gives the same value. |
| JsonCodec.ParseChunks | rsyslog/vendored_src/libfastjson/libfastjson/json_tokener.c:236-274 | The calling loop (go on while the tokener answers continue) ends with the result of the recursive definition `Feed`. |
| JsonCodec.ParseText | rsyslog/vendored_src/libfastjson/libfastjson/json_tokener.c:236-953 | The tokener code, run over the text of any document of an independent grammar, with white space and comments around it, returns what the document means. |
| DocumentReader.ParseDocument | rsyslog/vendored_src/libfastjson/libfastjson/json_tokener.c:236-953 | Every document (words in any case, numbers, strings in either kind of quotes with all escapes, arrays and objects with white space, comments and a comma behind the last child; strict mode allows less) is parsed as what it means, the parse stops at the first character behind it, and strict mode reports an error unless that is the NUL. |
| DocumentReader.ReadDoc | rsyslog/vendored_src/libfastjson/libfastjson/json_tokener.c:270-924 | The same in any place of a larger text, at any depth with room for it: the induction over documents. |
| DocumentReader.ReadItems | rsyslog/vendored_src/libfastjson/libfastjson/json_tokener.c:792-830 | The remaining elements of an array, with gaps, commas and the closing bracket, are read as their meanings in order. |
| DocumentReader.ReadPairs | rsyslog/vendored_src/libfastjson/libfastjson/json_tokener.c:832-921 | The same for the remaining members of an object; single quotes around names are accepted in strict mode too. |
| Documents.GatherMeans | rsyslog/vendored_src/libfastjson/libfastjson/json_tokener.c:897-903 | An object has the names of the document in the order in which they come first, each with the value that comes last. |
| DocumentTokens.TakeGap | rsyslog/vendored_src/libfastjson/libfastjson/json_tokener.c:270-284 | White space, block comments (in which a star takes the next character with it) and line comments are skipped. |
| DocumentTokens.TakeWord | rsyslog/vendored_src/libfastjson/libfastjson/json_tokener.c:364-431 | The words null, true, false, NaN and Infinity, in any case unless the mode is strict, are read as their values, whatever follows. |
| DocumentTokens.TakeString | rsyslog/vendored_src/libfastjson/libfastjson/json_tokener.c:481-677 | A string in either kind of quotes, of plain characters, short escapes and runs of unicode escapes, is read as the concatenation of what its pieces denote. |
| DocumentTokens.MinusInfinity | rsyslog/vendored_src/libfastjson/libfastjson/json_tokener.c:364-392 | A minus sign in front of Infinity is accepted if and only if the position counter is 0, that is, if no word and no unicode escape was read before. |
| DocumentErrors.MinusInfinityExample | rsyslog/vendored_src/libfastjson/libfastjson/json_tokener.c:762-766 | The text -Infinity is parsed by a new tokener and refused after it has parsed the word null. |
| Numbers.ReadNumber | rsyslog/vendored_src/libfastjson/libfastjson/json_tokener.c:712-790 | A number of an independent grammar, in any place and followed by a character outside of numbers, is read as the nearest 64-bit integer to what its digits denote exactly if it has neither fraction nor exponent, otherwise as a double with exactly its text if the double parser accepts it, and otherwise refused with the number error. |
| Numbers.ParseNumber | rsyslog/vendored_src/libfastjson/libfastjson/json_tokener.c:712-790 | The same for one call: success with this value, or the number error in front of the next character (an early end if that is the NUL). |
| Numbers.IntegerScanned | rsyslog/vendored_src/libfastjson/libfastjson/json_tokener.c:768-784 | Scanning an integer text gives what its digits denote, moved into the 64-bit range. |
| Numbers.DoubleExample | rsyslog/vendored_src/libfastjson/libfastjson/json_tokener.c:773-779 | 1.5 is a double with this text, and never the integer 1. |
| Numbers.IntegerText | rsyslog/vendored_src/libfastjson/libfastjson/json_object.c:575-590 | The printed text of an integer is the number without superfluous zeros or sign that denotes it. |
| DocumentErrors.Refused | rsyslog/vendored_src/libfastjson/libfastjson/json_tokener.c:286-921 | In every place of a document a character that does not fit is refused where it stands, with the error code of that place. |
| DocumentErrors.CallRefused | rsyslog/vendored_src/libfastjson/libfastjson/json_tokener.c:926-953 | The same for a call that has come to that place: error, no value, and the offset of the character; in front of a NUL the error is that of an early end. |
| DocumentErrors.CommentRefused | rsyslog/vendored_src/libfastjson/libfastjson/json_tokener.c:428-438 | A slash that begins no comment. |
| DocumentErrors.EscapeRefused | rsyslog/vendored_src/libfastjson/libfastjson/json_tokener.c:506-540 | A backslash and a letter that is none of the nine escapes. |
| DocumentErrors.HexRefused | rsyslog/vendored_src/libfastjson/libfastjson/json_tokener.c:542-677 | An escape with fewer than four hexadecimal digits. |
| DocumentErrors.WordRefused | rsyslog/vendored_src/libfastjson/libfastjson/json_tokener.c:364-431 | A character with which no word goes on: the error depends on the first letter. |
| RoundTrip.RoundTrip | rsyslog/vendored_src/libfastjson/libfastjson/json_tokener.c:236-953 | For every printable value not nested too deeply and all flags: parse(print(v) + NUL) succeeds, returns v, stops exactly at the NUL and leaves the tokener ready for the next value. |
| RoundTrip.ReadValue | rsyslog/vendored_src/libfastjson/libfastjson/json_tokener.c:270-924 | Inside any context the text of a value is read to that value, whatever follows it, and the stack below is untouched: the induction over values behind the round trip. |
| RoundTrip.ReadElems | rsyslog/vendored_src/libfastjson/libfastjson/json_tokener.c:792-830 | The text of the remaining elements of an array, with separators and layout, appends exactly these elements to the array under construction. |
| RoundTrip.ReadMembers | rsyslog/vendored_src/libfastjson/libfastjson/json_tokener.c:832-924 | The text of the remaining members of an object adds exactly these pairs, in order. |
| RoundTrip.TooDeep | rsyslog/vendored_src/libfastjson/libfastjson/json_tokener.c:798-810 | A value that reaches the maximum depth stops the run with the depth error at the first level without room, whatever follows. |
| RoundTrip.ParsesIffShallow | rsyslog/vendored_src/libfastjson/libfastjson/json_tokener.c:792-903 | A printed value parses if and only if its height is below the maximum depth; otherwise the error is the depth error. |
| Reading.ReadString | rsyslog/vendored_src/libfastjson/libfastjson/json_tokener.c:481-504 | The quoted, escaped form of a NUL-free string is read back to that string (section 7 of RFC 8259). |
| Reading.ReadEscaped | rsyslog/vendored_src/libfastjson/libfastjson/json_tokener.c:481-677 | The escaped text of any NUL-free string, appended to what was read before, yields exactly its bytes. |
| Reading.ReadControlEscape | rsyslog/vendored_src/libfastjson/libfastjson/json_tokener.c:542-677 | The six characters printed for a control character are decoded to that character. |
| Reading.ReadInt | rsyslog/vendored_src/libfastjson/libfastjson/json_tokener.c:712-790 | The decimal text of every 64-bit integer, followed by a character that cannot belong to a number, is read to that integer. |
| Reading.ReadLiteral | rsyslog/vendored_src/libfastjson/libfastjson/json_tokener.c:393-427 | The words for null and the booleans are read to their values. |
| Reading.ReadSpaces | rsyslog/vendored_src/libfastjson/libfastjson/json_tokener.c:270-284 | Any white space in front of a token leaves the state as it was. |
| Decimal.IntRoundTrip | rsyslog/vendored_src/libfastjson/libfastjson/json_tokener.c:768-784 | Printing a 64-bit integer in decimal and scanning it again gives the integer. |
| Chunking.ChunkingInvariance | rsyslog/vendored_src/libfastjson/libfastjson/json_tokener.c:216-274 | For every printed array or object and every split into chunks: each call before the closing bracket answers continue, the last returns the value, and the result is that of one call on the whole text. |
| Chunking.FeedClean | rsyslog/vendored_src/libfastjson/libfastjson/json_tokener.c:216-232 | Any input that is read without error, ending outside a value's end, can be cut anywhere without a visible difference. |
| Cuts.SplitIsInvisible | rsyslog/vendored_src/libfastjson/libfastjson/json_tokener.c:216-232 | For arbitrary bytes and any well-formed tokener that answers continue: two calls end like one on the whole, with the same state, error, value and position, for every continuation if and only if the chunk does not end inside a number of which it holds a character, inside the second escape of a surrogate pair, or directly behind the first (with at most its backslash and u). |
| Cuts.InvisibleCut | rsyslog/vendored_src/libfastjson/libfastjson/json_tokener.c:236-274 | The direction for use: with such a chunk, and whatever comes next, the cut makes no difference. |
| Cuts.NumberTellsCut | rsyslog/vendored_src/libfastjson/libfastjson/json_tokener.c:712-756 | Behind a cut inside a number one character always tells: a second minus sign or exponent is an error in the whole and accepted behind the cut. |
| Cuts.HighTellsCut | rsyslog/vendored_src/libfastjson/libfastjson/json_tokener.c:595-621 | Behind a cut next to a high surrogate the u, or the first digit, of the next escape tells. |
| Cuts.HarmlessCut | rsyslog/vendored_src/libfastjson/libfastjson/json_tokener.c:216-232 | The last byte alone is often enough: behind one that can occur neither in a number nor in an escape the cut is invisible. |
| Cuts.BehindTheNul | rsyslog/vendored_src/libfastjson/libfastjson/json_tokener.c:597-599 | With len == -1 the look-ahead behind the fourth digit may read behind the terminating NUL: the bytes there make a difference if and only if the NUL itself is taken for the last digit of a high surrogate. |
| Chunking.BehindTheNulExample | rsyslog/vendored_src/libfastjson/libfastjson/json_tokener.c:597-599 | They do for a string that ends in a backslash, u, D, 8 and 3. |
| Chunking.CleanSplit | rsyslog/vendored_src/libfastjson/libfastjson/json_tokener.c:481-540 | Pending tokens, escapes, numbers and the stack survive the end of a chunk. |
| Chunking.CutNumberExample | rsyslog/vendored_src/libfastjson/libfastjson/json_tokener.c:712-776 | A concrete input for which a cut is noticed: inside a number the checks restart with the chunk, so that two pieces are accepted where the whole is an error. |
| Chunking.CutPairExample | rsyslog/vendored_src/libfastjson/libfastjson/json_tokener.c:542-558 | A concrete input that makes the calling loop shift by a negative amount: the pair D83D DE00 cut behind the second u; in one piece it does not. |
| TokenerSafety.CallKeeps | rsyslog/vendored_src/libfastjson/libfastjson/json_tokener.c:236-953 | On arbitrary bytes the depth stays below the maximum and the invariant of all stack levels holds after the call, unless the call handed out a value prematurely. |
| TokenerSafety.SuccessResets | rsyslog/vendored_src/libfastjson/libfastjson/json_tokener.c:939-950 | After a success every level is empty and the depth is where the value was taken: level 0 exactly if it was not premature. |
| TokenerSafety.RunKeeps | rsyslog/vendored_src/libfastjson/libfastjson/json_tokener.c:265-924 | The invariant holds after every call's loop, and the call ends in success exactly if a complete value was read, or on a NUL inside a comment behind a complete value. |
| TokenerSafety.SwitchKeeps | rsyslog/vendored_src/libfastjson/libfastjson/json_tokener.c:269-921 | Every case of the switch keeps the invariant of the current level, the levels below and the local variables. |
| TokenerSafety.AtMostSixRedos | rsyslog/vendored_src/libfastjson/libfastjson/json_tokener.c:267-924 | No character is sent back to the switch more than six times, whatever the nesting depth. |
| TokenerSpec.RedoDecreases | rsyslog/vendored_src/libfastjson/libfastjson/json_tokener.c:267-924 | Every jump to `redo_char`, from any state at all, lowers a lexicographic measure that does not involve the input. |
| TokenerSafety.CallDefined | rsyslog/vendored_src/libfastjson/libfastjson/json_tokener.c:542-558 | A call shifts by a negative amount if and only if it starts inside a cut surrogate pair with a hexadecimal digit or a NUL (behind the NUL the error code hides it); it leaves a pair cut if and only if it started inside one, or comes to a byte that completes a high surrogate with exactly a backslash and u behind it (or to a NUL that completes one, with a backslash and u behind it). |
| TokenerSafety.RunCutsPair | rsyslog/vendored_src/libfastjson/libfastjson/json_tokener.c:605-621 | The same for the loop: which byte of a chunk leaves a surrogate pair cut. |
| TokenerSafety.PrematureIffNulInComment | rsyslog/vendored_src/libfastjson/libfastjson/json_tokener.c:926-949 | A value is returned although an array or object is open if and only if the call comes to a NUL while it is inside a comment behind a complete child of an open level, which is decided by the bytes before the NUL; never without a NUL, and never in strict mode. |
| TokenerSafety.PrematureExample | rsyslog/vendored_src/libfastjson/libfastjson/json_tokener.c:926-949 | A concrete input that is reported as a success although its array is not closed. |
| TokenerValues.FedIsSound | rsyslog/vendored_src/libfastjson/libfastjson/json_tokener.c:236-953 | Every value that is returned for arbitrary bytes in arbitrary chunks has distinct, NUL-free keys, 64-bit integers and a height below the maximum depth. |
| TokenerValues.ReturnedIsSound | rsyslog/vendored_src/libfastjson/libfastjson/json_tokener.c:236-953 | The same for one call, together with the invariant behind it: every level of the stack leaves room for the levels above it. |
| TokenerValues.PrintedAgain | rsyslog/vendored_src/libfastjson/libfastjson/json_tokener.c:236-953 | Whatever a new tokener returns for arbitrary chunks: if it holds no double and no NUL inside a string, its text in every style is parsed back to the same value. |
| Unicode.EscapesDecodeExactly | rsyslog/vendored_src/libfastjson/libfastjson/json_tokener.c:542-677 | For every run of unicode escapes in a one-shot parse the string is well-formed UTF-8 (section 3 of RFC 3629), and it is the encoding of what the escapes mean if and only if no surrogate pair denotes a code point whose low 16 bits lie in D800..DFFF. |
| Unicode.LookalikeExample | rsyslog/vendored_src/libfastjson/libfastjson/json_tokener.c:590-635 | The pair D836 DC00 means U+1D800 and is returned as the replacement character. |
| Unicode.ExactIffNoLookalikes | rsyslog/vendored_src/libfastjson/libfastjson/json_tokener.c:100-104 | The 16-bit surrogate tests, applied to combined code points, do harm exactly when such a code point occurs. |
| Unicode.StringOfEscapes | rsyslog/vendored_src/libfastjson/libfastjson/json_tokener.c:542-677 | The tokener's result on a string of escapes is the UTF-8 encoding of an explicit list of scalar values, unpaired surrogates becoming EF BF BD. |
| Unicode.Utf8RoundTrip | rsyslog/vendored_src/libfastjson/libfastjson/json_tokener.c:591-670 | An independent strict decoder recovers every list of scalar values from its encoding. |
| Unicode.HexDigitsMean | rsyslog/vendored_src/libfastjson/libfastjson/json_tokener.c:542-560 | The digits and the letters of either case stand for 0 to 15. |
| UnicodeCuts.CutInsidePair | rsyslog/vendored_src/libfastjson/libfastjson/json_tokener.c:671-675 | A chunk that ends behind one to three digits of the escape that follows a high surrogate loses the surrogate: two replacement characters for a pair, otherwise a replacement character and the other code point. |
| Tokener.Tokener.constructor | rsyslog/vendored_src/libfastjson/libfastjson/json_tokener.c:106-122 | A new tokener is in the initial state of the automaton, with a fresh stack of the given depth. |
| Tokener.Tokener.ParseEx | rsyslog/vendored_src/libfastjson/libfastjson/json_tokener.c:236-953 | The loop with its jumps, tight loops and in-place stack does on every byte string what the automaton does: same error, value, offset and remaining state. |
| Tokener.Tokener.ParseLoop | rsyslog/vendored_src/libfastjson/libfastjson/json_tokener.c:265-924 | The main loop ends where the automaton's run ends, with the same error and the same rest of the input. |
| Tokener.Tokener.RedoLoop | rsyslog/vendored_src/libfastjson/libfastjson/json_tokener.c:267-269 | The jumps to `redo_char` terminate and preserve the remaining run. |
| Tokener.Tokener.SwitchCase | rsyslog/vendored_src/libfastjson/libfastjson/json_tokener.c:269-921 | One pass through the switch continues the automaton's run and makes progress in input or measure. |
| Tokener.Tokener.EatWsCase | rsyslog/vendored_src/libfastjson/libfastjson/json_tokener.c:270-284 | Skips white space in a tight loop, or starts a comment. |
| Tokener.Tokener.StartCase | rsyslog/vendored_src/libfastjson/libfastjson/json_tokener.c:286-354 | Chooses the state for the first character of a value. |
| Tokener.Tokener.FinishCase | rsyslog/vendored_src/libfastjson/libfastjson/json_tokener.c:356-362 | Hands a finished value to the level below, or stops at level 0. |
| Tokener.Tokener.InfCase | rsyslog/vendored_src/libfastjson/libfastjson/json_tokener.c:364-392 | One character of Infinity. |
| Tokener.Tokener.NullCase | rsyslog/vendored_src/libfastjson/libfastjson/json_tokener.c:393-426 | One character of null or NaN. |
| Tokener.Tokener.BooleanCase | rsyslog/vendored_src/libfastjson/libfastjson/json_tokener.c:679-710 | One character of true or false. |
| Tokener.Tokener.CommentCase | rsyslog/vendored_src/libfastjson/libfastjson/json_tokener.c:440-469 | The tight loops of both comment kinds. |
| Tokener.Tokener.CommentEdgeCase | rsyslog/vendored_src/libfastjson/libfastjson/json_tokener.c:428-479 | Beginning and end of a comment. |
| Tokener.Tokener.TextChars | rsyslog/vendored_src/libfastjson/libfastjson/json_tokener.c:440-504 | The tight loop that collects text: the characters passed are exactly those the automaton appends, and nothing is lost when the call ends inside it. |
| Tokener.Tokener.QuotedCase | rsyslog/vendored_src/libfastjson/libfastjson/json_tokener.c:481-504 | Strings and field names up to the quote or an escape. |
| Tokener.Tokener.StringEscapeCase | rsyslog/vendored_src/libfastjson/libfastjson/json_tokener.c:506-540 | The character behind a backslash. |
| Tokener.Tokener.EscapeUnicodeCase | rsyslog/vendored_src/libfastjson/libfastjson/json_tokener.c:542-677 | The tight loop for one or two four-digit escapes with look-ahead. |
| Tokener.Tokener.FourDigits | rsyslog/vendored_src/libfastjson/libfastjson/json_tokener.c:551-660 | What a completed group of four digits leads to: a pair, a replacement, a second escape, or the end of the call. |
| Tokener.Tokener.NumberCase | rsyslog/vendored_src/libfastjson/libfastjson/json_tokener.c:712-790 | Collects and converts a number. |
| Tokener.Tokener.CheckNumberChar | rsyslog/vendored_src/libfastjson/libfastjson/json_tokener.c:725-751 | At most one point, one exponent, and a minus sign only where a number may have one. |
| Tokener.Tokener.ArrayCase | rsyslog/vendored_src/libfastjson/libfastjson/json_tokener.c:792-811 | Closes an array or pushes a level for its next element. |
| Tokener.Tokener.PushLevel | rsyslog/vendored_src/libfastjson/libfastjson/json_tokener.c:798-810 | One level down, or the depth error when the stack is full. |
| Tokener.Tokener.AddCase | rsyslog/vendored_src/libfastjson/libfastjson/json_tokener.c:813-817 | Puts a finished child into its array or object. |
| Tokener.Tokener.ArraySepCase | rsyslog/vendored_src/libfastjson/libfastjson/json_tokener.c:819-830 | Behind an array element. |
| Tokener.Tokener.FieldStartCase | rsyslog/vendored_src/libfastjson/libfastjson/json_tokener.c:832-850 | In front of a field name. |
| Tokener.Tokener.ObjPunctuationCase | rsyslog/vendored_src/libfastjson/libfastjson/json_tokener.c:877-924 | Colon, comma and closing brace of an object. |
| Tokener.Tokener.ResetLevels | rsyslog/vendored_src/libfastjson/libfastjson/json_tokener.c:941-949 | After a success every level up to the current depth is reset, and the depth keeps its value. |
| Tokener.Tokener.PeekFails | rsyslog/vendored_src/libfastjson/libfastjson/json_tokener.c:216-226 | At the end of the buffer the error is success only if the top-level value is complete. |
| Printer.PrintBuf.PrintValue | rsyslog/vendored_src/libfastjson/libfastjson/json_object.c:286-334 | Appends exactly the text of the value to the buffer, for every value, level and flag set. |
| Printer.PrintBuf.PrintObject | rsyslog/vendored_src/libfastjson/libfastjson/json_object.c:286-334 | The loop over the members produces the text of the object. |
| Printer.PrintBuf.PrintArray | rsyslog/vendored_src/libfastjson/libfastjson/json_object.c:904-945 | The loop over the elements produces the text of the array. |
| Printer.PrintBuf.EscapeStr | rsyslog/vendored_src/libfastjson/libfastjson/json_object.c:143-180 | Appending runs of plain characters in one piece produces the escaped string, up to the first NUL. |
| Printer.PrintBuf.Indentation | rsyslog/vendored_src/libfastjson/libfastjson/json_object.c:269-284 | Tabs or two spaces per level, only when pretty-printing. |
| Layout.LaidOut | rsyslog/vendored_src/libfastjson/libfastjson/json_object.c:269-334 | In every style the text is the compact text (children joined by commas, names by colons, defined without the printer) with white space between two characters given by a table: a blank behind a colon, a line break, a blank and the child's indentation behind an opening bracket or a comma, a line break, the outer indentation and a blank in front of a closing bracket. Without white space outside of quotes every text is the compact text, which has none. |
| Layout.LaysValue | rsyslog/vendored_src/libfastjson/libfastjson/json_object.c:286-334 | The same for a value at any level: the induction over values. |
| Layout.EscapeSpells | rsyslog/vendored_src/libfastjson/libfastjson/json_object.c:143-180 | The escaped string spells each character as a table says: letters for five control characters, four lower-case hexadecimal digits for the others, a backslash in front of quotes, backslashes and slashes, everything else as it is. |
| Layout.SqueezeSpread | rsyslog/vendored_src/libfastjson/libfastjson/json_object.c:269-334 | Deleting white space outside of quotes undoes the layout. |
| Layout.SpacedExample | rsyslog/vendored_src/libfastjson/libfastjson/json_object.c:264-267 | The text of an object with one member in the default style. |
| Layout.PrettyExample | rsyslog/vendored_src/libfastjson/libfastjson/json_object.c:269-284 | The same with tabs, line breaks and blanks. |
| StoredPrinter.PrintStored | rsyslog/vendored_src/libfastjson/libfastjson/json_object.c:286-334 | Printing from the pages, through the iterator and over all holes, appends the text of the object that consists of the live pairs. |
| StoredPrinter.PrintMembers | rsyslog/vendored_src/libfastjson/libfastjson/json_object.c:297-322 | The loop over the iterator prints every live pair once, in slot order, with the right separators. |
| BufferedPrinter.DumpBuffered | rsyslog/vendored_src/libfastjson/libfastjson/json_print.c:507-529 | For every buffer of at least 32 bytes the callback receives exactly the text that the other printer produces, which is the laid out compact text, and the returned count is its length. |
| BufferedPrinter.BothPrinters | rsyslog/vendored_src/libfastjson/libfastjson/json_print.c:507-529 | The two printers append the same bytes, the laid out compact text, and the count is the number of these bytes. |
| BufferedPrinter.SizeExt | rsyslog/vendored_src/libfastjson/libfastjson/json_print.c:551-556 | The dry run returns the length of the text. |
| BufferedPrinter.Buffer.Flush | rsyslog/vendored_src/libfastjson/libfastjson/json_print.c:92-102 | Hands the buffer to the callback and empties it; nothing is lost or duplicated. |
| BufferedPrinter.Buffer.Append | rsyslog/vendored_src/libfastjson/libfastjson/json_print.c:111-136 | Whatever the sizes, the data follows everything written before, and the result counts what the callback got. |
| BufferedPrinter.Buffer.Printf | rsyslog/vendored_src/libfastjson/libfastjson/json_print.c:144-214 | Writes the text exactly, except that a text one shorter than the whole buffer loses its last character to a NUL, which only buffers below 32 bytes allow. |
| BufferedPrinter.Buffer.EscapeStr | rsyslog/vendored_src/libfastjson/libfastjson/json_print.c:269-297 | The escaped string, with flushes in between. |
| BufferedPrinter.Buffer.Indentation | rsyslog/vendored_src/libfastjson/libfastjson/json_print.c:301-319 | One append per level amounts to the same indentation as the other printer's single fill. |
| BufferedPrinter.Buffer.WriteObject | rsyslog/vendored_src/libfastjson/libfastjson/json_print.c:324-357 | The text of the object. |
| BufferedPrinter.Buffer.WriteArray | rsyslog/vendored_src/libfastjson/libfastjson/json_print.c:441-469 | The text of the array. |
| BufferedPrinter.Buffer.WriteString | rsyslog/vendored_src/libfastjson/libfastjson/json_print.c:434-437 | Quote, escaped string, quote, taken from left to right. |
| BufferedPrinter.Buffer.WriteValue | rsyslog/vendored_src/libfastjson/libfastjson/json_print.c:473-489 | The text of any value, and the number of bytes given to the callback meanwhile. |
| BufferedPrinter.IntFits | rsyslog/vendored_src/libfastjson/libfastjson/json_print.c:369-373 | A 64-bit integer needs at most 20 characters, so it always fits behind the check for 32 free bytes. |
| ObjectStore.RunAll | rsyslog/vendored_src/libfastjson/libfastjson/json_object.c:372-523 | After any run of additions, replacements and deletions on a new object: the slots hold the map, the live count is its size, live slots plus holes are the peak size, and there are max(1, ceil(peak / 8)) pages. |
| StoreSpec.RunIsMap | rsyslog/vendored_src/libfastjson/libfastjson/json_object.c:372-523 | The row of slots agrees with a finite map over every run, keys stay distinct, and its length is the largest size the map ever had. |
| StoreSpec.AddUpdatesMap | rsyslog/vendored_src/libfastjson/libfastjson/json_object.c:437-463 | Adding updates the map, wherever the pair is put. |
| StoreSpec.AddNewIsSafe | rsyslog/vendored_src/libfastjson/libfastjson/json_object.c:437-447 | Skipping the search keeps keys distinct if and only if the key was not there. |
| StoreSpec.DelRemoves | rsyslog/vendored_src/libfastjson/libfastjson/json_object.c:509-523 | Deleting removes the key and changes nothing else. |
| StoreSpec.AddKeepsOrder | rsyslog/vendored_src/libfastjson/libfastjson/json_object.c:437-463 | While nothing was deleted, the live pairs are those of the object that the tokener builds, in insertion order. |
| StoreSpec.AddCounts | rsyslog/vendored_src/libfastjson/libfastjson/json_object.c:394-435 | A hole is filled before a slot is added; counts change accordingly. |
| StoreSpec.AddTouchesOne | rsyslog/vendored_src/libfastjson/libfastjson/json_object.c:394-463 | Adding sets one slot and leaves all others alone: the first slot with the key, otherwise the first hole, otherwise a new last slot. |
| StoreSpec.DelTouchesOne | rsyslog/vendored_src/libfastjson/libfastjson/json_object.c:509-523 | Deleting empties the first slot with the key and leaves all others alone. |
| ObjectStore.Object.constructor | rsyslog/vendored_src/libfastjson/libfastjson/json_object.c:356-366 | A new object has one empty page. |
| ObjectStore.Object.FindChild | rsyslog/vendored_src/libfastjson/libfastjson/json_object.c:372-389 | Finds the first slot with the key, or reports that there is none. |
| ObjectStore.Object.FindHole | rsyslog/vendored_src/libfastjson/libfastjson/json_object.c:400-417 | The search over pages finds the first hole, and there is one. |
| ObjectStore.Object.GetEmptyEntry | rsyslog/vendored_src/libfastjson/libfastjson/json_object.c:394-435 | Returns the first hole or the slot behind the last one, with a new page exactly when the last is full; what is stored does not move. |
| ObjectStore.Object.AddEx | rsyslog/vendored_src/libfastjson/libfastjson/json_object.c:437-463 | The pages hold the row that the abstract addition gives, and all counters agree. |
| ObjectStore.Object.Remove | rsyslog/vendored_src/libfastjson/libfastjson/json_object.c:509-523 | The pages hold the row with the slot emptied; the number of pages stays. |
| ObjectStore.Object.Get | rsyslog/vendored_src/libfastjson/libfastjson/json_object.c:485-507 | A lookup answers what the map says, for every key. |
| ObjectStore.Object.Iterate | rsyslog/vendored_src/libfastjson/libfastjson/json_object_iterator.c:64-187 | The loop of every caller visits each live pair exactly once, in slot order, and stops. |
| ObjectStore.Iterator.Begin | rsyslog/vendored_src/libfastjson/libfastjson/json_object_iterator.c:64-84 | Stands on the first live slot, or equals the end iterator if there is none. |
| ObjectStore.Iterator.Next | rsyslog/vendored_src/libfastjson/libfastjson/json_object_iterator.c:105-123 | Moves to the next live slot over all holes and pages in between, or to the end. |
| ObjectStore.Iterator.Equal | rsyslog/vendored_src/libfastjson/libfastjson/json_object_iterator.c:163-187 | Position matters only while objects remain. |
| RuleBase.BuildRuleBase | rsyslog/vendored_src/liblognorm/liblognorm/src/samp.c:289-384 | End to end: building any rules without alternatives and optimizing the DAG gives a rule base that accepts a message exactly if one of the rules, read piece by piece, matches all of it; reference counts are right. |
| RuleBase.RuleRunsItems | rsyslog/vendored_src/liblognorm/liblognorm/src/samp.c:289-384 | The parser configurations of a rule match exactly what its pieces match one behind the other: literal text where it stands in the message, fields in the order in which they are written. |
| RuleBase.AcceptsIffRule | rsyslog/vendored_src/liblognorm/liblognorm/src/pdag.c:1395-1619 | A compiled rule set accepts a message if and only if some rule, applied parser by parser, consumes all of it. |
| RuleBase.TreeLanguage | rsyslog/vendored_src/liblognorm/liblognorm/src/pdag.c:836-983 | The root-to-terminal paths are exactly the added rules. |
| RuleBase.TreePath | rsyslog/vendored_src/liblognorm/liblognorm/src/pdag.c:899-938 | Adding a path of configurations keeps the tree and ends at the node whose word is that path. |
| RuleBase.TreeTerminal | rsyslog/vendored_src/liblognorm/liblognorm/src/samp.c:376 | Marking the last node adds exactly one rule. |
| RuleBase.LiteralTextMatches | rsyslog/vendored_src/liblognorm/liblognorm/src/samp.c:289-328 | Literal text, stored as one parser per character, matches exactly itself. |
| RuleBase.AddRule | rsyslog/vendored_src/liblognorm/liblognorm/src/samp.c:349-384 | Adding a rule to a tree with rules X gives a tree with the rules X and the new one. |
| RuleBase.AddItems | rsyslog/vendored_src/liblognorm/liblognorm/src/samp.c:349-373 | The loop over literals and fields adds the path of their configurations. |
| RuleBase.AddLiteral | rsyslog/vendored_src/liblognorm/liblognorm/src/samp.c:289-328 | One edge per character. |
| RuleBase.AddField | rsyslog/vendored_src/liblognorm/liblognorm/src/pdag.c:990-997 | Adds the configurations of one field description. |
| RuleTree.AddParserInstance | rsyslog/vendored_src/liblognorm/liblognorm/src/pdag.c:836-887 | Re-uses the edge with the same configuration or adds one to a new or given node; reference counts stay exact and no node gets two parsers with the same configuration. |
| RuleTree.AddEdgeFormed | rsyslog/vendored_src/liblognorm/liblognorm/src/pdag.c:836-887 | The same for one edge as a function of the heap: exact counts, no duplicates, nothing but growth. |
| RuleTree.AddParsers | rsyslog/vendored_src/liblognorm/liblognorm/src/pdag.c:899-938 | Arrays of parsers, in sequence or as alternatives, keep all reference counts exact; the call succeeds exactly if there is no further alternative inside, and then a sequence has added one path, and alternatives one path each, every one made to start towards the node where the one before it ended. |
| RuleTree.AddParserInternal | rsyslog/vendored_src/liblognorm/liblognorm/src/pdag.c:945-983 | The same for any configuration; it succeeds exactly if an alternative occurs at most on the outside. |
| AlternativeWords.AlternativesSay | rsyslog/vendored_src/liblognorm/liblognorm/src/pdag.c:899-938 | For all alternatives of sequences of parsers, also such that start alike, at any node without parsers of any DAG: the sequences that lead through them are exactly the alternatives if and only if behind the first there are only repetitions of it and single parsers with which it does not start. |
| AlternativeWords.AltsLanguage | rsyslog/vendored_src/liblognorm/liblognorm/src/pdag.c:899-938 | If the alternatives start differently, the sequences of parsers that lead to the common node are exactly: each alternative with, of every later one, all but the first parser appended; and behind that node nothing is there yet. |
| AlternativeWords.AltsWords | rsyslog/vendored_src/liblognorm/liblognorm/src/pdag.c:899-938 | The same seen from any other node of the DAG: the ways to the common node are the ways to the node before the alternatives with one of these appended, and the ways to all older nodes are unchanged. |
| AlternativeWords.SpellsItself | rsyslog/vendored_src/liblognorm/liblognorm/src/pdag.c:899-938 | These are the alternatives themselves if and only if all but the first are single parsers. |
| AlternativeRules.AltsAccept | rsyslog/vendored_src/liblognorm/liblognorm/src/pdag.c:1395-1619 | At a node without parsers, alternatives that start differently accept exactly what one of them, as it has become, consumes up to the end of the message. |
| AlternativeRules.GroupsAccept | rsyslog/vendored_src/liblognorm/liblognorm/src/pdag.c:1395-1619 | A rule of any number of fields with alternatives, one behind the other, accepts exactly the messages that one alternative of every field, as it has become, consumes. |
| AlternativeRules.AsWritten | rsyslog/vendored_src/liblognorm/liblognorm/src/pdag.c:899-938 | If in every field only the first alternative is a sequence, this is one alternative of every field as it is written. |
| AlternativeRules.AddAnyField | rsyslog/vendored_src/liblognorm/liblognorm/src/pdag.c:990-997 | The code adds such a field with all reference counts exact. |
| AlternativeRules.BuildRule | rsyslog/vendored_src/liblognorm/liblognorm/src/samp.c:349-384 | End to end: the code builds the DAG of a rule of literals, fields and alternatives and optimizes it, and the rule base accepts exactly these messages. |
| AlternativeRules.SinglesAreAll | rsyslog/vendored_src/liblognorm/liblognorm/src/pdag.c:899-938 | At a node without parsers, alternatives of single parsers become its only parsers and lead to one node. |
| Alternatives.SinglesJoin | rsyslog/vendored_src/liblognorm/liblognorm/src/pdag.c:899-938 | Alternatives of single parsers lead to the common node from which the rule goes on if and only if the node had none of them before, or had the first and those that it had lead to one node. |
| Alternatives.AlternativeAccepts | rsyslog/vendored_src/liblognorm/liblognorm/src/pdag.c:1395-1619 | From a node with joined alternatives exactly those messages are accepted of which one alternative matches a beginning and the rest is accepted from the common node on. |
| Alternatives.JoinExample | rsyslog/vendored_src/liblognorm/liblognorm/src/pdag.c:854-870 | With the rule a in the rule base the alternative b, a does not join: nothing follows the node behind b. |
| Alternatives.SequenceLastIs | rsyslog/vendored_src/liblognorm/liblognorm/src/pdag.c:899-938 | The DAG that the alternative of a and the sequence b, c builds on an empty rule base. |
| AlternativeRules.SequenceLastAccepts | rsyslog/vendored_src/liblognorm/liblognorm/src/pdag.c:1395-1619 | At any node without parsers the alternative of a and the sequence b, c accepts a followed by c, or b followed by c; not what a alone matches. |
| AlternativeRules.SequenceFirstAccepts | rsyslog/vendored_src/liblognorm/liblognorm/src/pdag.c:1395-1619 | With the sequence in front, and a different from b, the alternative accepts what it says: b followed by c, or a. |
| PdagRefs.SoleEdge | rsyslog/vendored_src/liblognorm/liblognorm/src/pdag.c:350-362 | A node with reference count one is entered by exactly one parser. |
| PdagRefs.TargetLive | rsyslog/vendored_src/liblognorm/liblognorm/src/pdag.c:875-880 | No parser points to freed memory. |
| PdagRefs.TwoEdges | rsyslog/vendored_src/liblognorm/liblognorm/src/pdag.c:875-880 | Two parsers with the same target count twice. |
| PdagRefs.NothingLeft | rsyslog/vendored_src/liblognorm/liblognorm/src/pdag.c:312-334 | Counts being exact, without outside references every node has been freed. |
| PdagMemory.Memory.Delete | rsyslog/vendored_src/liblognorm/liblognorm/src/pdag.c:312-334 | Giving up one reference keeps every other count exact, frees only live nodes and never touches the nodes before it. |
| PdagMemory.Memory.DeleteAll | rsyslog/vendored_src/liblognorm/liblognorm/src/pdag.c:312-334 | Deleting the root frees every node, shared or not, exactly once. |
| PdagMemory.Memory.Free | rsyslog/vendored_src/liblognorm/liblognorm/src/pdag.c:332 | Memory is freed only while it is live. |
| Pdag.MatchIffAccepts | rsyslog/vendored_src/liblognorm/liblognorm/src/pdag.c:1533-1619 | The search returns 0 if and only if some path of successful parsers reaches a terminal node at the end of the message. |
| Pdag.MatchSound | rsyslog/vendored_src/liblognorm/liblognorm/src/pdag.c:1533-1619 | A result comes from the accepting path on which at every place no earlier parser leads to acceptance and at whose end none does; that path gives the fields, and the first accepting place on it the end node. |
| Pdag.FieldsExtracted | rsyslog/vendored_src/liblognorm/liblognorm/src/pdag.c:1351-1388 | The fields of a path are, from its last parser to its first, those of the parsers that have a name: the configuration of the parser, and the part of the message between the places before and behind it. |
| Pdag.MatchIffResult | rsyslog/vendored_src/liblognorm/liblognorm/src/pdag.c:1533-1619 | The search returns a result if and only if it can be read off the preferred path in this way; there is only one. |
| Pdag.OnePreferred | rsyslog/vendored_src/liblognorm/liblognorm/src/pdag.c:1558-1603 | There is only one path that the order of the parsers prefers. |
| Pdag.ParseIffConsumes | rsyslog/vendored_src/liblognorm/liblognorm/src/parser.c:1420-1440 | A parser stops where the text of its literal ends, or where the field parser says, and not behind the message. |
| Pdag.MatchComplete | rsyslog/vendored_src/liblognorm/liblognorm/src/pdag.c:1558-1603 | If any path is accepting, the ordered search finds one. |
| Normalizer.Npb.NormalizeRec | rsyslog/vendored_src/liblognorm/liblognorm/src/pdag.c:1533-1619 | The recursive code returns what the search says, sets the end node and adds the fields on success, leaves both untouched on failure despite backtracking, and moves the mark as specified. |
| Normalizer.Npb.ParseLiteral | rsyslog/vendored_src/liblognorm/liblognorm/src/parser.c:1420-1440 | Succeeds exactly if the literal stands at the offset. |
| Normalizer.Npb.TryParser | rsyslog/vendored_src/liblognorm/liblognorm/src/pdag.c:1395-1470 | Reports the length that the parser consumed. |
| Normalizer.Normalize | rsyslog/vendored_src/liblognorm/liblognorm/src/pdag.c:1621-1683 | Complete event exactly if the rules accept, and then with the end node and the fields that can be read off the preferred path, each with its part of the message; otherwise message = parsed part + unparsed data, no path of parsers reaches further, and one reaches that far. |
| Normalizer.MarkCovers | rsyslog/vendored_src/liblognorm/liblognorm/src/pdag.c:1546-1601 | The mark is at least every offset that an explored path reaches. |
| Normalizer.MarkReached | rsyslog/vendored_src/liblognorm/liblognorm/src/pdag.c:1546-1601 | The mark is its entry value or the offset of an explored path. |
| Normalizer.FailureExploresAll | rsyslog/vendored_src/liblognorm/liblognorm/src/pdag.c:1558-1603 | When nothing matches, every path of successful parsers has been explored. |
| Normalizer.FailureMark | rsyslog/vendored_src/liblognorm/liblognorm/src/pdag.c:1301-1318 | After a failure the mark is the furthest offset of any path. |
| Optimizer.CompactMatch | rsyslog/vendored_src/liblognorm/liblognorm/src/pdag.c:345-375 | Joining two literals changes no search result at any other node: not the success, not the end node, not the fields. |
| Optimizer.CompactMark | rsyslog/vendored_src/liblognorm/liblognorm/src/pdag.c:345-375 | It never raises the furthest offset. |
| Optimizer.CompactCounts | rsyslog/vendored_src/liblognorm/liblognorm/src/pdag.c:365-372 | It keeps all reference counts exact. |
| Optimizer.PrefixConcat | rsyslog/vendored_src/liblognorm/liblognorm/src/parser.c:1481-1494 | The joined literal matches exactly where the two match one after the other. |
| Optimizer.OptLitPathCompact | rsyslog/vendored_src/liblognorm/liblognorm/src/pdag.c:345-375 | Compacting a whole chain in memory, with its deletions, keeps results, marks and counts, frees only links of the chain, ends only when nothing is left to compact there, and spoils nothing elsewhere. |
| Optimizer.SortParsers | rsyslog/vendored_src/liblognorm/liblognorm/src/pdag.c:378-384 | A permutation in order of priority. |
| Optimizer.ReorderedMatch | rsyslog/vendored_src/liblognorm/liblognorm/src/pdag.c:398-400 | Whether a message is accepted does not depend on the order of the parsers. |
| Optimizer.ComponentOptimize | rsyslog/vendored_src/liblognorm/liblognorm/src/pdag.c:386-417 | Sorting and compacting a component, shared nodes included, leaves acceptance at every remaining node and all reference counts intact. Behind it every node that can be reached has its parsers in order and no literal that could be joined, only links of chains were freed, and all other nodes keep their mark, count and configurations. |
| Optimizer.DoneMeans | rsyslog/vendored_src/liblognorm/liblognorm/src/pdag.c:345-375 | What is left to do at a node, said of its parsers: they are in order of priority, and no nameless literal leads to a node with one way in, one nameless literal out, and one way into the next. |
| Optimizer.CompactKeeps | rsyslog/vendored_src/liblognorm/liblognorm/src/pdag.c:345-375 | Where nothing is left to do, nothing is left to do after a compaction elsewhere, although nodes are shared. |
| Optimizer.ReorderKeeps | rsyslog/vendored_src/liblognorm/liblognorm/src/pdag.c:398-400 | The same for sorting. |
| Optimizer.CompactTrims | rsyslog/vendored_src/liblognorm/liblognorm/src/pdag.c:345-375 | A compaction frees one link of a chain and makes no node a link. |
| Optimizer.Optimize | rsyslog/vendored_src/liblognorm/liblognorm/src/pdag.c:515-534 | The optimized rule base accepts exactly the same messages, and nothing is left to do in it. |
| RadixLookup.BuildAndLookup | rsyslog/vendored_src/liblognorm/liblognorm/src/v1_ptree.c:290-356 | End to end, in terms of the words alone: a tree built from any list of words accepts exactly these words; the result is not positive if and only if the message starts a word (or is empty), and is then minus the number of bytes to the next place where the words that it starts branch or end; if it is positive, it is what is left behind the longest common prefix with any word. |
| RadixLookup.LookupInWords | rsyslog/vendored_src/liblognorm/liblognorm/src/v1_ptree.c:650-807 | The same for every tree with these words that branches at every node without a word. |
| RadixLookup.LookupBranch | rsyslog/vendored_src/liblognorm/liblognorm/src/v1_ptree.c:650-807 | A result that is not positive is minus the number of bytes to the next place where the words that start with the message branch or end; 0 if the message is such a place. |
| RadixLookup.BuildTree | rsyslog/vendored_src/liblognorm/liblognorm/src/v1_ptree.c:290-356 | A tree built from words holds exactly these, and every node without a word has at least two children. |
| RadixLookup.LookupResult | rsyslog/vendored_src/liblognorm/liblognorm/src/v1_ptree.c:650-807 | 0 exactly if the message ends at a node; minus the number of missing bytes exactly if it ends inside a prefix; otherwise the message length minus its longest common prefix with any stored word. |
| RadixLookup.AcceptedIffStored | rsyslog/vendored_src/liblognorm/liblognorm/src/v1_ptree.c:876-883 | Exactly the stored words are accepted, when bytes are compared as they are. |
| RadixLookup.SignedAccepted | rsyslog/vendored_src/liblognorm/liblognorm/src/v1_ptree.c:684 | Where plain char is signed, a stored word is found if and only if, on its way down, none of the bytes that it has in common with a prefix is 80 hexadecimal or above. |
| RadixLookup.LoneWord | rsyslog/vendored_src/liblognorm/liblognorm/src/v1_ptree.c:684 | The first word that the code adds to an empty tree is found again under signed char if and only if it has no such byte. |
| RadixLookup.SignedExample | rsyslog/vendored_src/liblognorm/liblognorm/src/v1_ptree.c:684 | The tree that the code builds from the one-byte word C3 does not find it. |
| RadixLookup.NormalizeRec | rsyslog/vendored_src/liblognorm/liblognorm/src/v1_ptree.c:650-807 | The loop over the prefix and the branch table compute the specified result. |
| RadixTree.PTree.AddWord | rsyslog/vendored_src/liblognorm/liblognorm/src/v1_ptree.c:290-356 | The stored words W become W and the new word; every parent pointer still addresses the slot that holds the node. |
| RadixTree.PTree.BuildPTree | rsyslog/vendored_src/liblognorm/liblognorm/src/v1_ptree.c:290-356 | In all four cases the returned node stands for exactly the given word, no other node changes its text, and the tree with its parent pointers is intact. |
| RadixTree.PTree.SplitTree | rsyslog/vendored_src/liblognorm/liblognorm/src/v1_ptree.c:234-287 | The split, with inline and allocated prefixes and the parent's slot rewritten in place, yields the specified nodes. |
| RadixTree.SplitTreeOk | rsyslog/vendored_src/liblognorm/liblognorm/src/v1_ptree.c:234-287 | After a split every node hangs where its parent pointer says, and prefix storage fits its length. |
| RadixTree.SplitFull | rsyslog/vendored_src/liblognorm/liblognorm/src/v1_ptree.c:246-279 | No node's text changes by a split. |
| RadixTree.CutPrefix | rsyslog/vendored_src/liblognorm/liblognorm/src/v1_ptree.c:264-275 | Moving the rest of a prefix, in place or from allocated memory into the node, keeps exactly the bytes behind the split. |
| RadixTree.PTree.AddPTree | rsyslog/vendored_src/liblognorm/liblognorm/src/v1_ptree.c:180-220 | Adds the rest of a word in an empty slot, or as the prefix of the empty root. |
| RadixTree.PTree.FillRoot | rsyslog/vendored_src/liblognorm/liblognorm/src/v1_ptree.c:192-199 | The first word becomes the prefix of the root. |
| RadixTree.AddLeafOk | rsyslog/vendored_src/liblognorm/liblognorm/src/v1_ptree.c:208-219 | A new leaf disturbs nobody. |
| RadixTree.StoredPrefixAlways | rsyslog/vendored_src/liblognorm/liblognorm/src/v1_ptree.c:120-140 | For buffers of a given length the copy from the beginning is the rest behind offs for every buffer if and only if offs is 0 or the whole length; otherwise a concrete buffer is copied wrongly. |
| ActionRetry.RunEvents | rsyslog/vendored_src/rsyslog/rsyslog/action.c:727-840 | Over every run the counter stays in 0..20 and the k-th suspension since the action was last ready lasts interval * (min(k, 20) / 10 + 1), at most three intervals. |
| ActionRetry.Action.ActionDoRetry | rsyslog/vendored_src/rsyslog/rsyslog/action.c:780-840 | The loop ends in the one way that the answers leave (see RetryIffVerdict). An OK at the first call makes the action ready exactly if the resumptions in a row that did not work are 0 to 9 or no multiple of ten; a later OK always does. The back-off is kept as specified. |
| ActionRetry.RetryIffVerdict | rsyslog/vendored_src/rsyslog/rsyslog/action.c:780-840 | How a call ends, said of the answers alone: the calls go on until an OK that counts, one SUSPENDED more than the limit, or shutdown, and the count of resumptions in a row starts again exactly when an answer was not believed. |
| ActionRetry.OkBelieved | rsyslog/vendored_src/rsyslog/rsyslog/action.c:796-812 | When an OK is believed. |
| ActionRetry.FailuresAnsweredOk | rsyslog/vendored_src/rsyslog/rsyslog/action.c:786-803 | Over every run of failures that are answered with OK, exactly every tenth OK is not believed, and the count starts again. |
| ActionRetry.Action.ActionSuspend | rsyslog/vendored_src/rsyslog/rsyslog/action.c:727-762 | The next retry time is now plus the back-off of this suspension. |
| ActionRetry.Action.ActionTryResume | rsyslog/vendored_src/rsyslog/rsyslog/action.c:889-927 | A suspended action is not touched before its retry time and is retried from then on, with the outcome, the suspension and the next retry time given by the answers; an action in another state is not touched at all. |
| ActionRetry.RetryEnds | rsyslog/vendored_src/rsyslog/rsyslog/action.c:791-832 | With a module that answers only OK or SUSPENDED, a limited count and no shutdown: at most count + 1 calls, and the action ends ready or suspended. |
| ActionRetry.StillRetrying | rsyslog/vendored_src/rsyslog/rsyslog/action.c:791-832 | Without shutdown the loop goes on for ever exactly if no OK is believed and the SUSPENDED answers do not exceed the limit. |
| ActionRetry.SpinExample | rsyslog/vendored_src/rsyslog/rsyslog/action.c:829-831 | A module that answers with DISABLE_ACTION is called again and again. |
| ActionRetry.BackOffBounds | rsyslog/vendored_src/rsyslog/rsyslog/action.c:740 | The back-off never shrinks and is one interval for the first ten suspensions in a row, two for the next ten and three from then on. |
| ActionLimits.EveryNth | rsyslog/vendored_src/rsyslog/rsyslog/action.c:1733-1750 | Of the first k messages exactly floor(k / n) are executed. |
| ActionLimits.ExecutedIff | rsyslog/vendored_src/rsyslog/rsyslog/action.c:1721-1816 | Over every run, whatever the clock does: a message is executed if and only if it counts (it is no mark, or half the mark interval younger than the last executed message), it completes a round of n (the messages that count since the last restart, which happens when more than the timeout has passed since the restart before), and the interval since the last execution is over; all of it said of the messages and of which of them were executed. |
| ActionLimits.MarksExecuted | rsyslog/vendored_src/rsyslog/rsyslog/action.c:1801-1805 | With no other limit, a mark is executed exactly if its clock is at least half the mark interval after the time at which the last executed message was generated. |
| ActionLimits.IntervalExecuted | rsyslog/vendored_src/rsyslog/rsyslog/action.c:1760-1771 | With a clock that does not go back, the interval counts from the last execution: a message that counts and completes a round is executed exactly if it is over. |
| ActionLimits.OncePerInterval | rsyslog/vendored_src/rsyslog/rsyslog/action.c:1760-1771 | With a clock that does not go back, any two executions are at least the interval apart, whatever else is configured. |
| ActionLimits.AtMostPerSpan | rsyslog/vendored_src/rsyslog/rsyslog/action.c:1760-1771 | At most span / interval + 1 executions fall into a span of time. |
| ActionLimits.ClockBackExample | rsyslog/vendored_src/rsyslog/rsyslog/action.c:272-278 | When the clock goes back the spacing is lost. |
| ActionLimits.SafeIffNotBehind | rsyslog/vendored_src/rsyslog/rsyslog/action.c:272-278 | While executions stay the interval apart whatever comes with a steady clock, the next message keeps this if and only if the clock is not read behind the last execution. |
| ActionLimits.SafeIffRemembered | rsyslog/vendored_src/rsyslog/rsyslog/action.c:272-278 | After any run, with any clock: executions stay the interval apart whatever comes with a steady clock if and only if they are so far and the last one is the one that is remembered. |
| ActionLimits.Action.SubmitComplex | rsyslog/vendored_src/rsyslog/rsyslog/action.c:1790-1816 | The code with its cached clock does what the specification says for every message. |
| ActionLimits.Action.WriteToAction | rsyslog/vendored_src/rsyslog/rsyslog/action.c:1721-1781 | The same for the part behind the check for mark messages. |
| ActionLimits.Action.GetActNow | rsyslog/vendored_src/rsyslog/rsyslog/action.c:268-281 | The clock is read once per message; a time of last execution in the future is forgotten. |
| ActionLimits.SubmitAll | rsyslog/vendored_src/rsyslog/rsyslog/action.c:1790-1816 | The code, run over any messages, executes exactly those that count, complete a round and come when the interval is over. |
| SyslogTime.ConvertsGregorian | rsyslog/vendored_src/liblognorm/liblognorm/src/parser.c:214-303 | For every valid date in 1970..2100: 86400 times the Gregorian day number plus the time of day, corrected by the signed offset. |
| SyslogTime.OtherYears | rsyslog/vendored_src/liblognorm/liblognorm/src/parser.c:221-228 | Years outside of the table give 0. |
| SyslogTime.YearTable | rsyslog/vendored_src/liblognorm/liblognorm/src/parser.c:163-193 | Every entry of the table that a year from 1970 to 2100 uses is the end of its year in a recursively defined calendar. |
| SyslogTime.OrderKept | rsyslog/vendored_src/liblognorm/liblognorm/src/parser.c:214-303 | In UTC, for seconds 0..59, the results are ordered exactly as the timestamps (section 6.2.3 of RFC 5424). |
| SyslogTime.LeapSecond | rsyslog/vendored_src/liblognorm/liblognorm/src/parser.c:285-287 | Second 60 is the first second of the next minute, also when that is in the next hour; 23:59:60 in UTC is midnight of the next day. |
| SyslogTime.LeapSecondAtMidnight | rsyslog/vendored_src/liblognorm/liblognorm/src/parser.c:285-287 | With any offset 23:59:60 gives the same as midnight of the next calendar day, across the end of months and years. |

## Left out

- Allocation failures, locale handling, debug output, statistics, DOT output and the
  reference counting of JSON values: plumbing around the modelled code.
- `printbuf.c` and `arraylist.c` are a growing byte string and a growing sequence.
- JSON doubles: a double keeps its source text, and `sscanf("%lf")` is a parameter of
  the tokener; the formatting of doubles without source text is not part of this model.
- Layout.LaidOut: the source text of a double is copied to the output as it is; the layout is
  stated for values whose doubles hold no white space, quotes, brackets, commas or colons
  there, such as all that the tokener makes.
- Documents: the grammar has no `-Infinity`, whose acceptance depends on what was read before
  the document (`DocumentTokens.MinusInfinity` says when it is read).
- Case-insensitive key comparison (`strcasecmp` in `_fjson_find_child`): only the
  default, case-sensitive comparison is modelled.
- The check of `len` against 2 GB: lengths are unbounded here.
- Inside a value the printers read an object as the list of its pairs; that the pages
  of one object print the same is proved in `StoredPrinter`, where the values of the
  pairs are again plain values.
- Page pointers are positions in a sequence of pages, and the slots of a page a
  sequence of length eight: aliasing between pages is not modelled.
- ObjectStore.Object.AddEx: the ownership of keys (constant or copied) and the release
  of replaced values are not modelled.
- Custom types and `repeat` in the DAG, `ADD_RULE`, tags and annotation.
- `fixJSON` is modelled as adding a named extract; the special field names "." and ".."
  are not.
- Chunks of a rule base text: splitting a rule line into literals and fields, "%%" and
  backslash escapes in literals are not part of this model; rules come as lists of
  literals and configurations.
- `nparsers` is not limited to 255, and the comparison in `qsort_parserCmp` does not
  overflow.
- Optimizer.SortParsers: stands for `qsort`; only that the result is a permutation in
  order of priority is used, not the order of equal priorities.
- RuleTree.AddParsers: after a failure only the reference counts are stated, not which
  parsers have been added. Empty arrays are excluded because the source would continue with
  a null pointer.
- RuleTree.AddParserInternal: the same.
- AlternativeRules.BuildRule: a rule base of one rule, whose alternatives start differently.
  How alternatives meet the parsers of another rule is stated for single parsers
  (`Alternatives.SinglesJoin`).
- Tokener.Tokener.EscapeUnicodeCase: with `len == -1` the read behind the terminating NUL
  is an empty look-ahead here; `Cuts.BehindTheNul` says when it matters.
- PdagMemory.Memory.Delete: a parser leaves the table when it is deleted; in the source
  it stays there, unused, until the table is freed.
- v1 field parsers, the iptables branch and the "rest" motif; prefix lengths are not
  limited to 65535.
- RadixTree.PTree.BuildPTree: requires the calling protocol of v1_samp.c, under which
  every node stores a word or leads to others.
- RadixTree.CutPrefix: the bytes of the union behind a prefix that was moved into the
  node are not looked at, and are zero here.
- BufferedPrinter.DumpBuffered: requires a buffer of at least 32 bytes, as all callers in
  the library have; `BufferedPrinter.Buffer.Printf` covers smaller ones.
- ActionRetry.Action.ActionSuspend: includes the increment of the retry counter that
  its only caller makes next.
- ActionLimits.Action.WriteToAction: the time of the last execution is read before the
  clock in the comparison with the interval; C leaves the order open, which matters
  only when the clock goes back. The clock does not return its error value.
- `actionCommit`, queues, worker threads, HUP handling and configuration loading: they
  rest on I/O and on headers outside the vendored files.
- templates, encoders, libestr and the scripts of the repository: string formatting and
  glue without a protocol of their own.
