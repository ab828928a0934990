# Verified core of the C and C++ utilities

A Dafny model of the parts of this repository that carry real algorithms or
real protocols, with proofs of what those parts are for. Five areas are
covered.

* **Byte-level codecs of `util/httplib.h`.** The incremental multipart/form-data
  parser and its serializer, the chunked transfer coding (section 7.1 of RFC
  9112) over a buffered socket stream and a line reader, percent-encoding and
  query strings (section 2.1 of RFC 3986), path checking, base64 (section 4 of
  RFC 4648), and byte ranges (section 14.1.2 of RFC 9110).
* **The request protocol of the HTTP client in `util/httplib.h`.** The socket
  state shared by `send`, nested sends and `stop`, as steps of any number of
  threads; and the mutual recursion of `send`, `handle_request` and `redirect`.
* **`util/bounded_blocking_queue.h`.** The ring, and any number of threads
  putting, getting and closing.
* **`util/threadpool.c`.** The ring of pending tasks, and the life of a pool from creation to
  the final free.
* **Catch (`c++/20180223_c++_unittest_catch/catch.hpp`).** The section tracker,
  which decides on every run of a test body which sections to enter, and the
  generators, which count through all combinations of values.

Code that updates fields or buffers in place is modelled by classes, arrays and
loops, each proved against a specification function; what the source promises is
then proved of that function for all inputs. Concurrency is modelled by step
systems: a lock-protected section is one step and is the same function that the
class method is proved to compute, condition-variable waits are thread states,
and a run is any interleaving. Wake-ups without a signal are allowed. What the
network, the scheduler or a callback does is chosen freely: a nondeterministic
choice in a method, a parameter of a function, or an action of a step system.

## How the files fit together

| file | holds |
|---|---|
| `Machine.dfy`, `Text.dfy`, `Splitting.dfy` | platform limits, byte strings and searching, `trim` and `split` |
| `Multipart.dfy`, `MultipartParser.dfy`, `MultipartRoundTrip.dfy`, `LostOpening.dfy`, `HeaderLimit.dfy`, `HeaderCuts.dfy`, `Refusals.dfy`, `DispositionGrammar.dfy` | the parser as a machine over unread bytes, the parser class, the serializer and the round trip, what a cut inside the opening delimiter does, what cuts do under the limit on header lines, what a callback that refuses does, and which header lines are read |
| `Streams.dfy`, `ChunkedCoding.dfy`, `ChunkedWriter.dfy`, `ChunkedGrammar.dfy` | the socket stream and line reader, the chunked reader, the chunked writer and the round trip, and which bytes the reader accepts |
| `Query.dfy`, `QueryText.dfy`, `QueryKeys.dfy` | percent-encoding, query strings, and which keys survive them |
| `Paths.dfy` | paths that stay inside their directory |
| `Base64.dfy`, `Base64Encoder.dfy` | the definition and its decoder, the encoder with its 32-bit accumulator |
| `Ranges.dfy`, `RangeGrammar.dfy`, `RangesData.dfy`, `RangesRead.dfy` | the Range header and its grammar, the multipart/byteranges body and its announced length, and the body read back |
| `Hex.dfy` | hexadecimal text in caller-owned buffers |
| `ClientSocket.dfy`, `Redirects.dfy`, `RedirectAnswers.dfy` | the shared client state and its threads, the recursion of redirects and retries, and what it answers |
| `BlockingQueue.dfy` | the ring and its threads |
| `ThreadPool.dfy`, `PoolThreads.dfy` | the ring of pending tasks, the threads of a pool |
| `Sections.dfy`, `TrackerStates.dfy`, `SectionPasses.dfy`, `SectionTracker.dfy`, `SectionCounts.dfy` | trees of sections and the runs they need, the states of their trackers, what one pass does to them, the tracker context that makes the runs, and how many there are |
| `Generators.dfy`, `TestLoop.dfy` | the generator counter, and a test case run through for every combination |

## Results that differ from what one might expect

The model does what the code does. Where a natural property is false of the
code, a lemma gives an input that breaks it and another states the exact
condition under which it holds.

* The items of a serialized form come back from a sequence of `parse` calls
  exactly when no call ends inside the opening delimiter and none ends where a
  header line is then found over the limit (`HeaderCuts.ItemsBackExactly`). A cut
  inside the opening delimiter can lose the first item while every call succeeds
  and the form counts as valid (`LostOpening.FirstItemLost`). A Content-Type line
  over the limit is accepted in one call but not when a call ends before it
  (`HeaderCuts.LongTypeCut`).
* For any body, parsing starts with the first call that holds an opening delimiter
  whole (`Multipart.StartsWithFirstWhole`, `Multipart.SplitOpening`). Elsewhere a
  cut is harmless as long as header lines are under the limit and nothing follows
  the closing delimiter (`Multipart.CutAnywhere`); text after it is ignored in the
  same call and can be refused in a later one (`Multipart.EpilogueCut`).
* A serialized form is refused exactly when a Content-Disposition line is longer
  than the header limit (`MultipartRoundTrip.AcceptedIffFits`), and the body of
  an empty form is never valid (`MultipartRoundTrip.EmptyListNotValid`).
* An empty write at the end of a provider call ends a chunked response without
  its terminator (`ChunkedWriter.EmptyWriteTruncates`); the body is complete
  exactly when `done` is reached (`ChunkedWriter.CompleteIffDone`,
  `ChunkedWriter.DonePerformedIff`).
* The chunked reader accepts more than complete bodies: exactly those, and bodies
  in which the data of some chunk is followed by something other than CR LF
  (`ChunkedGrammar.AcceptedIff`, `ChunkedGrammar.NotBoth`), such as a stream that
  is cut between the two (`ChunkedGrammar.CutLineEndAccepted`).
* Keys are not encoded in a query string, so all parameters of a query are read
  back exactly when all their keys are plain (`QueryKeys.AllSurviveIffPlain`); a
  single one among others can also be read from the text of another
  (`QueryKeys.ReadFromAnother`).
* The `size_t` announced for a multipart/byteranges body is the number of bytes
  written exactly when that number fits and the lengths of the ranges whose end
  wraps around are a multiple of 2^64 together (`RangesData.LengthIsWrittenIff`).
  Ranges with both bounds never wrap around (`RangesData.BoundedAnnounced`); an
  open-ended range of a provider does (`RangesData.OpenRangeMiscounted`), though
  several can cancel out (`RangesData.OpenRangesCancel`).
* A range that asks for the last bytes of a content whose size is not a `ssize_t`
  gets all of it (`RangesData.SuffixOfHuge`); for every other content the extent is
  the one the standard names (`RangesData.ExtentIsResolved`).
* A section whose own code has thrown is not entered again, so a leaf that the
  filters select may never be entered (`SectionTree.LeafMissed`). It is entered
  once exactly when, inside every section around it that throws, all that is
  selected before it throws too (`SectionTree.LeafEntered`).
* There can be more cycles than leaves (`SectionCounts.ThrowingLeafTakesTwo`): a
  section whose last section throws or is filtered out takes one more. When only
  leaves throw there is one cycle for each selected leaf exactly when there is no
  such section (`SectionCounts.OneRunPerLeafIff`); for every tree the number is
  read off the tree (`SectionCounts.RunsExactly`).
* A queue whose requested size is so large that the bytes of its slots do not fit a
  `size_t` is set up without the slots it needs; all others are sound
  (`Ring.QueueInit`, `Ring.SlotsSuffice`).
* A `stop` made while a request is in flight is forgotten when a nested `send_`
  starts (`ClientThreads.BeginErasesStop`, `ClientThreads.StopCanBeWithdrawn`);
  it takes effect when none does (`ClientThreads.StopTakesEffect`).

## Model

| member | source | states |
|---|---|---|
| `Multipart.CutAnywhere` | util/httplib.h:3955-4059 | Cutting a body into `parse` calls at any points outside its opening delimiter gives the same verdict, the same headers in order, the same content per part and the same validity as one call, when header lines are under the limit and nothing follows the closing delimiter |
| `Multipart.PiecesFrom` | util/httplib.h:3955-4059 | The same from any state of the parser past its opening delimiter |
| `Multipart.Resume` | util/httplib.h:3955-4059 | A call that stops for lack of input and goes on with the next bytes does what one call on all of them does |
| `Multipart.SplitOpening` | util/httplib.h:3967-3974 | When no single call holds the opening delimiter whole, nothing is ever delivered, whatever the pieces make when joined |
| `Multipart.StartsWithFirstWhole` | util/httplib.h:3967-3974 | In general parsing starts with the first call that holds an opening delimiter whole, and from there gives what one call on the rest gives |
| `Multipart.EpilogueCut` | util/httplib.h:4038-4054 | What follows the closing delimiter in the same call is ignored; in a call of its own it is taken for another part and refused when its first line is no header |
| `Multipart.StepStable` | util/httplib.h:3965-4056 | A turn of the loop that goes on does the same when more input follows |
| `Multipart.BodyPrefix` | util/httplib.h:4015-4037 | Delivering early the bytes that cannot start a delimiter does not change the content collected for a part |
| `Multipart.StepShrinks` | util/httplib.h:3965-4056 | Every turn that goes on leaves fewer unread bytes, or the same and a later state, so the loop terminates |
| `MultipartParser.MultipartFormDataParser.constructor` | util/httplib.h:3945-3951 | A new parser with its boundary set stands at the start, with the two delimiters made from the boundary |
| `MultipartParser.MultipartFormDataParser.StartWith` | util/httplib.h:4089-4096 | True exactly when the text occurs at that place of the unread bytes |
| `MultipartParser.MultipartFormDataParser.BufFind` | util/httplib.h:4108-4129 | The first place of the text in the unread bytes, or their number when there is none |
| `MultipartParser.MultipartFormDataParser.BufStartWith` | util/httplib.h:4104-4106 | True exactly when the unread bytes begin with the text |
| `MultipartParser.MultipartFormDataParser.BufCompact` | util/httplib.h:4131-4139 | Moving the unread bytes to the front in place, from the lowest index up, does not change them |
| `MultipartParser.MultipartFormDataParser.BufAppend` | util/httplib.h:4131-4147 | The unread bytes are the old ones followed by the new ones, and the indices stay in the buffer |
| `MultipartParser.MultipartFormDataParser.BufErase` | util/httplib.h:4149 | Drops that many unread bytes from the front |
| `MultipartParser.MultipartFormDataParser.InitialBoundary` | util/httplib.h:3967-3974 | Skips to the opening delimiter: stops for more input, refuses, or goes on, as the machine does |
| `MultipartParser.MultipartFormDataParser.EndHeaders` | util/httplib.h:3984-3993 | The empty line announces the part once and starts its content, or refuses when the callback does |
| `MultipartParser.MultipartFormDataParser.ReadHeader` | util/httplib.h:3995-4009 | A header line updates the file description or is refused, and is consumed with its line end |
| `MultipartParser.MultipartFormDataParser.ReadHeaders` | util/httplib.h:3980-4014 | The loop over header lines, including its one check of the line length on entry, ends or goes on as the machine does |
| `MultipartParser.MultipartFormDataParser.ReadBody` | util/httplib.h:4015-4037 | Delivers content up to the delimiter, or all but the bytes that may start one, as the machine does |
| `MultipartParser.MultipartFormDataParser.ReadBoundary` | util/httplib.h:4038-4054 | After a delimiter: another part, the end of a valid body, or stop |
| `MultipartParser.MultipartFormDataParser.Parse` | util/httplib.h:3955-4059 | One call returns, makes the callbacks and leaves the state that draining the machine on the unread bytes followed by the new ones gives; the buffer indices stay in range |
| `MultipartRoundTrip.SerializeFormData` | util/httplib.h:4200-4243 | The body written for a list of items, with or without the closing delimiter |
| `MultipartRoundTrip.WrittenInParts` | util/httplib.h:4200-4243 | A body can be written in several goes, all but the last of them unfinished |
| `MultipartRoundTrip.IsBoundaryCharsValid` | util/httplib.h:4188-4198 | True exactly when every character is a letter, a digit, a hyphen or an underscore |
| `MultipartRoundTrip.BoundaryCharacters` | util/httplib.h:4188-4198 | The characters of a valid boundary are the letters and digits, written out, the hyphen and the underscore |
| `MultipartRoundTrip.BoundaryRecovered` | util/httplib.h:3889-3899 | The boundary read from the generated Content-Type is the one it was made with, unless that is empty |
| `MultipartRoundTrip.QuotedBoundary` | util/httplib.h:3894-3898 | Quotes around a boundary are taken off, whatever is between them |
| `MultipartRoundTrip.PlainBoundary` | util/httplib.h:3889-3899 | Any other boundary is taken as it stands after the first key, and without the key or the boundary there is none |
| `MultipartRoundTrip.RoundTrip` | util/httplib.h:4200-4243 | Parsing a serialized non-empty item list gives back exactly its items, in order, and ends valid with nothing left over |
| `MultipartRoundTrip.SentFormReceived` | util/httplib.h:5550-5574 | The same with the boundary recovered from the generated Content-Type, when it is not empty |
| `MultipartRoundTrip.CutRoundTrip` | util/httplib.h:3955-4059 | The same however the serialized body is cut into `parse` calls outside its opening delimiter |
| `LostOpening.ItemsBackIff` | util/httplib.h:3955-4059 | However a serialized form with header lines under the limit is cut into `parse` calls, its items come back exactly when its opening delimiter is not cut, and then the form is valid with nothing left over |
| `LostOpening.SplitLosesItems` | util/httplib.h:3967-3974 | A cut inside the opening delimiter never gives back the items, whatever other delimiters the contents seem to hold and however long the header lines are |
| `LostOpening.FirstItemLost` | util/httplib.h:3967-3974 | For every form of two items or more whose first has no content type and no hyphen in its content there is a cut after which the call sequence succeeds and is valid but only the other items are delivered |
| `LostOpening.DrainLost` | util/httplib.h:3965-4056 | Draining any part of a form from where its opening was missed keeps the parser behind the form, so that the first item is never complete |
| `HeaderLimit.Continue` | util/httplib.h:3980-4014 | For any body: after a call that stops in the middle, the next refuses exactly if one call on both would, or if it begins inside a header line and finds it over the limit; otherwise both ways end in the same state and deliver the same |
| `HeaderLimit.Calls` | util/httplib.h:3955-4059 | A sequence of calls on any well-formed body succeeds exactly when none of them refuses so, and then leaves the parser and delivers what one call would |
| `HeaderCuts.ItemsBackExactly` | util/httplib.h:3955-4059 | However a serialized form with header lines of any length is cut into `parse` calls, its items come back exactly when its opening delimiter is not cut and no call ends where the length of a header line is then found over the limit, which is read off the lengths of the lines and the ends of the calls |
| `HeaderCuts.LongTypeCut` | util/httplib.h:3981-3982 | Every form whose first item has a Content-Type line over the limit is accepted in one call, if its Content-Disposition lines fit, and refused when a call ends just before that line |
| `HeaderCuts.PrefixStands` | util/httplib.h:3965-4056 | Where the parser stands after any first part of a serialized form: refused for a long line, inside a header with what part of a line, or elsewhere |
| `HeaderCuts.LateIff` | util/httplib.h:3981-3982 | The next call finds the line it begins in over the limit exactly when the ends of the two calls say so |
| `Refusals.DrainObeys` | util/httplib.h:3984-4037 | For every state and every callback: if one refuses, it is the last that is called and the only one, the call fails and the form is not valid, and the callbacks made are the first of those made when all accept; if none refuses the run is that one |
| `Refusals.PiecesObey` | util/httplib.h:3955-4059 | The same for any sequence of calls |
| `Refusals.FailsNotValid` | util/httplib.h:3984-4037 | A call that fails leaves a form that is not valid, unless a header line over the limit has ended it |
| `Refusals.CollectedBeforeRefusal` | util/httplib.h:4015-4037 | What has been collected when a callback refuses is a first part of what is collected when none does, the last part of it perhaps with less content |
| `MultipartRoundTrip.AcceptedIffFits` | util/httplib.h:3981-3982 | The parser accepts a serialized item list exactly when every Content-Disposition line is within the header limit |
| `MultipartRoundTrip.EmptyListNotValid` | util/httplib.h:4230-4243 | The serialized body of an empty list delivers nothing and is never valid |
| `MultipartRoundTrip.DispositionParsed` | util/httplib.h:3957-3961 | The recogniser of Content-Disposition lines gives back the name and filename that were written exactly when no quote in them, together with what follows it, reads as the end of the line |
| `DispositionGrammar.DispositionIff` | util/httplib.h:3959-3961 | A name and a filename are read from a line exactly when it can be written as the expression asks, keys in any case, with blanks, an optional quoted and an optional extended filename, and they are those of the writing with the shortest name and then the shortest quoted filename; if it cannot be so written nothing is read |
| `MultipartRoundTrip.CleanFor` | util/httplib.h:3947-3951 | A delimiter made from a valid boundary does not repeat its first byte, so it cannot overlap itself |
| `Text.FindAfter` | util/httplib.h:4108-4129 | A delimiter that cannot overlap itself is found right after any text that does not contain it |
| `Streams.SocketStream.constructor` | util/httplib.h:4936-4943 | A new stream has delivered nothing and everything the peer sends remains |
| `Streams.SocketStream.ReadSocket` | util/httplib.h:4984-4998 | One receive: an error, the end of the stream, or any non-empty prefix of what is on its way, at most as long as asked |
| `Streams.SocketStream.TakeBuffered` | util/httplib.h:4965-4976 | A read served from the buffer takes the oldest buffered bytes |
| `Streams.SocketStream.ReadAhead` | util/httplib.h:4983-4996 | A small read fills the buffer, hands over its first bytes and keeps the excess in order |
| `Streams.SocketStream.Read` | util/httplib.h:4956-5000 | Bytes delivered, bytes buffered and bytes not yet received always make up the peer's stream; zero bytes for a non-empty request means the stream is at its end |
| `Streams.LineReader.Append` | util/httplib.h:2326-2337 | Adds a byte to the line, across the switch from the fixed to the growable buffer; the assertion on the terminating zero holds |
| `Streams.LineReader.GetLine` | util/httplib.h:2300-2324 | Reads exactly the first line with its line feed, or the rest of the stream; fails only on an error or at the end of the stream |
| `Streams.LineOf` | util/httplib.h:2300-2324 | The first line is the text up to and with the first line feed |
| `Streams.OutputStream.WriteData` | util/httplib.h:3650-3658 | Sends all the bytes in order however few each send takes, or reports failure after a part of them |
| `ChunkedCoding.FromIToHex` | util/httplib.h:2007-2015 | The hexadecimal digits of a number, without leading zeros |
| `ChunkedCoding.HexReads` | util/httplib.h:2007-2015 | Those digits denote the number |
| `ChunkedCoding.SizeLineReads` | util/httplib.h:3526 | `strtoul` in base 16 reads back every size that fits, from its line |
| `ChunkedCoding.NumberReads` | util/httplib.h:3526 | `strtoul` in base 16 on any blanks, sign, prefix, digits and text after them: the value of the digits, negated in an `unsigned long` after a minus sign, or the largest value when they do not fit |
| `ChunkedCoding.NoNumber` | util/httplib.h:3528 | Without a digit after the blanks and the sign there is no number |
| `ChunkedCoding.ReadContentWithLength` | util/httplib.h:3461-3481 | Delivers exactly that many bytes whatever the sizes of the reads, or fails: having delivered what there was, on an error, or when the receiver refuses |
| `ChunkedCoding.ReadOneChunk` | util/httplib.h:3533-3539 | A chunk and its line end are taken as the decoding function does; after an error or a refusal the receiver has been given a prefix of its content |
| `ChunkedCoding.ReadContentChunked` | util/httplib.h:3513-3551 | Result, content delivered and bytes left unread are those of the decoding function on the bytes of the stream, for every way in which they arrive; after a failed read or a refusal the result is failure and a prefix of that content was delivered |
| `ChunkedWriter.DataSink.Write` | util/httplib.h:3746-3771 | Emits one chunk for a non-empty write and nothing for an empty one, and notes whether more is expected |
| `ChunkedWriter.DataSink.Finish` | util/httplib.h:3773-3801 | Emits the terminating chunk once writing has not failed |
| `ChunkedWriter.WriteContentChunked` | util/httplib.h:3737-3818 | Unless the stream fails, the bytes sent and the error reported are those of the provider calls up to the one that ends the loop |
| `ChunkedWriter.RoundTrip` | util/httplib.h:3737-3818 | Reading what any writes and a `done` sent, ahead of any other bytes, gives the written content and leaves exactly those bytes |
| `ChunkedWriter.SentBodyReads` | util/httplib.h:3803-3817 | A provider that writes non-empty pieces over any number of calls and then calls `done` sends a body that reads back as its pieces |
| `ChunkedWriter.ChunkReads` | util/httplib.h:3757-3765 | The reader takes off the chunk that the writer put on, for every payload |
| `ChunkedGrammar.AcceptedIff` | util/httplib.h:3513-3551 | The reader accepts exactly the bodies that are complete, each chunk closed by CR LF up to a zero size and an empty line, and those that are broken, where something else follows the data of a chunk |
| `ChunkedGrammar.CompleteReads` | util/httplib.h:3513-3551 | A complete body in any spelling of its size lines gives the data of its chunks and leaves what follows it |
| `ChunkedGrammar.BrokenReads` | util/httplib.h:3537-3539 | A broken body gives the data of its chunks as if it were complete, and takes the line that follows |
| `ChunkedGrammar.NotBoth` | util/httplib.h:3513-3551 | No stream is both complete and broken, so a result that is not a complete body is told from the bytes alone |
| `ChunkedGrammar.CutLineEndAccepted` | util/httplib.h:3537-3539 | A stream cut between the CR and the LF that close a chunk is accepted as a complete body |
| `ChunkedWriter.CompleteIffDone` | util/httplib.h:3773-3801 | What was sent reads as a complete body exactly when `done` was called, and carries the content written before that |
| `ChunkedWriter.DonePerformedIff` | util/httplib.h:3803-3817 | `done` is performed exactly when every earlier provider call succeeded and did not end with an empty write |
| `ChunkedWriter.EmptyWriteTruncates` | util/httplib.h:3746-3749 | A provider call that ends with an empty write loses the content and the terminator that would follow, and reports success |
| `Splitting.TrimBounds` | util/httplib.h:2238-2247 | Both ends stop at the first character that is not a blank, the left one only at the end of the text and the right one only at its start |
| `Splitting.BoundsMeetSegment` | util/httplib.h:2238-2247 | Between delimiters that are not blank those ends enclose the trimmed segment |
| `Splitting.Split` | util/httplib.h:2254-2272 | Hands over exactly the trimmed non-empty segments, in order, for every delimiter that is not blank |
| `Splitting.SegmentsJoin` | util/httplib.h:2254-2272 | Segments hold no delimiter and joined by it give the text |
| `Splitting.SegmentsOfJoin` | util/httplib.h:2254-2272 | Texts without the delimiter are the segments of their joined text |
| `Query.EncodeQueryParam` | util/httplib.h:2130-2149 | Letters, digits and nine marks stay; every other byte becomes a percent sign and two upper-case digits |
| `Text.HexDigitPlace` | util/httplib.h:1976-1988 | The value of a hexadecimal digit is its place among the sixteen digits of either case, written out, and there are no other digits |
| `Query.KeptCharacters` | util/httplib.h:2130-2149 | The characters that stay are the letters, the digits and the nine marks, written out; every other byte becomes a percent sign and two upper-case digits of its value |
| `Query.FromHexToI` | util/httplib.h:1990-2005 | Succeeds exactly when that many digits stand there, with their value |
| `Query.DecodeUrl` | util/httplib.h:2183-2222 | Decodes left to right: two-digit and `%u` four-digit escapes, plus signs if asked, malformed escapes as they are |
| `Query.ByteEscape` | util/httplib.h:2201-2210 | A percent sign and two hexadecimal digits of either case are the byte of that value |
| `Query.CodePointEscape` | util/httplib.h:2188-2199 | `%u` and four hexadecimal digits are the bytes of that code point |
| `Query.OtherCharacter` | util/httplib.h:2183-2222 | Any other percent sign and any other character stay, but a plus sign is a blank if asked |
| `Query.Utf8Reads` | util/httplib.h:2017-2047 | The bytes written for a four-digit escape are those of its code point in UTF-8, and none for a surrogate |
| `Query.DecodeUndoesEncode` | util/httplib.h:2130-2222 | Decoding undoes encoding for every byte string, whether or not plus signs stand for blanks |
| `Query.EncodeInjective` | util/httplib.h:2130-2149 | Different byte strings have different encodings |
| `Query.EncodeInert` | util/httplib.h:2130-2149 | Encoded text holds no separator of queries, no plus sign and no blank |
| `QueryText.ParamsToQueryStr` | util/httplib.h:3854-3864 | The pairs with encoded values, joined by ampersands |
| `QueryText.ParseQueryText` | util/httplib.h:3866-3887 | The parameters of the distinct trimmed texts between ampersands, in order |
| `QueryText.ReadPair` | util/httplib.h:3873-3885 | The key is the first piece around equals signs and the value the last, both decoded |
| `QueryText.QueryRoundTrip` | util/httplib.h:3854-3887 | For plain keys, parsing a generated query gives each distinct parameter exactly once, in order |
| `QueryText.DistinctSpec` | util/httplib.h:3867-3871 | Keeping first occurrences keeps every element and keeps it once |
| `QueryText.OrdinaryKeyDecodes` | util/httplib.h:2183-2222 | A key without percent and plus signs decodes to itself |
| `QueryKeys.AllSurviveIffPlain` | util/httplib.h:3854-3887 | For the query of any list of parameters: all of them are read back exactly when every key is not empty, has no blank at an end, no ampersand or equals sign, and decodes to itself |
| `QueryKeys.ReadWeighsLess` | util/httplib.h:3866-3887 | What is read from the text of a parameter whose key is not plain is shorter than that parameter, but for a key with plus signs and for an empty key |
| `QueryKeys.SurvivesIffPlain` | util/httplib.h:3854-3887 | For the query of a single parameter: it is read back exactly when its key is plain |
| `QueryKeys.ReadFromAnother` | util/httplib.h:3854-3887 | In a longer query one parameter whose key is not plain can still be read back, from the text of another |
| `Paths.SkipSlashes` | util/httplib.h:2097-2100 | Passes over slashes without changing the components that are left |
| `Paths.ReadComponent` | util/httplib.h:2103-2110 | Reads exactly the next component |
| `Paths.IsValidPath` | util/httplib.h:2093-2128 | True exactly when no prefix of the path's components leads above where it starts |
| `Paths.ValidIffVisits` | util/httplib.h:2093-2128 | A path is valid exactly when following it directory by directory, one down for a name and one up for two dots, never goes above the start |
| `Base64Encoder.WrapKeepsBits` | util/httplib.h:2059-2068 | The wrap-around of the 32-bit accumulator never reaches the bits that are looked at |
| `Base64Encoder.Base64Encode` | util/httplib.h:2051-2077 | For inputs of any length the output is the padded three-byte-group encoding of RFC 4648 |
| `Base64.EncodedLength` | util/httplib.h:2071-2075 | The encoding has four characters for every three bytes begun |
| `Base64.RoundTrip` | util/httplib.h:2051-2077 | Decoding by the specification gives back every input |
| `Ranges.MakeRangeHeader` | util/httplib.h:4736-4747 | The header value that lists the ranges |
| `Ranges.ParseRangeHeader` | util/httplib.h:3902-3941 | Accepts by the header expression and reads ranges up to the first that overflows or is the wrong way round |
| `Ranges.RangesRoundTrip` | util/httplib.h:3902-3941 | A generated header is accepted exactly when it lists at least one range and all are well-formed, and is then read as those ranges |
| `RangeGrammar.HeaderGrammar` | util/httplib.h:3902-3908 | A text matches the header expression exactly when it is `bytes=` and a list of ranges with commas between, blanks of any kind before all but the first, and digits or nothing for each bound |
| `RangeGrammar.HeaderReads` | util/httplib.h:3909-3935 | Every such list is read as its ranges, a missing bound as -1, up to the first with a bound that does not fit or bounds the wrong way round |
| `RangesData.GetMultipartRangesDataLength` | util/httplib.h:4328-4344 | The announced length is the sum over all tokens and extents, kept in a `size_t` |
| `RangesData.Provide` | util/httplib.h:3664-3672 | One provider call makes any writes, empty ones and none included; what is sent is what it wrote, up to a failure of the stream, and no more than asked for if it never offers more |
| `RangesData.WriteContent` | util/httplib.h:3660-3694 | Whatever the provider does, the bytes sent are those it wrote; if it never offers more than it is asked for they are at most those of the range, also when the stream fails, the provider gives up or the server shuts down, and all of them otherwise; none when the end wraps around |
| `RangesData.WriteMultipartRangesData` | util/httplib.h:4346-4360 | On a stream that takes every token, with a provider that offers no more than it is asked for and without a shutdown, the body written is the framed contents of all ranges, and its length is the `size_t` announced exactly when it fits one and the lengths of the ranges that wrap around are a multiple of 2^64 together |
| `RangesData.ExtentIsResolved` | util/httplib.h:4245-4274 | A range that names at least one byte, with both bounds, open-ended or a suffix, has the extent that RFC 9110 gives it, and its Content-Range announces exactly those bytes |
| `RangesData.SuffixOfHuge` | util/httplib.h:4254-4262 | When the size of the content is not a `ssize_t`, a range that asks for its last bytes gets all of it |
| `RangesRead.BodyReads` | util/httplib.h:4276-4360 | The body of ranges that do not wrap around, read back by delimiter, header lines and Content-Range as in section 14.6 of RFC 9110, gives each range with its bounds, the size of the whole, the content type and its bytes, in order |
| `RangesData.LengthIsWrittenIff` | util/httplib.h:4276-4360 | The `size_t` announced is the number of bytes written exactly under that condition, and the unreduced sum exceeds it by the lengths of the ranges that wrap around |
| `RangesData.BoundedDoesNotWrap` | util/httplib.h:4245-4263 | A well-formed range with both bounds has the extent it names and does not wrap around, whatever the size of the body |
| `RangesData.BoundedAnnounced` | util/httplib.h:4328-4344 | For well-formed ranges with both bounds the announced length is the number of bytes written exactly when that is below 2^64 |
| `RangesData.OpenRangeMiscounted` | util/httplib.h:4292 | With an empty body, as with a provider, an open-ended range is announced as a `size_t` that is not the number of bytes written |
| `RangesData.OpenRangesCancel` | util/httplib.h:4292 | Three open-ended ranges of a provider that wrap around and are announced with exactly the number of bytes written |
| `Hex.HexEncode` | util/hex.hpp:24-39 | Fills the buffer with two upper-case digits per byte and a zero if there is room, and touches nothing when it is too small |
| `Hex.HexDecode` | util/hex.hpp:42-46 | Every byte is made from its two digits |
| `Hex.OtherCharacters` | util/hex.hpp:11-21 | Each character of a pair counts by itself, and one that is no digit counts as the byte it is |
| `Hex.EncodeVector` | util/hex.hpp:49-52 | The text of the bytes followed by a zero |
| `Hex.DecodeVector` | util/hex.hpp:55-58 | The bytes of the whole pairs |
| `Hex.DecodeUndoesEncode` | util/hex.hpp:24-58 | Decoding undoes encoding for all bytes, with or without the terminating zero |
| `Hex.EncodeUndoesDecodeIff` | util/hex.hpp:11-46 | Encoding a decoded text of even length gives its upper-case form exactly when it is all hexadecimal digits |
| `ClientSocket.ClientImpl.constructor` | util/httplib.h:6215-6245 | A new client has a closed socket, no request in flight and no owner |
| `ClientSocket.ClientImpl.CloseSocket` | util/httplib.h:6228-6245 | Closes the socket and tells whether its assertion held |
| `ClientSocket.ClientImpl.Begin` | util/httplib.h:6293-6343 | The first locked block of `send_`: what it changes, which assertions it evaluates and whether the request goes on |
| `ClientSocket.BeginCases` | util/httplib.h:6293-6343 | What the first block of `send_` leaves and asserts, in all cases |
| `ClientSocket.ClientImpl.End` | util/httplib.h:6354-6369 | The scope exit of `send_`: the counter, the owner and whether the socket is closed |
| `ClientSocket.EndCases` | util/httplib.h:6354-6369 | The socket stays open exactly if it was, the request succeeded and keeps it alive and nobody has stopped the client; when the assertions fail |
| `ClientSocket.ClientImpl.StopClient` | util/httplib.h:7384-7405 | `stop` closes an unused socket at once and otherwise asks for it to be closed |
| `ClientSocket.CloseCases` | util/httplib.h:7384-7405 | What `stop` and a response that closes the connection leave and assert, in all cases |
| `ClientThreads.InvStep` | util/httplib.h:6283-6380 | Every step of every thread keeps the invariant |
| `ClientThreads.CounterCountsFrames` | util/httplib.h:6283-6380 | In every interleaving the counter is the number of open `send_` frames, all of them on the recorded thread, and no assertion fails |
| `ClientThreads.NoAssertionFails` | util/httplib.h:6283-6380 | In every run every assertion that is evaluated holds |
| `ClientThreads.BeginLeaves` | util/httplib.h:6293-6343 | In every run a request that begins is in flight with an open socket exactly when it has one that looks alive or connects, and has otherwise failed with the socket closed |
| `ClientThreads.TwoAttempts` | util/httplib.h:6283-6291 | In every run a second attempt follows a first that has failed, and there is no third |
| `ClientThreads.EndOfRequest` | util/httplib.h:6354-6369 | In every run a request that fails or was begun without keep-alive closes the socket when it ends, and any other leaves it as it is unless there has been a stop since it began |
| `ClientThreads.NeverKeptAlive` | util/httplib.h:6349-6369 | In a run without keep-alive the socket is closed whenever no request is in flight |
| `ClientThreads.StopTakesEffect` | util/httplib.h:7384-7405 | After a `stop` in flight the socket is closed when the counter reaches zero, as long as no `send_` starts in between |
| `ClientThreads.BeginErasesStop` | util/httplib.h:6297-6299 | A `send_` that starts after a `stop` in flight leaves the state it would have left without it |
| `ClientThreads.StopCanBeWithdrawn` | util/httplib.h:6297-6299 | A run in which a redirect after a `stop` leaves the socket open with nothing in flight |
| `Redirects.Send` | util/httplib.h:6283-6291 | Nesting is at most the redirects left plus the authentications left plus one, and no call gives redirects or authentications back |
| `Redirects.SendOnce` | util/httplib.h:6293-6380 | The same for one attempt |
| `Redirects.HandleRequest` | util/httplib.h:6394-6453 | The same when a redirect and an authentication retry occur in one frame |
| `Redirects.Redirect` | util/httplib.h:6455-6507 | The same for a redirect, to this host or another; a failed redirect keeps the first status |
| `Redirects.SendBounded` | util/httplib.h:6283-6507 | The number of attempts is bounded by a function of that measure, retries after a closed peer included |
| `Redirects.PlainSendBounded` | util/httplib.h:6283-6507 | Built without TLS there is at most one attempt for every redirect left and one more |
| `Redirects.SendAsserts` | util/httplib.h:6283-6291 | The assertion in `send` before its second attempt always holds |
| `RedirectAnswers.RedirectsFollowed` | util/httplib.h:3829-3852 | When the first n replies are redirects that can be followed, no more than the request has left, and the next is neither a redirect nor a challenge, the request answers that reply, after n + 1 attempts and with n redirects fewer left |
| `RedirectAnswers.TooManyRedirects` | util/httplib.h:6455-6459 | When there are more redirects than the request has left it fails with that error, after one attempt for each and one more |
| `RedirectAnswers.FailsAfter` | util/httplib.h:6293-6507 | A lost connection, a missing reply, a location that cannot be used or no redirect left after n redirects: the request fails with the error of that attempt and the status of the first reply, and keeps its redirects |
| `RedirectAnswers.ChallengesAnswered` | util/httplib.h:6427-6450 | Challenges that can be answered, no more than answers are left, lead to the reply after them; one more is the answer itself |
| `RedirectAnswers.PeerClosedTriedAgain` | util/httplib.h:6283-6291 | When the peer seems to have closed the request is made once more and no more |
| `Ring.BlockingQueue.constructor` | util/bounded_blocking_queue.h:18-37 | A new queue is open; it is sound, empty and has one slot more than requested exactly when the bytes of its slots fit a `size_t` |
| `Ring.QueueInit` | util/bounded_blocking_queue.h:18-37 | A missing queue, a size of zero and a failed allocation are refused; anything else gives an open queue, which is sound and empty exactly when the bytes of its slots fit a `size_t` |
| `Ring.SlotsSuffice` | util/bounded_blocking_queue.h:23-28 | The memory asked for has as many slots as the ring takes itself to have exactly when their number of bytes fits a `size_t` |
| `Ring.BlockingQueue.Close` | util/bounded_blocking_queue.h:39-42 | Only the closed flag changes |
| `Ring.BlockingQueue.PutUnderLock` | util/bounded_blocking_queue.h:58-77 | What a put does while it holds the lock: refuse, wait, or store at the input index |
| `Ring.BlockingQueue.GetUnderLock` | util/bounded_blocking_queue.h:79-99 | What a get does while it holds the lock: refuse, wait, or take at the output index |
| `Ring.PutIsEnqueue` | util/bounded_blocking_queue.h:58-77 | The ring never holds more than the requested size, a put waits exactly at that size, and a stored item goes to the back |
| `Ring.GetIsDequeue` | util/bounded_blocking_queue.h:79-99 | A get waits exactly on an empty ring and otherwise takes the oldest item |
| `QueueThreads.InvStep` | util/bounded_blocking_queue.h:39-99 | Every step of every thread keeps conservation, the promise to sleepers and the effect of broadcasts |
| `QueueThreads.SleepersAreNotForgotten` | util/bounded_blocking_queue.h:58-99 | In an open queue, while a getter sleeps there are at most as many items as signalled getters, while a putter sleeps at most as many free slots as signalled putters, and not all sleep together |
| `QueueThreads.RunningServes` | util/bounded_blocking_queue.h:58-99 | A getter or putter that runs when there is work for it does that work, and sleeps only when there is none |
| `QueueThreads.PutAddsItem` | util/bounded_blocking_queue.h:58-77 | A put call that ends in an open queue has added the item it was called with, and nothing is added before it ends |
| `QueueThreads.GetWaits` | util/bounded_blocking_queue.h:79-90 | A getter that finds nothing sleeps, and sleeps again when it wakes for no reason |
| `QueueThreads.PutWaits` | util/bounded_blocking_queue.h:58-69 | So does a putter that finds no room |
| `QueueThreads.PutWakesGet` | util/bounded_blocking_queue.h:71-99 | From there a put wakes the sleeping getter, which returns the item |
| `QueueThreads.GetWakesPut` | util/bounded_blocking_queue.h:71-99 | A get wakes the sleeping putter, which adds its item |
| `QueueThreads.CloseWakesGet` | util/bounded_blocking_queue.h:39-46 | A close wakes the sleeping getter with its first broadcast, and the getter returns nothing |
| `QueueThreads.CloseWakesPut` | util/bounded_blocking_queue.h:39-46 | A close wakes the sleeping putter with its second broadcast, and the putter adds nothing |
| `QueueThreads.NobodySleepsAfterClose` | util/bounded_blocking_queue.h:39-46 | Once a close has returned nobody is ever asleep again |
| `QueueThreads.ClosedIsFinal` | util/bounded_blocking_queue.h:58-99 | A closed queue neither accepts nor returns anything |
| `QueueThreads.RefinesFifo` | util/bounded_blocking_queue.h:18-99 | Every step of every thread is a step of a bounded first-in-first-out queue or changes nothing |
| `TaskRing.Create` | util/threadpool.c:99-132 | Sizes out of range, failed allocations and failed locks are refused and anything else gives an empty running pool |
| `TaskRing.ThreadPool.constructor` | util/threadpool.c:115-123 | A new pool has an empty ring and has started nobody |
| `TaskRing.ThreadPool.Add` | util/threadpool.c:174-204 | What an add does while it holds the lock: refuse a full ring, refuse during shutdown, or store at the tail |
| `TaskRing.ThreadPool.Work` | util/threadpool.c:297-328 | What a worker does while it holds the lock: sleep, leave, or take what is at the head |
| `TaskRing.AddIsEnqueue` | util/threadpool.c:174-204 | An accepted task goes to the back, and the tail index stays where the head and the count put it |
| `TaskRing.WorkIsDequeue` | util/threadpool.c:297-328 | A worker takes the oldest task, sleeps exactly on an empty running pool and leaves exactly when shutdown lets it |
| `PoolThreads.InvStep` | util/threadpool.c:99-331 | Every step of creation, adding, working, destroying, joining and freeing keeps the invariant |
| `PoolThreads.CreatesAll` | util/threadpool.c:134-147 | Creation goes on or fails while a worker is missing, and ends when none is |
| `PoolThreads.RunKeeps` | util/threadpool.c:157-331 | In every run tasks taken followed by tasks pending are the tasks accepted, in order; after creation `started` is the number of live workers; pending tasks never meet only sleeping workers; nobody sleeps during shutdown |
| `PoolThreads.ClosedToTasks` | util/threadpool.c:185-190 | Nothing is accepted once shutdown has begun, and its kind never changes |
| `PoolThreads.OpenAccepts` | util/threadpool.c:157-217 | In every state that a run can reach between creation and the final free, a task is accepted exactly when the pool is open and has room, goes behind those pending, and wakes a sleeping worker if there is one |
| `PoolThreads.WakesInVain` | util/threadpool.c:297-305 | A worker that wakes for no reason while nothing is pending sleeps again and leaves no trace |
| `PoolThreads.GracefulDrains` | util/threadpool.c:237-287 | Under graceful shutdown everything accepted has been taken as soon as one worker has left; when the pool is freed no worker is live and freeing succeeds |
| `PoolThreads.FreesWhenAllLeft` | util/threadpool.c:265-270 | In every state of every run, except between the start of a worker and its count, freeing would succeed exactly when every worker that was created has left |
| `PoolThreads.GracefulDestroy` | util/threadpool.c:237-266 | After a graceful destroy every task accepted before it has been taken when the pool is freed |
| `PoolThreads.ImmediateDestroy` | util/threadpool.c:135-142 | After any other destroy, and when a worker could not be started, no task is taken any more |
| `PoolThreads.NeverStuck` | util/threadpool.c:247-261 | Until the pool is freed some step other than a refused add is possible; with tasks pending in an open pool it is a worker's, and during the joins it brings the end nearer |
| `PoolThreads.PendingServed` | util/threadpool.c:297-331 | While tasks are pending in an open pool with workers some worker can take a step |
| `PoolThreads.ShutdownFinishes` | util/threadpool.c:237-287 | After shutdown begins a bounded number of such steps remains, and a run that makes them all has freed the pool |
| `PoolThreads.WholeLife` | util/threadpool.c:134-331 | A run from creation to the final free, in which the worker sleeps, is woken by a task and runs it, and a graceful destroy ends it |
| `PoolThreads.TaskDropped` | util/threadpool.c:134-331 | A run in which a destroy that is not graceful drops the pending task |
| `SectionTracker.TrackerContext.constructor` | c++/20180223_c++_unittest_catch/catch.hpp:6065-6068 | A new context has no trackers |
| `SectionTracker.TrackerContext.StartRun` | c++/20180223_c++_unittest_catch/catch.hpp:6334-6339 | A new root takes the place of all trackers, with two empty filters before those asked for, if any are |
| `SectionTracker.TrackerContext.StartCycle` | c++/20180223_c++_unittest_catch/catch.hpp:6078-6081 | A cycle starts at the root |
| `SectionTracker.TrackerContext.OpenChild` | c++/20180223_c++_unittest_catch/catch.hpp:6163-6169 | Marks the tracker and those above it up to one that already runs children |
| `SectionTracker.TrackerContext.Open` | c++/20180223_c++_unittest_catch/catch.hpp:6174-6179 | The section runs and becomes current, and the trackers above it are marked |
| `SectionTracker.TrackerContext.Acquire` | c++/20180223_c++_unittest_catch/catch.hpp:6233-6269 | Finds the child of that name or makes one with its filters, and opens it exactly when the cycle is not over, it is not complete and its filter allows its name |
| `SectionTracker.TrackerContext.CloseCurrent` | c++/20180223_c++_unittest_catch/catch.hpp:6187-6208 | Completes a section without children, or whose last child is complete, goes back to the parent and ends the cycle; changes nothing on one that is not running |
| `SectionTracker.TrackerContext.Close` | c++/20180223_c++_unittest_catch/catch.hpp:6181-6209 | Closes every tracker from the current one up to the given one, and stops at the first that is not running |
| `SectionTracker.TrackerContext.Fail` | c++/20180223_c++_unittest_catch/catch.hpp:6210-6219 | The section has failed, its parent needs another run and is current, and the cycle is over |
| `SectionTracker.TrackerContext.StartSection` | c++/20180223_c++_unittest_catch/catch.hpp:6732-6749 | A section is open exactly when the cycle is not over and runs of it are left |
| `SectionTracker.TrackerContext.EndSection` | c++/20180223_c++_unittest_catch/catch.hpp:6762-6769 | After its body the trackers at and below a section are as after one more run, and no others have changed but the parent |
| `SectionTracker.TrackerContext.EndSectionEarly` | c++/20180223_c++_unittest_catch/catch.hpp:6775-6783 | The same when an exception leaves the section: the first section it leaves has failed, those around it are closed |
| `SectionTracker.TrackerContext.RunSection` | c++/20180223_c++_unittest_catch/catch.hpp:6732-6783 | An open section makes exactly its next run: it enters the sections of that run and no others, and throws exactly when that run does |
| `SectionTracker.TrackerContext.RunSections` | c++/20180223_c++_unittest_catch/catch.hpp:6732-6769 | One pass over sections side by side makes the next of their runs and ends the cycle, or none when it was over or none is left; a throw leaves the later sections unknown |
| `SectionTracker.TrackerContext.RunCurrentTest` | c++/20180223_c++_unittest_catch/catch.hpp:6851-6895 | Whatever the body throws, the test case makes its next run and is closed |
| `SectionTracker.TrackerContext.RunTest` | c++/20180223_c++_unittest_catch/catch.hpp:6659-6668 | For every tree of sections, every choice of sections that throw and all filters, each cycle makes the next run of the test case, entering its sections and no others, none of them at a level where another name is asked for; the test case is complete exactly when all runs have been made, and the loop ends then unless the limit on failed assertions ends it before |
| `SectionTracker.CyclesCounted` | c++/20180223_c++_unittest_catch/catch.hpp:6659-6668 | The number of cycles is the number of leaf sections reached and of extra runs, both read off the tree |
| `SectionTracker.QuietTour` | c++/20180223_c++_unittest_catch/catch.hpp:6659-6668 | Without throws and filters there is one cycle for each leaf section, in depth-first order |
| `TestLoop.RunRound` | c++/20180223_c++_unittest_catch/catch.hpp:6659-6671 | One round runs the test case through for the current combination of its generators and moves them on |
| `TestLoop.RunAll` | c++/20180223_c++_unittest_catch/catch.hpp:6658-6671 | Unless the limit on failed assertions ends it early, every combination of the generators is run through once, in order, and the generators are back at their first values; otherwise those before have been and the last as far as some cycle |
| `SectionTracker.LeafEnteredOnce` | c++/20180223_c++_unittest_catch/catch.hpp:6659-6668 | In that tour a leaf section is entered once if it is reached, by the tree alone, and otherwise never |
| `SectionTracker.AskedForOnce` | c++/20180223_c++_unittest_catch/catch.hpp:6266-6282 | When only leaves throw, a leaf section is entered once if every section on the way to it, below the test case, has the name asked for at its level or none is asked for there, and never otherwise |
| `SectionTracker.OnlyPermittedEntered` | c++/20180223_c++_unittest_catch/catch.hpp:6266-6282 | Whatever throws, no section is entered at a level where another name is asked for |
| `SectionTracker.EveryLeafOnce` | c++/20180223_c++_unittest_catch/catch.hpp:6659-6668 | Without filters, when only leaf sections throw, every leaf section is entered exactly once |
| `SectionTree.LeafEntered` | c++/20180223_c++_unittest_catch/catch.hpp:6659-6668 | The runs of sections side by side enter a leaf once exactly when it is selected all the way and, inside every section around it that throws, all that is selected before it throws; otherwise never |
| `SectionTree.EntersBeforeThrow` | c++/20180223_c++_unittest_catch/catch.hpp:6210-6219 | Up to the first run that does not throw a leaf is entered exactly when everything selected to the left of it throws |
| `SectionTree.LeafMissed` | c++/20180223_c++_unittest_catch/catch.hpp:6210-6219 | A selected leaf that is never entered: the second in a section that throws after both |
| `SectionCounts.RunsExactly` | c++/20180223_c++_unittest_catch/catch.hpp:6659-6668 | For every tree and all filters the number of runs is the number of leaves reached and of extra runs |
| `SectionCounts.RunsCounted` | c++/20180223_c++_unittest_catch/catch.hpp:6659-6668 | The same by one count along the tree, for all runs and for those up to the first without a throw |
| `SectionCounts.OneRunPerLeafIff` | c++/20180223_c++_unittest_catch/catch.hpp:6659-6668 | When only leaves throw, the number of runs is that of the selected leaves and of the selected sections whose last section throws or is not selected; so there is one run for each selected leaf exactly when there is no such section |
| `SectionCounts.ThrowingLeafTakesTwo` | c++/20180223_c++_unittest_catch/catch.hpp:6199-6202 | Two runs for a section with a single leaf, which throws |
| `SectionCounts.RunsAreDepthFirst` | c++/20180223_c++_unittest_catch/catch.hpp:6659-6668 | Without filters and throws there is one run for each leaf, in depth-first order |
| `SectionCounts.AtMostOneEach` | c++/20180223_c++_unittest_catch/catch.hpp:6659-6668 | There are never more runs than sections |
| `TrackerStates.LastComplete` | c++/20180223_c++_unittest_catch/catch.hpp:6199-6202 | Once all sections of a list are known its last is complete exactly when it is selected and no run is left, which is all that closing looks at |
| `TrackerStates.LastIncomplete` | c++/20180223_c++_unittest_catch/catch.hpp:6199-6202 | After a throw from below a child the last known child is not complete, so closing does not complete the parent |
| `SectionPasses.Closing` | c++/20180223_c++_unittest_catch/catch.hpp:6181-6209 | Closing a section after its body, run through or left by a throw from inside, leaves it as after one more run |
| `Generators.GeneratorInfo.constructor` | c++/20180223_c++_unittest_catch/catch.hpp:8030-8033 | A new generator stands at its first value |
| `Generators.GeneratorInfo.MoveNext` | c++/20180223_c++_unittest_catch/catch.hpp:8035-8041 | Moves to the next value, or from the last back to the first, and tells which |
| `Generators.GeneratorsForTest.GetGeneratorInfo` | c++/20180223_c++_unittest_catch/catch.hpp:8060-8069 | The generator of a name, made at its first use and listed last |
| `Generators.GeneratorsForTest.MoveNext` | c++/20180223_c++_unittest_catch/catch.hpp:8071-8079 | The first generator not at its last value moves and those before it start again; false when all do |
| `Generators.AdvanceRank` | c++/20180223_c++_unittest_catch/catch.hpp:8071-8079 | A move raises the mixed-radix rank by one, and is false exactly when it goes from the last combination back to all zeros |
| `Generators.EveryCombinationOnce` | c++/20180223_c++_unittest_catch/catch.hpp:8071-8079 | Before the count starts again every combination of indices comes up, and comes up once |
| `Generators.MoreUntilLast` | c++/20180223_c++_unittest_catch/catch.hpp:8071-8079 | Moves report more until the last combination has come up, and then return to the first |

## Left out

- Sockets, name resolution, `select` and `poll`, timeouts, TLS, and zlib and brotli compression are foreign code: they are nondeterministic choices or are replaced by the pass-through compressor.
- Server routing, handlers, MIME and status tables, and the request overloads of the client choose a handler or a constant by the text of a request and keep no state between calls.
- `encode_url`, `read_headers`, `parse_header` and `read_content_without_length` in util/httplib.h are single loops over the parts covered here: the escapes of `encode_query_param` for another set of characters, the line reader, and a read until the end of the stream.
- util/bounded_blocking_queue.hpp is the queue again with C++ primitives, the thread pool class in util/httplib.h has an unbounded list instead of a ring, and util/string.hpp wraps functions of the standard library.
- `make_multipart_ranges_data` in util/httplib.h writes the same body from a string that is already in memory.
- Reporters, command line, stringification and assertions of Catch are output formatting.
- The remaining samples, timers, logging and file helpers are demonstrations or input and output.
- Multipart.CutAnywhere: speaks of callbacks that accept everything; what a refusal does is stated for each way of cutting by itself in `Refusals.PiecesObey`, since what is delivered before it depends on the cut.
- Multipart.ParseHeader: the two regular expressions are recognisers written out for the shapes they describe.
- MultipartParser.MultipartFormDataParser.BufAppend: the `std::string` buffer is a sequence that the methods reassign, so reallocation is not modelled.
- TaskRing.Create: starting the workers is modelled in `PoolThreads`; null pools and null functions are not values of the model.
- PoolThreads.RunKeeps: one destroy call per pool is modelled; a second one leaves util/threadpool.c:231-235 with the mutex still held.
- ClientThreads.CounterCountsFrames: models the client without TLS; the TLS shutdown hooks are not part of this model.
- Redirects.SendBounded: the network is a function of the number of attempts made so far, and a client made for another host shares that count.
- Redirects.HandleRequest: a request with an empty path counts as an attempt without a reply, and request headers are not modelled.
- ChunkedWriter.WriteContentChunked: shutting down is the end of the list of provider calls.
- QueryText.ParamsToQueryStr: the multimap is given as the sequence in which it is visited.
- RangesData.WriteContent: a provider that succeeds without writing for ever keeps the source in its loop; every run that ends is modelled.
- RangesData.GetMultipartRangesDataLength: differences of `ssize_t` values are taken without overflow.
- Base64Encoder.Base64Encode: shifting a negative `int` is taken as two's-complement arithmetic.
- Hex.EncodeVector: byte vectors whose doubled length does not fit an `int` are excluded, because the length is passed as one.
- SectionTracker.TrackerContext.RunTest: a section throws at the same place in every run that gets there, and index trackers are not modelled.
- TestLoop.RunAll: the generators are known before the first round, while the source makes each at its first use.
- Generators.EveryCombinationOnce: the set of generators and their sizes is fixed while counting, and every size is at least one.
