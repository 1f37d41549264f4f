# Verified models of the emulator's helper cores

A Dafny model of five self-contained pieces of the code base, with proofs of what each of them is for.

* **Option parsing** (`externals/getopt/getopt.c`). `GetoptSpec` is the parser as a function of its state and the argument vector, `Getopt` the same in place, with the block swaps of `exchange_a`, and `GetoptRun` the theorems about whole runs: an in-order parse that moves nothing is the reference, and calling until the first -1 reports the same and leaves the vector stably partitioned. `GetoptReports` says what is reported, without reference to the parser: every vector is written from operands, uses of long options and clusters of letters, and a run reports exactly these, each with its argument.
* **HTTP codecs and the worker pool** (`externals/httplib/httplib.h`). `MultipartSpec` and `Multipart` model the incremental multipart parser and prove that it does not care how a body is cut; `MultipartHeaders` and `MultipartRoundTrip` add the header lines, the serializer and the round trip, `MultipartMeaning` what any body means to any client, `CaseBlind` and `PartHeaders` what any header line means, in any spelling. `Streams`, `ChunkedSpec` and `Chunked` model the buffered socket reader, the line reader and the chunked transfer coding over sockets that move any amount at a time, and `ChunkedMeaning` says what any coded stream means. `HttpText`, `Splitting`, `HeaderField` and `QueryString` are the text codecs, `PercentCoding` and `QueryTexts` what any text decodes to and splits into, `QueryKeys` the proof of exactly which parameter maps survive the query text, `Base64` the encoder with its 32-bit accumulator, `PathParams` the route patterns, `ThreadPool` the worker pool as a step system with a mutex, sleepers and pending notifications.
* **Profiler accounting** (`externals/microprofile/microprofile.h`). `ProfilerEntry` is the layout of a log word, `ProfilerLog` the ring log with its delayed frame history, `ProfilerFold` and `ProfilerThread` the fold with its scope stack, `ProfilerTimers` what each timer is charged, `ProfilerThreads` all threads with the sums they share, `ProfilerGroups` the theorem about group time for any trace, `ProfilerFlip` the whole flip and group time over runs of puts and flips, and `ProfilerLoss` a run on which it is wrong.
* **Resampler** (`src/audio_core/interpolate.cpp`): `Resampler`.
* **ADPCM decoder** (`src/audio_core/codec.cpp`): `Adpcm`, and `AdpcmMeaning` for packed frames and the recurrence.

`Samples`, `Search`, `Sequences`, `Wire` and `Wrappers` are shared. Each core has a specification written as functions on values; code that the source runs in place is a class or a method with the source's loops whose contract equates its result and its new state with those functions, and the theorems are about the functions. Sockets, schedules, callbacks and content providers are parameters: a socket is a text still to come and an arbitrary sequence of events, a callback is a function on the client's own state.

Run `dafny verify dfyconfig.toml`.

## Where the code and its documentation differ

* The constructor of `PathParamsMatcher` means to refuse a pattern that repeats a parameter name, but the set it looks the name up in is never filled (`externals/httplib/httplib.h:5531`, `externals/httplib/httplib.h:5549-5555`). The model has the check with that set: it refuses no pattern (`PathParams.NothingIsRefused`), `/:name/:name` is accepted and the second value is lost (`PathParams.RepeatedNameIsAccepted`), and the check does what it means to exactly for patterns without a repeated name (`PathParams.CheckWorksExactly`), which are the ones that capture each value under its name (`PathParams.CapturesByName`). A comment says that the last of several values would be kept; `emplace` keeps the first.
* A comment in the profiler says that timers more than one frame old are dropped (`externals/microprofile/microprofile.h:1613`). The fold keeps its stack across any number of frames, and reads the time of a scope from the place where its opening word was put, whatever is there by then. Group time is right when every outermost scope is folded before the ring has gone around once since it was opened, and with a clock that moves on only then (`ProfilerFlip.GroupTimeOfRun`); otherwise the scope is charged from the time of the word that has taken the place (`ProfilerGroups.OverwrittenScope`), which happens in runs that drop no put (`ProfilerLoss.SomeRunLoses`).
* The multipart parser is fed in pieces, but forgets a part of the opening line that comes at the end of a piece (`externals/httplib/httplib.h:4396-4403`): cut there, a body is accepted and means nothing (`MultipartSpec.CutOpeningIsForgotten`). What any cutting means is stated by `MultipartSpec.AnyCutting`, and for a body with one opening line the cutting does not matter exactly when it leaves that line whole (`MultipartSpec.OpeningDecides`).
* Route patterns and paths are compared as C strings, up to a NUL character in both (`externals/httplib/httplib.h:5583-5586`): `PathParams.MatchIffInstance` says for which patterns this makes no difference, `PathParams.TerminatorHides` gives a wrongly accepted path for every other one.
* The multipart header limit is tested only when the header state is entered, so a line of 8192 characters or more that is accepted in one piece is refused when it is cut inside its line end (`MultipartSpec.LimitIsSharp`). All ways of cutting an accepted body are accepted exactly when no header line that is read goes over the limit however it is cut (`MultipartSpec.LimitDecides`).
* Keys are not encoded in a query text (`externals/httplib/httplib.h:4265-4275`). Which maps come back as they were is decided exactly by `QueryKeys.QueryRoundTrip`.
* A long option whose own value is -1 and that is written with one dash is taken for no long option (`externals/getopt/getopt.c:342-349`). `GetoptSpec.FallsThroughExactly` says when, `GetoptSpec.FallThroughInput` gives such arguments.
* A chunked provider that writes nothing as the last call of a round, without `done`, makes the writer stop without a last chunk and report success (`externals/httplib/httplib.h:4133-4136`, `ChunkedSpec.EmptyWriteTruncates`). Which scripts read back is decided exactly by `ChunkedSpec.WrittenReadsBack`.

## Model

| member | source | states |
|---|---|---|
| GetoptSpec.RotateBlocks | externals/getopt/getopt.c:79-114 | The rotated range is old[last..optind) followed by old[first..last), and nothing outside it changes |
| Getopt.GetoptData.Exchange | externals/getopt/getopt.c:79-114 | The in-place exchange leaves exactly the rotated vector and updates the two block fields so that they delimit the same non-options again |
| Getopt.RotateInPlace | externals/getopt/getopt.c:84-110 | The loop of block swaps, whichever block is shorter at each round, ends with the two blocks exchanged, each in order |
| Getopt.SwapBlocks | externals/getopt/getopt.c:91-106 | One round of swaps exchanges two equally long disjoint blocks and nothing else |
| Getopt.GetoptData.Initialize | externals/getopt/getopt.c:249-274 | The state after initialization, with the ordering that the option string and POSIXLY_CORRECT ask for |
| Getopt.GetoptData.GetoptInternal | externals/getopt/getopt.c:276-421 | One call: the report, the whole new state and the whole new vector are those of the functional model |
| Getopt.GetoptData.ProcessLongOption | externals/getopt/getopt.c:116-247 | Long options: exact and unambiguous abbreviated names, arguments after `=` or in the next element, and each error report |
| Getopt.LookUpName | externals/getopt/getopt.c:123-186 | The first exact match, else the only abbreviation or the first of several that agree, else ambiguity |
| Getopt.GetoptData.ShortOption | externals/getopt/getopt.c:351-420 | One letter of a cluster: unknown letters, `W;`, required and optional arguments, and where optind and the cluster stand afterwards |
| GetoptSpec.FallsThroughExactly | externals/getopt/getopt.c:330-349 | An option with one dash is reported as -1 exactly in the branch in which the source falls through to short options: long_only is set, the element is longer than a letter or its letter is unknown, and the long option found, with its argument in order, has no flag and the value -1 |
| GetoptSpec.FallThroughInput | externals/getopt/getopt.c:335-349 | For every such name `-name` alone meets that branch, whatever follows |
| GetoptRun.ParseIsPartition | externals/getopt/getopt.c:276-421 | The reference parse splits the arguments into options and others with neither part reordered |
| GetoptRun.PartitionIsPermutation | externals/getopt/getopt.c:276-421 | The two parts of a stable partition have together the elements of the whole, each as often, and its length |
| GetoptRun.CallStep | externals/getopt/getopt.c:276-421 | Any call, from any state between calls, ends where the reference parse ends or does exactly its first step |
| GetoptRun.RunFollowsParse | externals/getopt/getopt.c:276-421 | A run from any state between calls reports what the reference parse of the unread elements reports and ends with its partition |
| GetoptRun.WholeRun | externals/getopt/getopt.c:276-421 | From a fresh state, calling until the first -1 reports exactly the reference parse, leaves the options, their arguments and the effective `--` in order before optind and all others in order after it (Guideline 10 in section 12.2 of POSIX.1-2017 Base Definitions); under the other orderings nothing moves |
| GetoptRun.RunEnds | externals/getopt/getopt.c:276-421 | Every run ends in all three orderings |
| GetoptRun.ScanReadsOn | externals/getopt/getopt.c:276-421 | Scanning an option strictly decreases the unread characters, weighted by element |
| GetoptRun.RunKeepsInvariant | externals/getopt/getopt.c:294-349 | At every call boundary first <= last <= optind <= argc and only non-options lie between the first two |
| GetoptRun.OnlyPermuteMoves | externals/getopt/getopt.c:295-329 | Under REQUIRE_ORDER and RETURN_IN_ORDER the parse leaves the order of the arguments alone |
| GetoptReports.LookUpMeans | externals/getopt/getopt.c:123-186 | Exactly when a name is that of an option or an abbreviation, which option that is, exactly when it is ambiguous, and exactly when it is unknown |
| GetoptReports.SignMeans | externals/getopt/getopt.c:249-293 | A `-`, a `+` or no sign in front of the option string, with POSIXLY_CORRECT, decides the ordering, and what is behind it are the declared letters |
| GetoptReports.MissingMeans | externals/getopt/getopt.c:222-236 | A missing argument is reported as `:` exactly when the option string begins so behind its sign, and as `?` otherwise |
| GetoptReports.LongScans | externals/getopt/getopt.c:116-247 | A use of a long option, by its name or an abbreviation, alone, with `=value` or with the next element, and each erroneous use: the report has this option, index and argument, and these elements are taken |
| GetoptReports.LastScans | externals/getopt/getopt.c:351-420 | The letter that ends a cluster, with its argument attached, optional, in the next element or missing, or with the word of a `W;`: its report and the elements it takes |
| GetoptReports.LineParses | externals/getopt/getopt.c:276-421 | Under each ordering the in-order parse of a written line has the reports and the elements of its items |
| GetoptReports.WrittenLineReports | externals/getopt/getopt.c:276-421 | For any table of options and any line written from operands, long options behind one or two dashes and clusters of letters, with or without a `--`: a whole run reports exactly these options with exactly these arguments and long indices, in order, and leaves them before optind and the operands after it |
| GetoptReports.EveryLineIsWritten | externals/getopt/getopt.c:276-421 | Every argument vector is such a line |
| MultipartSpec.CuttingDoesNotMatter | externals/httplib/httplib.h:4389-4524 | However a body is cut, the client's callbacks end in the same state, with the same answer and the same verdict, as for one call, if header lines fit however cut or the pieces are accepted, given that the opening line is not split, only a final line end follows the close delimiter, and callbacks succeed and append |
| MultipartSpec.AnyCutting | externals/httplib/httplib.h:4389-4524 | The same for any cutting, with what comes before the first piece that holds an opening line whole left out |
| MultipartSpec.OpeningDecides | externals/httplib/httplib.h:4389-4524 | A body with exactly one opening line, valid in one piece, means the same to a client in given pieces if and only if these do not split the opening line, if header lines fit or the pieces are accepted, for every handler that succeeds and appends |
| MultipartSpec.CutOpeningIsForgotten | externals/httplib/httplib.h:4396-4403 | A body that is cut inside its only opening line is accepted and means nothing, whatever it means in one piece |
| MultipartSpec.Resume | externals/httplib/httplib.h:4389-4524 | One cut anywhere after the opening line, in every state of the parser: what is left to parse is as fitting and as quiet as the whole, and gives a client the same if the whole fits or the rest is accepted |
| MultipartSpec.ContentResume | externals/httplib/httplib.h:4480-4502 | With no delimiter in sight, passing on all but the last characters and keeping those gives, with more input, the step that the whole would have given |
| MultipartSpec.HeaderLinesResume | externals/httplib/httplib.h:4412-4478 | Header lines read before a cut need not be read again, and an incomplete one waits |
| MultipartSpec.LimitIsSharp | externals/httplib/httplib.h:4409-4411 | For every handler, boundary and 8192-character line without CR: a body with that line as its first header line, cut inside the line end, is refused, and accepted whole if the handler accepts it |
| MultipartSpec.LimitDecides | externals/httplib/httplib.h:4409-4411 | For an accepted body: every cutting after the opening line is accepted, with the same for the client, exactly when all header lines that are read fit within the limit however cut |
| Multipart.MultipartFormDataParser.Parse | externals/httplib/httplib.h:4389-4524 | One call over the sliding buffer: the callbacks' state, the answer and the whole parser state are those of the functional model |
| Multipart.MultipartFormDataParser.BufAppend | externals/httplib/httplib.h:4595-4611 | Moving the rest to the front and appending leaves the old contents followed by the data |
| Multipart.FindBetween | externals/httplib/httplib.h:4572-4593 | The search skipping to the first character finds the first occurrence, or the whole length |
| Search.FindIsFirst | externals/httplib/httplib.h:4572-4593 | The answer is the first occurrence, and the length of the text exactly when there is none |
| Search.FirstAfter | externals/httplib/httplib.h:4480-4489 | A pattern whose first character does not come again cannot overlap itself: after text without it the first occurrence is the one put there |
| Multipart.MultipartFormDataParser.ReadHeaders | externals/httplib/httplib.h:4409-4479 | The header state with its limit, its callback and its two ways of failing |
| Multipart.MultipartFormDataParser.ReadContent | externals/httplib/httplib.h:4480-4502 | The body state: content up to the delimiter, or all that cannot be part of one |
| MultipartHeaders.ReadHeaderLine | externals/httplib/httplib.h:4424-4473 | What one header line adds to the description of a part, with every way of being refused |
| MultipartHeaders.ParseDispositionParams | externals/httplib/httplib.h:4311-4333 | The parameters of a disposition: each text once, split, unquoted and inserted in order |
| MultipartHeaders.DispositionReadsBack | externals/httplib/httplib.h:4669-4672 | A written disposition line gives back the name and the file name |
| MultipartHeaders.ContentTypeReadsBack | externals/httplib/httplib.h:4674-4676 | A written content type line gives back the trimmed type |
| PartHeaders.LineMeans | externals/httplib/httplib.h:4424-4473 | For every header line: one that is no field is refused; a content type, in any spelling, gives its trimmed value; a form-data disposition what its parameters say; any other line is passed over |
| PartHeaders.FieldExactly | externals/httplib/httplib.h:3755-3777 | A line is a field exactly if it is a name without a colon, a colon, and a value with any blanks around it, none of them empty |
| PartHeaders.DispositionExactly | externals/httplib/httplib.h:4438-4443 | The regular expression matches a line, with this text as its group, exactly if the line is the two fixed words in any spelling, any white space after each, and this one line of text |
| PartHeaders.NamedMeans | externals/httplib/httplib.h:4444-4471 | A disposition without a name is refused; with one it gives the name, and the file name, an extended one before a plain one |
| PartHeaders.ExtendedExactly | externals/httplib/httplib.h:4455-4470 | An extended file name is accepted exactly if it is one line, not empty, after `UTF-8''` in any spelling, and then it is that line decoded |
| CaseBlind.MatchesExactly | externals/httplib/httplib.h:4533-4540 | Two characters match exactly if they are equal or the k-th capital and the k-th small letter for some k below 26 |
| CaseBlind.StartsExactly | externals/httplib/httplib.h:4533-4540 | A text starts with a token exactly if it begins with a respelling of it that changes only the case of letters |
| CaseBlind.DispositionMeans | externals/httplib/httplib.h:4438-4473 | A disposition in any spelling of its fixed words and with any white space after them means what its parameters say |
| CaseBlind.DispositionReadsBackInAnyCase | externals/httplib/httplib.h:4438-4473 | Names written in a disposition read back in any spelling of its fixed words |
| CaseBlind.ContentTypeReadsBackInAnyCase | externals/httplib/httplib.h:4431-4436 | So does a content type, with any blanks around it |
| CaseBlind.ExtendedNameReadsBack | externals/httplib/httplib.h:4455-4466 | A file name of any bytes, percent-encoded in an extended parameter after `UTF-8''` in any spelling, is the file name of the part |
| CaseBlind.OtherExtendedRefused | externals/httplib/httplib.h:4461-4470 | Any other extended value refuses the line |
| MultipartRoundTrip.Serialize | externals/httplib/httplib.h:4694-4707 | The text written for a list of items, with or without the closing line, which completes it |
| MultipartRoundTrip.WrittenReadsBack | externals/httplib/httplib.h:4664-4707 | A written body of a non-empty list is valid and reads back as exactly the items, for any boundary without CR, names without `;`, `=`, CR and LF, trimmed types without a line end, and contents without the delimiter (section 5.1.1 of RFC 2046, section 4 of RFC 7578) |
| MultipartRoundTrip.WrittenReadsBackHoweverCut | externals/httplib/httplib.h:4664-4707 | The same for any pieces that do not split the opening line |
| MultipartMeaning.BodyIsMeant | externals/httplib/httplib.h:4389-4524 | For any callbacks, also ones that refuse, and any body: the state of the client, the verdict and the answer follow from its preamble, its header lines, its contents and its ending, with the limit on the first header line, the content held back when no delimiter follows, and what comes after a delimiter |
| MultipartMeaning.EveryBody | externals/httplib/httplib.h:4389-4524 | Every text is such a body |
| ThreadPool.ExecutionKeepsInv | externals/httplib/httplib.h:672-743 | Every state of every interleaving: the mutex has one holder, queued and taken jobs make up the enqueued ones, no wakeup is lost, nobody leaves before the flag or while jobs remain |
| ThreadPool.TakenInOrder | externals/httplib/httplib.h:684-725 | Jobs are taken once each in the order they were enqueued, and a taken job is running or finished |
| ThreadPool.NoLostWakeup | externals/httplib/httplib.h:684-725 | No reachable state has a queued job, all workers asleep and no notification pending |
| ThreadPool.JoinedMeansDone | externals/httplib/httplib.h:693-730 | Once every worker has exited with nothing enqueued after the flag, every job has run |
| ThreadPool.InternalRunsAreBounded | externals/httplib/httplib.h:684-730 | Left to itself the pool comes to rest: each of its own steps uses up a bounded amount of work |
| ThreadPool.RestMeansDone | externals/httplib/httplib.h:672-743 | At rest all jobs have run; after the flag all workers have exited, so the joins return, and before it all sleep |
| Streams.SocketStream.Read | externals/httplib/httplib.h:5423-5467 | For every schedule of receives: returned bytes followed by buffered and unread bytes are the stream as it was; zero only at its end |
| Streams.StreamLineReader.GetLine | externals/httplib/httplib.h:2617-2641 | Exactly the bytes through the first LF, or to the end of the stream, and no byte more is taken |
| Streams.StreamLineReader.Append | externals/httplib/httplib.h:2643-2654 | The line grows by one character, is terminated again, and nothing else changes, whether or not it spills from the fixed buffer |
| Streams.FirstLineIs | externals/httplib/httplib.h:2617-2641 | What the first line of a text is: nothing before its end is an LF |
| Chunked.ReadContentWithLength | externals/httplib/httplib.h:3830-3850 | The next bytes of the stream, as many as asked for, or all there are, passed on in order to a receiver until it refuses some; what it has taken is exactly the content |
| Chunked.ReadContentChunked | externals/httplib/httplib.h:3878-3931 | The content and the trailer fields that the coded stream means, whatever the socket gives at a time; after success the stream stands at the byte after the empty line; a receiver that refuses a piece makes the call fail, and has taken what the content begins with |
| Chunked.ReadTrailer | externals/httplib/httplib.h:3912-3930 | The trailer up to the empty line, with the line limit |
| Chunked.WriteContentChunked | externals/httplib/httplib.h:4125-4227 | The rounds of the provider: what is on the wire and the result, with success only if everything was sent |
| Chunked.DataSink.Write | externals/httplib/httplib.h:4133-4158 | A chunk for the data unless it is empty or an earlier write failed |
| Chunked.DataSink.Done | externals/httplib/httplib.h:4162-4204 | The last chunk, the trailer and the empty line |
| Chunked.WriteData | externals/httplib/httplib.h:4033-4041 | All of the data, however little each write takes |
| ChunkedSpec.SizeReadsBack | externals/httplib/httplib.h:2310-2318 | A written size line is read by strtoul as the size |
| ChunkedSpec.BodyReadsBack | externals/httplib/httplib.h:3878-3931 | Chunks, a last chunk and a trailer read back as the data joined and the trailer, stopping at the byte after (section 7.1 of RFC 9112) |
| ChunkedSpec.CallsReadBack | externals/httplib/httplib.h:4125-4227 | For any calls of the sink: the text reads back as their data and the trailer, whatever follows on the stream, exactly when they are writes, empty or not, closed by one `done` and followed by nothing but writes of nothing |
| ChunkedSpec.WrittenReadsBack | externals/httplib/httplib.h:4125-4227 | The same for what a provider that keeps going gets to write in its rounds, and then the writer has succeeded |
| ChunkedSpec.EmptyWriteTruncates | externals/httplib/httplib.h:4133-4136 | A write of nothing as the last call of a round, after any writes: the writer sends no last chunk and succeeds, and the reader fails |
| ChunkedMeaning.SizeExactly | externals/httplib/httplib.h:3892-3895 | A line has a size exactly if it is white space, a sign or none, a mark or none, and digits to base 16 up to the first character that is none; the value saturates, and wraps behind a minus sign |
| ChunkedMeaning.CodedIsMeant | externals/httplib/httplib.h:3878-3931 | For any stream: reading succeeds exactly on chunks with their sizes and line ends, a size of zero, and a trailer of lines within the limit up to the empty line; otherwise it fails, and has passed on the bytes of the chunks before and of a short or unended one |
| ChunkedMeaning.EveryStream | externals/httplib/httplib.h:3878-3931 | Every text is such a stream |
| ChunkedSpec.StopsAt | externals/httplib/httplib.h:4205-4227 | The round in which a provider stops, or closes its data, ends the writing: canceled or with success, with the text of all rounds up to it |
| ChunkedSpec.RunsOut | externals/httplib/httplib.h:4205-4227 | Rounds that all go on end with success when the server asks for no more, and canceled when the provider has no more |
| ChunkedSpec.EveryScript | externals/httplib/httplib.h:4205-4227 | One of these is the case |
| HeaderField.ParseHeader | externals/httplib/httplib.h:3755-3789 | Which lines are fields, and the name and value of a field |
| HeaderField.FieldReadsBack | externals/httplib/httplib.h:3755-3789 | A written field gives back its name and value |
| CaseBlind.FieldMeans | externals/httplib/httplib.h:3755-3789 | A field with any blanks around its value: a name that is `Location` in any spelling keeps the value, any other has it decoded |
| HttpText.DecodeUrl | externals/httplib/httplib.h:2486-2521 | Percent decoding, with the four-digit form and with percent signs that start no escape |
| HttpText.EncodeQueryParam | externals/httplib/httplib.h:2433-2452 | Percent encoding of all bytes but the unreserved ones |
| HttpText.DecodeUndoesEncode | externals/httplib/httplib.h:2433-2521 | Decoding gives back any bytes, whether or not `+` stands for a space (section 2.1 of RFC 3986) |
| HttpText.Utf8ReadsBack | externals/httplib/httplib.h:2320-2350 | Every code below 0x110000 that is not a surrogate is written as bytes that stand for it, and a surrogate as nothing |
| HttpText.Utf8Shape | externals/httplib/httplib.h:2320-2350 | These bytes have the shape of UTF-8 (section 3 of RFC 3629): as few as there can be, a first byte for their number and continuation bytes |
| PercentCoding.UnitsDecode | externals/httplib/httplib.h:2486-2521 | A text of plain characters, two-digit and four-digit escapes in either case, pluses and percent signs that begin no escape decodes to the bytes, the codes in UTF-8, spaces or pluses, and percent signs that these stand for |
| PercentCoding.EveryTextHasUnits | externals/httplib/httplib.h:2486-2521 | Every text is one of such units |
| PercentCoding.FormReadsBack | externals/httplib/httplib.h:2486-2521 | Decoding with `+` as a space undoes the form encoding of any bytes |
| PercentCoding.PlusStays | externals/httplib/httplib.h:2513-2514 | A plus anywhere in a text is a space where that is asked for, and stays otherwise |
| PercentCoding.ByteWritten | externals/httplib/httplib.h:2433-2452 | Which bytes stand for themselves, and that the others are two capital digits |
| PercentCoding.DigitValue | externals/httplib/httplib.h:2278-2292 | A character is read as the digit n exactly if it is the n-th of either row of sixteen |
| HttpText.FromIToHex | externals/httplib/httplib.h:2310-2318 | The lower-case numeral without leading zeros |
| HttpText.FromHexToI | externals/httplib/httplib.h:2293-2308 | The number of the digits at a position, or failure |
| Splitting.TrimIs | externals/httplib/httplib.h:2541-2555 | Trimming leaves what lies between the first and the last character that is not blank |
| Splitting.TrimRange | externals/httplib/httplib.h:2541-2550 | The two loops find the trimmed range of any part of a text, whatever surrounds it, although the second one may run past the start |
| Splitting.Split | externals/httplib/httplib.h:2569-2589 | The trimmed, non-empty texts between the delimiters, in order, for any delimiter |
| Splitting.SplitUndoesJoin | externals/httplib/httplib.h:2569-2589 | Splitting gives back joined texts that are trimmed, not empty and free of the delimiter |
| QueryTexts.SplitMeans | externals/httplib/httplib.h:2569-2589 | For any text: splitting gives the texts between the delimiters without the blanks around them, where something is left |
| QueryTexts.EveryText | externals/httplib/httplib.h:2569-2589 | Every text is such texts and delimiters |
| QueryString.ParseQueryText | externals/httplib/httplib.h:4277-4298 | The parameters of a query text, each text once, decoded and inserted in order |
| QueryString.ParamsToQueryStr | externals/httplib/httplib.h:4265-4275 | The query text of a map |
| QueryString.EmplaceKeepsSorted | externals/httplib/httplib.h:4294-4296 | Insertion keeps the order of the multimap and adds exactly the new entry |
| QueryString.QueryReadsBack | externals/httplib/httplib.h:4265-4298 | The query text of an ordered map with clean keys and any byte values reads back as the map with each pair once |
| QueryString.UnreservedIsClean | externals/httplib/httplib.h:4265-4298 | Non-empty keys of unreserved characters are clean |
| QueryTexts.PairMeans | externals/httplib/httplib.h:4284-4297 | Of any text with equals signs the first thing kept is the key and the last further one the value |
| QueryTexts.LessExactly | externals/httplib/httplib.h:4294-4296 | The order of keys: a proper prefix first, and otherwise the first byte that differs decides |
| QueryKeys.QueryRoundTrip | externals/httplib/httplib.h:4265-4298 | For any map of byte values: the round trip gives the same map if and only if the map is in its order, no pair occurs twice, and every key is not empty, without blanks at its ends, free of `=` and `&`, and decodes to itself |
| QueryKeys.PairAffords | externals/httplib/httplib.h:4265-4298 | Reading the text of one pair adds entries that weigh no more than the pair, and less if its key is not clean, where a character weighs two, a plus three, and each entry one more, or two with an empty key |
| QueryKeys.DecodedWeight | externals/httplib/httplib.h:2486-2521 | Decoding adds no weight, and keeps it only for text that stands for itself |
| QueryKeys.PiecesOfTwo | externals/httplib/httplib.h:2569-2589 | The pieces of two texts joined by the delimiter are those of the first followed by those of the second |
| Base64.Encode | externals/httplib/httplib.h:2354-2380 | The encoder with its accumulator wrapped to 32 bits computes the standard encoding for any length |
| Base64.LastTwoBytes | externals/httplib/httplib.h:2365-2367 | Shifting in a byte never overflows again after the truncation and loses no bit that is still needed |
| Base64.DecodeUndoesEncode | externals/httplib/httplib.h:2354-2380 | A reference decoder recovers the bytes (section 4 of RFC 4648) |
| Base64.LengthAndPadding | externals/httplib/httplib.h:2375-2379 | 4*ceil(n/3) characters, the last ones padding, as many as bytes are missing |
| Base64.GroupsAreBits | externals/httplib/httplib.h:2354-2380 | The k-th four characters are the letters of table 1 of RFC 4648 for the 24 bits of the k-th three bytes, six by six from the highest, with padding for missing bytes |
| PathParams.TakeApart | externals/httplib/httplib.h:5522-5565 | The loop of the constructor: the fragments and names of a pattern, or refused at a name that is in the set |
| PathParams.PathParamsMatcher.Create | externals/httplib/httplib.h:5522-5565 | A matcher for the pattern, unless the constructor refuses it |
| PathParams.NothingIsRefused | externals/httplib/httplib.h:5531-5555 | With the set that stays empty every pattern is taken apart |
| PathParams.CheckWorksExactly | externals/httplib/httplib.h:5531-5555 | The constructor gives what it would give with the set filled exactly for patterns without a repeated name |
| PathParams.RepeatedNameIsAccepted | externals/httplib/httplib.h:5549-5557 | For every name the pattern `/:name/:name` is accepted, the check as meant refuses it, a path matches it with two values, and only the first is captured |
| PathParams.PathParamsMatcher.Match | externals/httplib/httplib.h:5567-5608 | Whether a path matches and what is captured under which name |
| PathParams.MatchIffInstance | externals/httplib/httplib.h:5522-5608 | Paths are accepted, with these captures, exactly when they are the pattern with these slash-free values in it, up to one slash after a parameter at the end, if and only if no static text of the pattern has a NUL character before its last one |
| PathParams.TerminatorHides | externals/httplib/httplib.h:5583-5586 | For any other pattern a path that is accepted and is not the pattern with the captured values in it |
| PathParams.CapturesAreUnique | externals/httplib/httplib.h:5567-5608 | No path has two readings, for any pattern |
| PathParams.CapturesByName | externals/httplib/httplib.h:5597-5600 | Every list of values is captured with each value under its own name, if and only if no name repeats |
| PathParams.FirstStays | externals/httplib/httplib.h:5597-5600 | A name has the value of its first occurrence, wherever and however often it comes again |
| ProfilerEntry.FieldsReadBack | externals/microprofile/microprofile.h:826-854 | Kind, timer and tick of a log word do not disturb each other |
| ProfilerEntry.DifferenceIgnoresKindAndTimer | externals/microprofile/microprofile.h:856-862 | The difference is that of the tick bits alone, modulo 2^48 and read as signed |
| ProfilerEntry.DifferenceOfTimes | externals/microprofile/microprofile.h:856-862 | Times less than 2^47 apart have their true difference, even across a wrap of the counter |
| ProfilerLog.ExactlyOnce | externals/microprofile/microprofile.h:1558-1661 | Over any run of puts and flips with fewer puts than the ring holds in any four consecutive frames, what has been folded is the put sequence up to the third flip before the last, each entry once |
| ProfilerLog.FixedDelay | externals/microprofile/microprofile.h:1558-1661 | Each flip folds exactly the frame that ended three flips before |
| ProfilerLog.NothingDropped | externals/microprofile/microprofile.h:1387-1402 | In such a run no put is dropped |
| ProfilerLog.RangeIsSlice | externals/microprofile/microprofile.h:1481-1498 | The entries between the ring positions of two indices are that part of the put sequence, around the end or not |
| ProfilerLog.MicroProfileThreadLog.LogPut | externals/microprofile/microprofile.h:1387-1402 | A put in place, or the overflow mark and nothing else |
| ProfilerLog.GetRange | externals/microprofile/microprofile.h:1481-1498 | The two pieces go around the ring once: their positions are the successive positions from get on, in order, as many as lie between get and put |
| ProfilerLog.MicroProfileThreadLog.Flip | externals/microprofile/microprofile.h:1558-1661 | The frame history and the get position move on, and the two pieces returned hold, in order, the entries of the frame that began four flips ago |
| ProfilerFold.OpKeepsBalance | externals/microprofile/microprofile.h:1693-1748 | What each entry does to the balance and to the bottom slot |
| ProfilerTimers.TimersOfRun | externals/microprofile/microprofile.h:1683-1768 | Over any well-nested run from a cleared profiler, in any number of frames, in which the ticks of scopes are truly read: every timer has been charged in this frame the lengths of its scopes closed in it, their lengths without those of the directly enclosed scopes, and their number, and over the frames before the own lengths of those closed in them |
| ProfilerTimers.StepAccounts | externals/microprofile/microprofile.h:1693-1768 | Each entry and each end of a frame keeps these accounts, and the child ticks at each depth are the lengths enclosed so far |
| ProfilerTimers.KeptIsTrulyRead | externals/microprofile/microprofile.h:1725-1726 | Ticks are truly read where the opening word is still in its place and the scope is shorter than 2^47 ticks |
| ProfilerTimers.InnerScopeIsTakenOff | externals/microprofile/microprofile.h:1728-1733 | One scope in another: the outer timer keeps its length and loses that of the inner one from its own |
| ProfilerThreads.ExclusiveTimeIsConserved | externals/microprofile/microprofile.h:1637-1768 | For any number of threads folded into one set of sums, any traces, balanced or not, and any number of frames: exclusive ticks minus the live child ticks of all threads do not change |
| ProfilerThreads.ExclusiveAddsUpToInclusive | externals/microprofile/microprofile.h:1637-1768 | From empty stacks to empty stacks the exclusive ticks of all threads add up to the inclusive ticks of their outermost scopes |
| ProfilerThreads.EndsAlike | externals/microprofile/microprofile.h:1751-1768 | The end of a frame of all threads is for each of them the end of its own frame |
| ProfilerThread.MicroProfileThread.FoldRange | externals/microprofile/microprofile.h:1683-1749 | The loop over a range, in place, folds its entries one by one |
| ProfilerThread.MicroProfileThread.LeaveScope | externals/microprofile/microprofile.h:1718-1748 | Closing a scope: every array and the stack afterwards |
| ProfilerThread.MicroProfileThread.EnterScope | externals/microprofile/microprofile.h:1696-1706 | Opening a scope: every array and the stack afterwards |
| ProfilerThread.MicroProfileThread.EndFrame | externals/microprofile/microprofile.h:1751-1768 | The sums of the frame go to the sums over the frames and start again from zero |
| ProfilerThread.MicroProfileThread.constructor | externals/microprofile/microprofile.h:1077-1085 | A profiler with nothing open and nothing charged, on arrays of its own |
| ProfilerThread.MicroProfileThread.FoldFrame | externals/microprofile/microprofile.h:1688-1768 | Both ranges of a frame and its end, in place, one after the other |
| ProfilerGroups.GroupTimeIsCover | externals/microprofile/microprofile.h:1696-1746 | Over any well-nested trace, in any number of frames and whatever the log holds, a group with no open scope has been charged as many ticks as the union of its scopes covers, less the ticks lost where the opening word was no longer there |
| ProfilerGroups.NothingLost | externals/microprofile/microprofile.h:1725-1726 | Nothing is lost where the opening word is still in its place and the scope is shorter than 2^47 ticks |
| ProfilerGroups.OverwrittenScope | externals/microprofile/microprofile.h:1725-1747 | A well-nested scope whose opening word has been overwritten by one of time w is charged end - w and not end - begin: a scope from 100 to 110 with w = 7 is charged 103 ticks for 10 |
| ProfilerGroups.StepKeepsInv | externals/microprofile/microprofile.h:1696-1746 | While scopes of the group are open, charged are the covered ticks before the outermost of them |
| ProfilerFlip.Flip | externals/microprofile/microprofile.h:1558-1768 | A flip in place: the log moves on, and the sums and the stack are those of folding its two ranges and ending the frame |
| ProfilerFlip.RangesAreRing | externals/microprofile/microprofile.h:1481-1498 | Folding the two ranges is folding the entries of the part of the ring in order |
| ProfilerFlip.GroupTimeOfRun | externals/microprofile/microprofile.h:1387-1768 | Over any run of puts and flips with fewer puts than the ring holds in any four consecutive frames, however long, if less than 2^47 ticks pass while the ring goes around: a group with no open scope is never charged more than its scopes cover, exactly that if each of its outermost scopes was folded with at most as many puts as the ring holds since it was opened, and only then if time moves on while the ring goes around |
| ProfilerLoss.SomeRunLoses | externals/microprofile/microprofile.h:1387-1768 | Such a run on which a group is charged less, with one put in each frame and all scopes closed and folded, from any state without open scopes |
| Resampler.LinearChannelIsInterpolation | src/audio_core/interpolate.cpp:60-74 | The kernel evaluated with unsigned 64-bit wraparound is x0 + floor(fraction*delta/2^24) and lies between x0 and x1 |
| Resampler.StreamingRefinesOneShot | src/audio_core/interpolate.cpp:18-51 | For a constant step, any split of the input and any sequence of frames, the k-th sample is the kernel at p0 + k*step over history and all input, and what is carried on is the unread tail |
| Resampler.LinearRunInterpolates | src/audio_core/interpolate.cpp:60-74 | However it is fed, sample k of a linear run is the floored interpolation between the two input samples around position p0 + k*step, and lies between them, in both channels |
| Resampler.HoldRunRepeats | src/audio_core/interpolate.cpp:53-58 | Without interpolation sample k is the input sample at the whole part of its position |
| Resampler.FeedingDoesNotMatter | src/audio_core/interpolate.cpp:18-51 | Two ways of feeding the same input never disagree on a sample, and agree on how many once both have drained it |
| Resampler.DrainedIsComplete | src/audio_core/interpolate.cpp:32-44 | A drained run has produced every sample the input allows |
| Resampler.PositionStaysSmall | src/audio_core/interpolate.cpp:46-48 | The carried position stays below 2^24 + step, so the 64-bit position never wraps |
| Resampler.StepOverSamples | src/audio_core/interpolate.cpp:18-51 | One call in place: output, output index, state and remaining input are those of the functional model |
| Adpcm.DecodingSplitsAtFrames | src/audio_core/codec.cpp:28-79 | Decoding two parts, of which the first is whole frames, with the carried history is decoding them together |
| Adpcm.FitsExactly | src/audio_core/codec.cpp:47-52 | The exact condition on two coefficients under which no input overflows the 32-bit filter sum |
| Adpcm.SmallCoefficientsFit | src/audio_core/codec.cpp:47-52 | Coefficients with magnitudes up to 49151 together meet it |
| Adpcm.FittingNeverOverflows | src/audio_core/codec.cpp:47-52 | With coefficients that meet it no data overflow from any history |
| Adpcm.DecodeADPCM | src/audio_core/codec.cpp:16-80 | The result buffer and the state are those of the recurrence over the frames, for all data and coefficients whose sums stay in 32 bits |
| Adpcm.DecodeSample | src/audio_core/codec.cpp:46-59 | One sample, every operation in 32-bit arithmetic, is the clamped filter value |
| AdpcmMeaning.NibbleIs | src/audio_core/codec.cpp:24-26 | A nibble stands for the one number between -8 and 7 that is equal to it modulo 16 |
| AdpcmMeaning.PackedReadsBack | src/audio_core/codec.cpp:28-66 | Frames packed from a header and 14 values, the first of each pair in the high half, have exactly these as their codes |
| AdpcmMeaning.FilterMeans | src/audio_core/codec.cpp:34-59 | The filter gives the one sample that the sum rounds down to, or the nearest bound, with the scale of the low half of the header and the coefficient pair of its bits 4 to 6 |
| AdpcmMeaning.OutputIs | src/audio_core/codec.cpp:46-72 | Each sample is the filter of its code and of the two samples before it, the first of which come from the history |
| AdpcmMeaning.DecodedMeans | src/audio_core/codec.cpp:16-80 | For packed frames, every decoded sample follows from its value, its frame and the two samples before it |

## Left out

- Sockets, timeouts, polling, TLS, certificates, file mapping, the client and server request loops, redirects and authentication: input and output and foreign calls; only a stream that moves any amount at a time is kept.
- The zlib and brotli compressors: foreign libraries; the chunked writer is modelled with the identity compressor.
- Range requests and multi-range bodies (`externals/httplib/httplib.h:4709-4810`): not part of this model.
- The wide-character half of getopt (`externals/getopt/getopt.c:466-856`) and the printing of messages: a duplicate and output.
- Getopt.GetoptData.GetoptInternal: where `GetoptSpec.FallsThrough` holds of the elements from optind on, returns the value -1; the source reads on in letters there (`externals/getopt/getopt.c:342-349`), from the second character of the element after the option, or past the vector if there is none.
- GetoptRun.WholeRun: does not cover long options without a flag whose own value is -1, because a caller cannot tell them from the end of the run; characters are taken as unsigned codes, and a null `__nextchar` is the same as an empty one.
- Multipart.MultipartFormDataParser.Parse: takes the interpretation of a header line as a parameter; `MultipartHeaders.ReadHeaderLine` is that interpretation, with its two regular expressions written out as plain matching in the C locale.
- MultipartSpec.CuttingDoesNotMatter: does not cover callbacks that fail; a body whose opening line is cut is the subject of `MultipartSpec.AnyCutting`.
- ThreadPool.ExecutionKeepsInv: models the pool as a step system at the granularity of its critical sections and notifications, because its methods interleave; jobs are identified by numbers and do not throw.
- Chunked.ReadContentWithLength: the progress callback, which the chunked reader does not pass.
- Chunked.WriteContentChunked: the provider is a list of rounds, and the server shuts down after a given number of them.
- ChunkedSpec.WrittenReadsBack: pieces are shorter than ULONG_MAX, trailer fields are such as reading leaves alone, and no round asks to stop; `ChunkedSpec.StopsAt` has those that do.
- ProfilerFold.FoldEntry: counters of meta entries and the width of tick sums are not modelled; opening a scope asks for one free slot above it, which the code writes.
- ProfilerThread.MicroProfileThread.EndFrame: does not model the accumulated inclusive ticks and counts of timers, the maxima, nor the group sums over all threads; they are written by the same loops and nothing modelled reads them.
- ProfilerFlip.Flip: folds one thread; `ProfilerThreads` has all of them on values.
- ProfilerFlip.GroupTimeOfRun: is stated for one thread; that a scope that stays open while the ring goes around once is shorter than 2^47 ticks is what the width of a tick asks for.
- ProfilerLog.ExactlyOnce: takes each put and each flip as one step; the relaxed memory order of the get position is not modelled.
- Pausing, dumps, the web server, graphs, GPU timers, context switches and the user interface of the profiler: user interface and platform code.
- The conversion of the float rate of the resampler to a step (`src/audio_core/interpolate.cpp:28`): the integer step is a parameter.
- PCM8 and PCM16 copies, audio sinks and inputs: plumbing.
