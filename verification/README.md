# salus: a verified model

salus is a one-shot health-check runner. Each probe has to decide, from a
bounded and possibly unfinished stream of bytes, whether text assertions hold,
fail, or cannot be proved, and it has to decide in bounded time. This project
models that decision logic in Dafny and proves what it promises:

- **Matching and capture** (`TextMatch.dfy`, `Capture.dfy`). The incremental
  matcher looks only at an overlap window after each append, and always has the
  answers of a plain search of the whole buffer. The capture buffer always
  holds the first `limit` bytes of what was read.
- **HTTP bodies** (`BodyAssertion.dfy`, `BodyReader.dfy`, `BodyVerdict.dfy`).
  The verdict on a capture is exact about every body the capture leaves
  possible; early decisions are final; the read loop with all its early exits,
  followed by the assertions, passes exactly when a specification of the whole
  stream says so, however the body was cut into frames.
- **File contents** (`FileProbe.dfy`). The chunked read passes exactly when
  the texts are in the first `limit` bytes.
- **Exec output** (`ExecProtocol.dfy`, `ExecOutput.dfy`, `ExecReader.dfy`). A
  reader task, a watch channel, a shared buffer and a waiter with two grace
  periods and a deadline form a transition system. Over all interleavings the
  verdicts are sound, published flags are monotone and never ahead of the
  shared state, and the wait is bounded and, under weak fairness, always
  returns. The reader's loop is a method over mutable objects that refines the
  reader's steps.
- **TCP attempts** (`TcpProbe.dfy`). Fair shares of one deadline.
- **Text front ends** (`EnvExpand.dfy`, `Argv.dfy`, `ArgvGrammar.dfy`,
  `ArgvHelp.dfy`, `UriText.dfy`, `Authority.dfy`, `Output.dfy`). Expansion
  inverts a printer of segments; the argument scanners refine a tokenisation,
  which is the one reading of the command line by a grammar; percent-encoding,
  URL authorities and authorities are accepted exactly as section 2.1,
  section 3 and section 3.2 of RFC 3986 shape them; the success line can be
  read back.

`Common.dfy` holds the shared types. `dafny verify dfyconfig.toml` checks
everything.

## What the code does not guarantee

Two statements one would expect of the code are false of it. The model keeps the
code as it is, names an input, and proves when the statement holds.

- *A definite diagnosis is true of the whole body.* When `--not-contains` is
  used, a forbidden text ends the reading early without marking the capture
  incomplete. The probe still fails, as it must, but it may give the wrong reason:
  the body "ab" with `--body-equals ab --not-contains a`, arriving as "a" and then
  "b", is reported not to equal "ab" (`BodyVerdict.WrongReasonExample`).
  `BodyVerdict.NotEqualIsTrueExactlyWhen` and
  `BodyVerdict.MissingIsTrueExactlyWhen` give the exact conditions on the
  arguments; without `--not-contains` both diagnoses are always true
  (`BodyVerdict.DiagnosisIsTrue`).
- *The time allotted to the attempts adds up to at most the deadline.* Time that a
  quickly refused attempt gives back is allotted again, so three immediate refusals
  under 3 ms are allotted 5.5 ms (`TcpProbe.AllotmentsCanExceed`). Over all answers the
  allotments always fit if and only if the deadline is zero, there is no address, or there
  is one address and at least a millisecond (`TcpProbe.AllotmentsFitExactlyWhen`); for given
  answers, a run that tried every one of at most 2^32 - 1 addresses fits if and only if the
  deadline leaves each address a millisecond and each but the last took at least its share to
  answer (`TcpProbe.FullRunFitsExactlyWhen`). The time actually spent
  always fits (`TcpProbe.StaysInBudget`).

Also, how a body was framed can matter: when a body of unknown length ends exactly at the
limit, the grace starts at the frame that filled it
(`BodyVerdict.FramingMattersAtTheLimit`). Of two framings of the same bytes one passes and
the other fails if and only if the body ends cleanly, fills the limit and satisfies everything,
more than required texts is asserted, and the end is known in time in one case only
(`BodyVerdict.FramingMattersExactlyWhen`). Which failure is named may differ more often when a
text is forbidden; otherwise the whole diagnosis depends on the bytes, a transport error, the
limit and whether the end is known, and on a declared length that rules out the expected body
(`BodyVerdict.DiagnosisIsOfTheWhole`).

## Model

| member | source | states |
|---|---|---|
| TextMatch.OverlapIsEnough | src/text_match.rs:35-39 | a needle absent before an append occurs anywhere in the longer buffer exactly when it occurs in the window that starts its length minus one bytes earlier |
| TextMatch.TextMatcher.constructor | src/text_match.rs:9-25 | a new matcher has the answers of a search of the empty buffer |
| TextMatch.TextMatcher.ObserveAppended | src/text_match.rs:27-41 | a matcher with the answers for the old part ends with the answers of a plain search of the whole buffer, and its count is the number of needles found |
| TextMatch.TextMatcher.AllMatched | src/text_match.rs:43-45 | comparing the count answers whether every needle occurs in the whole buffer |
| TextMatch.TextMatcher.AnyMatched | src/text_match.rs:47-49 | the count answers whether some needle occurs in the whole buffer |
| TextMatch.CountTrueExtremes | src/text_match.rs:43-49 | the count is the length exactly when all flags are set, and positive exactly when one is |
| Capture.CaptureBuffer.AppendLimited | src/capture.rs:10-25 | if the buffer was the first `limit` bytes of what had been read, incomplete exactly when more was read, it is so again after the chunk; the old bytes stay in front |
| BodyAssertion.PassIffCertain | src/probes/http.rs:1040-1097 | the assertions pass exactly when every complete body consistent with the capture satisfies all of them |
| BodyAssertion.VerdictIsExact | src/probes/http.rs:1040-1097 | a definite verdict names an assertion false of every consistent body, a "cannot prove" one names one true of some and false of others |
| BodyAssertion.VerdictInOrder | src/probes/http.rs:1040-1097 | exact match, required texts and forbidden texts are checked in that order: a verdict about one says that all before it hold, and names the first required text missing or the first forbidden text present |
| BodyAssertion.DecisionIsFinal | src/probes/http.rs:1176-1194 | once the early-exit test holds of a prefix, the assertions on that prefix pass exactly when those on any full body extending it do |
| BodyReader.BodyAssertionIsDecided | src/probes/http.rs:1176-1194 | the test on the matchers' counters says what the captured bytes themselves decide |
| BodyReader.WaitForBodyEofAfterLimit | src/probes/http.rs:1202-1223 | complete, still open, more body or a read error, each exactly for the continuations of the stream it stands for |
| BodyReader.ObserveData | src/probes/http.rs:1129-1148 | after any chunk, truncated or not, the mismatch flag says exactly that the captured bytes are no prefix of the expected body, although only the new bytes were compared |
| BodyReader.PrefixMismatchStep | src/probes/http.rs:1132-1139 | comparing the appended slice with the same range of the expected body decides whether the longer capture is still a prefix |
| BodyReader.StopAtLimit | src/probes/http.rs:1152-1166 | whether reading goes on past the limit, and the completeness claimed, follow the declared length and what the end-of-body wait saw |
| BodyReader.ReadBody | src/probes/http.rs:1099-1174 | reading stops at the first frame that decides, overflows or fills the limit, or at the end, and returns what that prefix of the stream determines |
| BodyReader.OutcomeIsDetermined | src/probes/http.rs:1099-1174 | that description leaves exactly one possible outcome for a stream |
| BodyReader.OutcomeExists | src/probes/http.rs:1099-1174 | every stream has an outcome under that description, so it has exactly one |
| BodyVerdict.CheckBody | src/probes/http.rs:1040-1174 | for every stream with an absent, bounding or true exact size hint, reading and asserting passes exactly when the whole-stream specification does |
| BodyVerdict.PassesAsWholeStreamSays | src/probes/http.rs:1040-1174 | every outcome the reading loop can have is judged as the whole stream is: with only required texts they occur in the first `limit` bytes; otherwise the body fits, its end is known, and it satisfies everything |
| BodyVerdict.EndIsKnownAt | src/probes/http.rs:1156-1166 | at the frame that fills the limit, the wait sees the end exactly when the whole-stream specification counts the end as known |
| BodyVerdict.FramingMattersExactlyWhen | src/probes/http.rs:1122-1168 | of two streams delivering the same bytes one passes and the other fails if and only if the body ends cleanly, satisfies everything, fills the limit, is not asserted on by required texts alone, and its end is known in time in one case only |
| BodyVerdict.FramingMattersAtTheLimit | src/probes/http.rs:1158-1166 | the case is real: the same byte passes or fails by whether a trailer uses up the grace |
| BodyVerdict.DiagnosisIsOfTheWhole | src/probes/http.rs:1040-1174 | without forbidden texts the whole diagnosis, category and named text, is fixed by the delivered bytes, the limit, a transport error and whether the end is known, unless a declared length rules out the expected body beforehand |
| BodyVerdict.DeclaredLengthDecides | src/probes/http.rs:1109-1120 | an exact declared length, longer or shorter than the expected body, is reported as inequality whatever the body |
| BodyVerdict.ReadFailedExactlyWhen | src/probes/http.rs:1126-1168 | a transport error is reported exactly when the stream breaks before the limit ends the reading and nothing delivered settles the assertions: no mismatch with the expected body, no forbidden text, and not all texts when nothing else is asserted |
| BodyVerdict.CaptureIsFaithful | src/probes/http.rs:1122-1174 | the capture is a prefix of the true body, and consistent with it unless reading stopped on a decision |
| BodyVerdict.DiagnosisIsTrue | src/probes/http.rs:1040-1174 | without forbidden texts a definite diagnosis is true of the whole body, the size-hint exit included; a forbidden text reported is in it; "cannot prove" is only said at the limit |
| BodyVerdict.NotEqualIsTrueExactlyWhen | src/probes/http.rs:1044-1060 | "does not equal" is always true of the whole body if and only if no forbidden text lies in the part of the expected body that can be read before its last byte |
| BodyVerdict.MissingIsTrueExactlyWhen | src/probes/http.rs:1065-1078 | "does not contain" is always true of the whole body if and only if no forbidden text can stop the reading where the required texts are not all read |
| BodyVerdict.WrongReasonExample | src/probes/http.rs:1143-1150 | a body equal to the required text that is reported as not equal to it |
| FileProbe.ReadFile | src/probes/file.rs:147-177 | the capture is the first `limit` bytes of some prefix of the file, and the prefix is the whole file, longer than the limit, or holds all the texts |
| FileProbe.CheckContents | src/probes/file.rs:120-135 | passes exactly when every text is in the first `limit` bytes, for every cutting of the reads; absence is only reported of a file read whole, truncation only of a longer one, and the text named is the first missing |
| ExecProtocol.AppendChunkIsOutputOf | src/probes/exec.rs:557-566 | updating the shared output with a chunk gives what a plain look at everything read so far would: capture, incomplete, matched, limit reached |
| ExecProtocol.ReaderKeepsData | src/probes/exec.rs:548-577 | every reader step keeps the shared output equal to that plain look, complete exactly after the end of the stream |
| ExecProtocol.ReaderKeepsChannel | src/probes/exec.rs:565-575 | every reader step keeps the published progress equal to the plain look at an earlier moment, at most one chunk behind |
| ExecProtocol.ReaderGrows | src/probes/exec.rs:557-575 | no reader step ever clears a flag, shared or published, or shortens the capture; and news after a published full capture end the wait |
| ExecProtocol.WaiterKeepsInvariant | src/probes/exec.rs:248-349 | every step of the waiter keeps the data, channel, outcome, timing and counting invariants |
| ExecProtocol.InvariantAlong | src/probes/exec.rs:248-349 | all of these hold in every state of every run, under any interleaving with chunks, end of stream, read errors, aborts and the clock |
| ExecOutput.VerdictIsSound | src/probes/exec.rs:384-401 | the verdict on what the wait returned is true of the stream: a pass means the texts occur in its first `limit` bytes, plain absence is only said of a stream captured whole, and the only failure is the reader's own |
| ExecOutput.VerdictIsOfTheCopy | src/probes/exec.rs:172-194 | the verdict is fixed by the bytes read when the output was copied and by whether it was complete, and names the first required text missing |
| ExecOutput.JoinedVerdictIsExact | src/probes/exec.rs:351-363 | when the reader finished, pass, absence and limit reached are each issued exactly when a search of the whole stream says so |
| ExecOutput.FinishedReaderIsJudgedExactly | src/probes/exec.rs:260-263 | a reader that has finished when the wait begins is always joined, without waiting, and pass and plain absence are each issued exactly when a search of the whole stream says so |
| ExecOutput.GrowsAlong | src/probes/exec.rs:557-575 | between any two moments of a run the published and shared flags, the capture and the channel version only grow |
| ExecOutput.PublishedWasShared | src/probes/exec.rs:228-246 | published progress is the projection of an earlier shared state, so every later snapshot still has each published flag |
| ExecOutput.EarlySnapshotIsFinal | src/probes/exec.rs:265-275 | a snapshot returned on a match or a truncation is judged as every later state of the stream is, the final one included |
| ExecOutput.WaitIsBounded | src/probes/exec.rs:248-349 | at every moment the wait is no older than 300 ms (250 ms and 50 ms) and not past the deadline (over at once if that has passed), and its loop went round at most limit + 2 times |
| ExecOutput.BothWaitsAreBounded | src/probes/exec.rs:163-170 | waiting for one stream and then the other takes at most 600 ms and ends by the deadline |
| ExecOutput.GivesUpExactlyWhen | src/probes/exec.rs:256-347 | a wait that gives up does so exactly 50 ms after it last looked at the published progress, or at the end of its time if that is earlier: the hard deadline with a full capture, otherwise 250 ms after it began or the hard deadline |
| ExecOutput.NewsRestartsGrace | src/probes/exec.rs:298-343 | every publication that the wait notices starts the idle grace again |
| ExecOutput.LookIsAnswered | src/probes/exec.rs:265-275 | a published match or truncation that the wait looks at is returned at once, a match before a truncation |
| ExecOutput.GivesUpOnlyAfterGrace | src/probes/exec.rs:320-347 | the wait only gives up with the reader aborted and after a full grace or at the deadline |
| ExecOutput.WaitAlwaysReturns | src/probes/exec.rs:248-290 | in every fair infinite run in which the wait starts, it returns |
| ExecOutput.WaitIsNeverStuck | src/probes/exec.rs:260-349 | in every reachable state of the wait some step can be taken even if the child does nothing more, and with the reader at its read the waiter is ready or the clock can move |
| ExecOutput.NeverReturningStalls | src/probes/exec.rs:260-289 | a wait that never ended would, from some moment on, take no step and see no time pass |
| ExecOutput.MatchingRun | src/probes/exec.rs:266-270 | there is a run in which a match is returned while the child keeps its stream open |
| ExecReader.SharedOutput.Append | src/probes/exec.rs:557-566 | what the reader does under the lock is the protocol's chunk step on the shared output |
| ExecReader.TakePiece | src/probes/exec.rs:557-567 | a turn of the loop is a chunk step followed by a publication, and leaves the task in step with the protocol |
| ExecReader.AnnounceEnd | src/probes/exec.rs:570-576 | after the end of the stream the task takes the two closing steps and returns the completed output |
| ExecReader.ReadLimitedWithSnapshots | src/probes/exec.rs:535-577 | for every cutting of the stream the task takes only steps of the protocol; its result, the shared output and the whole publication history are those of a plain look at each prefix read |
| TcpProbe.ConnectAny | src/probes/tcp.rs:48-82 | the attempts follow one another, each with the share its start gives it; the loop ends less than 1 ms past the deadline, and with at least 1 ms an address it ends by it having tried every address or connected, and it does connect if some address connects within an equal part |
| TcpProbe.AttemptsReportAnswers | src/probes/tcp.rs:49-73 | an attempt connects exactly when its address connects within the time allotted, and is over when the address answers or at the timeout; the time allotted is the largest equal part of what is left, but a millisecond at least |
| TcpProbe.PromptAddressConnects | src/probes/tcp.rs:57-66 | an address that connects within an equal part of the deadline is connected to when its turn comes |
| TcpProbe.EndsOnTime | src/probes/tcp.rs:48-98 | for any deadline and number of addresses the last attempt ends less than 1 ms late, and none is allotted less than 1 ms |
| TcpProbe.ShareLeavesEnough | src/probes/tcp.rs:92-98 | an attempt that takes at most its share leaves each remaining address at least as much |
| TcpProbe.FairShares | src/probes/tcp.rs:48-98 | with at least 1 ms an address, allotments never decrease and each is at least an equal part of the whole deadline |
| TcpProbe.StaysInBudget | src/probes/tcp.rs:48-98 | with at least 1 ms an address the attempts never take longer than the deadline, and what is left still gives every remaining address an equal part |
| TcpProbe.AllottedIsSpentPlusUnspent | src/probes/tcp.rs:48-57 | the time allotted is the time spent plus the time given back |
| TcpProbe.AllotmentsFitExactlyWhen | src/probes/tcp.rs:48-98 | over all answers and all runs the allotments add up to at most the deadline if and only if it is zero, there is no address, or there is one and the deadline is at least 1 ms |
| TcpProbe.FullRunFitsExactlyWhen | src/probes/tcp.rs:48-98 | for given answers, a run that tried every address, at most 2^32 - 1 of them, was allotted at most the deadline if and only if that leaves each a millisecond and each but the last took at least its share to answer |
| TcpProbe.AllotmentsCanExceed | src/probes/tcp.rs:48-98 | a concrete run whose allotments add up to more than the deadline |
| EnvExpand.ExpressionOfVariable | src/env_expand.rs:130-149 | splitting and looking up a written variable gives the meaning of its name and default |
| EnvExpand.ExpandText | src/env_expand.rs:84-128 | the one-pass scanner computes the expansion, stopping at the first error |
| EnvExpand.NamesRefused | src/env_expand.rs:151-169 | a name is refused exactly when it is empty, starts with one of ten digits, or has a character other than the underscore, 52 letters and ten digits |
| EnvExpand.ExpansionOfPrinted | src/env_expand.rs:84-149 | expanding what a list of segments is written as gives the concatenation of their meanings, or the error of the leftmost failing one; values and defaults are not scanned again |
| EnvExpand.Parse | src/env_expand.rs:91-125 | every text is written with well-formed segments |
| EnvExpand.ExpansionOfAnyText | src/env_expand.rs:84-149 | so every text expands to the meaning of the segments it is written with |
| EnvExpand.DoubledTextSurvives | src/env_expand.rs:97-101 | doubling every dollar sign of any text and expanding gives the text back |
| EnvExpand.NothingToExpand | src/env_expand.rs:57-60 | skipping the scan of a text without a dollar sign changes nothing |
| EnvExpand.ExpandArg | src/env_expand.rs:51-66 | an argument expands as its text does; one that is no UTF-8 is kept, or refused if it has a dollar sign |
| EnvExpand.UndecodableIsKept | src/env_expand.rs:57-64 | bytes that are no UTF-8 are refused exactly when a dollar sign is among them |
| EnvExpand.ExpandArgvWithPartial | src/env_expand.rs:17-48 | no argument is lost: on success all are expanded and the program name is untouched; on failure the expanded prefix and the untouched rest, from the first argument that fails, are the whole command line |
| Argv.IsNegativeNumberLike | src/argv.rs:358-380 | accepts exactly a minus followed by nothing, or by digits with at most one dot and then at most one exponent mark that has digits after it, starting with a digit |
| ArgvGrammar.NumberLikeIs | src/argv.rs:363-379 | what may follow the minus is nothing, or digits, then perhaps a dot and digits, then perhaps an exponent mark and at least one digit |
| Argv.Scanner.SkipOptionValue | src/argv.rs:220-258 | moves past an option and its value, inline or separate, exactly when the value is there and can follow |
| Argv.Scanner.HelpOrVersionArgs | src/argv.rs:43-115 | the two scanning loops, for commands with and without trailing arguments, compute the one recursive description of a help or version request |
| Argv.Scanner.RequestsQuiet | src/argv.rs:117-195 | true exactly when `--quiet` and not `--verbose` is a flag among the tokens before reading stops |
| Argv.Scanner.TrailingRequestsQuiet | src/argv.rs:162-195 | the second loop carries the answer over from the first |
| ArgvGrammar.OptionSpecIs | src/argv.rs:260-343 | an argument is taken for an option exactly when it is `--name` or `--name=value` of the first option with that name, a subcommand's own options hiding the global ones |
| ArgvGrammar.TokenIsRead | src/argv.rs:117-258 | the scanner reads at each position exactly what a grammar without scanning or look-up allows there: an option with its inline or separate value, a flag, or before any other a subcommand |
| ArgvGrammar.ReadingIsTokens | src/argv.rs:117-195 | the tokens of a command line are its one reading by that grammar, up to where the grammar has none |
| ArgvGrammar.QuietIsReadOff | src/argv.rs:117-195 | quiet is asked for exactly when `--quiet` is a flag in that reading and `--verbose` is not |
| ArgvGrammar.OptionIsPassedOver | src/argv.rs:220-268 | after a subcommand, `--quiet` behind an own or global option with a separate value is heard exactly when the value can follow that option |
| ArgvGrammar.InlineOptionIsPassedOver | src/argv.rs:247-250 | the same for an option with an inline value, which is always passed over |
| Argv.TokensTile | src/argv.rs:197-258 | tokens lie side by side inside the argument list, so the scanner's index strictly increases; only an option with its value is two arguments wide |
| Argv.ValueIsNoToken | src/argv.rs:232-258 | the separate value of an option is never read as a flag, whatever it looks like |
| Argv.TailIsIgnored | src/argv.rs:43-47 | nothing after the first `--` changes the answer to a quiet, help or version request |
| Argv.HelpFromIsControl | src/argv.rs:390-412 | a help or version request has one of the three control command line shapes |
| ArgvHelp.HelpRequestIsAskedByTokens | src/argv.rs:43-115 | a request is found exactly when some number of the quiet scanner's tokens, none a help flag, leads to a help flag, or before any subcommand to a version flag or `help`; it is the control command line of that flag and subcommand |
| Argv.HelpRequestIsIdempotent | src/argv.rs:43-115 | scanning a control command line again gives it back unchanged |
| UriText.ValidatePercentEncoding | src/probes/http.rs:442-459 | the jumping loop accepts exactly when every percent sign at any position starts an escape |
| UriText.AuthorityIsFoundExactly | src/probes/http.rs:553-558 | the authority found is the one the URL is written with, and one is found only if it is written |
| UriText.UrlIsAcceptedExactlyWhen | src/probes/http.rs:461-490 | the checks before the authority's validation never change the outcome: exactly the URLs written with a valid authority are accepted |
| Authority.FunctionsAgreeOnSplit | src/authority.rs:132-203 | the port found and the empty-host test look at the same split |
| Authority.SplitIsUnique | src/authority.rs:132-203 | an authority splits into host and port in one way only |
| Authority.BracketCheckOnSplit | src/authority.rs:155-179 | the bracket check passes exactly for a plain host without brackets or an address in brackets |
| Authority.UnbracketedCheckOnSplit | src/authority.rs:143-153 | on a plain split the test for unbracketed IPv6 says only what the address parser says |
| Authority.ValidPortIs | src/authority.rs:181-194 | a port is valid exactly when it is decimal digits of value 1 to 65535 |
| Authority.AcceptsExactlyTheGrammar | src/authority.rs:43-112 | accepted exactly when the text is printable ASCII without six excluded characters and is put together from a valid host and an optional valid port, and the library's parser agrees; the host returned is the parser's |
| Authority.ErrorIsFirst | src/authority.rs:43-112 | of a text that splits the error reported is the first that is wrong with it in the order of the checks: all before it hold of the split, and the one it names does not |
| Output.QuoteFieldValue | src/output.rs:39-57 | the loop writes the escaped value between quotes |
| Output.ShortEscapes | src/output.rs:44-48 | backslash, quote, line feed, carriage return and tab have escapes of their own |
| Output.PlainTextIsKept | src/output.rs:49-52 | a text without control characters, quotes and backslashes is written as it is |
| Output.QuoteRoundTrip | src/output.rs:39-57 | a quoted field can be read back, whatever follows it |
| Output.LineIs | src/output.rs:23-37 | the line with its four labels, the last only for a non-empty detail |
| Output.LineRoundTrip | src/output.rs:23-37 | the whole line can be read back: mode, target, duration and detail, an empty detail counting as none |
| Output.LineIsInjective | src/output.rs:23-37 | two different reports never print the same line |
| Output.LineHasNoControls | src/output.rs:23-57 | the line has no raw control character, whatever the target and the detail |

## Left out

- WaitAlwaysReturns: is about the waiter as a transition system, not as a method, because its steps interleave with the reader's; each access to shared state is one step, and weak fairness of the scheduler is a hypothesis.
- WaitIsBounded: computation takes no time and timers fire on time, so scheduling delays and timer granularity are not part of the bound; a deadline so far away that adding a grace to the clock overflows is not modelled.
- WaitForBodyEofAfterLimit: the grace timer is modelled by how many polls it lets through, because which branch of a race wins is not determined.
- ConnectAny: scheduling takes no time, and the outer probe timeout, which also covers name resolution, is not modelled.
- UrlIsAcceptedExactlyWhen: says which URLs are accepted, not which of the earlier checks names the error of a refused one.
- ErrorIsFirst: is about texts that split; of the others, those with a bracket that is not closed or has other text behind it, only the refusal is proved.
- AcceptsExactlyTheGrammar: the library's address and authority parsers are uninterpreted functions.
- ExpandArg: models the Unix variant; on other systems an argument that is no Unicode is tested for a dollar sign after lossy conversion.
- HelpRequestIsIdempotent: assumes of the command table that no command is named `help` or like an option and that `--help` and `--version` are not ordinary options, as the argument parser's own definitions have it.
- HelpRequestIsAskedByTokens: assumes the same, and that `--quiet` and `--verbose` are global options, as src/cli.rs declares them.
- LineRoundTrip: assumes that the mode has no space; the modes are fixed words.
- CheckContents: the file does not change while it is read; the metadata checks before it are not modelled.
- Poisoned locks and panics of the reader task.
- Starting and waiting for the child, exit codes, and killing its process group: process effects with one branch each.
- The overall timeout of the HTTP probe, requests, status and header assertions, TLS, gRPC and Unix sockets.
- The upper limit of 16 MiB on captures, which no proof needs, and conversions between integer widths, taken as exact.
- Building the argument table from the parser's definitions; a table is a value here, and its lookups take the first match.
- Decoding of UTF-8 and Unicode: an operating-system string is text or undecodable bytes.
- The wording of error messages; a verdict is its category and the index of the assertion it names.
- The other URL checks (scheme, fragment, forbidden characters) and the library's URI parser.
