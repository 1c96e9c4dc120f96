# Ferrite playground and release tools: a verified model

Two parts of the repository carry behaviour worth proving, and this project models both in
Dafny.

**The playground launcher** (`playground-launcher/src`) stands between unauthenticated
clients and a Ferrite child process. It reads client commands against a shared byte budget,
classifies them with an argument-aware policy, forwards the allowed ones over at most one
upstream connection per client, decodes and re-encodes each reply within budgets, and
serves the same commands over HTTP as bounded JSON.

**The release tools** (`scripts`) order SemVer versions of any number of digits, find the
exact stable tags of a package listing, compute the floating tags from verified releases,
and guard a test project with a lock directory shared by concurrent processes.

## How the model is laid out

| file | what it holds |
|---|---|
| `Prelude`, `Decimal`, `Utf8`, `Text` | bytes, machine words, byte order; number printing and parsing; UTF-8 checking and repair; trimming and upper-casing |
| `Resp`, `RespMethods` | replies, their wire form, the budgeted decoder; the same as running code on a reader, a budget object and an output buffer |
| `RespRoundTrip`, `RespAccounting`, `RespReencode` | the decoder undoes the encoder; what it charges; what re-encoding does |
| `Request`, `RequestMethods`, `RequestProofs` | client commands under the shared request budget |
| `Connection`, `ConnectionTrace`, `SharedResources` | one client as a state machine; what every run keeps; all clients together |
| `Base64`, `Json`, `JsonMethods`, `JsonProofs`, `JsonReader` | replies as JSON, charged before they are built, and a reader that undoes the text |
| `Range`, `Grammar`, `GrammarProofs`, `Policy`, `PolicyMethods`, `PolicyProofs`, `PolicyReplies` | index ranges, option grammars, classification, and the refusals as replies |
| `Command`, `CommandProofs`, `Http` | the command-line tokenizer and the HTTP pipeline |
| `SemVer`, `SemVerProofs` | strict versions and their order |
| `Plan`, `PlanProofs`, `Discover` | floating tags and exact tags |
| `ProjectLock` | the lock protocol, one file operation at a time |

A function states what a piece of code computes; where the source loops over mutable state,
a method with the same loop is proved equal to that function; lemmas state what the
functions guarantee. Text is kept as its UTF-8 bytes; the command line is a sequence of
`char`, which in Dafny as in Rust is a Unicode scalar value. `usize` is 64 bits wide with
saturating and checked arithmetic written out, and `i64`/`u64` parsing is Rust's: an
optional sign, leading zeros accepted, overflow refused. The lock and the client
connections are state machines over atomic steps; deadlines, I/O errors, failed writes and
process death are steps that may happen at any time.

Parameters stand for what is outside: the allowlist table (which rule a command name has),
how a double is printed, what the backend replies, how many bytes a failed write got out,
and when a deadline passes. Sockets, tokio, axum and the scheduler are the order of steps.

## Where the code and its documentation differ

* `resp.rs` says decoded replies are re-encoded byte for byte. `RespReencode.ByteForByte`
  proves exactly when: every header line must be canonical. `:+7`, `*007`, a payload after
  `_`, and an error line that is not UTF-8 all decode and come back different.
* Re-encoding can grow: an error line that is not UTF-8 is repaired on decoding and can
  triple (`RespReencode.LossyGrowthPassesTheLimit`). `RespReencode.GrowsExactly` and
  `RespReencode.EncodeStepSucceedsExactly` say by how much, and when the step fails.
* A refusal quotes words back. A line feed inside one of them makes the refusal more than
  one frame (`PolicyReplies.TwoLineOptionBreaksTheFrame`);
  `PolicyReplies.RefusalIsCleanExactly` names the words.
* A bounded score range examines the first word `LIMIT`. `PolicyProofs.LimitBoundsTheCount`
  says exactly when that is the clause meant.
* A double is charged by its wire text and printed otherwise, so a converted success can be
  replaced (`Http.ManyDoublesAreReplaced`); `Http.SucceedsExactlyForAll` and
  `JsonProofs.OutgrowsExactly` say exactly when.
* Map keys are charged twice, so a reply can be refused whose text would fit
  (`Http.LongKeyIsRefused`); `JsonProofs.RefusedThoughItFitsExactly` and
  `JsonProofs.ChargedExactly` say exactly which.
* `validate_semver` looks for one good line, so a text of several lines can pass.
  `SemVerProofs.StrictExactly`: accepted without a line feed is strictly valid.
* Removing a stale lock record acts on the path, not on the record that was read. A single
  recovering process is enough to break the lock (`ProjectLock.OneRecovererBreaksTheLock`);
  `ProjectLock.StaleRemovalExactly` says exactly which removals can.
* A stale lock is meant to be recoverable. One whose maker died before its record was
  written is not, by anyone: `ProjectLock.HeldAgainExactly`, `ProjectLock.WedgesAreReached`.

## Model

| member | source | states |
|---|---|---|
| Decimal.ParsePrint | playground-launcher/src/resp.rs:420-425 | parsing a printed `i64` gives it back |
| Decimal.PrintParse | playground-launcher/src/resp.rs:420-425 | printing a parsed number never lengthens it, and restores the text exactly when it was canonical |
| Utf8.LossyRepairs | playground-launcher/src/resp.rs:303-305 | the repaired text is valid, at most three times as long, unchanged exactly on valid input, and has line feeds only where the input had |
| RespRoundTrip.DecodeEncode | playground-launcher/src/resp.rs:173-412 | decoding a reply's wire form followed by anything gives the reply, leaves what follows, and charges its bytes, nodes and elements |
| RespRoundTrip.DecodeEncodeAll | playground-launcher/src/resp.rs:337-408 | the same for a sequence of children |
| RespAccounting.RoundTrip | playground-launcher/src/resp.rs:267-412 | that round trip holds exactly for the decodable replies that fit the budget and depth |
| RespAccounting.DecodeAccounts | playground-launcher/src/resp.rs:67-103 | on every input no counter passes its limit, and on success bytes charged are bytes consumed, nodes used are one more than elements reserved, and the value is decodable |
| RespAccounting.DecodeManyAccounts | playground-launcher/src/resp.rs:337-408 | the same for a run of replies |
| RespAccounting.PrefixFree | playground-launcher/src/resp.rs:173-242 | two wire forms that agree with something after each belong to one reply |
| RespAccounting.StreamRoundTrip | playground-launcher/src/resp.rs:173-412 | a concatenation of deliverable replies decodes to the same replies |
| RespReencode.StreamRoundTripExactly | playground-launcher/src/resp.rs:173-412 | and a concatenation decodes to its replies exactly when each of them is deliverable |
| RespAccounting.DecodeWithMore | playground-launcher/src/resp.rs:67-103 | what decodes within a budget decodes to the same value within a roomier one |
| RespAccounting.DecodeExtends | playground-launcher/src/resp.rs:267-412 | more input after a complete reply changes nothing but what is left |
| RespReencode.NeverGrows | playground-launcher/src/resp.rs:173-252 | a decoded reply is written again in at most the bytes it took, when its error lines are UTF-8 |
| RespReencode.GrowsExactly | playground-launcher/src/resp.rs:173-252 | re-encoding a decoded reply takes exactly the bytes consumed plus what its header lines grow by |
| RespReencode.EncodeStepSucceedsExactly | playground-launcher/src/proxy.rs:267-276 | the encode step succeeds exactly when bytes consumed and growth stay within the limit, and exactly then the reply written decodes to the same value again |
| RespReencode.OnlyRepairsGrow | playground-launcher/src/resp.rs:303-305 | a header line is written longer exactly when it is an error line whose repaired text is longer |
| RespReencode.ReencodeFits | playground-launcher/src/proxy.rs:267-276 | the common case: replies whose error lines are UTF-8 always go through |
| RespReencode.ByteForByte | playground-launcher/src/resp.rs:267-426 | re-encoding restores the bytes consumed exactly when every header line is canonical |
| RespReencode.LossyGrowthPassesTheLimit | playground-launcher/src/proxy.rs:267-276 | an input at which the encode step fails: one non-UTF-8 error line decodes within the limit and encodes beyond it |
| RespMethods.ByteReader.ReadLine | playground-launcher/src/resp.rs:281-291 | takes the bytes up to and including the first line feed, or all of them |
| RespMethods.ByteReader.ReadExact | playground-launcher/src/resp.rs:317-324 | takes exactly the bytes asked for or fails, consuming what there is |
| RespMethods.ResponseBudget.ConsumeBytes | playground-launcher/src/resp.rs:67-78 | charges all or nothing, saturating |
| RespMethods.ResponseBudget.ConsumeNode | playground-launcher/src/resp.rs:80-91 | charges one node or nothing |
| RespMethods.ResponseBudget.ReserveElements | playground-launcher/src/resp.rs:93-104 | reserves all elements or none |
| RespMethods.ReadValueBudgeted | playground-launcher/src/resp.rs:267-412 | the recursive reader leaves result, input and counters exactly as the decoding function says, on every path |
| RespMethods.ReadValues | playground-launcher/src/resp.rs:337-343 | the children loop, likewise |
| RespMethods.ReadEntries | playground-launcher/src/resp.rs:374-391 | the map loop reads keys and values in turn |
| RespMethods.Append | playground-launcher/src/resp.rs:244-253 | appends within the limit or not at all |
| RespMethods.EncodeValue | playground-launcher/src/resp.rs:173-242 | grows the buffer by the whole wire form exactly when it fits |
| RequestProofs.ParseRequestSound | playground-launcher/src/proxy.rs:392-469 | every command read is within the limits and holds exactly 64 bytes a slot plus its lengths; every failure and end of input holds nothing |
| RequestProofs.CommandRoundTrip | playground-launcher/src/proxy.rs:392-512 | reading an encoded command gives back its arguments, what follows and the exact reservation, precisely for commands within the limits that fit what is free |
| RequestProofs.AcceptableFitsIdleBudget | playground-launcher/src/proxy.rs:30-40 | the largest command fits an idle budget |
| RequestProofs.CommandIsArrayOfBulks | playground-launcher/src/resp.rs:160-169 | an encoded command is the wire form of an array of bulk strings |
| RequestMethods.RequestByteBudget.TryReserve | playground-launcher/src/proxy.rs:98-111 | takes the permits or none |
| RequestMethods.ReadRequestLine | playground-launcher/src/proxy.rs:479-504 | the bounded line reader, as the line function says |
| RequestMethods.ReadArgument | playground-launcher/src/proxy.rs:430-465 | one argument: reserve, read, check; on failure the budget is as it was before the command |
| RequestMethods.ReadRequest | playground-launcher/src/proxy.rs:392-469 | the command loop returns what the parsing function says and keeps exactly its reservation |
| ConnectionTrace.UpstreamSeesGrantedCommands | playground-launcher/src/proxy.rs:179-295 | over every run: the bytes sent upstream are the encoded granted commands in order, at most the last cut short; commands read are those of the input; at most one connection is opened |
| ConnectionTrace.CommandsDecode | playground-launcher/src/proxy.rs:331-375 | such bytes read back as exactly those commands |
| ConnectionTrace.NothingAfterLoss | playground-launcher/src/proxy.rs:264-293 | once state is lost or the client is refused for good, nothing more is read, forwarded or opened |
| ConnectionTrace.ReplyIsRelayedExactly | playground-launcher/src/proxy.rs:264-286 | a reply is relayed exactly when it decodes and its bytes with their growth fit; anything else loses the upstream state |
| ConnectionTrace.ErrorFrame | playground-launcher/src/resp.rs:255-264 | an error text is one reply frame exactly when it is UTF-8, has no line feed and fits |
| ConnectionTrace.OneReplyPerCommand | playground-launcher/src/proxy.rs:179-309 | each command gets one reply in order until the connection closes: the upstream's, the refusal, busy, or the one loss error |
| ConnectionTrace.RepliesReadBackExactly | playground-launcher/src/proxy.rs:179-309 | what a client was sent reads back as one reply a command exactly when every refusal among it is clean |
| ConnectionTrace.StepConserves | playground-launcher/src/proxy.rs:192-295 | every step gives back what it takes of request bytes and backend permits |
| ConnectionTrace.BuffersAreReserved | playground-launcher/src/proxy.rs:420-464 | payload buffers in flight never exceed the bytes reserved |
| SharedResources.ResourcesAreConserved | playground-launcher/src/proxy.rs:122-176 | over all interleavings free and held bytes, backend permits and connections add up to their capacities |
| SharedResources.EverythingIsReturned | playground-launcher/src/proxy.rs:122-176 | when every client is gone everything is free again |
| SharedResources.EveryClientIsServedRight | playground-launcher/src/proxy.rs:122-176 | both trace results for every client of every interleaving from the start |
| SharedResources.ClientRunsAlone | playground-launcher/src/proxy.rs:163-172 | what one client does among others is a run of that client alone |
| Base64.EncodedLengthDefined | playground-launcher/src/resp.rs:647-653 | the checked length succeeds exactly up to one bound, beyond every slice length |
| Base64.DecodeEncode | playground-launcher/src/resp.rs:655-679 | decoding by section 4 of RFC 4648 gives the bytes back; the length is the one computed |
| Base64.PaddingIsExact | playground-launcher/src/resp.rs:655-679 | padding is determined by the length modulo three |
| Base64.TextIsLettersThenPadding | playground-launcher/src/resp.rs:621-645 | padding stands at the end and nothing needs escaping |
| Base64.Base64Encode | playground-launcher/src/resp.rs:655-679 | the loop over chunks builds exactly that text |
| JsonMethods.JsonBudget.Charge | playground-launcher/src/resp.rs:510-520 | charges all or nothing |
| JsonMethods.JsonBudget.ChargeString | playground-launcher/src/resp.rs:522-535 | charges exactly the length of the escaped, quoted string without building it |
| JsonMethods.ToJsonBudgeted | playground-launcher/src/resp.rs:538-607 | the recursive conversion leaves result and budget as the conversion function says, on every path |
| JsonMethods.ValuesToJson | playground-launcher/src/resp.rs:609-619 | the array loop, likewise |
| JsonMethods.EntriesToJson | playground-launcher/src/resp.rs:588-605 | the map loop, likewise |
| JsonMethods.ToJsonWithBudget | playground-launcher/src/resp.rs:482-485 | a fresh budget and the conversion together, errors included |
| JsonProofs.ConvertSettles | playground-launcher/src/resp.rs:538-645 | conversion succeeds exactly when the reply is convertible and its cost fits, and charges exactly that cost |
| JsonProofs.ChargeIsExact | playground-launcher/src/resp.rs:510-535 | without maps it succeeds exactly when the compact JSON text fits |
| JsonProofs.TextFitsTheLimit | playground-launcher/src/resp.rs:588-605 | with maps, double-charged and overwritten keys included, the text is at most the bytes charged |
| JsonProofs.DoubleFree | playground-launcher/src/resp.rs:561-571 | replies without doubles need nothing assumed of float printing |
| JsonProofs.TextIsCostAndSurplus | playground-launcher/src/resp.rs:561-571 | without maps the text is exactly as long as the charge plus what the finite doubles print longer than they came |
| JsonProofs.OutgrowsExactly | playground-launcher/src/resp.rs:538-607 | so a converted reply outgrows its limit exactly when that surplus exceeds what the charge left over |
| JsonProofs.TextAndExcessAreCost | playground-launcher/src/resp.rs:538-645 | for every convertible reply the charge is the text's length plus an excess: each map key once more, replaced members, and doubles as they came |
| JsonProofs.ChargedExactly | playground-launcher/src/resp.rs:588-605 | a reply without doubles is charged exactly its text exactly when every map in it is empty |
| JsonProofs.RefusedThoughItFitsExactly | playground-launcher/src/resp.rs:538-645 | which replies are refused although their text would fit, exactly |
| JsonProofs.ObjectHoldsLastValues | playground-launcher/src/resp.rs:588-605 | object members are in key order without repeats, each with its last entry's value |
| JsonProofs.QuotedReadsBack | playground-launcher/src/resp.rs:522-535 | a reader of RFC 8259 strings gets the text back and stops at the closing quote |
| JsonReader.TextReadsBack | playground-launcher/src/http.rs:362-366 | a reader of compact JSON gets every float-free value back from its text |
| JsonReader.TextIsUnambiguous | playground-launcher/src/http.rs:362-366 | different values have different texts |
| Text.NormalizeIsIdempotent | playground-launcher/src/policy.rs:346-348 | normalizing twice is normalizing once and never lengthens |
| Text.TrimIsExact | playground-launcher/src/policy.rs:346-348 | trimming removes white space at both ends and nothing else |
| Range.SelectedCounts | playground-launcher/src/policy.rs:539-564 | the count of a clamped range is the number of positions it selects |
| Range.AcceptedExactly | playground-launcher/src/policy.rs:539-564 | a range is accepted exactly when it is bounded for collections of every length, the crossing family being judged by `1 - start` |
| Range.AcceptedIsBounded | playground-launcher/src/policy.rs:539-564 | whatever is accepted selects at most the limit, for every length |
| Range.BoundedYetRefusedExactly | playground-launcher/src/policy.rs:539-564 | which ranges are refused although they are bounded, exactly |
| Range.MixedSignsAreBoundedYetRefused | playground-launcher/src/policy.rs:543-547 | from a negative start to a positive stop is bounded by both ends, and always refused |
| GrammarProofs.CopyGrammar | playground-launcher/src/policy.rs:396-427 | COPY is accepted exactly for words the grammar writes, read one way |
| GrammarProofs.ZaddGrammar | playground-launcher/src/policy.rs:584-616 | the same for ZADD: distinct options, 1 to 32 numeric scores with members, one with INCR |
| GrammarProofs.XaddGrammar | playground-launcher/src/policy.rs:618-653 | the same for XADD with its optional parts |
| GrammarProofs.XtrimGrammar | playground-launcher/src/policy.rs:655-705 | the same for XTRIM: LIMIT only after `~` |
| GrammarProofs.StreamIdChecked | playground-launcher/src/policy.rs:715-722 | splitting at the first dash accepts exactly two numbers joined by one |
| PolicyMethods.ValidateCopy | playground-launcher/src/policy.rs:396-427 | the index loop gives the recognizer's verdict and reason |
| PolicyMethods.ValidateZadd | playground-launcher/src/policy.rs:584-616 | the options and score loops, likewise |
| PolicyMethods.ValidateTrim | playground-launcher/src/policy.rs:667-705 | the trimming index ends where the recognizer's rest begins |
| PolicyMethods.ValidateXadd | playground-launcher/src/policy.rs:618-653 | likewise |
| PolicyMethods.ValidateXtrim | playground-launcher/src/policy.rs:655-665 | likewise |
| PolicyProofs.SameDecision | playground-launcher/src/policy.rs:266-300 | textual arguments get one decision over HTTP and RESP |
| PolicyProofs.DecisionIgnoresCaseAndSpace | playground-launcher/src/policy.rs:266-272 | letter case and surrounding white space never matter |
| PolicyProofs.CommandSpellings | playground-launcher/src/policy.rs:331-344 | `COMMAND sub` and `COMMAND.sub` are one command |
| PolicyProofs.AllowedRangeIsBounded | playground-launcher/src/policy.rs:511-537 | an allowed range command selects at most its limit, for every length |
| PolicyProofs.LimitBoundsTheCount | playground-launcher/src/policy.rs:566-582 | in every form of six or seven words the count asked for is bounded exactly unless an earlier word reads LIMIT and what follows it passes for its clause |
| PolicyProofs.WithScoresKeepsTheBound | playground-launcher/src/policy.rs:566-582 | with WITHSCORES as the extra word only the key can do that |
| PolicyProofs.RefusalFits | playground-launcher/src/policy.rs:255-262 | the refusal of any readable command fits the error reply's limit, lossy growth included |
| PolicyReplies.RefusalIsCleanExactly | playground-launcher/src/policy.rs:255-300 | a refusal is one reply frame exactly when no word of the command that it quotes holds a line feed |
| PolicyReplies.NoLineFeedNoneQuoted | playground-launcher/src/policy.rs:275-300 | a command without line feeds has none quoted |
| PolicyReplies.TwoLineOptionBreaksTheFrame | playground-launcher/src/policy.rs:423-423 | a COPY command whose refusal does not read back as one frame |
| PolicyReplies.PolicyRepliesOnce | playground-launcher/src/proxy.rs:179-309 | with the policy in place, while no refused command had a line feed quoted back, a client reads one reply a command in order |
| PolicyReplies.PolicyRepliesExactly | playground-launcher/src/proxy.rs:179-309 | what it was sent reads back so exactly when no answered refusal quotes a line feed |
| Command.ParseCommand | playground-launcher/src/command.rs:10-84 | the one-pass tokenizer equals the recursive tokenization, errors included |
| CommandProofs.LineReadsBack | playground-launcher/src/command.rs:26-65 | arguments written plain, single-quoted or double-quoted with any white space between them read back |
| CommandProofs.QuotedLineReadsBack | playground-launcher/src/command.rs:10-93 | any 1 to 256 arguments double-quoted and joined by spaces parse back when the line is not too long |
| CommandProofs.ArgumentsFitTheLine | playground-launcher/src/command.rs:8-16 | the arguments are never longer than the line in UTF-8 bytes |
| CommandProofs.TypedCommandIsTheCommandSent | playground-launcher/src/resp.rs:429-456 | a typed command is judged as the RESP port would, is within its limits, and is read back from the bytes sent |
| Http.LimitedJsonBuffer.Write | playground-launcher/src/http.rs:345-355 | takes a piece whole or not at all |
| Http.Serialize | playground-launcher/src/http.rs:362-366 | serializing succeeds exactly when the whole text fits, however it is cut |
| Http.SuccessIsKept | playground-launcher/src/http.rs:270-281 | a converted reply without doubles is always answered 200 with its own text |
| Http.SucceedsExactly | playground-launcher/src/http.rs:270-281 | 200 exactly when the reply is convertible and its cost fits |
| Http.SucceedsExactlyForAll | playground-launcher/src/http.rs:270-281 | for every reply, doubles included: 200 exactly when it converts within its limit and its text leaves room for the envelope; a converted one that does not is answered 413 |
| Http.SucceedsExactlyWithDoubles | playground-launcher/src/http.rs:270-281 | without maps that is a bound on the charge and the doubles' surplus |
| Http.ManyDoublesAreReplaced | playground-launcher/src/http.rs:270-281 | a reply the backend can send whose success is replaced: 4096 doubles `1e15` |
| Http.LongKeyIsRefused | playground-launcher/src/http.rs:270-281 | a reply the backend can send, one entry with a key of 40000 letters, refused although its text would fit |
| Http.SentExactly | playground-launcher/src/http.rs:239-270 | the backend sees a command exactly when it parsed, is not SELECT, is allowed on the RESP port too, and has a permit |
| Http.StatusIsKept | playground-launcher/src/http.rs:312-325 | which error texts keep their status, exactly |
| Http.TooLargeExactly | playground-launcher/src/http.rs:273-280 | which conversion errors are answered 413, exactly |
| Http.BodyIsJson | playground-launcher/src/http.rs:165-190 | the body is the compact text of the response object |
| Http.BodyReadsBack | playground-launcher/src/http.rs:270-281 | a client reading a successful body gets exactly the value of the reply |
| SemVer.ValidateSemver | scripts/release-ordering.sh:58-76 | the validation loop accepts as stated |
| SemVer.CompareCore | scripts/release-ordering.sh:111-124 | the loop over three fields gives the first difference |
| SemVer.ComparePrerelease | scripts/release-ordering.sh:130-188 | the loop over identifiers, with its length and kind cases |
| SemVerProofs.ShapeIsUnique | scripts/release-ordering.sh:45-46 | a line has the shape exactly when it can be written from its parts, and from one choice of them |
| SemVerProofs.StrictExactly | scripts/release-ordering.sh:58-76 | strictly valid is accepted and on one line |
| SemVerProofs.SecondLineIsIgnored | scripts/release-ordering.sh:60-63 | a text of two lines that is accepted and not valid |
| SemVerProofs.NumericOrder | scripts/release-ordering.sh:89-108 | length then bytes is the order of the numbers denoted, of any size |
| SemVerProofs.AgreesWithSection11 | scripts/release-ordering.sh:89-207 | on valid versions the comparison is section 11 of SemVer 2.0.0, and equal means the same text |
| SemVerProofs.BeforeIsTotal | scripts/release-ordering.sh:190-207 | any two valid versions are the same or in one order |
| SemVerProofs.BeforeIsTransitive | scripts/release-ordering.sh:190-207 | the order is transitive |
| SemVerProofs.ClassifyExactly | scripts/release-ordering.sh:228-240 | what each standing of a candidate means |
| Plan.LoadVerifiedRecords | scripts/reconcile-release-tags.py:174-204 | the loop loads as the loading function says |
| Plan.ComputeDesired | scripts/reconcile-release-tags.py:211-219 | the loops over versions and tags, likewise |
| Plan.Reconcile | scripts/reconcile-release-tags.py:211-237 | the whole plan, likewise |
| PlanProofs.LoadsExactly | scripts/reconcile-release-tags.py:174-204 | loading succeeds exactly when all records are good and none conflict |
| PlanProofs.LoadHolds | scripts/reconcile-release-tags.py:174-204 | what is loaded is what was recorded |
| PlanProofs.TagsHoldMaxima | scripts/reconcile-release-tags.py:211-219 | every tag names the unique greatest version of its series, and no other tag exists |
| PlanProofs.PlanIgnoresOrder | scripts/reconcile-release-tags.py:211-237 | permuted or repeated records give the identical plan, or both fail |
| PlanProofs.PlanIsRight | scripts/reconcile-release-tags.py:211-237 | the output: every entry right with its recorded digest, every series present, entries strictly ordered |
| PlanProofs.EntryOrder | scripts/reconcile-release-tags.py:221-231 | comparing entries is antisymmetric and equal only for one tag |
| PlanProofs.EntryTransitive | scripts/reconcile-release-tags.py:221-231 | and transitive |
| PlanProofs.SortedIsUnique | scripts/reconcile-release-tags.py:233-237 | so the sorted list is determined by its members |
| PlanProofs.OneMoreVersion | scripts/reconcile-release-tags.py:207-219 | one version more moves only its three tags, to itself or nowhere, never backwards |
| PlanProofs.PlanIsCoherent | scripts/reconcile-release-tags.py:211-219 | `latest` agrees with its major, a major with its minor |
| PlanProofs.OneMoreRecord | scripts/reconcile-release-tags.py:211-237 | the same of the printed plan, wherever the added record stands in the input |
| PlanProofs.PrintedPlanIsCoherent | scripts/reconcile-release-tags.py:211-237 | and the printed plan is coherent |
| Discover.Discover | scripts/reconcile-release-tags.py:128-171 | the loops over records and tags, as the discovery function says |
| Discover.PagingIsInvisible | scripts/reconcile-release-tags.py:101-125 | how the listing is paged makes no difference |
| Discover.DiscoveredExactly | scripts/reconcile-release-tags.py:128-171 | discovery succeeds exactly for usable records with one digest a version, and lists exactly those in increasing order |
| ProjectLock.NextKeeps | scripts/tester.sh:307-410 | every operation keeps the protocol's invariant when no record is removed under a living custodian |
| ProjectLock.RemovalBreaksExactly | scripts/tester.sh:354-367 | after a record is removed, some run without further stale removals leads two living processes to hold the lock exactly when one was looking after the directory |
| ProjectLock.StaleRemovalExactly | scripts/tester.sh:307-410 | from the start: exclusion holds until then, and can be lost by a removal exactly when the directory was made anew since the record was read and somebody looks after it |
| ProjectLock.RemovalIsSafeExactly | scripts/tester.sh:354-367 | the same step by step: the protocol's invariant is kept exactly then |
| ProjectLock.LockIsSafe | scripts/tester.sh:307-410 | in every run without stale removals at most one living process holds the lock, its record stands, and a release finds its own |
| ProjectLock.CalmRunIsFresh | scripts/tester.sh:341-367 | no removal is stale if no directory is made inside anyone's recovery window |
| ProjectLock.CalmLockIsSafe | scripts/tester.sh:307-410 | so such schedules are safe |
| ProjectLock.HeldAgainExactly | scripts/tester.sh:307-410 | the lock can come to be held again exactly unless its directory has no full record, nobody looks after it, and nobody is on the way to remove a record created but not written |
| ProjectLock.WedgedIsForever | scripts/tester.sh:343-348 | in that state no run ever has a holder |
| ProjectLock.WedgesAreReached | scripts/tester.sh:299-322 | both kinds are reached by one process that dies at the wrong moment |
| ProjectLock.StaleLockIsRecovered | scripts/tester.sh:320-371 | a dead holder's lock is taken over by the next process that tries |
| ProjectLock.OneRecovererBreaksTheLock | scripts/tester.sh:350-367 | a run with one recoverer in which two living processes hold the lock |

## Left out

- The allowlist table itself (`policy.rs:23-229`): one-step lookups; a parameter here, of which only short names are assumed.
- Printing and parsing of doubles: a parameter; results about JSON lengths are for replies without doubles, or for printings no longer than the wire text.
- Sockets, tokio tasks, axum routing, deadlines and signals: steps that may happen at any point; no real-time bound is stated.
- ConnectionTrace.UpstreamSeesGrantedCommands: the client loop is a state machine over its awaits rather than one running method, so that other clients can be interleaved with it.
- Http.SentExactly: the permit is a parameter of one request; that permits are given back is proved for the shared pool in `SharedResources`.
- `execute_within`'s own argument checks, which the tokenizer already guarantees, and the five-second timeout.
- The wording of request and decode errors: an error kind, except policy refusals and HTTP errors, whose texts are modelled because their size matters.
- SemVerProofs.AgreesWithSection11: comparing texts of several lines, which validation lets through, is not modelled.
- Absent bulk strings and absent arrays are separate cases of the reply type, as recursion through an optional sequence needs.
- ProjectLock.LockIsSafe: writing the record back is one step; process identities are never reused, and `ps` tells truthfully whether a process lives; permissions and symbolic links of the lock path are not modelled.
- `certificate_identity`, regex escaping, JSON loading and printing, and subprocess failures of the release tools.
- `health`, `key_detail`, `keys.rs`, `main.rs` and `supervisor.rs`: thin sequences of the calls modelled here.
- The rest of `tester.sh`, the other scripts, images, charts and dashboards.
