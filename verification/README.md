# AegisAgent in Dafny

AegisAgent puts a gateway between an agent and its tools. A protected call is
canonicalized and hashed, the gateway allows, denies or holds it for a human
approver, and what was done is recorded in a hash chain of receipts. This
project models the parts that carry those promises and proves them for all
inputs, all interleavings and all runs:

- **Canonical text** (`CodePoints`, `Utf8`, `Canon`, `CanonParse`, `CanonShortest`,
  `Digests`). The Go and TypeScript printers of `aegis-jcs-1` produce one text per
  value, a parser undoes it in every context, so the bytes that are hashed determine
  the value, and nothing the parser reads as the value is shorter. The byte order Go sorts keys in and the code-point order of
  TypeScript are proved to be one order.
- **Receipts** (`Receipts`, `Verifiers`, `Records`, `Appends`, `Accumulator`). The head hash
  commits to the whole chain; of all sequences over the receipts of a verified
  chain exactly its prefixes verify; the verifiers of four languages are proved
  against one definition. As the gateway stores them, the head commits to
  fourteen columns and to nothing else.
- **Approvals** (`Wrappers`, `Gateway`, `Protocol`, `ApprovalStore`, `ApprovalHistory`,
  `Deployment`, `HonestRuns`, `Capstone`). Any number of wrappers run against a
  gateway with lost replies, retries and arbitrary poll answers. What runs on an
  approval is what the gateway held for it when it was consumed, once. The
  approvals table of the real gateway is a second state machine: what is consumed
  is what was approved, edits included, and the operations of a run alone tell which
  of them take effect. `Deployment` runs the same wrappers
  against that table and the gateway's receipt chain, `HonestRuns` takes the
  answers from the table as well, and `Capstone` draws the conclusions.
- **Redaction** (`Redaction`, `RedactedSpans`, `Markers`). Six regular-expression passes
  with backtracking priorities, then a cut: the result holds none of the six kinds of
  secret, each told by its characters, for every text and every length, negative ones
  included, and a pass replaces whole secrets. Which markers the gateway
  still finds in a preview is characterized exactly.
- **Export** (`ExportTables`, `Export`). The Splunk loop with failing queries,
  failing dispatches and rows inserted while it waits: every row above its seed is
  acknowledged once, what is sent again was not acknowledged before, and each healthy
  tick takes a page off what is still to come.
- **Pull requests** (`PullRequests`, `CheckRuns`, `CheckTasks`, `PrComments`).
  Tallies, check runs and comment counters behind locks that are released across
  network calls.
- **Waiting** (`Waiting`). The poll loop with its deadline and the retry loop.

SHA-256 is any function `h` from bytes to text. Where a result needs that two
different texts hash differently, the lemma says so, and only for the texts
that occur in its own statement (`CollisionFreeOn`). Strings are sequences of
Unicode scalar values. Runs of a state machine are arbitrary sequences of
labels; a label that is not possible in a state changes nothing.

Where code and documentation disagree the model follows the code, and the exact
condition under which the documentation is right is a theorem:

- The four receipt verifiers are documented as equivalent. Go reads a missing
  `prev_receipt_hash` as empty and accepts it at the start of a chain:
  `Verifiers.GoAgainstPython`.
- An approval is documented as single-use. The Python wrapper also runs on the
  status EDITED, without a consume. Whatever the gateway answers, single use holds
  for the Go and TypeScript wrappers and only for them
  (`Protocol.SingleUseIffNotPython`); with the answers of the gateway's own table,
  which never says EDITED, it holds for all three (`HonestRuns.SingleUse`).
- An approver may edit a held call and approve the edit. The wrapper that asked
  checks the hash of what it asked for, so an approval can be run on if and only if
  the edit left the hash as it was (`HonestRuns.RunsIffNotEdited`).
- At most five comments are documented to be posted per pull request. The counter is
  checked before the request and moved after its answer, so the cap on posted comments
  holds if and only if tasks never overlap and no answer is lost
  (`PrComments.CapExactIff`); with answers lost there is no bound at all
  (`PrComments.LostAnswersUnbounded`).
- A poll limit of zero or less means the default in Go and no poll at all in
  TypeScript: `Wrappers.SdksAgreeIffPositive`.
- The check run is documented as showing the current totals. With every call
  answered, it is the only one and current whenever no task is under way if and
  only if tasks never overlap (`CheckTasks.CurrentIffAlone`); a failure on show is
  true in every run, and failure is the only conclusion that stays true
  (`CheckTasks.ShownFailureIsTrue`, `CheckRuns.OnlyFailureStays`).
- A restart of the export is documented as never sending old rows again. A row that
  was there when its stream was first seen is acknowledged if and only if the query for
  the newest row failed then and the cursor has passed it (`Export.OldRowDeliveredIff`);
  if that query was answered it is never sent at all (`Export.OldRowNeverSent`).
- A failed dispatch is documented as retrying the exact same window. The next page of a
  stream starts with the same rows, and is the same page if and only if that was full
  or no row came in between (`ExportTables.SameWindowIff`).
- Appends to the receipt chain are documented as atomic. In the Postgres branch the head
  is read without a lock; there the chain verifies if and only if no two appends
  overlapped (`Appends.LinkedIffNoOverlap`).
- The Python secret patterns are said to be kept in sync with the markers the
  gateway looks for. The preview `sk-` is clean to the one and rejected by the other
  (`Markers.CleanButRejected`); the gateway rejects a preview if and only if some
  marker of the text comes through redaction in one piece (`Markers.RejectsIff`).
- The poll schedule is documented as the capped power. It is if and only if the
  first interval is not above the cap (`Waiting.ScheduleIffCapped`).

## Model

| member | source | states |
|---|---|---|
| CodePoints.LessTransitive | sdk-typescript/src/canon.ts:84-98 | the key order is transitive |
| CodePoints.LessTrichotomy | sdk-typescript/src/canon.ts:84-98 | of two keys exactly one is smaller, unless they are equal: the order is strict and total |
| CodePoints.ByCodePoint | sdk-typescript/src/canon.ts:89-98 | the index loop's sign is negative, zero or positive exactly when the first key is smaller, equal or larger in code-point order |
| CodePoints.AscendingUnique | sdk-go/canon/canon.go:110-116 | two ascending listings of the same keys are the same listing, so the enumeration order of a map cannot show |
| Utf8.LessImpliesByteLess | sdk-go/canon/canon.go:110-116 | a smaller string has a smaller UTF-8 encoding (section 3 of RFC 3629), across all four encoded lengths |
| Utf8.ByteOrderIsCodePointOrder | sdk-go/canon/canon.go:110-116 | Go's order of string bytes and TypeScript's order of code points are one and the same |
| Utf8.EncodeInjective | sdk-go/canon/canon.go:52-56 | different texts have different bytes |
| Canon.SortKeys | sdk-go/canon/canon.go:111-115 | sorting any duplicate-free list of keys gives the one ascending listing of its set |
| Canon.GoCanonicalize | sdk-go/canon/canon.go:44-50 | the builder-and-loop printer yields the canonical text of every value, which CanonParse.PrintThenParse and CanonShortest.PrintIsShortest pin through a parser |
| Canon.GoWriteValue | sdk-go/canon/canon.go:67-108 | appends the canonical text of the value to what the builder holds and changes nothing before it |
| Canon.GoWriteObject | sdk-go/canon/canon.go:110-130 | the same for objects, whatever order the keys were enumerated in |
| Canon.GoWriteArray | sdk-go/canon/canon.go:132-144 | the same for arrays |
| Canon.GoWriteString | sdk-go/canon/canon.go:150-178 | the same for strings, escape by escape; CanonShortest.EscapeUnique leaves no other escape |
| Canon.TsWriteValue | sdk-typescript/src/canon.ts:46-65 | the recursive TypeScript printer yields the same canonical text as the Go printer on every value |
| Canon.TsWriteArray | sdk-typescript/src/canon.ts:60 | arrays, item by item with commas between |
| Canon.TsWriteObject | sdk-typescript/src/canon.ts:74-82 | objects: the accumulating loop over sorted keys yields the same text |
| CanonParse.PrintThenParse | sdk-go/canon/canon.go:67-178 | for every nested value and every continuation that is empty or starts with a comma or a closing bracket, parsing the printed text followed by the continuation returns the value and the continuation |
| CanonParse.CharsBack | sdk-go/canon/canon.go:150-178 | reading an escaped string up to its closing quote returns the string, whatever follows |
| CanonParse.IntBack | sdk-go/canon/canon.go:82-97 | reading a printed integer returns it, sign included, if no digit follows |
| CanonParse.PrintInjective | sdk-go/canon/canon.go:44-50 | equal canonical text means equal values |
| CanonParse.BytesInjective | sdk-go/canon/canon.go:52-65 | equal canonical bytes, the input of the hash, mean equal values |
| CanonShortest.EscapeUnique | sdk-go/canon/canon.go:146-178 | a text that is read as a character, is no longer than its canonical escape and has no capital hexadecimal digit is that escape |
| CanonShortest.NoCapitalHex | sdk-go/canon/canon.go:169-174 | a capital A to F in the escape of a character is the character itself, never a hexadecimal digit |
| CanonShortest.StringShortest | sdk-go/canon/canon.go:146-178 | whatever is read as a string, however it is escaped, is no shorter than the canonical text of the string |
| CanonShortest.NewMember | sdk-go/canon/canon.go:110-130 | wherever a new key sorts, its member adds its own length to the text of the object and nothing else |
| CanonShortest.PrintIsShortest | sdk-go/canon/canon.go:44-178 | whatever is read as a value, with members in any order, leading zeros and any escapes, is no shorter than its canonical text |
| CanonShortest.BothPrinters | sdk-typescript/src/canon.ts:46-82 | the Go and the TypeScript printer write one text, it is read as the value, and no shorter text is |
| Digests.CanonicalHash | sdk-go/canon/canon.go:59-65 | the digest is that of the UTF-8 bytes of the canonical text |
| Digests.SameDigestSameValue | sdk-go/canon/canon.go:59-65 | without a collision, equal digests mean equal values |
| Actions.ActionValueInjective | sdk-go/aegis/protect.go:171-184 | the object built from the five fields determines the action, an absent resource told from a present one |
| Actions.ActionText | sdk-go/aegis/protect.go:171-184 | the text that is hashed, letter by letter: which of the five fields stands under which name, and in which order |
| Actions.SameHashSameAction | sdk-go/aegis/protect.go:171-184 | without a collision, equal action hashes mean equal actions in all five fields |
| Receipts.LinkedSplits | sdk-python/aegisagent/receipts.py:69-81 | a chain verifies exactly when its first part verifies and the rest verifies from the head of the first part |
| Receipts.SameHashSameReceipt | sdk-python/aegisagent/receipts.py:26-33 | two intact receipts with one hash are one receipt |
| Receipts.SameHeadSameSuffix | sdk-python/aegisagent/receipts.py:69-81 | two verified chains with one head agree on their common length from the end, and the shorter one starts at the longer one's running head |
| Receipts.HeadCommits | sdk-python/aegisagent/receipts.py:69-81 | two chains that verify from genesis and have the same head are equal, lengths included |
| Receipts.HeadsDistinct | sdk-python/aegisagent/receipts.py:69-81 | the running heads of a verified chain are pairwise different |
| Receipts.ReceiptsDistinct | sdk-python/aegisagent/receipts.py:69-81 | no hash and no receipt occurs twice in a verified chain |
| Receipts.RearrangedVerifiesOnlyAsPrefix | sdk-python/aegisagent/receipts.py:69-81 | a sequence made of receipts of a verified chain, in any order and with any repetition, verifies if and only if it is a prefix of that chain |
| Receipts.TamperingDetected | src/src/jobs.rs:77-96 | deleting a receipt that is not the last, duplicating one, or swapping two always fails verification |
| Verifiers.SealReceipt | sdk-python/aegisagent/receipts.py:36-45 | the sealed receipt has the given payload, the given previous hash and the hash of its own body |
| Verifiers.SealChain | sdk-python/aegisagent/receipts.py:48-58 | the sealed chain verifies and carries the given payloads in order |
| Verifiers.SealingUnique | sdk-python/aegisagent/receipts.py:48-58 | there is only one verified chain over given payloads and a given genesis |
| Verifiers.PyVerifyReceipt | sdk-python/aegisagent/receipts.py:61-66 | accepts exactly the intact receipts, missing and non-text hashes rejected |
| Verifiers.PyVerifyChain | sdk-python/aegisagent/receipts.py:69-81 | accepts exactly the linked chains |
| Verifiers.FirstFailure | sdk-python/aegisagent/verify_receipts.py:40-50 | reports no failure exactly for linked chains, otherwise the least failing index and whether its hash is wrong |
| Records.RustVerifyChainRecords | src/src/jobs.rs:77-96 | on stored records the same verdict and the same least failing index as on the receipts an auditor is handed, with the link tested before the hash |
| Records.AuditorAgreesWithJob | sdk-python/aegisagent/verify_receipts.py:40-50 | the offline tool and the gateway job point at one index, and differ in the reason only if both reasons hold there |
| Records.SameReceiptIff | lib/storage/src/db/receipts.rs:661-676 | two records read alike if and only if they agree on the fourteen hashed columns and the hash |
| Records.HeadCommitsToColumns | lib/storage/src/db/receipts.rs:661-684 | records verify with the head of a verified chain if and only if they agree with it, one by one, on the hashed columns and the hash; tenant, decision id, scheme and signature are free |
| Records.AppendKeepsLinked | lib/storage/src/db/receipts.rs:184-260 | an atomic append keeps the chain verified, keeps all that is in it, and stores the given columns |
| Appends.LinkedIffNoOverlap | lib/storage/src/db/receipts.rs:258-305 | when the head is read without a lock, over every interleaving the chain verifies if and only if no record was inserted between the read and the insert of any task |
| Appends.InsertLinks | lib/storage/src/db/receipts.rs:258-305 | one insert keeps a chain verified exactly if the head it read is still the head |
| Verifiers.TsVerifyReceipt | sdk-typescript/src/receipts.ts:68-72 | accepts exactly the intact receipts |
| Verifiers.TsVerifyChain | sdk-typescript/src/receipts.ts:79-91 | accepts exactly the chains Python accepts |
| Verifiers.GoVerifyChain | sdk-go/aegis/receipts.go:66-83 | accepts exactly the chains linked in Go's reading of absent fields |
| Verifiers.GoAgainstPython | sdk-go/aegis/receipts.go:66-83 | Python accepts a chain if and only if Go does and the first receipt has a textual previous hash |
| Verifiers.GoAcceptsMissingPrev | sdk-go/aegis/receipts.go:76 | a one-receipt chain Go accepts and Python rejects |
| Accumulator.ReceiptAccumulator.constructor | sdk-python/aegisagent/accumulator.py:37-41 | starts empty at its genesis |
| Accumulator.ReceiptAccumulator.Append | sdk-python/aegisagent/accumulator.py:43-52 | extends the chain by the body sealed onto the stored previous hash, which stays the head |
| Accumulator.ReceiptAccumulator.Chain | sdk-python/aegisagent/accumulator.py:54-57 | the snapshot is the chain and verifies |
| Accumulator.ReceiptAccumulator.Clear | sdk-python/aegisagent/accumulator.py:67-71 | empties the chain and goes back to genesis |
| Accumulator.AlwaysLinked | sdk-python/aegisagent/accumulator.py:37-71 | after every sequence of lock-atomic calls the chain verifies from its genesis |
| Accumulator.SnapshotsGrow | sdk-python/aegisagent/accumulator.py:37-71 | every snapshot verifies, and of two snapshots with no clear between them the earlier is a prefix of the later |
| Wrappers.GoProtect | sdk-go/aegis/protect.go:44-163 | in every environment the Go wrapper takes exactly the steps of the abstract machine and ends in its outcome, with a limit of zero or less read as the default |
| Wrappers.TsProtect | sdk-typescript/src/protect.ts:130-171 | the TypeScript wrapper takes exactly the steps of the same machine, where a limit of zero or less allows no poll |
| Wrappers.BothSdks | sdk-typescript/src/protect.ts:130-254 | with one positive limit the Go run and the TypeScript run, each from its own body, are the same events with the same outcome |
| Wrappers.GoHandleApproval | sdk-go/aegis/protect.go:86-163 | the Go polling loop yields exactly the polls, the consume and the run that the specification lists |
| Wrappers.TsHandleApproval | sdk-typescript/src/protect.ts:176-196 | the TypeScript approval path does the same, for a limit taken as given |
| Wrappers.TsPoll | sdk-typescript/src/protect.ts:198-251 | its loop, for negative limits too |
| Wrappers.TsConsume | sdk-typescript/src/protect.ts:210-232 | after an approved poll: consume, check, run, or refuse with the right reason |
| Wrappers.SdksAgreeIffPositive | sdk-typescript/src/protect.ts:176-254 | with one limit given to both, Go and TypeScript behave alike in every environment if and only if the limit is positive |
| Wrappers.RunsExactlyWhen | sdk-go/aegis/protect.go:44-163 | the tool runs if and only if the call was allowed, or an approval with this action's hash was reported approved with that hash within the limit and the consume returned that hash |
| Wrappers.AlwaysEarned | sdk-go/aegis/protect.go:86-163 | in every run of every SDK each phase has the history that earns it |
| Wrappers.ToolRunsLastAndChecked | sdk-go/aegis/protect.go:86-163 | in every run of every SDK the tool runs at most once, as the last event, and only on the decision to allow, in Python on the decision to redact those fields, on an approval after three matching hashes and a successful consume, or in Python right after a live edit with this hash and those parameters |
| Wrappers.RefusedForItsReason | sdk-go/aegis/protect.go:44-163 | in every run of every SDK the reason a refusal gives is that of the event it ends with |
| Wrappers.ConsumesOnce | sdk-typescript/src/protect.ts:176-254 | a run consumes at most once |
| Wrappers.PollsWithinLimit | sdk-go/aegis/protect.go:86-163 | at most the limit of polls, in order, and the wrapper gives up only after all of them |
| Gateway.DemoGateway.constructor | examples/integrity_demo.py:32-37 | nothing issued, nothing consumed |
| Gateway.DemoGateway.Authorize | examples/integrity_demo.py:39-77 | the answer and the new books are those of the authorize specification: the answer is a denial exactly for the two untrusted sources, and then the books are as before; any other request is held and binds its id, or binds it again, to its hash |
| Protocol.UntrustedLeavesNoTrace | examples/integrity_demo.py:39-77 | every run ends in the state it ends in without the requests of the two untrusted sources |
| Protocol.StatusIsOfLastAuthorize | examples/integrity_demo.py:79-84 | over every history a poll says approved, with the hash of the last trusted authorize for the id, or no hash if there was none |
| Gateway.DemoGateway.ConsumeApproval | examples/integrity_demo.py:86-97 | the answer and the new books are those of the consume specification, and a granted id was not consumed before and is afterwards |
| Protocol.ConsumeGrantedIff | examples/integrity_demo.py:86-97 | over every history a consume is granted if and only if the id was authorized, was never granted before to anyone, and the claim, if any, is the hash of the last trusted authorize; the answer is that hash |
| Protocol.GrantedOnce | examples/integrity_demo.py:86-97 | in every interleaving an approval id is granted at one moment at most, to one call, with one hash |
| Protocol.RepliesAlwaysGranted | sdk-python/aegisagent/client.py:78-110 | every positive reply in transit goes back to a grant, through any retries and losses |
| Protocol.CallsAlwaysGranted | sdk-go/aegis/protect.go:86-163 | every call ready to run on an approval was granted it with its own hash |
| Protocol.ExecutionsAlwaysMatch | sdk-python/aegisagent/decorator.py:118-240 | every execution is that of a finished call, of the same tool, action and resource on exactly the arguments the call named, with redacted keyword arguments stripped, edited ones replaced and all others as given; no call executes twice |
| Protocol.RunsWhatWasAsked | sdk-python/aegisagent/decorator.py:221-240 | in every run each execution is that of a call the run made, argument by argument: "[REDACTED]" at the keyword names the gateway listed, the edit's value at the names it has, the given value elsewhere, no name added or dropped |
| Protocol.RedactedRunsAlike | sdk-python/aegisagent/decorator.py:226-240 | two calls, in whatever runs, that differ only in redacted keyword values execute the same action |
| Protocol.IssuedIsLastAuthorized | examples/integrity_demo.py:39-77 | the hash bound to an id is that of the last trusted authorize for it in the run |
| Protocol.ApprovedRunIsTheHeldAction | examples/integrity_demo.py:39-97 | in every interleaving a tool run on an approval runs an action whose hash the gateway held for that id at the moment it granted it, whatever was rebound or stale before |
| Protocol.ApprovedRunIsTheAuthorizedAction | examples/integrity_demo.py:39-97 | without a collision that action is, in every field, the one last authorized for the id before the grant |
| Protocol.OneRunPerApproval | sdk-python/aegisagent/decorator.py:290-311 | at most one execution per approval id over all calls, retries and lost replies |
| Protocol.SingleUseIffNotPython | sdk-python/aegisagent/decorator.py:321-338 | over every run whose calls use one SDK an approval id stands behind at most one execution, on whatever path, if and only if that SDK is not the Python one |
| Protocol.OnlyPythonEdits | sdk-go/aegis/protect.go:86-163 | without Python calls no call ever takes the edit path |
| Protocol.EditedRunsUnbounded | sdk-python/aegisagent/decorator.py:321-338 | with Python calls, for every n and every edit there is a run with n executions of the edited call under one id and nothing consumed |
| Protocol.ApprovedRunPossible | examples/integrity_demo.py:39-97 | for every SDK and state-changing action some run executes it on its approval, so the guarantees are not empty |
| ApprovalStore.ApprovedIsSettled | lib/storage/src/db/approvals.rs:272-366 | from approval on a row keeps its status and hash until it is removed, and its id never comes back |
| ApprovalStore.ConsumedOnce | lib/storage/src/db/approvals.rs:22-48 | over every sequence of requests and clean-ups an approval is consumed at most once |
| ApprovalStore.ConsumedIsWhatWasApproved | lib/storage/src/db/approvals.rs:22-48 | the hash a consume is checked against, and a matching claim, is the hash the row bore, edited or not, when it was approved, and the row has not expired |
| ApprovalStore.ApprovedAtOnce | lib/storage/src/db/approvals.rs:316-345 | an id is approved at one moment at most, with one hash |
| ApprovalStore.ReadBackIsApproved | src/src/routes/approval.rs:320-433 | the hash read back after a consume is the consumed one, unless the row is gone by then |
| ApprovalStore.InsertedOnce | lib/storage/src/db/approvals.rs:169-173 | an id has one row, created for one hash |
| ApprovalHistory.InsertSucceedsIff | lib/storage/src/db/approvals.rs:168-173 | an insert takes effect if and only if it is the first of its id |
| ApprovalHistory.RowIffKept | lib/storage/src/db/approvals.rs:347-366 | a row is there if and only if it was inserted and not removed since |
| ApprovalHistory.DecideSucceedsIff | lib/storage/src/db/approvals.rs:275-345 | a decision, or an edit, takes effect if and only if its row was inserted and not removed since, no decision came before the expiry since, and the expiry given at the insert is absent or later than now |
| ApprovalHistory.ConsumeSucceedsIff | lib/storage/src/db/approvals.rs:22-48 | a consume takes effect if and only if its row was inserted and not removed since, the first decision before the expiry approved it, the claim, if any, is the hash then shown, the expiry given at the insert is absent or later than now, and no consume since the approval met these conditions |
| Deployment.AlwaysKept | src/src/routes/approval.rs:320-433 | in every interleaving of calls with the real gateway: requests claim their own call's hash, grants are successful consumes of the table with that claim, no two alike, positive answers go to grants only, calls on an approval were granted it, and executions are those of finished calls |
| Deployment.ApprovedRunWasApproved | lib/storage/src/db/approvals.rs:22-48 | in every interleaving an action run on an approval bears the hash that was on the row, edited or not, when it was approved, before the consume |
| Deployment.OneRunPerApproval | lib/storage/src/db/approvals.rs:22-48 | in every interleaving, over all calls, retries, lost answers and clean-ups, an approval id has at most one execution |
| Deployment.AlwaysHeldReal | lib/decision/src/evaluate.rs:197-292 | in every run each approval the gateway created has a receipt of the decision to hold the call, with the hash its row was created with |
| Deployment.AlwaysLinked | lib/storage/src/db/receipts.rs:184-260 | in every run the gateway's receipts form a chain that verifies |
| HonestRuns.HonestCalls | src/src/decision_runtime.rs:495-580 | with the gateway's own answers, however late, a call waits only for an approval created for its own hash and never runs on an edit |
| HonestRuns.RanAsRecorded | src/src/decision_runtime.rs:495-580 | what runs on an approval bears the hash its row was created with and its receipt records |
| HonestRuns.SingleUse | src/src/routes/approval.rs:222-305 | no execution rests on an edit, and an approval id stands behind at most one execution on every path and in every SDK |
| HonestRuns.RunsIffNotEdited | lib/storage/src/db/approvals.rs:272-345 | some run executes on an approval created for a call and approved bearing a hash if and only if that is the call's own hash |
| HonestRuns.ApprovedRunPossible | src/src/routes/approval.rs:222-433 | every call can be recorded, held, approved as it is, consumed and run, in every SDK, with the gateway's own answers |
| Capstone.RanIsReviewedOnce | lib/storage/src/db/approvals.rs:22-48 | whatever the gateway answers, an action run on a consumed approval equals, field by field, the action reviewed under it, and no other run consumed that approval |
| Capstone.RanIsReviewedAlone | lib/storage/src/db/approvals.rs:22-48 | with the gateway's own answers, nothing else runs under that approval, on whatever path |
| Capstone.AuditorSeesWhatRan | lib/decision/src/evaluate.rs:197-292 | whoever holds any verified records with the head of the gateway's chain agrees with it on all hashed columns and holds a receipt of the decision to hold the call that ran, with the hash of what ran |
| Capstone.ReceiptTellsTheAction | lib/storage/src/db/receipts.rs:661-684 | an action has the hash in that receipt if and only if it is the action that ran |
| Redaction.EndsAreMatches | sdk-python/aegisagent/prompt_capture.py:18-25 | the backtracking search finds exactly the matches the pattern's language has |
| Redaction.PassAddsNothing | sdk-python/aegisagent/prompt_capture.py:36-45 | a match in the output of a pass was one in its input, at a place that was copied |
| Redaction.BlockPassClears | sdk-python/aegisagent/prompt_capture.py:24 | the key-block pass, whose wild card crosses replacements, leaves no key block |
| Redaction.PassClears | sdk-python/aegisagent/prompt_capture.py:36-45 | each pass leaves no match of its own pattern |
| Redaction.PassKeepsClear | sdk-python/aegisagent/prompt_capture.py:36-45 | no pass brings back a match for one of the first five patterns |
| Redaction.CutKeepsClear | sdk-python/aegisagent/prompt_capture.py:45 | cutting a text off creates no match |
| Redaction.Sub | sdk-python/aegisagent/prompt_capture.py:44 | the scanning loop replaces leftmost, non-overlapping, first-priority matches |
| Redaction.RedactPreview | sdk-python/aegisagent/prompt_capture.py:31-45 | for every text and every bound the preview holds none of the six kinds of secret, and a text that holds none is only cut |
| Redaction.LooksUnredactedIff | sdk-python/aegisagent/prompt_capture.py:18-33 | the search for the six patterns finds something if and only if one of six conditions on characters and places holds, letters in any case and Python's extra case pairs included |
| RedactedSpans.GreedyFirst | sdk-python/aegisagent/prompt_capture.py:19-24 | a greedy repetition is given up exactly as far as the rest of the pattern needs |
| RedactedSpans.LazyFirst | sdk-python/aegisagent/prompt_capture.py:24 | a lazy repetition goes exactly as far as the rest of the pattern needs |
| RedactedSpans.PassStep | sdk-python/aegisagent/prompt_capture.py:43-44 | at every place a pass replaces the whole secret that starts there, to the last character of its token or the last closing dashes of the first end marker that will do, or copies the character if none starts there |
| Markers.ContainsIff | src/src/routes/prompt_capture.rs:49-54 | the lowered text contains a marker exactly if the marker stands in the text in some case, letters that lower-case oddly included |
| Markers.SurvivesIff | sdk-python/aegisagent/prompt_capture.py:36-45 | a marker stands at a place of the scrubbed text if and only if the characters there are one unbroken piece of the text, copied by every pass, where the marker stood |
| Markers.RejectsIff | src/src/routes/prompt_capture.rs:34-54 | the gateway rejects a preview if and only if some marker of the text reaches it in one piece and before the cut |
| Markers.CleanRejectsIff | src/src/routes/prompt_capture.rs:34-54 | on a text clean to the patterns it rejects the preview if and only if a marker stands in the text before the cut |
| Markers.CleanButRejected | src/src/routes/prompt_capture.rs:34-54 | a preview that is clean to the patterns and rejected by the gateway |
| Export.SplunkExport.constructor | src/src/jobs.rs:581-600 | no cursors, nothing sent |
| Export.SplunkExport.Inserts | lib/storage/src/db/decisions.rs:367-393 | rows that arrive while the job waits, each above all ids of its table, disturb neither what was sent, nor what was acknowledged, nor what was collected |
| Export.SplunkExport.MaxRowid | lib/storage/src/db/decisions.rs:367-375 | a seed no row of the tenant exceeds and no later row can fall below; or a failed query |
| Export.SplunkExport.ListSince | lib/storage/src/db/decisions.rs:383-393 | the page is the lowest rows above the cursor, ascending, at most the limit, without a gap |
| Export.SplunkExport.Seed | src/src/jobs.rs:620-623 | a new stream starts at its newest row, or at zero if that query fails; what was there is remembered and nothing delivered changes |
| Export.SplunkExport.Collect | src/src/jobs.rs:624-639 | one family of one tenant: what was collected is exactly the rows between cursor and planned cursor, a page's worth of what was to come if the queries are answered, and no other stream moves |
| Export.SplunkExport.CollectTenant | src/src/jobs.rs:619-686 | the three families of one tenant, with the progress of the tenants before kept |
| Export.SplunkExport.CollectAll | src/src/jobs.rs:610-687 | the same over all tenants and the three families |
| Export.SplunkExport.Tick | src/src/jobs.rs:595-711 | at most one batch is sent, not an empty one; rows sent are above their seeds; acknowledged rows are those between seed and cursor, each once; nothing is sent again after it was acknowledged; no cursor goes down, and none moves without an acknowledgement; standby changes nothing; a healthy tick of the leader makes progress on every listed stream |
| Export.SplunkExport.Run | src/src/jobs.rs:595-711 | the same over any number of ticks, with leadership, tenants and health changing at will; the rows still to come of what a stream had shrink by a page for each healthy, led tick that lists the tenant, whatever the ticks between |
| Export.NothingBehind | src/src/jobs.rs:595-711 | once nothing is still to come, every row of the stream above its seed has been acknowledged, once |
| ExportTables.AckStep | src/src/jobs.rs:688-711 | moving the cursors on acknowledgement delivers exactly the collected rows, once |
| ExportTables.SentMore | src/src/splunk_export.rs:188-222 | one more dispatch, acknowledged or not, keeps: rows sent are above their seeds, acknowledged ones not above their cursors, and nothing is sent again after it was acknowledged |
| ExportTables.PageProgress | lib/storage/src/db/decisions.rs:383-393 | a page takes a full page off what was to come of earlier rows, or all of it, however many rows have come since |
| ExportTables.SameWindowIff | src/src/jobs.rs:576-580 | the page after a failed dispatch starts with the same rows and is the same if and only if it was full or nothing was added above the cursor |
| Export.DeliveredIffPassed | src/src/jobs.rs:595-711 | a row was acknowledged once if its id is above the seed and not above the cursor, and never otherwise |
| Export.InOneBatch | src/src/jobs.rs:688-711 | no row is in two acknowledged batches |
| Export.OldRowDeliveredIff | src/src/jobs.rs:620-623 | a row present when its stream was first seen is acknowledged, once, if and only if the query for the newest row failed then and the cursor has passed it |
| Export.OldRowNeverSent | src/src/jobs.rs:620-623 | if that query was answered, such a row is in no batch sent, acknowledged or not |
| Export.OldRowFlooded | src/src/jobs.rs:620-623 | if it failed, it can be: a state of the job with one old row, acknowledged |
| PullRequests.ExtractUndoesKey | src/src/gh_comment.rs:26-35 | extracting from a key gives repository and number back, hash signs in the repository name included, exactly for a non-empty name and a positive 64-bit number |
| PullRequests.KeyInjective | src/src/gh_checks.rs:177-179 | different pull requests have different keys |
| PullRequests.KeyUndoesExtractIff | src/src/gh_comment.rs:26-35 | a resource that parses is the key of what it parses to if and only if its number has no plus sign and no leading zero |
| CheckRuns.FoldIsTallyOf | src/src/gh_checks.rs:309-423 | the step-by-step tally of any history equals its specification by counting, with the oldest stored approval entries relabelled by the effective resolutions in order |
| CheckRuns.TallyConserves | src/src/gh_checks.rs:309-338 | allowed, denied and pending add up to the decisions recorded, and the first twenty non-allowed ones are stored |
| CheckRuns.ConclusionOfHistory | src/src/gh_checks.rs:69-77 | failure exactly if a decision other than allow, redact and require_approval was recorded or an effective resolution refused, else action required exactly while an approval is open, else success |
| CheckRuns.FailureAbsorbs | src/src/gh_checks.rs:69-77 | no continuation of a history takes failure back |
| CheckRuns.MarkedAt | src/src/gh_checks.rs:390-423 | relabelling the oldest open approval entry changes that entry alone |
| CheckRuns.StoredEntry | src/src/gh_checks.rs:309-423 | the i-th stored entry is the i-th decision other than allow and redact, relabelled if and only if it asked for approval and fewer such decisions precede it than there are effective outcomes, and then as approved or rejected by the outcome of that rank |
| CheckRuns.OnlyFailureStays | src/src/gh_checks.rs:69-77 | a conclusion stays true whatever follows if and only if it is failure |
| CheckTasks.GhChecksClient.constructor | src/src/gh_checks.rs:169-175 | no runs tracked |
| CheckTasks.GhChecksClient.RecordDecision | src/src/gh_checks.rs:299-338 | the tally of this pull request takes the decision step, its check run and commit stay, and no other pull request changes |
| CheckTasks.GhChecksClient.StoreCheckRun | src/src/gh_checks.rs:361-365 | the check run and commit are noted for a pull request that is tracked, the tally stays |
| CheckTasks.GhChecksClient.RecordResolution | src/src/gh_checks.rs:381-423 | nothing without an open approval; else this tally takes the resolution step, its check run and commit stay, and no other changes |
| CheckTasks.DecisionIsStep | src/src/gh_checks.rs:299-338 | what the locked part of a decision does to the object is what its step does to the machine of that pull request |
| CheckTasks.ResolutionIsStep | src/src/gh_checks.rs:381-427 | the same for a resolution, which sends a message exactly if there is a check run |
| CheckTasks.StoreIsStep | src/src/gh_checks.rs:361-365 | the same for noting the check run, and the pull request is tracked then |
| CheckTasks.PullRequestsIndependent | src/src/gh_checks.rs:299-440 | in every interleaving over all pull requests each is in the state its own steps alone put it in |
| CheckTasks.TallyIsOfHistory | src/src/gh_checks.rs:309-423 | whatever the tasks do about GitHub, the tally is that of the decisions and resolutions in lock order |
| CheckTasks.ShownFailureIsTrue | src/src/gh_checks.rs:309-359 | in every run a failure on show is true of the present tally, however old its snapshot |
| CheckTasks.CheckRunsWithin | src/src/gh_checks.rs:299-368 | with at most k tasks at once and every call answered, a pull request gets at most k check runs |
| CheckTasks.CheckRunsReached | src/src/gh_checks.rs:299-368 | for every k, k tasks that start together create k check runs |
| CheckTasks.OneCheckRunIffAlone | src/src/gh_checks.rs:299-368 | with every call answered there is never a second check run if and only if tasks never overlap |
| CheckTasks.CurrentIffAlone | src/src/gh_checks.rs:299-440 | with every call answered and at most k tasks at once, the check run is the only one and current in every run that has come to rest, if and only if k is one |
| CheckTasks.OvertakenDenialShowsSuccess | src/src/gh_checks.rs:309-359 | two tasks whose messages cross leave success shown over a failed tally |
| CheckTasks.EarlyResolutionLost | src/src/gh_checks.rs:425-427 | a resolution before the first check run is noted is never reported: action required stays on show with nothing open |
| PrComments.GhPrCommenter.constructor | src/src/gh_comment.rs:98-104 | no comments counted |
| PrComments.GhPrCommenter.UnderLimit | src/src/gh_comment.rs:112-116 | true exactly while this pull request's count is below five |
| PrComments.GhPrCommenter.Increment | src/src/gh_comment.rs:119-123 | this pull request's count grows by one and no other changes |
| PrComments.LockedPartsAreSteps | src/src/gh_comment.rs:112-123 | a task goes on after the check exactly if its machine begins one, the increment is the step of an answer, and no other step moves a counter |
| PrComments.PullRequestsIndependent | src/src/gh_comment.rs:107-160 | in every interleaving over all pull requests each is in the state its own steps alone put it in |
| PrComments.PostedBounded | src/src/gh_comment.rs:129-160 | with at most k tasks at once, comments posted stay within the cap plus k - 1 plus the answers lost, in every interleaving |
| PrComments.BoundReached | src/src/gh_comment.rs:129-160 | for every k and every number of lost answers some run posts exactly that many |
| PrComments.CapExactIff | src/src/gh_comment.rs:9-11 | over runs with at most k tasks at once and at most so many answers lost, at most five comments are posted if and only if k is one and none is lost |
| PrComments.LostAnswersUnbounded | src/src/gh_comment.rs:129-160 | for every n some run, one task after the other, posts n comments and counts none |
| Waiting.ScheduleIffCapped | sdk-python/aegisagent/decorator.py:269-274 | multiplying and capping step by step gives the first interval times backoff to the i, capped, for every i if and only if the first interval is not above the cap |
| Waiting.PyProtect | sdk-python/aegisagent/decorator.py:171-348 | over every environment, clock and schedule the tool runs, and on which path, if and only if the decision is allow, or redact of those fields, or an unexpired approval with this hash was offered and the first decisive poll before the deadline is unexpired with this hash and either approved and consumed with it, or edited with those parameters; the wrapper sleeps by the schedule, polls once after each sleep, begins none after the deadline, times out only at the deadline, and fails on a negative sleep |
| Waiting.PyPoll | sdk-python/aegisagent/decorator.py:269-348 | the polling loop alone, with the same promises |
| Waiting.PyAct | sdk-python/aegisagent/decorator.py:276-338 | one poll answer acted upon: polling goes on exactly if the answer is missing, or live and undecided, and the tool runs exactly on an approval consumed for this action or an edit of it |
| Waiting.PollsBounded | sdk-python/aegisagent/decorator.py:269-274 | with positive first interval and cap and a backoff of at least one, polls number less than timeout over the smaller of the two, plus one |
| Waiting.DeadlineComes | sdk-python/aegisagent/decorator.py:269-274 | and then the deadline does come |
| Waiting.RetryOn5xx | sdk-python/aegisagent/client.py:78-110 | only network errors and the statuses 500, 502, 503 and 504 are retried, at most max_retries + 1 attempts, r retries sleep backoff_factor * (2^r - 1) in all; the call ends without a result exactly when max_retries is negative, and in its first sleep exactly when there is one and the factor is negative |

## Left out

- Floats, unsupported value types and the errors they cause in the canonicalizers: float formatting is not settled in the code.
- Lone surrogates and invalid UTF-8: strings are Unicode scalar values.
- The ranges of machine integers in printed values, of the tally and comment counters and of row ids: integers are unbounded, except the 64-bit limit of pull request numbers.
- SHA-256, HMAC, signatures, key management and TLS: library cryptography, the hash is an arbitrary function.
- The Python canonicalizer: one call of the standard JSON printer.
- Clocks and time formats: expiry is a flag of an answer or a comparison of numbers, the poll clock any monotone reading.
- Network, databases, GitHub, Slack and Splunk transport, logging: their answers are arbitrary values.
- Leader election: leadership is an arbitrary input of every tick.
- Tenant scoping of the tables, audit columns, and the retry of a busy database: they would add only parameters.
- Approval ids of the table are taken as never reused, as random identifiers are.
- Accumulator.ReceiptAccumulator.Chain: receipts are values; in the source the list handed out shares its dictionaries with the accumulator, so a caller who changes one changes the chain.
- Accumulator.ReceiptAccumulator.Append: the same holds of the receipt it returns.
- Deployment.AlwaysLinked: takes appends as atomic, as the SQLite branch makes them; for the Postgres branch see Appends.LinkedIffNoOverlap. Deleting a tenant, which removes its receipts and starts an empty chain, is not a step.
- Deletion of exported rows with their tenant or by retention: rows stay in the three tables.
- Batched receipts: low-risk decisions to allow are queued and chained later; held calls never are.
- Signatures of receipts: columns the hash does not cover.
- Idempotent replays of authorize are answers with the recorded hash; the index they are found by is not modelled.
- The title, summary and annotations of check runs: text built from the tally.
- Lower-casing of letters outside ASCII in the gateway, but for the two that become ASCII: it cannot make or break a marker.
- Asynchronous variants of the Python wrapper and client, whose branches repeat the synchronous ones.
- The decision runtime, quotas, rate limits, policies, other periodic jobs, exports of receipts to files, the dashboard.
