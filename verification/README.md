# Device core: verified model

This project models the hard core of an NB-IoT device SDK and proves what that code is for:

- the **LwM2M client library** (wakaama): the TLV codec, CoAP transactions with retransmission, registration and
  bootstrap, the top-level client step, Block1 reassembly, the registration payload and query, the observation store
  and notification scheduler, the id-sorted list they are all kept in, and integers as text;
- the **firmware path**: the streamed update packet with its AT command state machine, the page-ahead erasing flash
  writer, and the streaming MD5.

Each component has its specification in functions and its code in methods and classes that follow the loops and the
in-place updates of the C source, proved equal to the functions. The main results are about the functions, for every
input, every reachable state or every run.

| component | specification and results | code |
|---|---|---|
| TLV codec | `Tlv`, `TlvRoundTrip`, `TlvLabels` | `TlvCode` |
| sessions | `Session`, `SessionInvariant`, `SessionRelease`, `SessionIds`, `SessionRuns`, `SessionIdle`, `SessionGoals`, `SessionOutcomes`, `SessionRefresh`, `SessionEffects` | `SessionCode` |
| Block1 | `Block1` | `Block1` |
| registration payload and query | `RegisterPayload`, `RegisterQueryParser` | `RegisterPayloadCode`, `RegisterQuery`, `RegisterParser`, `RegisterQueryParser` |
| observations | `Observe`, `ObserveLaws`, `ObserveStep`, `ObserveRuns`, `ObserveMeaning`, `ObserveReports` | `ObserveCode` |
| sorted list | `SortedList`, `SessionList` | `SortedList` |
| decimal text | `Decimal` | `Decimal` |
| MD5 | `Md5` | `Md5Stream` |
| firmware stream and commands | `NorFlash`, `Firmware`, `FirmwareStream`, `AtFota`, `FirmwareUpdate` | `FirmwareCode` |
| page-ahead erasing | `PageFlash` | `PageFlash` |

`dafny verify dfyconfig.toml` checks everything.

## How the system is modelled

- A session run is a sequence of events: client steps, incoming messages, bootstrap commands and API calls. The clock,
  opening a connection, serialization of a message, the contents of the Security object and the scheduler of
  observations enter each event as parameters (`Session.Env`). A transaction carries a `uid` that stands for its
  address, and transmissions and callbacks are recorded in a log; both only serve to state properties.
- An observation run is a sequence of requests, cancellations, clears, attribute writes, value changes and steps, each at
  a time. Reading and printing resources are parameters (`ObserveStep.Env`).
- Flash is a function from addresses to bytes; a write only clears bits, an erase sets them (`NorFlash`).
- Fixed-width arithmetic is written out where it matters: 16-bit message ids and list ids, the 32-bit Block1 offset,
  the two MD5 counters, 64-bit accumulators.

## Where the code does not do what one would expect

The model keeps the code as it is. These are proved, with the exact condition:

- A TLV node whose content needs more than 24 bits gets a header that claims no content, and a container without
  children cannot be parsed (`TlvRoundTrip.RoundTrip`, `TlvRoundTrip.OversizedNodeIsLost`).
- Block1 never checks the size of block 0, only of later ones (`Block1.InOrderCompletes`), and a late block of an earlier body
  can be taken into a new one (`Block1.LateBlock`, `Block1.MixedBody`).
- Id 65535 is printed in a registration payload but refused by the parser (`RegisterPayload.RegistrationReadsBack`).
- An option of the registration query has a one-byte length, so that an endpoint name of more than 252 characters is cut, and an
  ampersand in a name is taken for the end of it (`RegisterQueryParser.QueryReadsBackIff`).
- `xiny_utils_textToInt` lets its accumulator wrap at four values from 2^64 on, and then reads the text as if it began with
  a single digit (`Decimal.ReadsReduced`, `Decimal.ReadsOrRefusesIff`).
- `xiny_utils_intToText` wants a character to spare for a negative number, but when the digits fill the field exactly it
  writes the sign in front of the field and returns one more than its length (`Decimal.IntToText`). The JSON printer calls
  it with whatever room is left (src/SDK/APPLIB/wakaama/core/json.c:1069).
- The index of the payload parser wraps on 65535 characters: a payload with a root link is then refused, one without is
  read for ever (`RegisterParser.DecodePayload`, `RegisterParser.AfterTheWrap`, `RegisterParser.EndlessPayload`).
- Attributes written to a watcher that already has some are stored, but their flags are not set
  (`ObserveLaws.NewFlagsInForceIff`, `ObserveRuns.FlagsOnlyShrink`).
- A server that stops observing may lose another observation, because the watcher is looked up again by message id
  (`ObserveLaws.StopLaw`, `ObserveLaws.WrongWatcherIsRemoved`).
- Clearing instance 0 of an object also drops observations of the whole object (`ObserveLaws.WholeObjectIsClearedIff`).
- A minimum period makes thresholds irrelevant, and a shorter maximum period overrides it (`ObserveStep.ThresholdsCountIff`,
  `ObserveStep.SpacedIff`). A watcher whose only attribute is a maximum period hears of changes at its end only
  (`ObserveStep.ChangesCountIff`).
- The notifications of an entry are all printed in the format of the first watcher that is due. If that fails, nobody on the
  entry is notified, not even past the maximum period, and the wait leaves them out (`ObserveStep.WalkStopsIff`,
  `ObserveRuns.MaxPeriodForces`, `ObserveRuns.Starved`).
- A client with no registered server and no bootstrap server returns early from every step: outstanding requests are neither
  repeated nor given up, and a server can stay in DEREG_PENDING for ever (`SessionIdle.StepFailsIff`,
  `SessionIdle.StrandedForEver`).
- A firmware header that is refused still counts as received. Later blocks are stored behind it, and the signature check
  sees them alone (`AtFota.RefusedHeaderShifts`, `AtFota.BlankHeaderIsRefused`).
- A header that names a packet base behind the start of the reserved region is accepted, and then cells behind the region
  are erased (`FirmwareStream.StaysInsideIff`).
- The page-ahead writer stops erasing after 18 pages (`PageFlash.ReadsBackIff`). It erases the page behind a region of 2 to 17
  pages when a write starts in the last page, and behind a region of one page always (`PageFlash.NextPageSurvivesIff`).

## Model

| member | source | states |
|---|---|---|
| `TlvRoundTrip.RoundTrip` | src/SDK/APPLIB/wakaama/core/tlv.c:308-366 | for every tree without an UNDEFINED or OBJECT node and every output of the write pass, parsing returns the same tree with opaque leaves if and only if every container has a child and every content is at most 0xFFFFFF bytes |
| `TlvRoundTrip.OversizedNodeIsLost` | src/SDK/APPLIB/wakaama/core/tlv.c:183-242 | a first node whose content needs more than 24 length bits never comes back |
| `Tlv.FirstByteFields` | src/SDK/APPLIB/wakaama/core/tlv.c:183-242 | type, id-width, length-width and length bits of the first header byte can be told apart |
| `Tlv.HeaderDecodes` | src/SDK/APPLIB/wakaama/core/tlv.c:244-305 | a written header that fits is decoded to the type, id, data offset and data length it was made from, whatever follows the content |
| `Tlv.OversizedHeaderDecodes` | src/SDK/APPLIB/wakaama/core/tlv.c:244-305 | the header of an oversized node decodes to an empty content |
| `TlvRoundTrip.ParsedIsRepresentable` | src/SDK/APPLIB/wakaama/core/tlv.c:308-366 | whatever bytes come in, an accepted parse is a representable tree of non-empty containers and opaque leaves whose encoding is no longer than the input |
| `TlvRoundTrip.ReencodeIsStable` | src/SDK/APPLIB/wakaama/core/tlv.c:308-583 | every encoding of an accepted parse parses to the same tree and is no longer than the input |
| `TlvRoundTrip.CanonicalIsEncodable` | src/SDK/APPLIB/wakaama/core/tlv.c:369-448 | trees the parser returns are never refused by the serializer |
| `TlvRoundTrip.ValuesSurvive` | src/SDK/APPLIB/wakaama/core/data.c:275-338 | every int64 and every boolean comes back from its TLV bytes through OPAQUE decoding, using the shortest of 1, 2, 4 or 8 bytes |
| `TlvCode.GetLength` | src/SDK/APPLIB/wakaama/core/tlv.c:369-448 | the size pass returns the total size, or -1 exactly for a tree the write pass refuses |
| `TlvCode.CreateHeader` | src/SDK/APPLIB/wakaama/core/tlv.c:183-242 | writes a header of the predicted length at the index and nothing before it |
| `TlvCode.WriteNode` | src/SDK/APPLIB/wakaama/core/tlv.c:451-583 | one turn of the write pass advances by exactly the size of the node and leaves its header and content, recursively; what the label of the header is, TlvLabels.NodeIsLabelled says |
| `TlvCode.Serialize` | src/SDK/APPLIB/wakaama/core/tlv.c:451-583 | the write pass fills exactly the number of bytes the size pass promised, at every level, with an encoding of the tree in which every node has the label of its kind in the two high bits of its first byte |
| `TlvLabels.WrittenIsLabelled` | src/SDK/APPLIB/wakaama/core/tlv.c:451-583 | in every encoding of every tree the two high bits of the first byte of a node are 0 for an object instance, 2 for a multiple resource, 1 for a leaf in a multiple resource or when the caller says so, and 3 for any other leaf, at every level |
| `TlvLabels.NodeIsLabelled` | src/SDK/APPLIB/wakaama/core/tlv.c:183-242 | the same for one node and all below it |
| `TlvLabels.LeafContents` | src/SDK/APPLIB/wakaama/core/tlv.c:472-556 | the content of a text, opaque, boolean or object link leaf, byte by byte |
| `TlvCode.ParseLoop` | src/SDK/APPLIB/wakaama/core/tlv.c:308-366 | the parsing loop returns the parse of the bytes, and nothing when it stops early |
| `SessionInvariant.PendingIsAwaited` | src/SDK/APPLIB/wakaama/core/registration.c:190-590 | no stuck pending state: in every state reachable by any schedule of steps, replies, commands and calls, a server in REG_PENDING, REG_UPDATE_PENDING, DEREG_PENDING or BS_INITIATED has an outstanding transaction with the matching reply handler |
| `SessionInvariant.HandlerReleases` | src/SDK/APPLIB/wakaama/core/registration.c:190-220 | one call of a reply handler moves a server that waits for it out of the pending status, for every reply and for a timeout, and leaves every other server as it is; SessionOutcomes.CallbackOutcome says where to |
| `SessionRelease.EndingReleases` | src/SDK/APPLIB/wakaama/core/transaction.c:265-471 | in every state with the invariant and for every event: when the event has ended a transaction, no server it was made for still waits for its handler, whatever else the event did |
| `SessionRelease.EndingReleasesInRuns` | src/SDK/APPLIB/wakaama/core/transaction.c:265-471 | the same after every run of the client |
| `SessionRelease.TransactionStepReleases` | src/SDK/APPLIB/wakaama/core/transaction.c:428-471 | a step over the list transmits a transaction again or ends it with its server released, whatever callbacks the others make in between |
| `SessionRelease.ReplyReleases` | src/SDK/APPLIB/wakaama/core/transaction.c:265-344 | a reply leaves a transaction outstanding or ends it with its server released |
| `SessionOutcomes.CallbackOutcome` | src/SDK/APPLIB/wakaama/core/registration.c:190-220 | a callback moves the server that waits for it: after a registration to REGISTERED with its location if and only if the answer is 2.01, after an update to REGISTERED if and only if it is 2.04, after a deregistration to DEREGISTERED, after a bootstrap request to BS_PENDING with 247 seconds if and only if it is 2.04 and no reset; otherwise to the failed status; every other server stays |
| `SessionOutcomes.MessageOutcome` | src/SDK/APPLIB/wakaama/core/transaction.c:265-344 | in every state with the invariant, a message that ends an outstanding transaction does that to its server and nothing to any other, and a message that ends none changes no server |
| `SessionOutcomes.MessageOutcomeInRuns` | src/SDK/APPLIB/wakaama/core/transaction.c:265-344 | the same after every run |
| `SessionOutcomes.TimeoutOutcome` | src/SDK/APPLIB/wakaama/core/registration.c:305-329 | when a step ends a transaction, a server that waits for it goes to REG_FAILED, DEREGISTERED or BS_FAILING by its handler, with the time of a registration or update set to now |
| `SessionOutcomes.StepTimesOut` | src/SDK/APPLIB/wakaama/core/transaction.c:428-471 | the step over the transactions changes a server only by timing out its wait |
| `SessionOutcomes.MessageMeaning` | src/SDK/APPLIB/wakaama/core/transaction.c:265-344 | what a message leaves of the first transaction it acknowledges or answers: a reset or answer ends it, 4.01 leads to another transmission after two seconds while fewer than four were made, a bare acknowledgement to a wait of twice the counter |
| `SessionOutcomes.ServeMeaning` | src/SDK/APPLIB/wakaama/core/transaction.c:346-426 | a transaction whose deadline has come is transmitted again, with the next deadline twice as far, if and only if it was not acknowledged and transmitted fewer than five times, and is ended otherwise |
| `SessionIds.IdsAreUnique` | src/SDK/APPLIB/wakaama/core/objects.c:734-862 | in every reachable state server ids are distinct within and between the two lists |
| `SessionIds.CallbackHasOneTarget` | src/SDK/APPLIB/wakaama/core/registration.c:190-220 | in every reachable state the callback of a transaction changes one server at most, so that finding it by id is following the pointer of the source |
| `SessionInvariant.NextKeeps` | src/SDK/APPLIB/wakaama/core/liblwm2m.c:364-482 | every event keeps the invariant that ties server status, transaction list and transmission log |
| `SessionInvariant.RunKeeps` | src/SDK/APPLIB/wakaama/core/liblwm2m.c:364-482 | the invariant holds after every run |
| `SessionInvariant.LifeIsBounded` | src/SDK/APPLIB/wakaama/core/transaction.c:265-426 | over every run a transaction is transmitted at most MAX_RETRANSMIT + 1 times, 4.01 retries included, and one that was transmitted is called back exactly once, when it leaves the list |
| `SessionInvariant.CreateKeeps` | src/SDK/APPLIB/wakaama/core/transaction.c:144-242 | creating a request keeps the invariant, and a sent one is outstanding with its handler and server |
| `SessionInvariant.TransactionStepKeeps` | src/SDK/APPLIB/wakaama/core/transaction.c:428-471 | the step over all transactions keeps the invariant, whatever the callbacks do to servers |
| `SessionInvariant.SettleKeeps` | src/SDK/APPLIB/wakaama/core/liblwm2m.c:378-470 | the state switch with its jumps keeps the invariant |
| `SessionRuns.OneMessageOneTransaction` | src/SDK/APPLIB/wakaama/core/transaction.c:265-344 | an incoming message changes at most the first transaction it concerns and calls back at most that one; without a callback no server changes |
| `SessionRuns.BackOff` | src/SDK/APPLIB/wakaama/core/transaction.c:346-426 | without replies, the deadline after k transmissions is the creation time plus RESPONSE_TIMEOUT times 2^k - 1 |
| `SessionRuns.OverdueIsBounded` | src/SDK/APPLIB/wakaama/core/transaction.c:346-471 | under any interleaving a transaction survives at most MAX_RETRANSMIT steps past its deadline that do not return early |
| `SessionIdle.StepFailsIff` | src/SDK/APPLIB/wakaama/core/liblwm2m.c:378-470 | outside the states that refresh the server list or send the first registrations, a step returns an error, before it serves any transaction, if and only if the client is idle: nothing registered or pending and no bootstrap server, or bootstrapping failed |
| `SessionIdle.IdleForEver` | src/SDK/APPLIB/wakaama/core/liblwm2m.c:364-482 | from an idle state no number of steps changes a server, serves a transaction, sends or calls back |
| `SessionIdle.OverdueStepsCount` | src/SDK/APPLIB/wakaama/core/liblwm2m.c:364-482 | a step past a deadline counts, in those states and with a running clock, if and only if the client is not idle |
| `SessionIdle.DeregisterStrands` | src/SDK/APPLIB/wakaama/core/registration.c:561-591 | a ready client without bootstrap server that deregisters from its only server stays in DEREG_PENDING over any number of steps, its request sent once |
| `SessionIdle.StrandedForEver` | src/SDK/APPLIB/wakaama/core/liblwm2m.c:364-482 | a run from a fresh client that ends there: discovery, registration, its answer, a step and the call |
| `SessionRuns.StepAges` | src/SDK/APPLIB/wakaama/core/liblwm2m.c:364-482 | a client step only retransmits or drops old transactions, and new ones have just been sent for the first time |
| `SessionRuns.TransactionStepServes` | src/SDK/APPLIB/wakaama/core/transaction.c:428-471 | every transaction left by the step was served in it, and none is due before the wait it asks for |
| `SessionGoals.WakeUpIsSound` | src/SDK/APPLIB/wakaama/core/liblwm2m.c:472-482 | when a client step returns 0, the wait reaches past no remaining transaction deadline, no registration update still ahead and, while bootstrapping, no hold-off or bootstrap deadline still ahead |
| `SessionGoals.RegistrationStepWaits` | src/SDK/APPLIB/wakaama/core/registration.c:1294-1356 | the registration step leaves a wait that reaches past no update still ahead; what is done about those that are not, SessionRefresh.UpdatesAreSent says |
| `SessionRefresh.UpdatesAreSent` | src/SDK/APPLIB/wakaama/core/registration.c:1294-1356 | for every client: exactly the servers with a connection and a message that can be made, of which an update was asked for or which are registered and within 93 seconds of the end of their registration, or past half of a shorter one, get one update request each, transmitted once, and wait for its answer; no other server is sent anything or changes, but a failed one loses its connection |
| `SessionRefresh.UpdateEffect` | src/SDK/APPLIB/wakaama/core/registration.c:331-386 | one update uses up a message id and is sent if and only if there is a connection and the message can be made |
| `SessionRefresh.CreateEffect` | src/SDK/APPLIB/wakaama/core/transaction.c:144-242 | a request is sent if and only if there is a peer and the message can be serialized; then it is the only new transaction, transmitted once, due in two seconds, with a token of its message id and the clock |
| `SessionEffects.RegistrationWaitHasReason` | src/SDK/APPLIB/wakaama/core/registration.c:1308-1334 | the wait after the registration step is the one it was given or ends with the next update of a registered server |
| `SessionEffects.TransactionWaitHasReason` | src/SDK/APPLIB/wakaama/core/transaction.c:428-471 | the wait after serving transactions is the one it was given, one second, or ends with the deadline of a transaction |
| `SessionEffects.RegisterEffect` | src/SDK/APPLIB/wakaama/core/registration.c:223-303 | registering one server: 5.00 without texts, 5.03 without a connection or message, otherwise one request and a server that waits |
| `SessionEffects.RegistrationsAreSent` | src/SDK/APPLIB/wakaama/core/registration.c:472-495 | the start loop succeeds if and only if every server that is deregistered or failed can be registered; then exactly those wait for an answer |
| `SessionEffects.DeregisterEffect` | src/SDK/APPLIB/wakaama/core/registration.c:561-591 | a server is asked to deregister if and only if it is not gone, failed or about to be answered about either, knows its location and has a connection, and the message can be made |
| `SessionEffects.UpdateAllEffect` | src/SDK/APPLIB/wakaama/core/registration.c:388-470 | without a short id exactly the servers that are registered or waiting for an update are marked |
| `SessionEffects.UpdateOneEffect` | src/SDK/APPLIB/wakaama/core/registration.c:388-470 | with a short id only the first server that has it is marked; 4.04 if there is none and 4.00 if it is not registered |
| `SessionEffects.BootstrapServersMove` | src/SDK/APPLIB/wakaama/core/bootstrap.c:128-203 | every bootstrap server moves as its status and time say, and is asked when its hold-off is over |
| `SessionEffects.RequestEffect` | src/SDK/APPLIB/wakaama/core/bootstrap.c:69-126 | asking a bootstrap server sends one request, or fails it without a text or a connection |
| `SessionEffects.BootstrapStartEffect` | src/SDK/APPLIB/wakaama/core/bootstrap.c:236-256 | every bootstrap server starts over with a connection |
| `SessionEffects.CommandEffect` | src/SDK/APPLIB/wakaama/core/bootstrap.c:370-511 | a bootstrap command is ignored from a server that is past BS_PENDING; a successful one leaves its server in BS_PENDING, and starts bootstrapping if the server had not been asked |
| `SessionEffects.DeleteAllEffect` | src/SDK/APPLIB/wakaama/core/bootstrap.c:513-575 | a deletion of all objects marks the servers whose instances went and restarts the deadline, from the same servers only |
| `SessionEffects.FinishEffect` | src/SDK/APPLIB/wakaama/core/bootstrap.c:205-234 | Bootstrap-Finish is accepted in BS_PENDING if the objects are acceptable, refused with 4.06 if not, and ignored otherwise |
| `SessionEffects.StateSettles` | src/SDK/APPLIB/wakaama/core/liblwm2m.c:378-470 | the state after the switch, by what statuses the servers are in: pending registrations keep it registering, held ones make it ready, otherwise it bootstraps; finished bootstrapping sends it back to the start, and failed bootstrapping is 5.03 |
| `SessionEffects.StatusMeans` | src/SDK/APPLIB/wakaama/core/registration.c:501-541 | both status folds, by what statuses occur |
| `SessionGoals.BootstrapStepWaits` | src/SDK/APPLIB/wakaama/core/bootstrap.c:128-203 | the bootstrap step leaves a wait that reaches past no deadline still ahead and finishes no server that had not accepted Bootstrap-Finish |
| `SessionGoals.BootstrapCompletes` | src/SDK/APPLIB/wakaama/core/liblwm2m.c:378-470 | over every run, BOOTSTRAPPING is left for INITIAL only if some bootstrap server accepted Bootstrap-Finish in BS_PENDING since its last reset and none is in progress; the jump chain has at most two jumps |
| `SessionGoals.DoneWasAccepted` | src/SDK/APPLIB/wakaama/core/bootstrap.c:205-234 | a bootstrap server that counts as finished accepted Bootstrap-Finish while BS_PENDING since its last reset |
| `SessionGoals.SettleDone` | src/SDK/APPLIB/wakaama/core/bootstrap.c:236-256 | a step that restarts bootstrapping leaves no server finished, and any other step leaves finished only those that were |
| `SessionCode.Context.constructor` | src/SDK/APPLIB/wakaama/core/liblwm2m.c:60-76 | a fresh client |
| `SessionCode.Context.TransactionSend` | src/SDK/APPLIB/wakaama/core/transaction.c:346-426 | new state and result are those of the specification |
| `SessionCode.Context.HandleResponse` | src/SDK/APPLIB/wakaama/core/transaction.c:265-344 | the matching loop does to the client what the specification says for the first transaction concerned |
| `SessionCode.Context.TransactionStep` | src/SDK/APPLIB/wakaama/core/transaction.c:428-471 | the loop over the list, with callbacks that change servers, does what the specification says |
| `SessionCode.Context.NewRequest` | src/SDK/APPLIB/wakaama/core/registration.c:274-296 | creation, list insertion and first send as specified |
| `SessionCode.Context.Register` | src/SDK/APPLIB/wakaama/core/registration.c:223-303 | registers one server as specified |
| `SessionCode.Context.UpdateRegistration` | src/SDK/APPLIB/wakaama/core/registration.c:331-386 | updates one registration as specified |
| `SessionCode.Context.Deregister` | src/SDK/APPLIB/wakaama/core/registration.c:561-591 | deregisters one server as specified |
| `SessionCode.Context.RequestBootstrap` | src/SDK/APPLIB/wakaama/core/bootstrap.c:69-126 | requests bootstrapping as specified |
| `SessionCode.Context.RegistrationStart` | src/SDK/APPLIB/wakaama/core/registration.c:472-495 | the start loop as specified |
| `SessionCode.Context.RegistrationGetStatus` | src/SDK/APPLIB/wakaama/core/registration.c:501-541 | the fold returns failed, registered or pending as specified |
| `SessionCode.Context.RegistrationStep` | src/SDK/APPLIB/wakaama/core/registration.c:1294-1356 | the loop over servers as specified; SessionRefresh.UpdatesAreSent says what it sends |
| `SessionCode.Context.BootstrapStep` | src/SDK/APPLIB/wakaama/core/bootstrap.c:128-203 | the loop over bootstrap servers as specified |
| `SessionCode.Context.BootstrapGetStatus` | src/SDK/APPLIB/wakaama/core/bootstrap.c:258-295 | the fold returns failed, finished or pending as specified |
| `SessionCode.Context.BootstrapStart` | src/SDK/APPLIB/wakaama/core/bootstrap.c:236-256 | resets the bootstrap servers as specified |
| `SessionCode.Context.RefreshServers` | src/SDK/APPLIB/wakaama/core/liblwm2m.c:210-252 | the two rebuilding loops drop the dirty servers and the discovery loop adds new ones, as specified |
| `SessionCode.Context.RebuildBootstrapServers` | src/SDK/APPLIB/wakaama/core/liblwm2m.c:215-232 | the loop leaves the list without its dirty servers, with the status of the others put back |
| `SessionCode.Context.RebuildServers` | src/SDK/APPLIB/wakaama/core/liblwm2m.c:233-249 | the loop leaves the list without its dirty servers |
| `SessionList.CleanKeepsExactly` | src/SDK/APPLIB/wakaama/core/liblwm2m.c:215-249 | what is kept are exactly the servers that are not dirty, sorted by id, and of the bootstrap servers with status DEREGISTERED |
| `SessionCode.Context.Settle` | src/SDK/APPLIB/wakaama/core/liblwm2m.c:378-470 | the switch with its jumps ends, and gives the specified state, code, wait and number of jumps |
| `SessionCode.Context.Step` | src/SDK/APPLIB/wakaama/core/liblwm2m.c:364-482 | a client step as specified |
| `SessionList.InsertIsListAdd` | src/SDK/APPLIB/wakaama/core/list.c:21-44 | adding a transaction with a new message id puts it where the sorted list does and keeps the list strictly sorted |
| `SessionList.DropIsListRemove` | src/SDK/APPLIB/wakaama/core/transaction.c:257-263 | while message ids are distinct, removal by message id removes exactly this transaction |
| `Block1.Receiver.Receive` | src/SDK/APPLIB/wakaama/core/block1.c:52-140 | the in-place handler gives the specified state and answer |
| `Block1.RetransmissionIsHarmless` | src/SDK/APPLIB/wakaama/core/block1.c:52-140 | handling any message twice in a row gives the same state and answer as once |
| `Block1.StepIsSafe` | src/SDK/APPLIB/wakaama/core/block1.c:52-140 | every message of the sender keeps the buffer a block-aligned prefix, and a final answer is the whole body |
| `Block1.EveryAnswer` | src/SDK/APPLIB/wakaama/core/block1.c:52-140 | the answer to every message of the sender, by the blocks held: 2.31 while more follow and the body with the last, 4.08 out of order, 4.13 for one too many; only a first or a next block changes what is held |
| `Block1.NothingHeld` | src/SDK/APPLIB/wakaama/core/block1.c:86-94 | before a first block every other one is answered 4.08 |
| `Block1.BufferIsPrefix` | src/SDK/APPLIB/wakaama/core/block1.c:52-140 | over any schedule of loss, duplication and reordering the buffer is a whole number of leading blocks or the whole body |
| `Block1.FinalIsBody` | src/SDK/APPLIB/wakaama/core/block1.c:120-138 | over any schedule a final result hands out exactly the body |
| `Block1.InOrderCompletes` | src/SDK/APPLIB/wakaama/core/block1.c:52-140 | all blocks in order deliver the body if and only if it is one block or shorter than 4096 bytes |
| `Block1.FinalAfterFreshStart` | src/SDK/APPLIB/wakaama/core/block1.c:52-140 | whatever was received before, a final answer after a first block and further blocks of its body alone is that body |
| `Block1.LateBlock` | src/SDK/APPLIB/wakaama/core/block1.c:88-138 | a last block of another body is answered as final if and only if it is taken or repeats the last id; if taken, the result is that body if and only if what is held is its beginning, and the body in progress if and only if they end alike |
| `Block1.MixedBody` | src/SDK/APPLIB/wakaama/core/block1.c:88-138 | two bodies of which a late block makes a result that is neither |
| `RegisterPayload.EntryReadsBack` | src/SDK/APPLIB/wakaama/core/registration.c:842-900 | a printed object or instance link is read back as that object and instance if its ids are below 65535, and refused otherwise |
| `RegisterPayload.RootReadsBack` | src/SDK/APPLIB/wakaama/core/registration.c:744-840 | the first link is read back as root with the alternate path, and never as an object |
| `RegisterPayload.DecodeJoined` | src/SDK/APPLIB/wakaama/core/registration.c:902-983 | the parser takes a payload apart at its commas |
| `RegisterPayload.PayloadReadsBack` | src/SDK/APPLIB/wakaama/core/objects.c:571-654 | for every object list and valid alternate path, parsing the printed payload records exactly the printed entries and the path if all ids are below 65535, and is refused otherwise |
| `RegisterPayload.EntriesDescribe` | src/SDK/APPLIB/wakaama/core/registration.c:932-960 | recording the printed entries of a strictly sorted list gives exactly that list without the Security object |
| `RegisterPayload.RegistrationReadsBack` | src/SDK/APPLIB/wakaama/core/registration.c:902-983 | printer and parser are inverse: the server ends with exactly the objects and instances of a sorted list without the Security object, and the alternate path |
| `RegisterPayloadCode.GetObjectTemplate` | src/SDK/APPLIB/wakaama/core/objects.c:477-499 | writes the shared part of the links of an object if it fits with one character to spare, and fails otherwise |
| `RegisterPayloadCode.PrintInstances` | src/SDK/APPLIB/wakaama/core/objects.c:624-643 | prints all instance links of an object, copying the template, if and only if they fit with the terminating zero |
| `RegisterPayloadCode.PrintObject` | src/SDK/APPLIB/wakaama/core/objects.c:603-645 | prints what belongs to one object if and only if it fits |
| `RegisterPayloadCode.PrintPayload` | src/SDK/APPLIB/wakaama/core/objects.c:571-654 | succeeds if and only if the text with its last comma and a zero fits, and leaves exactly the payload |
| `RegisterPayloadCode.PayloadBufferLength` | src/SDK/APPLIB/wakaama/core/objects.c:501-569 | the computed length is the payload length plus 2 |
| `RegisterPayloadCode.MakePayload` | src/SDK/APPLIB/wakaama/core/registration.c:232-241 | a buffer of the computed length always suffices |
| `RegisterQuery.QueryLength` | src/SDK/APPLIB/wakaama/core/registration.c:67-116 | the computed length is the text plus a zero, or 0 for an unknown binding |
| `RegisterQuery.PrintQuery` | src/SDK/APPLIB/wakaama/core/registration.c:118-188 | succeeds if and only if the binding is known and the text and a zero fit, and leaves exactly the text |
| `RegisterQuery.MakeQuery` | src/SDK/APPLIB/wakaama/core/registration.c:243-260 | the printed length equals the computed length for every name, phone number, binding and lifetime |
| `RegisterQueryParser.QueryReadsBackIff` | src/SDK/APPLIB/wakaama/core/registration.c:118-188 | for a known binding, printing the query, cutting it into options and reading them gives back name, phone number, binding, version and lifetime if and only if the name and the number are not empty, hold no ampersand and have at most 252 and 251 characters, and the lifetime fits 32 bits |
| `RegisterQueryParser.OptionsOfJoined` | src/SDK/APPLIB/wakaama/core/er-coap-13/er-coap-13.c:1164-1190 | pieces without an ampersand that fit one byte of length come apart as they were joined |
| `RegisterQueryParser.GetParameters` | src/SDK/APPLIB/wakaama/core/registration.c:615-697 | the loop reads the parameters of the specification, or refuses the query |
| `RegisterQueryParser.LifetimeReads` | src/SDK/APPLIB/wakaama/core/registration.c:654-666 | digits are read as their value modulo 2^32 |
| `RegisterQueryParser.BindingReadsBack` | src/SDK/APPLIB/wakaama/core/utils.c:277-332 | the text of every known binding is read as that binding |
| `RegisterParser.ParseNumber` | src/SDK/APPLIB/wakaama/core/uri.c:57-93 | the accumulator loop reads the decimal value and refuses anything but digits; it stays within an int exactly when ten times the value does |
| `RegisterParser.ParseId` | src/SDK/APPLIB/wakaama/core/registration.c:842-900 | the scanning loops return the object and instance id of a link, or refuse it, as in the function whose inverse is proved |
| `RegisterParser.Split` | src/SDK/APPLIB/wakaama/core/registration.c:699-742 | the scanning loops return the key, the value and the end of the first attribute as specified |
| `RegisterParser.ParseAttributes` | src/SDK/APPLIB/wakaama/core/registration.c:788-827 | the loop over the attributes refuses a second or wrong resource or content type and skips unknown keys; it returns the flags of the specification |
| `RegisterParser.ParseRootLink` | src/SDK/APPLIB/wakaama/core/registration.c:744-840 | the backward scan and the attribute loop return the content flag and the alternate path of the root link, or refuse it, as in the function whose inverse is proved |
| `RegisterParser.DecodePayload` | src/SDK/APPLIB/wakaama/core/registration.c:902-983 | for every payload the length field can name: the loop decodes the payload and ends, or its 16-bit index wraps, exactly when the payload has 65535 characters, is accepted and does not end in a blank piece |
| `RegisterParser.AfterTheWrap` | src/SDK/APPLIB/wakaama/core/registration.c:917-983 | after the wrap the payload is refused if it holds a root link, and otherwise every further reading leaves the same, so that the loop never ends |
| `RegisterParser.EndlessPayload` | src/SDK/APPLIB/wakaama/core/registration.c:917-983 | a payload of 65535 characters that is read for ever: 65531 spaces and one object link |
| `RegisterParser.SecondReading` | src/SDK/APPLIB/wakaama/core/registration.c:917-983 | reading a text again with everything in it recorded changes nothing, unless it holds a root link |
| `ObserveLaws.GetWatcherLaw` | src/SDK/APPLIB/wakaama/core/observe.c:112-154 | seen as a map from URI and server to watcher, a new watcher appears where there was none and nothing else changes; the invariant is kept |
| `ObserveLaws.StartLaw` | src/SDK/APPLIB/wakaama/core/observe.c:177-215 | an accepted observe request changes exactly this watcher, a refused one nothing; the invariant is kept; ObserveMeaning.StartEffect says what the watcher then is |
| `ObserveMeaning.StartEffect` | src/SDK/APPLIB/wakaama/core/observe.c:177-215 | an accepted request leaves an active watcher with its token, format, message id and time; attributes and update mark stay, the number read is kept, and the counter is one higher modulo 2^32 unless the value cannot be decoded; a request is refused if and only if it has no token, or a resource without an instance |
| `ObserveMeaning.ChangeIsReported` | src/SDK/APPLIB/wakaama/core/observe.c:156-754 | observe, value changed, step: the watcher without attributes is notified if its entry can be read and the value be printed for the first watcher that is due, for every change that overlaps its URI |
| `ObserveMeaning.TouchesIff` | src/SDK/APPLIB/wakaama/core/observe.c:448-485 | a changed URI touches an entry if and only if some path is named by both |
| `ObserveMeaning.SameUriIff` | src/SDK/APPLIB/wakaama/core/observe.c:55-71 | two URIs are the same entry if and only if they are of one kind and name the same paths |
| `ObserveMeaning.ClearedIff` | src/SDK/APPLIB/wakaama/core/observe.c:286-321 | an entry on an instance is cleared if and only if the URI names the instance |
| `ObserveMeaning.ClashIff` | src/SDK/APPLIB/wakaama/core/observe.c:335-376 | attributes are refused if and only if both thresholds and the step would be in force and the upper threshold not more than two steps above the lower |
| `ObserveMeaning.CombinedValues` | src/SDK/APPLIB/wakaama/core/observe.c:378-410 | after a write every attribute has the new value if it was written and the old one if not, and is in force if it was and was not cleared |
| `ObserveLaws.SetParametersLaw` | src/SDK/APPLIB/wakaama/core/observe.c:323-416 | writing attributes changes only this watcher and only its attributes, and creates an inactive watcher even when they are refused; the invariant is kept |
| `ObserveLaws.NewFlagsInForceIff` | src/SDK/APPLIB/wakaama/core/observe.c:378-410 | all written attributes are in force afterwards if and only if there were none before, or all were in force and are not cleared |
| `ObserveLaws.AddedMaxPeriodIsIgnored` | src/SDK/APPLIB/wakaama/core/observe.c:387-397 | one write of a maximum period to attributes without one stores the value and does not set the flag |
| `ObserveLaws.RemoveLaw` | src/SDK/APPLIB/wakaama/core/observe.c:249-281 | unlinking removes exactly one watcher from the map, and its entry with the last one |
| `ObserveLaws.CancelLaw` | src/SDK/APPLIB/wakaama/core/observe.c:235-284 | cancelling removes exactly the first watcher with the message id and session; the invariant is kept |
| `ObserveLaws.StopLaw` | src/SDK/APPLIB/wakaama/core/observe.c:217-228 | a server that stops observing loses that observation, and only that, if and only if no earlier watcher has the same last message id and session |
| `ObserveLaws.WrongWatcherIsRemoved` | src/SDK/APPLIB/wakaama/core/observe.c:217-228 | a concrete store in which stopping one observation removes another one |
| `ObserveLaws.ClearLaw` | src/SDK/APPLIB/wakaama/core/observe.c:286-321 | clearing removes exactly the entries whose stored ids match; the invariant is kept |
| `ObserveLaws.WholeObjectIsClearedIff` | src/SDK/APPLIB/wakaama/core/observe.c:296-298 | clearing an instance keeps the observation of the whole object if and only if the instance id is not 0 |
| `ObserveLaws.ValueChangedLaw` | src/SDK/APPLIB/wakaama/core/observe.c:448-485 | a changed value tags exactly the active watchers of the entries it touches; the invariant is kept |
| `ObserveStep.MinPeriodOverridesThresholds` | src/SDK/APPLIB/wakaama/core/observe.c:653-671 | with a minimum period set, thresholds and steps have no influence on the decision |
| `ObserveStep.ThresholdsCountIff` | src/SDK/APPLIB/wakaama/core/observe.c:541-685 | with a threshold or step, every decision is due to one of them or to the maximum period if and only if there is no minimum period, or a maximum period that is not longer |
| `ObserveStep.ChangesCountIff` | src/SDK/APPLIB/wakaama/core/observe.c:541-685 | without thresholds and steps, every change past the minimum period is reported if and only if a maximum period is not the only attribute |
| `ObserveStep.SpacedIff` | src/SDK/APPLIB/wakaama/core/observe.c:653-685 | the minimum period is respected by every decision if and only if there is no maximum period or it is not shorter |
| `ObserveStep.WalkLaw` | src/SDK/APPLIB/wakaama/core/observe.c:533-750 | in one entry every watcher is notified or left as it is, and if the walk does not stop each is handled as decided and the wait ends no later than its periods |
| `ObserveStep.WalkStopsIff` | src/SDK/APPLIB/wakaama/core/observe.c:688-712 | the walk stops if and only if the value cannot be printed in the format of the first watcher that is due; then nobody is notified and only the watchers in front of it count for the wait |
| `ObserveRuns.PassLaw` | src/SDK/APPLIB/wakaama/core/observe.c:487-754 | the same for all entries of a store with the invariant |
| `ObserveRuns.StepLaw` | src/SDK/APPLIB/wakaama/core/observe.c:487-754 | a step keeps the invariant and the set of watchers; each is notified once, if and only if it is active and due, its entry can be read, and the value can be printed in the format of the first watcher of the entry that is due |
| `ObserveMeaning.NotifiedEffect` | src/SDK/APPLIB/wakaama/core/observe.c:713-742 | a notification sets time and value, raises the counter by one modulo 2^32, clears the update mark and leaves all else of the watcher |
| `ObserveMeaning.CrossedIff` | src/SDK/APPLIB/wakaama/core/observe.c:541-651 | a number counts if and only if a threshold in force lies strictly between it and the last one, or it is at least the step in force away |
| `ObserveMeaning.WaitHasReason` | src/SDK/APPLIB/wakaama/core/observe.c:487-754 | the wait of a step is the one it was given or ends with a period of a watcher |
| `ObserveRuns.MaxPeriodForces` | src/SDK/APPLIB/wakaama/core/observe.c:673-712 | at or past its maximum period an active watcher is notified if and only if its entry can be read and the value can be printed in the format of the first watcher of the entry that is due |
| `ObserveRuns.WakesForPeriods` | src/SDK/APPLIB/wakaama/core/observe.c:743-748 | the wait of a step ends no later than the periods of any watcher that is reached |
| `ObserveRuns.Starved` | src/SDK/APPLIB/wakaama/core/observe.c:688-712 | a store in which a watcher past its maximum period is not notified and not counted in the wait, because the format of one in front of it cannot be printed |
| `ObserveRuns.NextKeeps` | src/SDK/APPLIB/wakaama/core/observe.c:156-754 | every operation keeps an entry non-empty, URIs distinct and one watcher per server |
| `ObserveRuns.RunKeeps` | src/SDK/APPLIB/wakaama/core/observe.c:156-754 | the invariant holds after every run |
| `ObserveRuns.LastTimeLaw` | src/SDK/APPLIB/wakaama/core/observe.c:156-754 | every operation leaves the last notification time, sets it to now, or removes the watcher |
| `ObserveRuns.NotificationsAreSpaced` | src/SDK/APPLIB/wakaama/core/observe.c:533-750 | over every run, two notifications of a watcher that lived in between are at least the minimum period apart, if the maximum period is absent or not shorter |
| `ObserveReports.NoReportWithoutChange` | src/SDK/APPLIB/wakaama/core/observe.c:487-754 | over every run, when a watcher that lived in between is notified twice and no value its URI covers changed in between, the second time is owed to its maximum period, which has passed |
| `ObserveReports.MarkLaw` | src/SDK/APPLIB/wakaama/core/observe.c:156-754 | no operation marks a watcher for a report but a changed value that its URI covers |
| `ObserveReports.IdsCountUp` | src/SDK/APPLIB/wakaama/core/observe.c:718-721 | the notifications of a step have message ids that count up modulo 2^16 from the next one, in the order of entries and watchers, and the next message has the id behind them |
| `ObserveRuns.FlagsLaw` | src/SDK/APPLIB/wakaama/core/observe.c:378-413 | every operation leaves the attributes of a watcher that has some, and adds no flag to those in force |
| `ObserveRuns.FlagsOnlyShrink` | src/SDK/APPLIB/wakaama/core/observe.c:378-413 | over every run the flags in force of a living watcher with attributes only shrink, so one that was not among the first, like a maximum period added later, is never in force |
| `ObserveCode.FindMatch` | src/SDK/APPLIB/wakaama/core/observe.c:249-271 | the search with its unchecked access to the first watcher finds the first match, given a non-empty list |
| `ObserveCode.DecideNotify` | src/SDK/APPLIB/wakaama/core/observe.c:537-685 | the cascade of checks gives the specified decision and wait |
| `ObserveCode.StepWatchers` | src/SDK/APPLIB/wakaama/core/observe.c:533-750 | the watcher loop with its early exit does what the specification says |
| `ObserveCode.Observer.FindObserved` | src/SDK/APPLIB/wakaama/core/observe.c:55-71 | finds the first entry for the URI |
| `ObserveCode.Observer.GetWatcher` | src/SDK/APPLIB/wakaama/core/observe.c:112-154 | new list and place of the watcher as specified |
| `ObserveCode.Observer.Start` | src/SDK/APPLIB/wakaama/core/observe.c:177-215 | the new list and the code are those of the specification, of which ObserveMeaning.StartEffect says what the watcher is afterwards, also when the value cannot be decoded; keeps the invariant |
| `ObserveCode.Observer.Stop` | src/SDK/APPLIB/wakaama/core/observe.c:217-228 | the watcher is looked up again by its last message id and session, as the specification says; keeps the invariant |
| `ObserveCode.Observer.CancelBy` | src/SDK/APPLIB/wakaama/core/observe.c:235-284 | as specified; under the invariant the first watcher always exists, and the invariant is kept |
| `ObserveCode.Observer.ClearUri` | src/SDK/APPLIB/wakaama/core/observe.c:286-321 | the loop that unlinks while it walks removes exactly the matching entries |
| `ObserveCode.Observer.WriteAttributes` | src/SDK/APPLIB/wakaama/core/observe.c:323-416 | as specified, with the threshold rule and the error paths |
| `ObserveCode.Observer.MarkChanged` | src/SDK/APPLIB/wakaama/core/observe.c:448-485 | the nested loops tag exactly the active watchers of the touched entries |
| `ObserveCode.Observer.StepAll` | src/SDK/APPLIB/wakaama/core/observe.c:487-754 | the nested loops leave the specified list, next message id and wait |
| `SortedList.InsertedIsSorted` | src/SDK/APPLIB/wakaama/core/list.c:21-44 | adding keeps the list sorted, strictly for a new id, and adds exactly this id |
| `SortedList.RunIsLeastUnused` | src/SDK/APPLIB/wakaama/core/list.c:98-113 | the length of the leading run 0, 1, 2, ... is the least unused id |
| `SortedList.ListIsUnique` | src/SDK/APPLIB/wakaama/core/list.c:21-113 | a heap list is described by one sequence of nodes only, so it is acyclic |
| `SortedList.AddLaw` | src/SDK/APPLIB/wakaama/core/list.c:21-44 | as a map from id to node, adding a new id changes that id only |
| `SortedList.RemoveLaw` | src/SDK/APPLIB/wakaama/core/list.c:61-96 | as a map, removing a node changes its id only |
| `SortedList.Add` | src/SDK/APPLIB/wakaama/core/list.c:21-44 | links the node at its place; the result is a list of the old nodes and the new one |
| `SortedList.Find` | src/SDK/APPLIB/wakaama/core/list.c:47-58 | the search that stops early returns the node exactly when the id occurs |
| `SortedList.Remove` | src/SDK/APPLIB/wakaama/core/list.c:61-96 | unlinks and returns the node exactly when the id occurs; the rest is a list |
| `SortedList.NewId` | src/SDK/APPLIB/wakaama/core/list.c:98-113 | returns the least unused id whenever some id is free, and 0 otherwise |
| `Decimal.TextToIntLoop` | src/SDK/APPLIB/wakaama/core/utils.c:56-99 | the loop in 64-bit arithmetic as specified |
| `Decimal.ReadsExactlyIff` | src/SDK/APPLIB/wakaama/core/utils.c:56-99 | a string of digits is read as its value if and only if that is at most INT64_MAX |
| `Decimal.ReadsOrRefuses` | src/SDK/APPLIB/wakaama/core/utils.c:56-99 | with or without a sign, digits of which no prefix is caught by the guard (a value from 2^64 to 2^64 + 3) are read as their value if that is at most INT64_MAX, and refused otherwise |
| `Decimal.CaughtPrefixIsOneDigit` | src/SDK/APPLIB/wakaama/core/utils.c:76-78 | with such a prefix, the text is read as if the prefix were the one digit by which it exceeds 2^64 |
| `Decimal.ReadsReduced` | src/SDK/APPLIB/wakaama/core/utils.c:56-99 | every text of digits is read as its reduced form, each caught prefix replaced by its digit, if that is in range, and refused otherwise |
| `Decimal.ReadsOrRefusesIff` | src/SDK/APPLIB/wakaama/core/utils.c:56-99 | a text of digits is read as its value or refused as out of range, as it should be, if and only if no prefix is caught or its reduced form is out of range |
| `Decimal.WrappedValueIsAccepted` | src/SDK/APPLIB/wakaama/core/utils.c:76-78 | a text that denotes 2^64 is accepted and read as 0 |
| `Decimal.TextRoundTrip` | src/SDK/APPLIB/wakaama/core/utils.c:165-211 | every int64 above INT64_MIN comes back unchanged through decimal text |
| `Decimal.IntToText` | src/SDK/APPLIB/wakaama/core/utils.c:165-211 | fails unless the field has room for the digits, and two more for a negative number, or the digits of a negative number fill it exactly; it then returns the length of the text, which is in the field, or in the last case around its start with the sign in front of the field |
| `Decimal.StringCopy` | src/SDK/APPLIB/wakaama/core/utils.c:430-446 | copies the text behind what is there if and only if it fits with the terminating zero |
| `Md5Bits.MacroIsAuxiliary` | src/SDK/APPLIB/abup/src/abup_md5.c:14-24 | the optimized macros compute the functions F, G, H and I of section 3.4 of RFC 1321 |
| `Md5.LineIsSchedule` | src/SDK/APPLIB/abup/src/abup_md5.c:80-151 | the message words named by the 64 step lines follow the schedule of section 3.4 of RFC 1321 |
| `Md5.StepLineIsOperation` | src/SDK/APPLIB/abup/src/abup_md5.c:29-32 | each step line performs the operation of its round |
| `Md5.LineShiftIsShift` | src/SDK/APPLIB/abup/src/abup_md5.c:80-151 | the 64 shift amounts are those of section 3.4 of RFC 1321 |
| `Md5.WordsReadBack` | src/SDK/APPLIB/abup/src/abup_md5.c:42-56 | a word stored as four bytes is read back from them |
| `Md5.LowByteFirst` | src/SDK/APPLIB/abup/src/abup_md5.c:253-268 | the low-order byte of a word comes first |
| `Md5.DigestReadsBack` | src/SDK/APPLIB/abup/src/abup_md5.c:253-268 | the sixteen digest bytes, read as words, are the registers a, b, c and d |
| `Md5.CompressAllAppend` | src/SDK/APPLIB/abup/src/abup_md5.c:61-167 | compressing a concatenation is compressing its parts in turn |
| `Md5.CountAdds` | src/SDK/APPLIB/abup/src/abup_md5.c:185-194 | the two counters keep the byte count modulo 2^61 |
| `Md5.LengthBytes` | src/SDK/APPLIB/abup/src/abup_md5.c:241-249 | the eight length bytes are the bit count modulo 2^64, low byte first |
| `Md5Stream.Block` | src/SDK/APPLIB/abup/src/abup_md5.c:61-167 | one turn of the loop is the compression function of section 3.4 of RFC 1321 |
| `Md5Stream.Context.constructor` | src/SDK/APPLIB/abup/src/abup_md5.c:169-178 | the context of the empty message |
| `Md5Stream.Context.Update` | src/SDK/APPLIB/abup/src/abup_md5.c:180-219 | afterwards the context stands for the message lengthened by the data |
| `Md5Stream.Context.Final` | src/SDK/APPLIB/abup/src/abup_md5.c:221-271 | returns the digest of the padded message of sections 3.1 to 3.5 of RFC 1321 |
| `Md5Stream.HashChunks` | src/SDK/APPLIB/abup/src/abup_md5.c:169-271 | for every message and every split into updates the digest is that of the whole message |
| `Md5Stream.HashRegion` | src/SDK/APPLIB/abup/src/abup_http.c:818-848 | the 512-byte loop gives the digest of the whole region |
| `Firmware.ProcessExtends` | src/SDK/APPLIB/xy_fota/src/xy_fota.c:206-295 | one accepted packet extends the stream: flash at the packet base holds the concatenation over erased cells, the HMAC was fed the stream from offset 84 on, and the byte count is the total; a refused one changes nothing but at most the header state |
| `FirmwareStream.StreamIsAccepted` | src/SDK/APPLIB/xy_fota/src/xy_fota.c:206-295 | over any sequence of packets of any size from a fresh context that are all accepted, flash, header, HMAC input and byte count are those of the concatenated stream |
| `FirmwareStream.AcceptedIff` | src/SDK/APPLIB/xy_fota/src/xy_fota.c:206-295 | all packets are accepted if and only if their concatenation fits the region and its header, if complete, passes the checks |
| `FirmwareStream.CuttingIsIrrelevant` | src/SDK/APPLIB/xy_fota/src/xy_fota.c:206-295 | two cuttings of one stream are both accepted or both not, and if accepted leave the same context and the same flash |
| `FirmwareStream.RefusedWritesNothing` | src/SDK/APPLIB/xy_fota/src/xy_fota.c:206-295 | the flash after any packets is that after the packets in front of the first refused one |
| `FirmwareStream.StaysInsideIff` | src/SDK/APPLIB/xy_fota/src/xy_fota.c:252-268 | cells outside the reserved region keep their content, whatever the flash held, if and only if the packets taken have no complete header or it names the start of the region |
| `Firmware.FirstStoreHolds` | src/SDK/APPLIB/xy_fota/src/xy_fota.c:264-273 | the first store erases the whole region before anything is written |
| `Firmware.HeaderFields` | src/SDK/APPLIB/xy_fota/src/xy_fota.c:206-262 | magic number and packet base are four bytes each, at 0 and at 148, low byte first |
| `FirmwareCode.Context.constructor` | src/SDK/APPLIB/xy_fota/src/xy_fota.c:133-182 | nothing received |
| `FirmwareCode.Context.PacketProc` | src/SDK/APPLIB/xy_fota/src/xy_fota.c:206-295 | header assembly, flash writes and the HMAC loop as specified |
| `AtFota.RunKeeps` | src/SDK/APPLIB/xy_fota/src/at_fota.c:59-160 | what every command keeps: blocks in order, and context and flash as the accepted blocks make them |
| `AtFota.UpdateIsSafe` | src/SDK/APPLIB/xy_fota/src/at_fota.c:142-160 | in every command run the update starts only if the blocks since the last erase were 0, 1, ... in order, at least one, and the check succeeded on exactly what they left; without a refused header flash holds their concatenation |
| `FirmwareUpdate.GoodImageIsUpdated` | src/SDK/APPLIB/xy_fota/src/at_fota.c:130-160 | whatever came before, after an erase and the well-formed blocks 0, 1, ... of an acceptable image, at least one, the check succeeds if and only if the signature is genuine for the image from byte 84 on and its header, and then the update starts; otherwise neither happens |
| `FirmwareUpdate.BlocksAreLoaded` | src/SDK/APPLIB/xy_fota/src/at_fota.c:70-128 | all these blocks are accepted |
| `FirmwareUpdate.NextBlockIff` | src/SDK/APPLIB/xy_fota/src/at_fota.c:70-128 | a well-formed next block is accepted if and only if the image with it fits the region and its header, if complete, passes the checks |
| `AtFota.RefusedHeaderShifts` | src/SDK/APPLIB/xy_fota/src/xy_fota.c:206-295 | the byte count agrees with the accepted blocks if and only if no header was refused since the erase; afterwards flash holds the refused header and the later blocks, and the HMAC has seen the later blocks alone |
| `AtFota.BlankHeaderIsRefused` | src/SDK/APPLIB/xy_fota/src/xy_fota.c:206-295 | a command run with a refused header: one block of zeros |
| `AtFota.ChunkingIsIrrelevant` | src/SDK/APPLIB/xy_fota/src/at_fota.c:70-128 | two command runs whose accepted blocks form one image leave the same context and the same flash |
| `FirmwareCode.CheckSum` | src/SDK/APPLIB/xy_fota/src/at_fota.c:30-56 | the loop and the folding of its four-byte accumulator give the exclusive or of all bytes |
| `AtFota.SumOfParts` | src/SDK/APPLIB/xy_fota/src/at_fota.c:30-56 | the checksum of a concatenation is the exclusive or of the checksums of its parts |
| `FirmwareCode.Commands.EraseFlash` | src/SDK/APPLIB/xy_fota/src/at_fota.c:59-68 | starts a new download: block count 0 and a fresh context |
| `FirmwareCode.Commands.Down` | src/SDK/APPLIB/xy_fota/src/at_fota.c:70-128 | accepts exactly the next block with matching length and checksum while downloading, and passes it on; every refusal leaves the machine of the specification |
| `FirmwareCode.Commands.Check` | src/SDK/APPLIB/xy_fota/src/at_fota.c:130-140 | moves on if and only if it is downloading, with at least one block and a genuine signature; FirmwareUpdate.GoodImageIsUpdated says when that is |
| `FirmwareCode.Commands.Update` | src/SDK/APPLIB/xy_fota/src/at_fota.c:142-170 | starts the update only after a successful check |
| `PageFlash.FindPage` | src/SDK/APPLIB/abup/src/abup_flash.c:38-44 | the search loop stops at the page of the offset, and never past 17 |
| `PageFlash.Region.WriteFlash` | src/SDK/APPLIB/abup/src/abup_flash.c:26-57 | erasing and writing as specified |
| `PageFlash.PagesAdvance` | src/SDK/APPLIB/abup/src/abup_flash.c:26-57 | a page that is erased ahead is always the next one and holds no data yet |
| `PageFlash.DownloadStores` | src/SDK/APPLIB/abup/src/abup_flash.c:26-57 | for every cutting and every earlier flash content: bytes below the erased extent are stored exactly, bytes beyond only clear bits, and nothing else changes |
| `PageFlash.ReadsBackIff` | src/SDK/APPLIB/abup/src/abup_flash.c:18-57 | a download reads back as sent, whatever the flash held, if and only if every byte past the 18th page is zero |
| `PageFlash.NextPageSurvivesIff` | src/SDK/APPLIB/abup/src/abup_flash.c:26-57 | the page behind a region of n pages survives the download if and only if n is at least 18, or n is at least 2 and no write starts inside the last page |

## Left out

- json.c and discover.c: text formats without a clean inverse.
- CoAP message parsing and serialization, sockets, timers, and the task code of abup and xy_fota around the modelled parts.
- Floating point: the bytes of an encoded float are a parameter, and thresholds are compared over real numbers, so the
  rounding of int64, float and double is not modelled.
- Allocation failure, closing a context, and transactions that outlive a deleted server.
- Totals beyond 32 bits: the length of a whole TLV buffer and of a payload is unbounded.
- RegisterParser.ParseNumber: says when the accumulator leaves the range of an int; what the source then computes is
  undefined in C, and the functions go on with the exact value.
- Duplicate outstanding message ids: sessions remove a transaction by identity, which is removal by message id
  only while ids are distinct (`SessionList.DropIsListRemove`).
- Session equality is equality of handles, and all clock reads within one event give the same time.
- The observation step inside a client step is seen by sessions only as message ids used up and a wait; its own model is
  `ObserveStep`.
- Object callbacks and the access check of attribute writes are parameters. Numeric attributes on a URI without a
  resource, which the scheduler would follow through a null pointer, count as not passed.
- RegisterParser.DecodePayload: covers one reading of the payload; what follows a wrap of its index is stated by
  RegisterParser.AfterTheWrap. The parser's null result for a payload without objects is not told apart by the source from
  a refusal; the model keeps them apart.
- RegisterQueryParser.GetParameters: an option shorter than the key it is compared with is no match; the source compares in place and
  may look at the bytes behind it.
- The registration texts are those of a build with JSON support (content type 11543).
- Decimal.IntToText: INT64_MIN, whose negation overflows, is excluded. A sign in front of the field needs a place in the
  same buffer; in front of the buffer the source writes outside of it.
- ObserveCode.Observer.Start: tokens are sequences of bytes; the eight-byte token array is not modelled.
- SortedList.Add: the node to add has no successor, as freshly zeroed nodes have none.
- HMAC, RSA and the version check are functions; a repeated check that reuses the HMAC context, flash addresses that wrap
  around and the hex decoding of AT parameters are not modelled.
- The flash driver: on low voltage it refuses to erase or write, which the packet function does not notice, and an erase
  demands a page-aligned address and rounds its size up to whole pages; the model erases and writes what it is asked to.
- The serializer can replace a text or opaque format that cannot carry the value by JSON, also in the watcher; the model
  leaves the format of a watcher as it is.
- Resumed or repeated abup downloads: the static page number is never reset, only a first download is modelled.
- The sine table of MD5 is taken as given constants, equal to those of the source.
- The response_timeout of a transaction, which the client always leaves at 0, and big-endian builds.
