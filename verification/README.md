# AtlasPay verification

A Dafny model of the core of AtlasPay, with proofs of the properties its modules promise. It covers
the two byte codecs, the atomic payment operations with their ledger, reconciler and outbox, the
lifecycle of network transactions, and idempotent payment creation. `dafny verify dfyconfig.toml`
checks all of it.

## How it is organised

| modules | source | main results |
|---|---|---|
| `Bytes`, `Bits`, `Emv` | `app/emv.py` | the TLV parser is a bijection onto its canonical encodings |
| `Iso8583`, `Iso8583Wire`, `Iso8583Codec` | `app/iso8583.py` | forward law, exact reverse law, prefix-freeness, wire form of every field |
| `Canonical`, `Iso8583Adapter` | `app/canonical.py`, `app/iso8583_adapter.py` | canonical request to octets and back |
| `Ledger`, `Payments`, `PaymentStore`, `Interleaving` | `app/ledger.py`, `app/payment_operations.py` and the migrations | invariant of all reachable tables; concurrent calls refine atomic ones, without deadlock |
| `Reconciliation` | `app/reconciliation.py` | what the report says, exactly, on reachable tables |
| `Outbox`, `Delivery` | `app/outbox.py` | lease safety; exactly one committed handler run per published event |
| `EndToEnd` | `app/payment_operations.py` and `app/outbox.py` together | every committed operation is handled exactly once when its event is published, and nothing else is handled |
| `NetworkCoordinator`, `Lifecycle` | `app/network_coordinator.py` | the lifecycle of every correlation key over all runs |
| `NetworkRouting`, `NetworkTransport`, `NetworkFlow`, `FlowRuns` | `app/network_*.py` | the unique best route; agreement of outcomes; unreachable errors |
| `Grouping`, `OperationalSnapshot` | `app/operational_snapshot.py` | the counts add up; what the health means |
| `Repository`, `Creation` | `app/repository.py` | the insert, claim and delete protocol refines the dictionary |

Code that changes state step by step is a class or a method with a loop, proved against a function of
the old state. Properties over whole runs are lemmas about those functions. A concurrent protocol is a
state machine: `Enabled` says when a move can be taken (a lock move waits for its lock), `Apply` what
it does, and `Schedule` and `After` describe any sequence of enabled moves from any number of workers.
An abort or a crash is a move as well.

Where the code and the obvious claim about it differ, the code is modelled and the exact condition is proved:

- Re-encoding a decoded ISO 8583 message drops a secondary bitmap that announces nothing
  (`Iso8583.EncodeOfDecode`, with the concrete message in `Iso8583.EmptySecondaryIsDropped`).
- The reconciler is not clean in every reachable state: an ordinary refund leaves one status mismatch,
  and nothing else ever does (`Reconciliation.ReportOnReachable`, `Reconciliation.RefundIsNeverClean`).
- The outbox has no owner token, so that live claims are unique and attempts stay under the ceiling takes
  discipline. Touching a row only while one's lease is live is enough (`Delivery.LeaseSafety`). What is
  just enough has two halves: a failure record must not hit an unpublished event that another live claim
  holds (`Delivery.TouchIsSafeExactly`; a late acknowledgement may), and the attempt must fit
  (`Delivery.TouchFitsExactly`). Over whole runs the two together are necessary and sufficient for the two
  guarantees to hold and to stay safe (`Delivery.SafeExactlyWhenHarmless`).
  `Delivery.LateWorkerBreaksLease` and `Delivery.LateWorkersExceedCeiling` are runs that go wrong.
  Delivery itself is safe without any discipline.
- `expire` sorts correlation keys (app/network_coordinator.py:61-63), but `NetworkCorrelation`
  (app/canonical.py:6-11) defines no order, so in Python the sort raises TypeError as soon as two keys
  are due, before anything has changed. The tracker is parametrised by `comparable`: false is the
  program as it stands, true the intended order by STAN and then RRN. All results hold for both, and
  `Lifecycle.TwoDueKeysBlockExpiry` states the consequence of the first, and
  `Lifecycle.ExpiryIsBlocked` reaches it with two registrations.
- An exchange can answer TIMED_OUT to a response, without unknown delivery or a reversal, for an attempt
  whose key was registered again with an earlier deadline: exactly then (`FlowRuns.OutcomesAgreeExactly`;
  `FlowRuns.StaleAnswerForEveryRequest` is a run that does it), and so never for the latest attempt of a
  key (`FlowRuns.LatestOutcomesAgree`).

- Not every timed-out key has a reversal: `FlowRuns.LinkedExactly` says which get one, and
  `FlowRuns.TimedOutUnreversed` and `FlowRuns.OthersExpireHappens` are runs that leave a key without.

## Model

| member | source | states |
|---|---|---|
| Emv.TagWidthExact | app/emv.py:196-221 | a tag of w octets is read from the head of a payload exactly when the first w octets are a canonical tag of at most four octets |
| Emv.ReadLengthExact | app/emv.py:224-248 | a length is read exactly when the payload starts with the minimal encoding of a number below 2^24 |
| Emv.ParsedItemEncodes | app/emv.py:163-193 | every accepted item is well formed and re-encodes to the octets it was read from, its children included |
| Emv.EncodedItemParses | app/emv.py:163-193 | every well-formed item is read back from its encoding, whatever follows |
| Emv.TlvBijection | app/emv.py:115-124 | a payload parses to a forest if and only if the forest is non-empty, well formed, at most nine levels deep, and the payload is its encoding |
| Emv.TlvForestsExactly | app/emv.py:115-124 | the same without the parser's own predicates: a payload parses to a forest if and only if it is the encoding of that forest, which is non-empty, at most nine levels deep, and whose items at every level are constructed exactly when the first hexadecimal digit of the tag is 2, 3, 6, 7, A, B, E or F |
| Emv.ParsedItemsShaped | app/emv.py:163-193 | in every accepted forest, at every level, an item's tag decides whether it is constructed, and exactly the constructed items have children |
| Emv.ReadTag | app/emv.py:196-221 | the octet-by-octet loop reads the tag the reference reads, with the same errors; a tag has at most four octets, and is constructed exactly when bit 6 of its first octet is set |
| Emv.ParseItemAt | app/emv.py:174-192 | one turn of the loop reads one item at an offset: tag, length, value and children |
| Emv.ParseItemsAt | app/emv.py:163-193 | the offset-threading loop computes the reference parse of its slice and stops exactly at the limit, so the test of a constructed value for trailing octets never fires |
| Emv.Parse | app/emv.py:115-124 | the whole parser computes the reference parse, and the trailing-octets error is never raised |
| Emv.FindTags | app/emv.py:150-160 | the result is the pre-order walk of the forest filtered by the upper-cased tag, in order and with duplicates |
| Emv.ParsedSize | app/emv.py:163-193 | twice the number of nodes of an accepted forest is at most the length of the payload |
| Emv.ParseConcat | app/emv.py:163-193 | accepted payloads concatenate: the items of one follow those of the other |
| Emv.UnhexOfHex | app/emv.py:218-221 | the hexadecimal spelling of a tag determines its octets |
| Iso8583.EncodedFieldDecodes | app/iso8583.py:210-253 | an encoded field is read back with its exact width, whatever follows |
| Iso8583.DecodedFieldEncodes | app/iso8583.py:210-253 | a field that was read re-encodes to exactly the octets it took |
| Iso8583Wire.EncodesExactly | app/iso8583.py:210-283 | which values a field takes: digits, printable ASCII or any octets, of exactly the fixed length or of a length within its bounds |
| Iso8583Wire.WireForm | app/iso8583.py:210-226 | an encoded field is its length in no, two or three decimal digits, then the octets of its value |
| Iso8583Wire.ReadsExactly | app/iso8583.py:229-253 | a field is read exactly when the octets start with that form of an allowed value, and nothing more is taken |
| Iso8583Wire.RefusedValue | app/iso8583.py:210-283 | the fault of a refused value: type, then alphabet, then length |
| Iso8583Wire.RefusedOctets | app/iso8583.py:229-283 | the fault of refused octets: length digits, then length, then missing octets, then alphabet |
| Iso8583.EncodedWordsList | app/iso8583.py:177-207 | the words of an encoded bitmap announce exactly the encoded element numbers in increasing order across 2..128 |
| Iso8583.DecodeOfEncode | app/iso8583.py:107-154 | for every valid profile, whatever message `encode` accepts is decoded to itself |
| Iso8583.EncodeOfDecode | app/iso8583.py:107-154 | every accepted octet string decodes to an encodable message, and re-encodes to itself if and only if DE1 is clear or the secondary bitmap is not zero |
| Iso8583.EmptySecondaryIsDropped | app/iso8583.py:177-191 | the concrete message for which the reverse law fails |
| Iso8583.PrefixFree | app/iso8583.py:127-154 | no accepted octet string is a proper prefix of another |
| Iso8583.DecodedParts | app/iso8583.py:127-154 | an accepted octet string is its header followed by the encoding of the fields it announces |
| Iso8583Codec.EncodeBitmap | app/iso8583.py:177-191 | ORing bits in any order of the mapping gives the octets of the reference bitmap |
| Iso8583Codec.DecodeFieldNumbers | app/iso8583.py:194-207 | the bit loop lists exactly the announced numbers, in order |
| Iso8583Codec.EncodeMessage | app/iso8583.py:107-125 | the encoder accepts exactly the encodable messages and returns their encoding; otherwise it reports the MTI fault, or the first element fault in the order of the caller's mapping |
| Iso8583Codec.DecodeMessage | app/iso8583.py:127-154 | the decoder's loop computes the reference decoding, errors included |
| Iso8583Adapter.ToOctetsExact | app/iso8583_adapter.py:74-102 | a valid canonical request is mapped and encoded exactly when it is within the profile's widths and currencies |
| Iso8583Adapter.FromOfTo | app/iso8583_adapter.py:29-102 | mapping out and back in is the identity on every request the adapter accepts |
| Iso8583Adapter.RequestRoundTrip | app/iso8583_adapter.py:29-102 | every canonical request within the profile survives mapping, encoding, decoding and mapping back |
| Iso8583Adapter.ToOfFrom | app/iso8583_adapter.py:29-102 | a message that maps to a request maps back to its mapped elements unchanged |
| Iso8583Adapter.OctetsRoundTrip | app/iso8583_adapter.py:29-102 | an accepted 0200 octet string that maps to a request comes back octet for octet if and only if DE1 is clear and it carries no unmapped element |
| Iso8583Adapter.DecodedElementsFit | app/iso8583.py:229-283 | under the default profile every element of a decoded message has its width and alphabet |
| Iso8583Adapter.ElementFitsExact | app/iso8583.py:66-87 | the sixteen elements of the default profile, and exactly which values each takes |
| Iso8583Adapter.MapsExactly | app/iso8583_adapter.py:29-71 | exactly which messages map to a canonical request |
| Iso8583Adapter.MappingFaults | app/iso8583_adapter.py:29-71 | which fault a message that does not map has |
| Iso8583Adapter.RequestFaults | app/iso8583_adapter.py:74-102 | exactly which requests map to a message, and which fault the others have |
| Iso8583Adapter.CorrelatesExactly | app/iso8583_adapter.py:22-26 | a response with a valid key correlates exactly when the MTIs are 0200 and 0210, 0400 and 0410, or 0800 and 0810, and STAN and RRN are the request's |
| Ledger.ServiceAgreesWithTrigger | migrations/002_double_entry_ledger.sql:61-90 | the service's posting check accepts exactly the lists of positive postings that the commit trigger accepts |
| Ledger.BalancesSumToTotal | app/ledger.py:121-144 | if entries carry their account's currency, the balances of a currency's accounts sum to its signed total |
| Payments.StepKeepsInv | app/payment_operations.py:116-229 | every committed step keeps the table invariant |
| Payments.ReachableInv | app/payment_operations.py:94-229 | in every reachable state operations, journals and events correspond one to one, each operation's journal is one debit and one credit of the payment's amount and currency, and a payment's history is the one its status allows |
| Payments.JournalOfOperation | app/payment_operations.py:162-180 | in reachable tables the journal of every operation is exactly one debit of the source and one credit of the destination, of the payment's amount and currency |
| Payments.EventOfOperation | app/payment_operations.py:204-229 | in reachable tables every operation has exactly one event, which tells its payment, amount, currency, statuses and journal |
| Payments.ExecutedBalance | app/payment_operations.py:170-180 | a call that commits raises the source's balance and lowers the destination's by the amount, and moves no other |
| Payments.ReplayReturnsFirstResult | app/payment_operations.py:118-133 | repeating a request under its key at any later time returns the first result and changes nothing |
| Payments.AtMostOneCommit | app/payment_operations.py:41-45 | a key, and a pair of payment and operation, commits at most once |
| Payments.AnswersTruthful | app/payment_operations.py:231-239 | every result is true of the tables: a new one tells the call's identifiers, the status the payment had and the one it has now, and one of the three permitted moves; a replay tells the recorded row field by field |
| Payments.RefusedTransitions | app/payment_operations.py:149-156 | a new call is refused for the payment's status exactly when the status does not permit the operation |
| Payments.JournalReference | app/payment_operations.py:158-169 | the journal a call writes names the payment, the operation and the operation's id |
| Payments.BalancesSumToZero | app/ledger.py:121-144 | after any run the account balances of each currency sum to zero |
| Payments.CaptureThenRefundRestores | app/payment_operations.py:162-180 | a capture and the refund with swapped accounts cancel in every balance, whatever runs between them |
| PaymentStore.Store.Execute | app/payment_operations.py:94-229 | the statement-by-statement transaction computes the atomic answer and tables, rolls back on every error, and is never rejected by the commit trigger |
| PaymentStore.Store.Post | app/ledger.py:73-118 | posting validates, inserts all rows or none, and is never rejected by the commit trigger |
| PaymentStore.Store.CreateAccount | app/ledger.py:43-56 | an account is opened with its upper-cased currency unless the code is malformed or the id is taken |
| PaymentStore.Store.AccountBalance | app/ledger.py:121-144 | the balance is the sum of the account's debits less its credits |
| Interleaving.MoveKeepsInv | app/payment_operations.py:116-229 | lock ownership, what a transaction has read, and the serial order survive every move |
| Interleaving.InterleavedIsSerial | app/payment_operations.py:116-229 | for any number of transactions, any key hash and any schedule, the committed tables and every answer are those of one serial order of atomic calls, which holds the calls of finished transactions, each at one place of its own, and the environment's steps; every result is true of the tables at its place |
| Interleaving.RealTimeOrder | app/payment_operations.py:116-229 | a call that finished before another was made precedes it in that order |
| Interleaving.SomeCallCanGoOn | app/payment_operations.py:116-145 | while a call is unfinished, some call can go on: the key lock is taken before the row lock |
| Interleaving.AllCallsCanFinish | app/payment_operations.py:116-229 | from every reachable state all calls can finish without aborting any |
| Reconciliation.Inspect | app/reconciliation.py:46-175 | on any tables, events of other aggregates or without an operation id included, the report holds each finding of the queries once, ordered by kind, entity and detail |
| Reconciliation.ReportUnique | app/reconciliation.py:174-175 | the report is determined by the tables: any ordered listing of the findings is the same |
| Reconciliation.FindingsExactly | app/reconciliation.py:46-172 | on any tables, the findings are exactly these: an operation whose payment, journal or event is missing or whose payment has another status, a payment event whose operation is missing, a journal with fewer than two entries or with sides that differ; each with its text |
| Reconciliation.OrderedExactly | app/reconciliation.py:174-175 | a report goes by kind name, then entity, then detail |
| Reconciliation.OrderedUnique | app/reconciliation.py:174-175 | two ordered reports with the same members are equal |
| Reconciliation.FindingsOnReachable | app/reconciliation.py:46-175 | on reachable tables the findings are exactly the status mismatches of superseded captures |
| Reconciliation.ReportOnReachable | app/reconciliation.py:126-142 | on reachable tables findings and refunded payments correspond one to one; the report is clean if and only if no payment is refunded |
| Reconciliation.RefundIsNeverClean | app/reconciliation.py:126-142 | a concrete run without any fault whose report is not clean |
| Outbox.PostgresOutbox.ClaimBatch | app/outbox.py:47-90 | returns the oldest available events up to the batch size, each with its row's body and attempts, locks exactly those, and refuses non-positive arguments |
| Outbox.PostgresOutbox.Acknowledge | app/outbox.py:92-108 | publishes an unpublished event, counts the attempt and clears the lock; answers True exactly then |
| Outbox.PostgresOutbox.RecordFailure | app/outbox.py:110-125 | counts the attempt, keeps at most 1000 characters of the error and clears whatever lock the row has |
| Outbox.PostgresOutbox.PublishBatch | app/outbox.py:127-154 | the callback is called once for every claimed event, with its row's body and attempts; every claimed event has exactly one attempt, acknowledged or failed as the callback decided; the result counts the acknowledged |
| Outbox.PostgresOutbox.ConsumeOnce | app/outbox.py:156-180 | the handler runs only for a new pair of consumer and event, and a failing handler leaves no marker |
| Outbox.PostgresOutbox.ResetEvent | app/reconciliation.py:184-197 | clears attempts and error of an unpublished event and leaves its lock |
| Delivery.RoundIsARun | app/outbox.py:127-154 | what one publishing round does to the table is what a run of claims, publish calls and their records does |
| Delivery.LeaseSafety | app/outbox.py:47-125 | in every run where workers use one lease and one ceiling and touch rows only under a live lease, no event has two live claims and attempts plus a claim in progress never exceed the ceiling |
| Delivery.TouchIsSafeExactly | app/outbox.py:92-125 | a touch keeps the lock of every live claim on an unpublished event if and only if it is an acknowledgement, finds nothing to update, or no other claim of the event is live |
| Delivery.TouchFitsExactly | app/outbox.py:92-125 | a touch keeps the ceiling if and only if the row is gone, published or locked, or has attempts left |
| Delivery.HarmfulEndangers | app/outbox.py:47-125 | after any other touch disciplined workers alone can reach two live claims of one event or attempts above the ceiling |
| Delivery.SafeExactlyWhenHarmless | app/outbox.py:47-125 | from the start, a run with one lease and one ceiling keeps live claims unique and attempts bounded, in every state and however disciplined workers go on from it, if and only if every touch in it meets both conditions |
| Delivery.LateWorkerBreaksLease | app/outbox.py:110-125 | a concrete run in which a late failure record lets a third worker claim an event that is held |
| Delivery.LateWorkersExceedCeiling | app/outbox.py:110-125 | a concrete run in which, with no live claim left, two late failure records make two attempts where one is permitted |
| Delivery.CeilingStopsClaims | app/outbox.py:63-90 | an event at the ceiling gets no new claim in any run that does not reset it |
| Delivery.AcknowledgedOnceAfterPublish | app/outbox.py:92-154 | in every run an event is published if and only if an acknowledgement answered True, at most one does, and only after its publish call returned |
| Delivery.HandlersCommitOnce | app/outbox.py:156-180 | a consumer's handler commits at most once per event, whatever publishers do |
| Delivery.ConsumesOnce | app/outbox.py:156-180 | the steps of a callback that calls `consume_once`: a blank name raises, a consumed event is passed over, and a handler's marker is committed unless it raises |
| Delivery.PublishedMeansHandledOnce | app/outbox.py:127-180 | when publishing calls `consume_once`, every published event has exactly one committed handler run, before its acknowledgement |
| Delivery.CanStillBePublished | app/outbox.py:47-90 | from every reachable state an unpublished event under the ceiling can be claimed again and published |
| EndToEnd.OperationHandledOnce | app/payment_operations.py:204-229 | in every run of payments and delivery together, each committed operation has exactly one event, its outbox row tells it, and once it is published its handler has committed exactly once, before its one acknowledgement |
| EndToEnd.HandledIsAnOperation | app/outbox.py:156-180 | every committed handler run is for the event of a committed operation, and no two are for the same one |
| EndToEnd.HandedTellsOperation | app/outbox.py:33-45 | what a publisher is handed, and hands on to the handler, is the operation's event: its payment and what became of it |
| NetworkCoordinator.NetworkTransactionCoordinator.Register | app/network_coordinator.py:37-46 | a key becomes pending with its deadline unless the timeout is not positive, the key is malformed or already used |
| NetworkCoordinator.NetworkTransactionCoordinator.Cancel | app/network_coordinator.py:48-58 | removes the key if it is pending and says so |
| NetworkCoordinator.NetworkTransactionCoordinator.Expire | app/network_coordinator.py:60-67 | moves exactly the due keys and returns them in order, or raises and changes nothing |
| NetworkCoordinator.NetworkTransactionCoordinator.HandleResponse | app/network_coordinator.py:69-90 | classifies a response and moves its key accordingly, errors first |
| Lifecycle.ResponseExactly | app/network_coordinator.py:69-90 | what a response with a valid key is taken for, by the literal MTI pairs, the trace references, where the key is and the deadline; only a mismatch and a duplicate change nothing |
| Lifecycle.EveryKeyLives | app/network_coordinator.py:37-90 | over every run the three tables are disjoint, and a key's story is register-cancel rounds followed by one ending, with acceptance before the deadline and timeout at or after it |
| Lifecycle.AnsweredAtMostOnce | app/network_coordinator.py:69-90 | over a whole run a key is accepted or late at most once, times out at most once, and is never both accepted and timed out |
| Lifecycle.TwoDueKeysBlockExpiry | app/network_coordinator.py:60-67 | with keys that cannot be compared, two due keys make expiry fail now and later |
| Lifecycle.ExpiryIsBlocked | app/network_coordinator.py:60-67 | two concrete registrations after which expiry fails at every time from their deadline on |
| NetworkRouting.RouteIsTheBest | app/network_routing.py:46-63 | the position with the longest eligible prefix, when it is the only one, is the answer |
| NetworkRouting.OkHasOneBest | app/network_routing.py:46-63 | an answer is always the route at the one such position |
| NetworkRouting.NoRouteExactly | app/network_routing.py:46-56 | no route is reported exactly when no position is eligible |
| NetworkRouting.AmbiguousExactly | app/network_routing.py:58-62 | ambiguity is reported exactly when two eligible positions share the longest prefix |
| NetworkRouting.AmbiguousNames | app/network_routing.py:60-62 | the error's text lists the names of exactly the tied routes, sorted |
| NetworkRouting.NoRepeatsNeverAmbiguous | app/network_routing.py:46-63 | a table that repeats no pair of prefix and currency is never ambiguous |
| NetworkRouting.RouteIgnoresOrder | app/network_routing.py:46-63 | the answer and the error do not depend on the order of the table |
| NetworkRouting.ReversalRegistry.Link | app/network_routing.py:90-107 | links a new original to a new key other than its own, or refuses and changes nothing |
| NetworkRouting.LinkKeepsValid | app/network_routing.py:86-107 | links stay paired one to one and earlier links are never changed |
| NetworkTransport.EncodedResponseArrives | app/network_transport.py:76-111 | a response encoded under the same profile comes out unchanged |
| NetworkFlow.AuthorizationNetworkFlow.Start | app/network_flow.py:75-100 | checks, routes and registers in this order, and changes the tracker only when all succeed |
| NetworkFlow.AuthorizationNetworkFlow.Settle | app/network_flow.py:152-215 | the three outcomes step by step; a step that raises keeps the changes before it |
| NetworkFlow.AuthorizationNetworkFlow.Exchange | app/network_flow.py:102-150 | settles, then records one row when nothing was raised |
| NetworkFlow.AuthorizationNetworkFlow.HandleLateResponse | app/network_flow.py:217-240 | applies a response to the tracker and records it |
| FlowRuns.ReachableFlow | app/network_flow.py:75-240 | over every run the tables are disjoint, links pair up, reversed keys are over, rows have their shapes, and the latest attempt of a key owns its deadline |
| FlowRuns.OutcomesAgreeExactly | app/network_flow.py:152-215 | timeout, unknown delivery and reversal always agree; the disposition agrees with them if and only if the answer is not stale |
| FlowRuns.StaleAnswerHappens | app/network_flow.py:152-215 | for every routed request and correlating response a run that ends in a stale answer: TIMED_OUT, no unknown delivery, no reversal |
| FlowRuns.StaleAnswerForEveryRequest | app/network_flow.py:152-215 | it happens to every canonical request within the default profile that has a route |
| FlowRuns.LatestOutcomesAgree | app/network_flow.py:152-215 | for the latest attempt of a key all four agree in every reachable state |
| FlowRuns.NeverAlreadyReversed | app/network_routing.py:99-100 | a second reversal of one original is never requested |
| FlowRuns.FailedAttemptRestarts | app/network_flow.py:163-175 | in every reachable state an exchange that reports a local failure can be followed by a start of the same request, which hands out a new attempt of the key |
| FlowRuns.TimeoutReportedExactly | app/network_flow.py:152-215 | in every reachable state, exactly when an exchange reports a timeout rather than raising |
| FlowRuns.ReversalsPairUp | app/network_routing.py:86-107 | in every run originals and reversals correspond one to one |
| FlowRuns.ExchangeRecords | app/network_flow.py:119-150 | an exchange that returns adds one row with its route, its answer, the reversal's reason and the latency; one that raises adds none |
| FlowRuns.LateRecords | app/network_flow.py:217-240 | the same of a late response |
| FlowRuns.ErrorTexts | app/network_transport.py:88-111 | a result's error is the transport's text, or what did not decode |
| FlowRuns.LinkedExactly | app/network_flow.py:177-200 | a key gets a reversal exactly by an exchange of its attempt that settles as a timeout |
| FlowRuns.TimedOutUnreversed | app/network_flow.py:202-215 | a run, for every routed request of the default profile, in which the key times out and has no reversal |
| FlowRuns.OthersExpireUnreversed | app/network_flow.py:180-182 | a timeout also ends other due keys, without a reversal, and only where keys can be compared |
| FlowRuns.OthersExpireHappens | app/network_flow.py:180-182 | a run in which the timeout of one request ends another one, where keys can be compared |
| Grouping.CountsAddUp | app/operational_snapshot.py:135-137 | the counts of a GROUP BY add up to the rows |
| OperationalSnapshot.TotalsMatchRoutes | app/operational_snapshot.py:165-236 | for every history the route rows add up to the totals of observations, timeouts and late responses |
| OperationalSnapshot.TotalsCount | app/operational_snapshot.py:165-178 | the totals are counts over the rows |
| OperationalSnapshot.RouteRowsCount | app/operational_snapshot.py:193-236 | there is one row per route name, issuer and acquirer that occurs, and each column counts that route's rows |
| OperationalSnapshot.DispositionsCount | app/operational_snapshot.py:180-191 | each disposition that occurs is listed with the number of its rows |
| OperationalSnapshot.SnapshotCounts | app/operational_snapshot.py:133-163 | what the counts of statuses, discrepancy kinds, unpublished and poison events are counts of |
| OperationalSnapshot.UnknownDeliveriesAreTimeouts | app/operational_snapshot.py:165-236 | for rows the flow writes, unknown deliveries equal timeouts in every route row, and observations are the dispositions and the failures |
| OperationalSnapshot.FlowHistories | app/network_flow.py:119-150 | every history a run of the flow leaves consists of such rows |
| OperationalSnapshot.Read | app/operational_snapshot.py:253-311 | the snapshot's numbers, health and incident texts as counted from the tables and the reconciler's report |
| OperationalSnapshot.PoisonCannotBeClaimed | app/operational_snapshot.py:142-163 | an unpublished event is counted as poison exactly when no claim with that limit can ever take it |
| OperationalSnapshot.OperationsMatchStatuses | app/payment_operations.py:41-45 | on reachable tables the operations are the captured, the reversed, and twice the refunded payments |
| OperationalSnapshot.EventsMatchOperations | app/payment_operations.py:204-229 | on reachable tables there are as many events as operations |
| OperationalSnapshot.SnapshotOnReachable | app/operational_snapshot.py:253-311 | on reachable tables discrepancies count refunded payments, there is one event per operation, health is critical iff a payment is refunded or an event is poison, and healthy iff neither and all events are published |
| Repository.InMemoryPaymentRepository.CreatePayment | app/repository.py:36-58 | returns the key's payment, refuses a different request, or stores the candidate; the lookup of a known key's payment never fails |
| Repository.RepeatReturnsFirst | app/repository.py:36-58 | repeating a call under its key returns the first payment and stores nothing, whatever came between |
| Repository.NoKeyAlwaysCreates | app/repository.py:44-58 | without a key, or with an empty one, every call stores the payment it asked for |
| Repository.NewKeyIsRemembered | app/repository.py:54-58 | a new key is remembered with its request and the payment it stored |
| Creation.MoveKeepsInv | app/repository.py:110-175 | claims, private rows and what each transaction has read stay consistent under every move |
| Creation.CreationIsSerial | app/repository.py:110-175 | for every schedule the stored tables and all answers are those of the dictionary with the same candidates in one order, which holds every finished call once and nothing else |
| Creation.LosersLeaveNoRow | app/repository.py:138-140 | a candidate is stored exactly when it was returned to the call that drew it |
| Creation.OnlyConflictsAreReported | app/repository.py:149-175 | the errors for a vanished claim, a missing payment and a missing result are unreachable |
| Creation.RealTimeOrder | app/repository.py:110-175 | a call that had finished precedes any that finishes later |
| Creation.SomeCallCanGoOn | app/repository.py:125-140 | while a call is unfinished some call can go on |
| Creation.AllCallsCanFinish | app/repository.py:110-175 | from every reachable state all calls can finish without aborting any |

Further lemmas fix the tables and character classes the model is written with, each without using what it
fixes: `Strings.UpperLetters`, `Strings.SpaceExactly`, `Strings.TextLessExactly`, `Strings.BlankExactly`,
`Canonical.ConstructorsExactly`, `Emv.LengthFaults`, `Ledger.PostingFaults`, `Payments.OtherSteps`,
`Iso8583Wire.MtiExactly`, `Iso8583Wire.SpecLimits`, `Iso8583Adapter.Currencies`, `Iso8583Adapter.KeyExactly`,
`Reconciliation.Names`, `Reconciliation.NatTextExactly`, `Reconciliation.IntTextExactly`,
`Delivery.NewRowsAndClaims`, `Delivery.TouchedRows`, `Delivery.FailureIsRecorded`, `Outbox.AvailableExactly`,
`Outbox.StatementsExactly`, `NetworkCoordinator.SortedExactly`, `NetworkRouting.EligibleExactly`,
`NetworkRouting.JoinedNames` and `NetworkTransport.ValidExchangesExactly`. Case tables that proofs of the
results above use are `NetworkTransport.ResultsExactly`, `FlowRuns.StartExactly`, `FlowRuns.FailureFreesKey`,
`FlowRuns.TimeoutReturnsExactly` and `Emv.ParseNeverTrails`.

## Left out

- Iso8583Adapter.FromMessage: `int()` of DE4 is modelled on digit strings, which every decoded message carries; a hand-built message with other text is outside its precondition.
- Delivery.LeaseSafety: a batch is several claims of single events in any order, which allows more runs than the service; batch size and oldest-first order are in `Outbox.PostgresOutbox.ClaimBatch`.
- OperationalSnapshot.Read: percentiles, ages, timestamps and the order of the route rows are not modelled; counts are unbounded, so totals are assumed to fit BIGINT; the delivery columns of the outbox are a table of their own, tied to the events only where a result needs it; and the retry limit is any integer although the constructor demands a positive one.
- PaymentStore.Store.CreateAccount: the account's name is not modelled; no other column depends on it.
- Reconciliation.Inspect: an operation id that is present in a payload with the JSON value null is not modelled. The four queries over operations are read in one pass over the rows; operation ids are primary keys, which its precondition states.
- PostgreSQL itself: tables are maps and sequences, a transaction publishes at commit or not at all, and a READ COMMITTED read sees the latest committed state. Advisory, row and unique-key waits are moves that are not enabled until the lock is free. The row triggers that forbid updates and deletes of ledger rows show as rows that are only appended.
- The read-only lookups `get` (app/repository.py:60-61) and `for_original` (app/network_routing.py:109-110).
- Identifiers drawn by the program (uuid4) are parameters. In payment operations a repeated draw is caught by a primary key and rolls the call back; in payment creation candidates are assumed fresh.
- Request fingerprints (JSON and SHA-256) are modelled as the request itself, so as injective.
- The move from pending to authorized has no code in the repository; it is an environment step under the payment's row lock.
- Callbacks, transports, reversal-key providers and history writers are parameters: any answer, an error, or a raised exception. Telemetry has no effect on state and is left out.
- Floating-point time is `real`; the outbox clock is an integer number of microseconds.
- Upper-casing is modelled on ASCII letters; byte-like arguments other than `bytes`, and values of the wrong Python type, are not modelled.
- Payment status in payment creation: the repository code never changes it, so a stored payment is the one that was created.
- Validation done by pydantic, the HTTP API, the Java services, migrations runner, TVR names, ISO 20022 projection, fault injection, demo data and analytics: plumbing, or members without a hard property.
