# RelayMeshNet in Dafny

This project models the core of RelayMeshNet in Dafny and proves what it promises: the simulated mesh with its
collisions, deliveries, payments and inequality metrics (`simulation/`), the Kademlia routing table and value store
(`pkg/dht`), the relay queue (`pkg/relay`), onion packets (`pkg/onion`), the Proof-of-History chain (`pkg/poh`) and
the wire frame (`pkg/protocol`). `dafny verify dfyconfig.toml` gives all files to the verifier.

| file | models |
|---|---|
| `Inequality.dfy`, `Transfers.dfy`, `Fairness.dfy` | Gini coefficient, GiniBalance under user transfers, Jain's index |
| `Ledger.dfy`, `Upkeep.dfy`, `MeshNode.dfy`, `Economy.dfy` | accounts, credit, relay work and reputation; what time does to them; the node object; the sum of all balances over histories and across a paid send |
| `Messages.dfy`, `Airwaves.dfy`, `SpreadingFactors.dfy` | messages in flight and their ACKs; the collision scan, and spreading factors in it |
| `Traffic.dfy`, `Deliveries.dfy`, `World.dfy` | whole histories; what arrives and who is credited; the world object |
| `Attribution.dfy`, `SafeReuse.dfy`, `RightLosses.dfy`, `Histories.dfy` | which message a collision loses, where marks point when ids are used again, when a send is safe, and particular histories |
| `Relays.dfy` | the insertion of obligatory relays |
| `Keys.dfy`, `RoutingTable.dfy`, `ValueStore.dfy` | 160-bit keys, the routing table, the expiring store and its handlers |
| `RelayQueue.dfy` | the bounded priority queue over its backing array |
| `Onion.dfy`, `ProofOfHistory.dfy`, `Wire.dfy`, `Prelude.dfy` | onion packets, the hash chain, frames, shared datatypes |

Code that updates state is a class or a method with loops, proved against functions on values; the theorems about
whole runs are lemmas about those functions. `float64` is an exact real, `time.Now()` a clock argument (one per
reading), and each random draw an argument. SHA-256, the sealed box and the signature functions are arbitrary
functions; of the sealed box only two facts are assumed, that the matching key undoes sealing and that sealing adds,
and opening removes, exactly 48 bytes. The path of a message, from `findPath` and relay insertion, is any list of peer ids from
sender to receiver. Nodes created at the start and nodes put in later hold different configurations in the code, so each
node has its own here. The chunk size is taken to be positive. Square roots are avoided by comparing squares, which over exact reals decides the same.

Where the code does something its surroundings do not suggest, the model follows the code:

- GiniBalance clips balances below -100, and then a transfer can fail to lower it: see
  `Transfers.LowersExactlyAboveMinus100`.
- A message of more than 3000 hops never has its first hop acknowledged: see `Messages.AllAckedExactlyUpTo3000`.
- `VerifyRecord` and `VerifyChain` do not return when the end tick is 2^64-1, because the loop counter wraps: see
  `ProofOfHistory.ReplayTerminates`. This is why the two methods ask for a smaller end tick.
- A record's signature does not cover the event type, so that can be changed unnoticed: see
  `ProofOfHistory.TamperedIsRefused`.
- Message ids repeat between the same two nodes, and a collision marks the first message in flight with the id, which
  need not be the one that was on the air: see `Histories.WrongMessageIsLost`. It always is if no id is used again while a
  transmission on the air bears it nor, over the air, while a message in flight does (`Attribution.CleanStepsLoseOwn`).
  The exact condition for one send, over all that can follow, is `RightLosses.SafeToSendExactly`. A message sent again
  while its first transmission is still on the air is usually lost rightly, since the two collide with each other, but
  not always: see `RightLosses.RepetitionIsSafe` and `Histories.RepetitionCanBeShielded`.
  The balance of the counters holds all the same.
- The collision rate counts two collisions for each dropped transmission and can exceed 1: see
  `Histories.ThreeWayCollision` and the bound `Traffic.CollisionsBounded`.
- The repository's README promises that a paid transfer burns one per cent and the relays earn the rest. The payout is
  scaled by the channel (0.1 on WiFi, up to 3 on LoRa), so with the default prices credit also vanishes or is created
  on every channel but SF7: see `Economy.BurnIsExact` and `Economy.DefaultPricesLeak`.
- The repository's README promises at least one relay hop per message. The code inserts what candidates there are, and
  these are only the nodes linked with exactly one end: see `Relays.InsertRelays` and `Relays.FullMeshSendsDirectly`.
- `modules/02-onion-routing.md` counts 40 bytes of box overhead per layer; the code has 48.

## Model

| member | source | states |
|---|---|---|
| `Transfers.TransferLowersGini` | simulation/world.go:313-340 | Every user transfer (sender above 50, receiver below 10, 10-30 per cent) leaves the sender richer than the receiver, and with the receiver at or above -100 strictly lowers GiniBalance whatever the other balances are |
| `Transfers.LowersExactlyAboveMinus100` | simulation/world.go:656-665 | A transfer lowers GiniBalance in every world if and only if the receiver's balance is at least -100, the point where the shift starts to clip |
| `Transfers.ClippedTransfer` | simulation/world.go:656-665 | For every eligible pair with the receiver below -100 a world is built in which the transfer does not lower GiniBalance |
| `Transfers.PigouDalton` | simulation/world.go:769-788 | The transfer principle: moving wealth from a richer to a poorer value without passing each other strictly lowers the coefficient |
| `Transfers.Squeeze` | simulation/world.go:769-788 | Moving two values towards each other never increases their summed distance to all the others |
| `Transfers.AmountBounds` | simulation/world.go:328-329 | A transferred amount is more than 5 and from 10 to below 30 per cent, so the `amount < 1` test never fires |
| `Transfers.EveryAmountIsDrawn` | simulation/world.go:328-329 | Every amount from 10 to below 30 per cent is the amount of exactly one draw, the one that lies as far between 0 and 1 |
| `Transfers.ComputeGiniBalance` | simulation/world.go:656-665 | The loop over the shifted, clipped balances returns the Gini index of exactly those values |
| `Inequality.Gini` | simulation/world.go:769-788 | The sorted one-pass loop returns, for any values in any order, the pairwise-difference definition (clamped to [0,1]) |
| `Inequality.RankSumIsPairGaps` | simulation/world.go:780-783 | On a sorted list the rank-weighted sum equals the sum of absolute differences over all pairs |
| `Inequality.PairGapsOrderless` | simulation/world.go:769-788 | The pairwise sum depends on the multiset of values only |
| `Inequality.GiniOrderless` | simulation/world.go:769-788 | The coefficient does not depend on input order |
| `Inequality.GiniIsExact` | simulation/world.go:784-787 | For non-negative values with a positive total the clamps never fire: the coefficient is the pairwise sum over n times the total |
| `Inequality.GiniOfAny` | simulation/world.go:769-788 | For any values, negative ones too, the coefficient is the pairwise sum over n times the total held between 0 and 1, and 0 for fewer than two values or a total of 0 |
| `Inequality.GiniBounds` | simulation/world.go:769-788 | For at least two non-negative values it lies in [0, (n-1)/n] and is 0 if and only if all are equal |
| `Fairness.JainFairness` | simulation/world.go:678-690 | The loops over the positive relay volumes return 1 for fewer than two of them and else the index of exactly those |
| `Fairness.CauchySchwarz` | simulation/world.go:687-689 | n times the sum of squares minus the square of the sum is the sum of squared pairwise differences |
| `Fairness.JainBounds` | simulation/world.go:678-690 | Jain's index of positive values lies in [1/n, 1] and is 1 if and only if all are equal |
| `Fairness.JainIsExact` | simulation/world.go:687-690 | The index times n times the sum of squares is the square of the sum |
| `Fairness.CountsPositive` | simulation/world.go:678-686 | Exactly the positive volumes enter the index, each as often as it occurs |
| `Fairness.JainOrderless` | simulation/world.go:678-690 | Jain's index is unchanged by reordering |
| `Fairness.JainScaleFree` | simulation/world.go:678-690 | Jain's index is unchanged by scaling all values |
| `Ledger.BalancesStayWithinCredit` | simulation/world.go:371-393 | Over any history of sends, relay payouts, reputation updates, ticks, transfers and respawns with non-negative prices and a burn rate of at most 1, no balance falls below minus the credit limit of the node's largest reputation so far |
| `Economy.BurnIsExact` | simulation/world.go:371-423 | Where all nodes share one configuration, a paid send whose inner hops are all listed nodes takes exactly the burn rate times the cost out of the sum of all balances if and only if the burn rate is 1 or the relay reward times the channel multiplier equals the send price |
| `Economy.DefaultPricesLeak` | simulation/config.go:61-70 | At the default prices 4096 bytes over one relay cost 8; the sum of balances falls by 7.208 with the WiFi multiplier, by 0.08 (the burn) with multiplier 1, and rises by 15.76 with multiplier 3 |
| `Economy.CreditIsAccountedFor` | simulation/world.go:371-423 | Over any history of sends, payouts, ticks, reputation updates, transfers and respawns the sum of all balances changes by exactly the emission, storage rewards and net payouts, less the costs of paid sends and the balances of replaced nodes; transfers contribute nothing |
| `Economy.ClippedTransferIsReached` | simulation/world.go:313-423 | From newly opened accounts, at the default prices and with every payout after the send that pays for it: relaying, 300 ticks, reputation updates, one send on credit, the replacement of its relay, and ticks and reputation updates up to tick 6000, at which nodes transfer, lead to a balance below -100, and among enough nodes a transfer to that node does not lower GiniBalance |
| `Economy.PaidSendTotal` | simulation/world.go:371-423 | Any paid send that goes through changes the sum of all balances by minus its cost plus one net payout, at the relay's own prices, per inner hop that resolves to a listed node, and by nothing else |
| `Economy.PayoutsAdd` | simulation/world.go:419-423 | The payouts along a path add one net reward per resolved inner hop to the sum of all balances, also when a node is paid for several hops |
| `Ledger.ChargedWithinCredit` | simulation/world.go:371-393 | A payment that goes through leaves the payer within its credit limit |
| `Ledger.StepKeepsCredit` | simulation/node.go:192-228 | Each operation keeps work and reputation non-negative and every account within its largest credit limit |
| `Ledger.BalancesAboveMinusLimit` | simulation/world.go:371-393 | With a limit of 20 times the square root of the reputation, or of 0.01 if that is more: if every balance starts at or above minus its limit, then over any such history no balance falls below minus the limit of the largest reputation so far |
| `Ledger.PeakIsReached` | simulation/node.go:228 | That largest reputation is one the account had since it was last opened |
| `Ledger.PeakIsLargest` | simulation/node.go:228 | And no reputation it had since then is larger |
| `Ledger.ChargedExactly` | simulation/world.go:371-383 | A payment is refused if and only if the message is above the threshold, the cost is positive and more than balance less locked credit, and balance less cost is below minus 20 times the square root of max(reputation, 0.01); above the threshold a payment that passes takes exactly a positive cost and changes nothing else |
| `Ledger.ConfirmsLeast` | simulation/node.go:185-190 | Up to the threshold a send is never refused, counts as work the least number from 2 on of chunks that cover the bytes over all hops, and adds the emission price for each of them when it emits |
| `Upkeep.Demurrage` | simulation/node.go:192-203 | Over n ticks the reputation is multiplied by the n-th power of 1 - 0.00000022, offline of 1 - 0.00000044 |
| `Upkeep.OfflineKeeps` | simulation/node.go:205 | Offline nothing but the reputation changes over any number of ticks |
| `Upkeep.OnlineTicks` | simulation/node.go:206-217 | Over n ticks online the balance grows by n times the pay for storage, and the work decays and grows by a hundredth of the pay in each |
| `Upkeep.HourlyPay` | simulation/node.go:212-214 | 30000 ticks online pay the storage price for each mebibyte stored |
| `Upkeep.WorkedClosed` | simulation/node.go:208-215 | The closed form of the work after n ticks: it tends to a hundredth of the pay over one minus the decay factor |
| `Ledger.RewardNonNegative` | simulation/node.go:220-226 | A relay payout net of burn is never negative |
| `Ledger.CeilDiv` | simulation/node.go:185-190 | The chunk count is the least integer covering the bytes |
| `MeshNode.Node.AddRelayWork` | simulation/node.go:220-226 | A payout adds the bytes to the relay volume and the work, and the reward less the burn to the balance |
| `MeshNode.Node.Tick` | simulation/node.go:192-218 | One tick: demurrage on the reputation (double offline), and online the uptime, the decay of the work, the storage reward and the storage hours |
| `MeshNode.Node.UpdateReputation` | simulation/node.go:228 | Reputation becomes work over 168 |
| `MeshNode.Node.Charge` | simulation/world.go:369-393 | The payment part of a send refuses exactly the unaffordable one, and else has exactly the modelled effect |
| `MeshNode.CountReceived` | simulation/world.go:263-269 | The first node with the peer id, and no other, counts the message, and counts it as a file if it is one |
| `Messages.TotalTicks` | simulation/world.go:394-396 | The tick count lies in 1..3000 and is at least the number of hops unless capped |
| `Messages.DeliverInPlace` | simulation/world.go:240-276 | The in-place pass leaves exactly the unmarked undelivered messages, advanced and in order, counts the arrivals, and credits each to its recipient, files also as files |
| `Messages.AdvanceSlot` | simulation/world.go:251-259 | The countdown and the floor-division ACK of one message |
| `Messages.AcksFollowProgress` | simulation/world.go:253-259 | On a path of at most 3000 hops, hop k is ACKed exactly when Remaining*P < (P-k)*Total, and every hop is on arrival |
| `Messages.AllAckedExactlyUpTo3000` | simulation/world.go:394-396 | A delivered message has all hops ACKed if and only if it has at most 3000 of them |
| `Messages.IndexMovesByOne` | simulation/world.go:255 | With at least as many ticks as hops the ACK index advances by at most one per tick: no hop is skipped |
| `Messages.FirstHopSkipped` | simulation/world.go:255 | With fewer ticks than hops the first hop's index is never reached |
| `Airwaves.ScanInPlace` | simulation/world.go:710-769 | The in-place compaction leaves exactly the survivors, counts two per dropped collision, marks the first messages with the ids of each colliding pair, charges each failure to its node and each collision to the node of the later transmission |
| `Airwaves.ScanSlot` | simulation/world.go:712-750 | One round: expired and colliding transmissions are dropped, others moved down, later slots untouched |
| `Airwaves.MarkMsgCollided` | simulation/world.go:754-761 | Only the first active message with the id is marked |
| `Airwaves.SurvivorsDoNotConflict` | simulation/world.go:710-752 | After a scan the transmissions are unexpired and pairwise free of conflict |
| `Airwaves.DroppedExactlyByLater` | simulation/world.go:717-744 | An unexpired transmission is dropped if and only if a later unexpired one conflicts with it |
| `SpreadingFactors.SurvivorsByFactor` | simulation/world.go:710-752 | Spreading factors are orthogonal: for any list and any set of factors, the survivors with these factors are the survivors of the transmissions with these factors alone, in the same order |
| `SpreadingFactors.DropsByFactor` | simulation/world.go:710-752 | The collisions counted in a scan are those counted in the scans of each factor, added up |
| `SpreadingFactors.DroppedInFields` | simulation/world.go:717-744 | An unexpired transmission is dropped if and only if a later one, unexpired too, has the same factor and overlapping ticks and its node is at a squared distance of at most the squared range |
| `SpreadingFactors.ConflictInFields` | simulation/world.go:723-734 | Two transmissions collide if and only if they have the same factor and overlapping ticks and the distance of their nodes is at most the range |
| `Airwaves.LastLiveSurvives` | simulation/world.go:710-752 | The last unexpired transmission always survives |
| `Airwaves.ScanAccounts` | simulation/world.go:738-739 | Survivors and counted drops together are exactly the unexpired transmissions |
| `Airwaves.ConflictSymmetric` | simulation/world.go:723-734 | Conflict is symmetric |
| `Attribution.CleanStepsLoseOwn` | simulation/world.go:710-761 | If no id is used again while a transmission on the air bears it nor, over the air, while a message in flight does, each step of any history loses a message if and only if the scan counts a collision of that message's own transmission |
| `Attribution.EveryLossWasItsOwn` | simulation/world.go:710-761 | So every message ever lost in such a history went in a step whose scan counted a collision of its own transmission |
| `Attribution.MarksOwnExactly` | simulation/world.go:754-761 | About where marks point, up to the next scan, under any configuration, and whatever is sent after it under an id not in use: the mark of each colliding transmission finds its own message, or nothing when that is gone, if and only if, an id in flight being used again, the send does not go over the air, or, the id not being in flight, no transmission on the air bears it |
| `RightLosses.SafeToSendExactly` | simulation/world.go:399-416 | In any history that uses no id again while a transmission on the air bears it nor, over the air, while a message in flight does, after one more send of any kind: in all continuations, however long, that reuse ids in that way under one configuration, each step loses a message if and only if that message's own transmission is in a counted pair, if and only if the send is safe: with the id in flight, it does not go over the air and no transmission of that id can outlast the message in flight while the new one has ticks left; with the id not in flight, no transmission on the air bears it, or the send goes over the air and its signal collides with a transmission that would otherwise come through the next scan |
| `RightLosses.DoubledLosesRight` | simulation/world.go:710-761 | While a transmission in a pair of the next scan shares its id with transmissions whose messages are gone, its message is lost in that scan and every message is lost exactly through its own transmission |
| `RightLosses.RepetitionIsSafe` | simulation/world.go:399-416 | Right after a step, sending again over the air, from the same node with the same spreading factor, under the id of a transmission still on the air whose message is gone is safe |
| `RightLosses.UnhitLosesWrong` | simulation/world.go:754-761 | If the signal of such a repetition collides with nothing that would come through the scan, then some such continuation has a step that loses the wrong messages |
| `RightLosses.OutlastingLoses` | simulation/world.go:754-761 | A transmission that outlasts its message, because that is lost while it survives the scan or delivered before it ends, while a later message of its id, never on the air, is in flight: some such continuation has a step that loses the wrong messages |
| `RightLosses.HitsIsPair` | simulation/world.go:710-752 | The signal of a send is in a counted pair of the next scan if and only if it collides with a transmission that would survive the scan without it |
| `SafeReuse.MarksSafeExactly` | simulation/world.go:754-761 | The corresponding result about where marks point: in all such continuations the mark of every colliding transmission finds its own message, or nothing when that is gone, if and only if no transmission on the air bears the id of the send, or it does not go over the air, a message in flight bears the id, and no transmission of that id can outlast that message while the new one has ticks left |
| `SafeReuse.RightForeverExactly` | simulation/world.go:754-761 | The same for any state: in all such continuations every mark finds its own message or nothing if and only if every transmission bearing the id of another message has its own message first and does not outlast it |
| `SafeReuse.OutlastingFails` | simulation/world.go:754-761 | A transmission that outlasts its message while a later message of its id is in flight: some such continuation has a step in which a mark finds another message |
| `Attribution.PostStaysLinkedExactly` | simulation/world.go:399-416 | The same condition is exactly when every transmission on the air still finds its own message |
| `Attribution.LostExactly` | simulation/world.go:710-761 | A scan loses a message if and only if it is the first in flight with the id of a transmission of a counted pair |
| `Attribution.ChargedByPairs` | simulation/world.go:736-743 | A node fails once for each of its transmissions in a counted pair, and is charged a collision for each that is the later one of its pair |
| `Attribution.BusyIdMisleads` | simulation/world.go:754-761 | Any history in which an id in flight is sent again over the air can go on, under the given configuration and with one more send of the same node to any node it is sending nothing to, so that the second message collides and is not lost and the first one is lost |
| `Attribution.OrphanMisleads` | simulation/world.go:754-761 | Any history with a transmission on the air whose message is gone can go on, under the given configuration and with one more send of the same node to any node it is sending nothing to, so that a message of its id that never went over the air is lost |
| `Histories.WrongMessageIsLost` | simulation/world.go:399-416 | A history of four events between three nodes in which a message that was never on the air is lost and the message whose transmission collided is delivered |
| `Histories.FreeIdCanMislead` | simulation/world.go:754-761 | A history after which nothing is in flight and yet the next message is lost through a transmission that is not its own |
| `Histories.RepetitionIsHarmless` | simulation/world.go:399-416 | A message sent again over the air while its first transmission, delivered and done with, is still there: a mark would go astray, and yet the send is safe |
| `Histories.RepetitionCanBeShielded` | simulation/world.go:710-761 | Three nodes of which the middle one hears both others: without a step in between, the repeated message is lost although its own transmission collides with nothing |
| `Histories.FittingIsNotEnough` | simulation/world.go:754-761 | A history in which every send meets the condition for the next scan and after the step a transmission points at the wrong message |
| `Histories.ThreeWayCollision` | simulation/world.go:692-696 | Three messages sent over the air at once: four collisions, a rate above 1 |
| `Traffic.CollisionsBounded` | simulation/world.go:692-736 | Over any history with a message sent, collisions plus twice the transmissions on the air are at most twice the messages sent, and at most twice all but one of them, so the collision rate is below 2 |
| `Relays.InsertRelays` | simulation/world.go:350-369 | The insertion puts different candidates before the receiver, as many as are wanted or as there are, and leaves the rest of the path as it was; the path then has the minimum of relays if and only if there are at least as many candidates as it lacked |
| `Relays.FindRandomRelay` | simulation/world.go:438-463 | Returns an online node off the path that is linked with exactly one end, if and only if there is one |
| `Relays.NoneInsertedExactly` | simulation/world.go:447-457 | A path that lacks relays gets none if and only if every online node off it is linked with both ends or with neither |
| `Relays.FullMeshSendsDirectly` | simulation/world.go:447-457 | Where all nodes are linked with both ends nothing is inserted into a direct path whatever the minimum, and a minimum of at least one is missed |
| `Traffic.CountersBalance` | simulation/world.go:240-276 | Over any interleaving of steps and sends, received + in flight <= sent <= received + in flight + collisions, and failed = collisions |
| `Traffic.EveryMessageHasOneFate` | simulation/world.go:240-276 | Every message sent is in flight, delivered or lost, exactly once |
| `Traffic.FatesAreTimely` | simulation/world.go:246-273 | A delivered message was never marked and arrives exactly Total ticks after it was sent; a lost one was marked and is gone no later; one in flight is not yet due |
| `Deliveries.DeliveredAsPosted` | simulation/world.go:394-436 | Over any history a delivered message goes from the first to the last entry of the path posted under its serial, with that id, size and type, and arrives the per-hop delay times the hops, at most 3000 ticks, after that post |
| `Deliveries.CreditedAsPosted` | simulation/world.go:261-270 | Over any history, and whatever nodes there are at each tick, the messages, or files, that the passes credit to a node are as many as the delivered ones posted to it |
| `Deliveries.HistoriesAreTraced` | simulation/world.go:394-436 | Every message in flight, delivered or lost is the one posted under its serial, field by field |
| `Deliveries.CreditedAreMarked` | simulation/world.go:240-276 | The credits of the passes are those of the delivered messages, by receiver |
| `Traffic.DeliveredMeansAcknowledged` | simulation/world.go:253-270 | Over any history a delivered message has every hop ACKed if and only if it has at most 3000 hops |
| `Traffic.HistoryExtends` | simulation/world.go:216-276 | No history gets stuck: every reachable state admits every possible event |
| `Traffic.ScanLoses` | simulation/world.go:736-749 | A scan loses at most two messages per counted collision |
| `World.World.CheckCollisions` | simulation/world.go:710-752 | The scan on the world's buffers and counters is the value model's scan |
| `World.World.Deliver` | simulation/world.go:240-276 | The pass on the world's buffers and counters is the value model's pass |
| `World.World.StepMessages` | simulation/world.go:217-276 | The message part of one step is the value model's step, and credits every node with the messages and files counted for it |
| `World.World.SendMsg` | simulation/world.go:344-435 | A send goes out exactly when both ends are online, a path exists and the payment passes; it changes accounts as the ledger's send and payouts do, each node at its own prices, adds a transmission only for LoRa airtimes of 1 to 20 ticks, and changes nothing when refused; the message is from the sending to the receiving node over the path, with the size and type given and its per-hop delay times its hops, at most 3000, as ticks to go |
| `World.World.Send` | simulation/world.go:576-588 | A send goes out exactly when both ends are online, a path exists and the payment passes; then it is one send event of the traffic histories and one run of charge and payouts on the accounts, and otherwise nothing changes |
| `World.World.PayRelays` | simulation/world.go:419-423 | Each inner hop pays out to the first node with its id, in path order |
| `World.World.AddTransmission` | simulation/world.go:700-708 | The transmission is appended to the active list |
| `World.SignalIs` | simulation/world.go:399-416 | A send adds a transmission only on LoRa with an airtime of 1 to 20 ticks, from its node on its factor, starting now and ending that many ticks later |
| `World.FreshIs` | simulation/world.go:424-436 | A new message is from the sending to the receiving node, bears the first eight characters of both peer ids, has no hop acknowledged and its per-hop delay times its hops, at most 3000, as ticks to go |
| `World.World.Post` | simulation/world.go:300-309 | The message is appended to the active list and counted as sent, as all four sending entry points do |
| `World.World.TryTransfer` | simulation/world.go:313-338 | A transfer happens exactly under the code's guards and has the ledger's effect |
| `World.PaidIsAfter` | simulation/world.go:419-423 | Paying relays one by one is the ledger run of the payouts |
| `Keys.XOR` | pkg/dht/table.go:37-43 | The loop computes the byte-wise XOR distance |
| `Keys.LeadingZeros` | pkg/dht/table.go:54-70 | The nested loops count the leading zero bits |
| `Keys.Less` | pkg/dht/table.go:202-210 | The comparison loop decides the byte-lexicographic order |
| `Keys.BelowIsNumeric` | pkg/dht/table.go:202-210 | The byte-lexicographic order is the order of the big-endian numbers, and these are injective |
| `Keys.TriangleInequality` | pkg/dht/table.go:37-43 | XOR distance satisfies the triangle inequality |
| `Keys.DistanceZero` | pkg/dht/table.go:45-52 | The distance is zero if and only if the keys are equal |
| `Keys.DistanceInjective` | pkg/dht/table.go:37-43 | From one point, different keys are at different distances |
| `Keys.ZerosInterval` | pkg/dht/table.go:54-70 | A key with z leading zeros is a number of exactly 160-z bits |
| `Keys.ZerosAtLeast` | pkg/dht/table.go:54-70 | At least i leading zeros if and only if below 2^(160-i) |
| `Keys.CommonPrefix` | pkg/dht/table.go:54-70 | LZ(a^c) is at least the smaller of LZ(a^b) and LZ(b^c) |
| `Keys.MoreZerosIsCloser` | pkg/dht/table.go:202-210 | More leading zeros sorts strictly first |
| `RoutingTable.Bucket.Add` | pkg/dht/table.go:89-117 | Refresh, append or evict the oldest stale entry, as the bucket's value model says |
| `RoutingTable.Bucket.Remove` | pkg/dht/table.go:119-126 | The entry with the id is spliced out |
| `RoutingTable.Oldest` | pkg/dht/table.go:105-110 | The eviction candidate is the first entry of least LastSeen |
| `RoutingTable.Table.Add` | pkg/dht/table.go:154-169 | The table changes in the one bucket of the node's distance; self is refused |
| `RoutingTable.Table.Remove` | pkg/dht/table.go:171-182 | Only the bucket of the id changes |
| `RoutingTable.RunsStayPlaced` | pkg/dht/table.go:154-182 | After any run every stored id sits in the bucket of its distance, at most 20 in each, none twice, never self |
| `RoutingTable.FlatPlaced` | pkg/dht/table.go:154-182 | No id is stored twice anywhere in a placed table |
| `RoutingTable.AddChangesIds` | pkg/dht/table.go:89-117 | After Add exactly the old ids but the evicted one are present, and the new id if accepted |
| `RoutingTable.RemoveChangesIds` | pkg/dht/table.go:119-126 | After Remove exactly the other ids are present |
| `RoutingTable.AddChangesEntries` | pkg/dht/table.go:89-117 | After Add exactly these entries are stored: the old ones of other ids but the evicted one, unchanged, and if accepted the old entry of the id, or else the node given, with nothing but LastSeen changed to now; a refused Add changes nothing |
| `RoutingTable.RemoveChangesEntries` | pkg/dht/table.go:119-126 | After Remove exactly the entries of other ids are stored, unchanged |
| `RoutingTable.EntriesAreAsGiven` | pkg/dht/table.go:89-126 | Over any run from the empty table a stored entry is the node given when its id came in, its LastSeen is the time of the last accepted Add of the id, and the id has been present ever since it came in |
| `RoutingTable.AddRefusesExactly` | pkg/dht/table.go:89-117 | Add refuses a non-self node if and only if its bucket holds 20 other ids all seen within 15 minutes |
| `RoutingTable.BucketCapacity` | pkg/dht/table.go:154-169 | Bucket i holds at most min(20, 2^(159-i)) entries |
| `RoutingTable.LastBucketsNeverEvict` | pkg/dht/table.go:99-116 | Buckets 155-159 never refuse and never evict |
| `RoutingTable.TableCapacity` | pkg/dht/table.go:224-233 | A table never holds more than 3131 nodes |
| `RoutingTable.Table.Count` | pkg/dht/table.go:224-233 | The count is the number of distinct stored nodes, at most 3131 |
| `RoutingTable.EntriesAreRetained` | pkg/dht/table.go:89-117 | With a nondecreasing clock an entry seen at s is present at every moment up to s + 15 minutes unless removed |
| `RoutingTable.AcceptedIsSeen` | pkg/dht/table.go:89-117 | An accepted Add leaves its id in place, freshly seen |
| `RoutingTable.Table.Closest` | pkg/dht/table.go:185-222 | The answer is the min(count, Count()) nearest stored nodes, strictly ascending, every omitted one strictly farther |
| `RoutingTable.NearestIsUnique` | pkg/dht/table.go:185-222 | That answer is a function of the set of stored nodes alone |
| `RoutingTable.SortedPrefixIsNearest` | pkg/dht/table.go:202-214 | Any sorted rearrangement of the stored nodes, cut to count, is that answer |
| `RoutingTable.HigherBucketsFirst` | pkg/dht/table.go:185-222 | For target = self, nodes of a higher-index bucket come before those of a lower-index one |
| `ValueStore.Store.Put` | pkg/dht/store.go:27-39 | The value is stored under the key with its expiry |
| `ValueStore.Store.Get` | pkg/dht/store.go:41-55 | A live value is returned, a missing or expired one is not |
| `ValueStore.Store.Delete` | pkg/dht/store.go:57-61 | The key is removed |
| `ValueStore.Store.Cleanup` | pkg/dht/store.go:63-78 | In whatever order the keys are visited, exactly the expired entries go, and they are counted |
| `ValueStore.GetAnswersTheLog` | pkg/dht/store.go:27-78 | Over any history with a nondecreasing clock Get answers as a never-cleaned log does |
| `ValueStore.GetIsTheLastPut` | pkg/dht/store.go:27-78 | Over such a history Get returns a value if and only if it is the one of the last Put of the key, not deleted since, with its data, signature and ttl, and the time of that Put plus the ttl has not passed |
| `ValueStore.CleanupsAreUnobservable` | pkg/dht/store.go:63-78 | Histories that differ only in Cleanup calls cannot be told apart by Get |
| `ValueStore.RPC.HandleFindValue` | pkg/dht/store.go:150-169 | The reply carries the live value, or else the 20 nodes nearest to the key |
| `ValueStore.RPC.HandleStore` | pkg/dht/store.go:129-137 | The value is stored for 24 hours |
| `RelayQueue.Queue.Push` | pkg/relay/queue.go:41-68 | A full queue refuses; else the stamped packet goes behind everything at least as urgent and before everything less urgent, despite the overlapping shift or regrowth |
| `RelayQueue.Queue.Pop` | pkg/relay/queue.go:70-81 | The head is returned and the window moves on |
| `RelayQueue.Queue.DuplicateAt` | pkg/relay/queue.go:56 | The overlapping append keeps all packets and doubles the one at i |
| `RelayQueue.MoveUp` | pkg/relay/queue.go:56 | The overlapping move within one array loses nothing |
| `RelayQueue.QueueIsFifoPerPriority` | pkg/relay/queue.go:41-81 | Over any history the queue is the concatenation, by priority, of one FIFO per priority, and answers as they do |
| `RelayQueue.QueueConserves` | pkg/relay/queue.go:41-81 | What was accepted is popped or still queued, with multiplicity, and the capacity holds |
| `RelayQueue.ServedByExactPop` | pkg/relay/queue.go:41-81 | A packet with k ahead is returned by exactly the (k+1+u)-th pop, u counting accepted strictly more urgent pushes meanwhile |
| `RelayQueue.ServicePosition` | pkg/relay/queue.go:41-81 | The same for every accepted push of every history from the empty queue, packets told apart by serial numbers; the queue without serial numbers returns that packet there too |
| `RelayQueue.PushedOnce` | pkg/relay/queue.go:41-68 | Just after an accepted push the packet is at its slot and nowhere else, in an ordered queue |
| `RelayQueue.TagsAreInvisible` | pkg/relay/queue.go:41-81 | Tagging the pushes with serial numbers changes no answer |
| `Onion.BoxesExist` | pkg/onion/onion.go:44-59 | The two facts assumed of the sealed box hold of some box for all keys at once, so no theorem about all boxes is empty |
| `Onion.BuildCircuit` | pkg/onion/onion.go:30-59 | Fails exactly on an empty hop list or a failed random draw, and else yields the layered packet |
| `Onion.PeelOneLayer` | pkg/onion/onion.go:62-92 | One peel gives RELAY with the next hop's address and packet, or FINAL with the plaintext at the last hop |
| `Onion.LayerBytes` | pkg/onion/onion.go:36-59 | The layer of a hop is sealed for that hop's key with its own nonce: the byte 1, the 32 bytes of the next hop and the packet for it, at the last hop the byte 0 and the plaintext |
| `Onion.UnwrapExactly` | pkg/onion/onion.go:62-81 | A peel gives a flag and a payload if and only if the packet opens to the flag followed by the payload |
| `Onion.NextHopExactly` | pkg/onion/onion.go:83-92 | A payload gives a next hop and an inner packet if and only if it is the 32 bytes of the one followed by the other |
| `Onion.WalkVisitsAllHops` | pkg/onion/onion.go:30-92 | The packet visits exactly the hops in order and the last one gets the plaintext, for all nonces |
| `Onion.LayeredSize` | pkg/onion/onion.go:94-96 | The packet's size is OnionSize |
| `Onion.RelayRemoves81` | pkg/onion/onion.go:62-92 | Each relay peel of any packet removes exactly 81 bytes |
| `Onion.WalkIsShort` | pkg/onion/onion.go:62-92 | Any packet is forwarded at most len/81 times |
| `ProofOfHistory.Generator.Tick` | pkg/poh/poh.go:27-34 | One hash, one tick |
| `ProofOfHistory.Generator.TickN` | pkg/poh/poh.go:36-45 | n hashes and ticks; none for a negative n |
| `ProofOfHistory.Generator.RecordEvent` | pkg/poh/poh.go:71-94 | The record carries the hash and tick after one more tick, and the signature over both and the data hash |
| `ProofOfHistory.Generator.CreateCheckpoint` | pkg/poh/poh.go:102-111 | The checkpoint carries the present hash and tick |
| `ProofOfHistory.VerifyRecord` | pkg/poh/poh.go:113-139 | The replay loop accepts exactly linked, correctly signed records |
| `ProofOfHistory.VerifyChain` | pkg/poh/poh.go:141-152 | The replay loop accepts exactly linked ends, after exactly end-start hashes |
| `ProofOfHistory.ReplayTerminates` | pkg/poh/poh.go:119-121 | The loop counter, stepped as both verifiers step it, passes the end tick if and only if that is below the largest 64-bit value, and then after end-start rounds |
| `ProofOfHistory.AcceptsExactlyLaterRecords` | pkg/poh/poh.go:71-139 | Over any history below the largest tick, a record is accepted against a checkpoint if and only if it was recorded after the checkpoint was taken and the verifying function takes its signature |
| `ProofOfHistory.EarlierCheckpointsAgree` | pkg/poh/poh.go:113-139 | Any record at all gets the same verdict from any two earlier checkpoints of one chain |
| `ProofOfHistory.TamperedIsRefused` | pkg/poh/poh.go:113-139 | For a signer that signs no two messages alike and the verifier that takes exactly its signatures: any record bearing the signature of a recorded event is accepted against an earlier checkpoint if and only if its tick, tick hash and data hash are those of the event |
| `ProofOfHistory.SignedBytes` | pkg/poh/poh.go:86-90 | The signed bytes are the tick in 8 bytes, the most significant first, the 32 bytes of the tick hash and the 32 bytes of the data hash, so they determine all three |
| `ProofOfHistory.SignersExist` | pkg/poh/poh.go:86-90 | Such a signer and verifier exist |
| `ProofOfHistory.UnsignedIsLinked` | pkg/poh/poh.go:127-135 | Without a verifying function or a signature a record is accepted if and only if the replay from the checkpoint reaches its tick hash |
| `ProofOfHistory.LinkedThroughMidpoint` | pkg/poh/poh.go:141-152 | Chain verification composes across a verified midpoint, both ways |
| `ProofOfHistory.AfterIsAdvance` | pkg/poh/poh.go:27-45 | After any history the hash is the seed hashed once per tick |
| `ProofOfHistory.WrappedRecordIsRefused` | pkg/poh/poh.go:113-116 | At the largest tick the counter wraps and a record made right after a checkpoint is refused, however it is signed and verified |
| `Wire.Marshal` | pkg/protocol/wire.go:42-55 | Fails exactly on payloads over 65535 bytes, and else writes the frame's layout |
| `Wire.Unmarshal` | pkg/protocol/wire.go:57-84 | Reads a frame, or names the short header, bad magic or truncated payload |
| `Wire.ParseLayout` | pkg/protocol/wire.go:42-84 | A frame is recovered from its own bytes whatever follows them |
| `Wire.LayoutBytes` | pkg/protocol/wire.go:42-55 | The bytes of a frame: the magic 52 4d 4e 01, then version, type and payload length in two bytes each, the more significant first, then the payload |
| `Wire.ParseBytes` | pkg/protocol/wire.go:57-84 | Exactly which byte strings are refused, in which order of tests, and what the others are read as, in terms of their bytes |
| `Wire.LayoutOfParsed` | pkg/protocol/wire.go:57-84 | Re-marshalling an accepted input gives back its first 10+length bytes |
| `Wire.PrefixFree` | pkg/protocol/wire.go:42-55 | No marshalled frame is a proper prefix of another |
| `Wire.StreamRoundTrip` | pkg/protocol/wire.go:42-84 | Repeated unmarshalling of concatenated frames recovers exactly the list |
| `Wire.ReadAllLosesNothing` | pkg/protocol/wire.go:57-84 | Of any byte string, the frames read and the leftover put together are the string |

## Left out

- `findPath` and `HasConnection` as algorithms: any path from sender to receiver and any connection relation is allowed.
- Radio physics of `simulation/radio.go`: the spreading factor, airtime and per-hop delay are arguments, and only the distance test of the collision scan is modelled.
- Status changes, send scheduling and the random choice of targets in `RunSteps`: the histories allow any order of steps, sends and transfers, so they cover every schedule.
- The per-node counters of sending, and the totals `TotalRELAY`, `TotalBurn`, `TotalEmission` and `TotalRelayed`, which nothing reads back.
- `RightLosses.SafeToSendExactly`: the continuations, and those of `SafeReuse.MarksSafeExactly`, run under one configuration; changing the LoRa range between steps is not covered by these theorems, while `Attribution.CleanStepsLoseOwn` allows it.
- `MeshNode.Node.Tick`: the decay factor exp(-SecondsPerTick ln 2 / 604800) is any number from 0 to 1.
- `RoutingTable.Bucket.Add`: routing entries are values, so the sharing of one `*Node` between two tables and the time stamp left on a refused node are not captured; the nodes slice is a sequence field.
- `RelayQueue.Queue.Push`: packets are values, so a `*Packet` pushed twice is stamped in each slot separately; a full backing array grows to twice its length plus one, whatever the Go runtime would choose.
- Locks: every public operation is one atomic action. The generator's start time is dropped.
- `HopTracker`, `HandlePing`, `HandleFindNode`, `GiniReputation`, `TotalSupply`, `CountByBalance` and the helpers of `pkg/economy`: they would only add easy members.
- `pkg/crypto`, `pkg/identity`, `pkg/transport`, the commands, the HTTP handlers, the export, the parameter sweep and the user interface.
- Floating-point rounding, `int64` overflow of the counters, and overflow in adding a duration to a time.
