# mcelog: the long-lived state of the daemon, verified

mcelog decodes machine checks; as a daemon it keeps state about corrected memory errors for
months. This project models that state and the data structures under it, and proves what
they keep over every run. `dafny verify dfyconfig.toml` checks everything.

| file | models |
|---|---|
| `RbShape.dfy`, `RbRepair.dfy`, `RbTree.dfy`, `RbWord.dfy`, `Powers.dfy` | the red-black tree (`rbtree.c`, `rbtree.h`) |
| `LinkedList.dfy` | the circular lists of `list.h` |
| `LeakyBucket.dfy` | the leaky bucket (`leaky-bucket.c`) |
| `PageModel.dfy`, `PageReports.dfy`, `PageBackoff.dfy`, `PageTracker.dfy` | the per-page error tracker (`page.c`) |
| `MemDb.dfy`, `MemReports.dfy` | the DIMM and socket database and its triggers (`memdb.c`) |
| `Trigger.dfy` | trigger children and SIGCHLD (`trigger.c`) |
| `ConfigLines.dfy`, `ConfigFile.dfy` | configuration parser and lookup (`config.c`) |
| `Smbios.dfy` | the SMBIOS structure walk (`dmi.c`) |
| `CpuMap.dfy` | CPU map parser and lister (`cache.c`, `yellow.c`) |
| `Client.dfy`, `PollRound.dfy`, `PollRounds.dfy`, `PollHangup.dfy`, `PollCalls.dfy`, `EventLoop.dfy` | client connections on the poll tables (`server.c`, `eventloop.c`) |
| `Wrappers.dfy`, `Sequences.dfy` | `Option` and sequence facts, shared by the others |

**How the tree is proved.** `RbRoot` holds the cells of the nodes in an address-indexed
store and follows the loops and case splits of the C code. Its ghost field `shape` is the
tree that the cells represent; `Laid` ties every child and parent link to it. A position
in the tree is a zipper: a subtree `t` and the path `p` from it to the root, with
`Plug(p, t)` the whole tree. `RedFocus(p, t)` is the invariant of the insertion loop (a
tree that is valid except that the red node in focus may have a red parent), `Short(p, t)`
that of the removal loop (the subtree in focus is one black node short). Each case of the
two loops is one lemma of `RbRepair` about shapes and one short method about cells.

**How the page tracker is proved.** `PageModel.Step` is the tracker on a plain sequence of
counters, found by linear scan; `StepOutcome` and `StepActions` are what a step decides and
what it makes visible: reports, triggers, kernel requests. `PageTracker.Tracker` is the
tracker as it is stored, with clusters, tree and recency list. `AccountAll` shows that it
goes through the same states with the same outcomes and actions, so what is proved about
runs of the simple machine, `PageBackoff` included, holds for the stored one. `PageReports`
says what a run makes visible, read off the errors and the visible actions alone.

**How the event loop is proved.** `PollTable.called` records every call of a callback with the
flags and the results of system calls that it met. `SessionOf` is the state of a connection as
those calls make it, by `Client.AfterEvent`; `Remembered` says that every connection there has
been, closed ones included, is in that state. `RoundMade` and `TurnMade` tie the tables before
and after a round to the calls made in it, `Running` those of a whole run to its turns.

## Where the code departs from its intent

The model follows the code; these are theorems, not omissions.

- `page.c:330` adds a cluster to the recency list for every slot handed out, not once per
  cluster. The second addition makes the first cluster point to itself (`AddedTwice`), and
  from then on the back link of the list head stays there (`HeadStaysOnFirst`). So the k-th
  replacement always takes slot (k - 1) mod N of the first cluster, and pages in later
  clusters are never evicted (`LaterClustersKept`). Had each cluster been linked once, the
  cluster picked would be the least recently touched one (`LastIsLeastRecent`).
- The offline multiplier is an `unsigned char` (`page.c:53`) and wraps to 0 with the 8th
  failed attempt; then every error is another attempt until one succeeds
  (`EveryErrorAfterEighth`). The threshold is an `unsigned` product and wraps earlier for
  large capacities: `ScheduleExactly` says for which, `EarlyAttempt` what happens then.
- `parse_rate` multiplies in `unsigned`, so accepted rates can have no ageing period or no
  capacity (`ParseRateZero`, `AcceptedWithoutPeriod`). Without a period the count never
  ages (`NoPeriodNeverAges`).
- `--max-corr-err-counters` is any `int`. 0, a negative number and INT_MAX leave a maximum
  that is not positive; then the first error enters `mempage_replace` while no cluster
  exists (`ReplacementAlwaysDefined`, `RoundUpExactly`).
- `dmi_getstring` returns a pointer, not null, for string 1 of a structure without strings
  (`GetString`), and `check_entry` reads the header of a structure before it knows that the
  table goes that far (`CheckEntry`).
- `bucket_age` computes its age in `double` and converts it to `unsigned`. After a long
  enough gap the conversion can lose the age and a count survives (`WrappedAgeLeaks`);
  `AgeingEmpties` states when ageing empties the bucket, and `RunIsWindowRun` exactly which
  runs behave as a fixed-window counter.
- `child_handler` passes `si_pid` to `finish_child` although `waitpid` may have returned 0,
  and then drains. A SIGCHLD of a child that was already drained can stay pending
  (`StaleSignal`). If the kernel reuses that pid, the handler can drop a child that still
  runs, and `abort()` can follow (`ReusedPidAborts`). `ChildrenKnownExactly` says when the
  list stays right, `AbortExactly` when `abort()` is reached. If another child exits
  meanwhile, its exit is not announced any more (`LostSignal`); `ExitsAnnouncedExactly`
  gives the exact condition for that.
- A callback that unregisters itself moves the next entry under the loop index of
  `poll_callbacks`, so that entry is passed over in this round. `Done` says exactly which
  ones; `NoStarvation` bounds how often it can happen.
- `unregister_pollcb` leaves flags in the slot that becomes free, `ppoll` does not reach it
  and `register_pollcb` keeps them. A connection accepted in a round in which a ready entry
  is passed over can be called for flags of an earlier client, and be closed for its
  hang-up (`InheritedHangup`). `Done` says exactly when a new connection is called, and
  `NewcomerTakesPlace` that it takes a passed-over entry's place. No client assertion fails
  even then (`Callback`).

## Model

| member | source | states |
|---|---|---|
| `RbShape.PlugLaid` | rbtree.h:104-112 | a whole tree is laid out in memory exactly if the subtree in focus and the path above it are, with disjoint nodes and matching links |
| `RbShape.PlugBalanced` | rbtree.c:72-135 | equal black height of the whole tree holds exactly if every sibling on the path has the height that the focus requires |
| `RbShape.PlugNoRedRed` | rbtree.c:72-135 | a black root and no red node with a red child, read at any position of the tree |
| `RbShape.RotateInorder` | rbtree.c:26-70 | a rotation keeps the in-order sequence and the nodes |
| `RbShape.RotateLaid` | rbtree.c:26-70 | the cells that a rotation writes represent the rotated tree, parent links included |
| `RbShape.SpliceLaid` | rbtree.c:264-277 | the cells written when a node is replaced by its only child represent the tree without it |
| `RbShape.ReplaceLaid` | rbtree.c:363-383 | the cells written when a node takes another one's place represent the tree with the name exchanged |
| `RbShape.BlackHeightSize` | rbtree.c:72-135 | a tree of black height h has at least 2^h - 1 nodes |
| `RbWord.SetParent` | rbtree.h:126-129 | on any packed word, setting an aligned parent is read back and leaves the colour |
| `RbWord.SetColor` | rbtree.h:130-133 | on any packed word, setting the colour is read back and leaves the parent |
| `RbWord.SetRedSetBlack` | rbtree.h:123-124 | the two macros are rb_set_color with a fixed colour |
| `RbWord.LinkedWord` | rbtree.h:155-163 | the bare parent pointer stored for a new node reads as red with that parent |
| `RbRepair.FlipColorsKeeps` | rbtree.c:82-92 | red uncle: recolouring moves the only possible violation two levels up |
| `RbRepair.InnerRotated` | rbtree.c:94-101 | inner grandchild: after the rotation the old parent is the red node in focus |
| `RbRepair.OuterRotated` | rbtree.c:103-105 | outer grandchild: recolouring and rotating leaves a black node above the focus |
| `RbRepair.SiblingExists` | rbtree.c:142-147 | in the removal loop the sibling is never null |
| `RbRepair.RedSibling` | rbtree.c:146-153 | red sibling: one rotation gives an equivalent position with a black sibling |
| `RbRepair.BlackNephews` | rbtree.c:154-160 | black nephews: reddening the sibling moves the shortage up |
| `RbRepair.NearNephew` | rbtree.c:163-169 | red near nephew: one rotation makes the far nephew red |
| `RbRepair.FarNephew` | rbtree.c:170-175 | red far nephew: one rotation restores all red-black invariants |
| `RbRepair.RemoveOne` | rbtree.c:222-282 | taking out a node with at most one child leaves a valid tree if it was red, and one short subtree if it was black |
| `RbRepair.RemoveSuccessor` | rbtree.c:226-263 | the same when the in-order successor takes the place of a node with two children |
| `RbRepair.RemoveSuccessorInorder` | rbtree.c:226-263 | and the in-order sequence is the old one without the node |
| `RbTree.RbRoot.RotateLeft` | rbtree.c:26-47 | the cells represent the left-rotated tree; only its nodes change |
| `RbTree.RbRoot.RotateRight` | rbtree.c:49-70 | the cells represent the right-rotated tree; only its nodes change |
| `RbTree.RbRoot.InsertColor` | rbtree.c:72-135 | terminates and restores every red-black invariant from a red leaf, keeping the in-order sequence and the node set |
| `RbTree.RbRoot.RepairLeft` | rbtree.c:144-177 | one round of the removal loop at a left child keeps its invariant and lowers its measure |
| `RbTree.RbRoot.RepairRight` | rbtree.c:178-211 | one round of the removal loop at a right child keeps its invariant and lowers its measure |
| `RbTree.RbRoot.EraseColor` | rbtree.c:137-215 | terminates and restores every red-black invariant from one short subtree, keeping the in-order sequence |
| `RbTree.RbRoot.ReplaceBySuccessor` | rbtree.c:226-263 | removal of a node with two children, up to rebalancing |
| `RbTree.RbRoot.Erase` | rbtree.c:217-282 | from any valid red-black tree and any of its nodes: a valid red-black tree whose in-order sequence is the old one minus that node; no cell outside the tree changes |
| `RbTree.RbRoot.LinkNode` | rbtree.h:155-163 | the node hangs as a red leaf at the given link |
| `RbTree.RbRoot.LinkAndColor` | page.c:161-162 | linking at a position and recolouring gives a valid red-black tree with the node at that place of the in-order sequence |
| `RbTree.RbRoot.ReplaceNode` | rbtree.c:363-383 | the new node takes the victim's place in the sequence; the invariants are kept |
| `RbTree.RbRoot.First` | rbtree.c:287-297 | the first node of the in-order sequence, or null |
| `RbTree.RbRoot.Last` | rbtree.c:299-309 | the last node of the in-order sequence, or null |
| `RbTree.RbRoot.Next` | rbtree.c:311-337 | the in-order successor, or null after the last |
| `RbTree.RbRoot.Prev` | rbtree.c:339-361 | the in-order predecessor, or null before the first |
| `RbTree.RbRoot.NextThenPrev` | rbtree.c:311-361 | rb_prev undoes rb_next, which is null exactly for the last node |
| `RbTree.RbRoot.Walk` | page.c:417-417 | from rb_first by rb_next: every node once, in order, then null |
| `LinkedList.ListMemory.ListAddBetween` | list.h:45-53 | the four stores of __list_add, also when the new entry is one of its neighbours |
| `LinkedList.ListMemory.ListAdd` | list.h:63-66 | insertion after the head |
| `LinkedList.ListMemory.ListAddTail` | list.h:77-80 | insertion before the head |
| `LinkedList.ListMemory.ListDel` | list.h:89-100 | unlinking, with poisoned links |
| `LinkedList.AddBetweenInserts` | list.h:45-53 | on a list with elements a + b it gives the list a + [x] + b |
| `LinkedList.AddIsPush` | list.h:63-66 | list_add of a new entry puts it in front |
| `LinkedList.AddTailIsAppend` | list.h:77-80 | list_add_tail of a new entry puts it at the end |
| `LinkedList.DelRemoves` | list.h:95-100 | list_del takes one entry out and keeps the order of the others |
| `LinkedList.UpdateIsMoveToFront` | page.c:186-193 | list_del and list_add move an entry to the front |
| `LinkedList.UpdatesKeepRecency` | page.c:181-193 | after any run of insertions and touches of a list that is used properly, the links are the list of entries by recency |
| `LinkedList.LastIsLeastRecent` | page.c:108-112 | and the entry before the head is the least recently touched one |
| `LinkedList.AddedTwice` | page.c:330-330 | the second list_add of the only entry makes it point to itself and sticks the list |
| `LinkedList.AddKeepsStuck` | page.c:330-330 | a stuck list stays stuck when a listed entry is added again |
| `LinkedList.AddNewKeepsStuck` | page.c:330-330 | and when a new entry is added |
| `LinkedList.UpdateKeepsStuck` | page.c:186-193 | and when an entry is moved to the front |
| `LeakyBucket.Cell.Age` | leaky-bucket.c:29-44 | ageing in place, as the function Aged, for every configuration |
| `LeakyBucket.ExactAgeIs` | leaky-bucket.c:29-44 | the exact age is diff * capacity * multiplier / period in whole numbers |
| `LeakyBucket.Cell.Account` | leaky-bucket.c:46-60 | accounting in place, as the function Accounted, for every configuration |
| `LeakyBucket.NoCapacity` | leaky-bucket.c:46-60 | with capacity 0 nothing is counted and nothing overflows |
| `LeakyBucket.CapacityReached` | leaky-bucket.c:46-60 | with a positive one a charge of the whole capacity overflows |
| `LeakyBucket.ExactAgeCovers` | leaky-bucket.c:35-40 | once a whole period has passed, the age is at least capacity times multiplier |
| `LeakyBucket.RoundedAgeCovers` | leaky-bucket.c:35-40 | the same for any rounding of the quotient and the products that does not cross integers |
| `LeakyBucket.ConfCovers` | leaky-bucket.c:29-44 | without wrap-around in the conversion the converted age covers the threshold |
| `LeakyBucket.AgeingEmpties` | leaky-bucket.c:29-44 | ageing leaves 0 if and only if the converted age is at least the count; it does whenever the age covers |
| `LeakyBucket.WrappedAgeLeaks` | leaky-bucket.c:35-40 | an input for which the conversion loses the age and the count survives |
| `LeakyBucket.HugeAgeLost` | leaky-bucket.c:29-44 | an age that 63 bits do not hold ages nothing |
| `LeakyBucket.ChargeIsWindowStep` | leaky-bucket.c:46-60 | one call is one step of a fixed-window counter if and only if the sum fits 32 bits and, after a period, the converted age uses up the old count or the charge overflows on its own |
| `LeakyBucket.RunIsWindowRun` | leaky-bucket.c:46-60 | a run of calls of any length shows the same windows and reports as the fixed-window counter if and only if each call fits when it is made |
| `LeakyBucket.AlwaysBelow` | leaky-bucket.c:46-60 | after every call of every run the count is 0 or below the threshold, with no condition on configuration, times or increments |
| `LeakyBucket.BucketIsWindowCounter` | leaky-bucket.c:29-60 | for every configuration and multiplier, from bucket_init on and over runs of any length: the bucket is the fixed-window counter if and only if the counter's own steps satisfy a condition on gaps and counts |
| `LeakyBucket.AgesFitSuffices` | leaky-bucket.c:29-60 | which they do if no age at the end of a window and no count leaves 32 bits |
| `LeakyBucket.ParseRateZero` | leaky-bucket.c:104-140 | of an accepted rate, the period is 0 exactly for times that are multiples of 2^25 days, 2^28 hours or 2^30 minutes, and the capacity exactly for multiples of 2^23 g, 2^26 m or 2^29 k |
| `LeakyBucket.RateAccepted` | leaky-bucket.c:104-140 | accepted exactly if both numbers are positive and both units known |
| `LeakyBucket.PlainRate` | leaky-bucket.c:104-140 | numbers without a unit are the capacity and the seconds themselves |
| `LeakyBucket.TimeUnits` | leaky-bucket.c:68-85 | a day parses as 24 hours, an hour as 60 minutes, a minute as 60 seconds, for all numbers, wrapped ones included |
| `LeakyBucket.CapacityUnits` | leaky-bucket.c:124-132 | g, m and k are steps of 1000, wrapped products included |
| `LeakyBucket.AcceptedWithoutPeriod` | leaky-bucket.c:132-136 | "10 / 33554432d" is accepted and has period 0 |
| `LeakyBucket.NoPeriodNeverAges` | leaky-bucket.c:33-42 | with period 0 a call moves the time stamp and clears the excess, and the count never ages |
| `LeakyBucket.UnitRun` | leaky-bucket.c:46-60 | n unit charges in one window from count c: exactly (c + n) / T overflows, and (c + n) mod T remain |
| `LeakyBucket.ChargesConserved` | leaky-bucket.c:46-60 | within one window count + excess grows by exactly the sum of the increments, mod 2^32 |
| `LeakyBucket.LimitsAccount` | leaky-bucket.c:46-60 | the accounting that the page tracker and the database use is that of __bucket_account |
| `PageModel.RoundUpExactly` | page.c:467-468 | for every int: the rounded maximum is positive if and only if the option is from 1 to INT_MAX - 1, and then the least multiple of N not below it |
| `PageModel.ReplacementAlwaysDefined` | page.c:104-121 | with tracking on, replacement finds a slot in use in every run if and only if the option is from 1 to INT_MAX - 1 |
| `PageModel.StepBounded` | page.c:293-408 | each step keeps a map of distinct page-aligned addresses, not larger than the maximum |
| `PageModel.RunBounded` | page.c:293-408 | the same over every run |
| `PageModel.OneCounterChanges` | page.c:323-354 | a known page changes only its counter; a new one adds one counter, or when full evicts exactly one page and leaves all others |
| `PageModel.LaterClustersKept` | page.c:104-121 | pages outside the first cluster keep their slots for the rest of every run |
| `PageModel.RunIsLives` | page.c:323-359 | in every run each counter belongs to a page that had none before some error, and is the result of all accepted errors on that page from that error on |
| `PageModel.LifeHeld` | page.c:323-359 | and its slot has held that counter, and no other, ever since |
| `PageModel.OutcomeInRun` | page.c:355-406 | what an accepted error of a run does is what the last of the errors on its counter does |
| `PageModel.QuietAfterOfflining` | page.c:354-406 | after a successful offline request, or without retry after any, there is no further report or request |
| `PageModel.OfflinedPagesStayQuiet` | page.c:240-251 | the same for every counter in every run, until it is replaced |
| `PageModel.OfflinedPageIsSilent` | page.c:355-406 | read off the run: after such a request, errors on the page cause no trigger, report or kernel request as long as it keeps a counter |
| `PageReports.VisibleExactly` | page.c:293-408 | over every run: a page is reported exactly for those counted errors that overflow the bucket charged with one for each error since the page got its counter, while it is not settled by offlining as the visible requests and the kernel's answers say; pre and post triggers surround the requests exactly in the two soft modes; a hard request exactly in mode hard or after a refused soft one; replacements are reported exactly when their own bucket overflows |
| `PageReports.CounterWatched` | page.c:293-408 | in every run a counter's bucket, count, multiplier and state are those of all errors since the page got it and of the kernel's visible answers |
| `PageReports.IgnoredErrors` | page.c:293-323 | all other errors change nothing and make nothing visible |
| `PageReports.RunActionsNext` | page.c:293-408 | the actions of a run are those of its errors in order |
| `PageModel.MultiplierIsPower` | page.c:240-251 | with retry the multiplier is 2^f mod 256 after f failures, without it 1 |
| `PageModel.MultiplierInEveryRun` | page.c:240-251 | both for every counter in every run |
| `PageBackoff.BackoffRun` | page.c:354-406 | the exact counter state after any number of errors in one window with every request refused |
| `PageBackoff.ScheduleExactly` | page.c:240-251 | in that case attempts 1 to k, for k up to 8, fall on the errors number capacity * (2^j - 1) if and only if capacity * 2^(k-1) fits an unsigned |
| `PageBackoff.BackoffSchedule` | page.c:354-406 | the same direction for runs of any length: no error before the k-th attempt is off schedule |
| `PageBackoff.EarlyAttempt` | page.c:359-359 | when the threshold wraps, the next attempt comes after as many errors as its low 32 bits say |
| `PageBackoff.EighthThresholdWraps` | page.c:359-359 | capacity 2^25: the eighth threshold becomes 0 |
| `PageBackoff.EveryErrorAfterEighth` | page.c:240-251 | with retry, once eight attempts on a counter have failed, every further error is an attempt until one succeeds, whatever the bucket, the times and the kernel answers |
| `PageBackoff.BackoffInRun` | page.c:354-406 | the schedule for the outcomes of any run of the tracker |
| `PageBackoff.AttemptNumbers` | page.c:354-406 | error number capacity * (2^k - 1) is the k-th attempt if capacity * 2^(k-1) fits an unsigned |
| `PageTracker.SearchDepth` | page.c:123-138 | any position of a red-black tree with n nodes is at depth d with 2^((d + 1) / 2) <= n + 1 |
| `PageTracker.SlotAligned` | page.c:49-66 | the node of every slot is aligned to four bytes |
| `PageTracker.Tracker.Lookup` | page.c:123-138 | finds the node with the address or shows that there is none, in at most 2 log2(n + 1) steps |
| `PageTracker.Tracker.InsertLookup` | page.c:143-164 | inserts at the sorted place, keeping a red-black search tree, unless the address is there |
| `PageTracker.Tracker.Alloc` | page.c:93-102 | the next slot, never one in use, in a new cluster when the current one is full |
| `PageTracker.Tracker.Replace` | page.c:104-121 | the slot reused by the k-th replacement is slot (k - 1) mod N of the first cluster, and it is in the tree |
| `PageTracker.ReplaceSlotGood` | page.c:108-114 | why: the maximum is a positive multiple of N, so all clusters are full when replacement starts |
| `PageTracker.Tracker.UpdateTree` | page.c:175-179 | rb_erase and re-insertion under the new address keep the node set and the search tree |
| `PageTracker.Tracker.LruUpdate` | page.c:186-193 | the recency list after an update, still stuck on the first cluster |
| `PageTracker.ListAfterAlloc` | page.c:330-330 | the recency list after each slot that is handed out |
| `PageTracker.Tracker.HeadStaysOnFirst` | page.c:181-193 | from the second tracked page on the head's back link is the first cluster, and every link leads to the head or to a cluster |
| `PageTracker.Outside.MemoryOffline` | page.c:222-238 | the kernel requests made, in order, and their result |
| `PageTracker.Tracker.OfflinePage` | page.c:240-252 | only the state and the multiplier of this counter change, and exactly the requests of the mode are made |
| `PageTracker.Tracker.Charge` | page.c:354-406 | counter, outcome, and the triggers, reports and kernel requests, all as Touch and Actions say |
| `PageTracker.Tracker.AccountPageError` | page.c:293-408 | on every event the stored tracker takes the same step as the simple one, with the same outcome and exactly the same actions outside; the tree holds exactly the slots handed out |
| `PageTracker.Tracker.AccountAll` | page.c:293-408 | the same for every sequence of events: state, outcomes, actions; no cluster is ever given up, so the first one stays |
| `PageTracker.Tracker.DumpPages` | page.c:410-433 | each tracked page once, ascending by address |
| `MemDb.DimmHash` | memdb.c:69-78 | a bucket below 17 |
| `MemDb.DimmHashValue` | memdb.c:69-78 | the value for one key |
| `MemDb.PutIsMapUpdate` | memdb.c:80-105 | the chained table obeys the laws of a map: exactly one key changes, and every entry stays in the chain of its hash |
| `MemDb.Database.GetMemdimm` | memdb.c:80-105 | finds or inserts; without insert nothing changes and null is returned exactly for a missing key |
| `MemDb.Database.AccountDimm` | memdb.c:250-253 | one located error on its DIMM entry, all other entries unchanged |
| `MemDb.Database.AccountSocket` | memdb.c:255-259 | one error and those lost before it on the socket entry |
| `MemDb.Database.MemoryError` | memdb.c:236-260 | memory_error as ErrorStep on the map; the triggers run, in order, are ErrorReports |
| `MemReports.ReportsExactly` | memdb.c:194-260 | over every run each count of each entry has one leaky bucket, made with the entry and charged with exactly the errors of that count; the triggers run are exactly the charges that overflow it |
| `MemReports.DimmCharges` | memdb.c:213-253 | the charges to a count of a DIMM are one for each error of that kind with its socket, channel and DIMM number, at its time |
| `MemReports.ReportContents` | memdb.c:194-230 | what each trigger is told: the entry, how many errors, and the time, or none for lost errors |
| `MemReports.TriggersAreWindowOverflows` | memdb.c:194-260 | for an entry made in the run, as many triggers as a counter that restarts with each window overflows, as long as 32 bits suffice for it |
| `MemDb.RunCounts` | memdb.c:194-260 | over every run each count of each entry is the sum of the shares of the errors |
| `MemDb.DimmCountsExactly` | memdb.c:194-253 | from an empty table: the entry of socket s, channel c, DIMM d is there exactly if an error had these three numbers, and its counts are the numbers of corrected and uncorrected ones |
| `MemDb.SocketConserved` | memdb.c:194-260 | a socket entry's ce + uc is the sum of max(1, corr_err_cnt) over that socket's errors |
| `MemDb.DimmsConserved` | memdb.c:213-260 | the DIMM entries of a socket sum to the number of its errors with a known location |
| `MemDb.StoredCounts` | memdb.c:194-230 | over every run the stored unsigned counts of each entry are the low 32 bits of the sums of the shares |
| `MemDb.Database.Collect` | memdb.c:334-343 | the array of md_numdimms entries is filled exactly with the entries of all chains |
| `MemDb.FlattenIsMap` | memdb.c:334-343 | which are every entry of the map once and nothing else |
| `Trigger.ChildTable.AddChild` | trigger.c:46-61 | the child is appended to the list and counted; the address of a freed child may come again |
| `Trigger.ChildTable.FinishChild` | trigger.c:97-118 | removes the child; abort() is reached exactly if it is not listed |
| `Trigger.ChildrenKnownExactly` | trigger.c:46-136 | in every interleaving of fork, exit, coalesced SIGCHLD and drain: num_children is the list length, at most a positive children_max, the list holds exactly the children not waited for and abort() is not reached, throughout, if and only if the handler is never entered for a child that still runs |
| `Trigger.AbortExactly` | trigger.c:97-136 | in every interleaving: abort() is reached if and only if the handler has dropped a child that still ran and the same pid is finished later |
| `Trigger.RunTriggerStep` | trigger.c:44-82 | the stored list grows by the new child exactly if the fork succeeds and there is no maximum or fewer children are counted; as the step says |
| `Trigger.StartsExactly` | trigger.c:77-82 | the same after every run |
| `Trigger.MaximumReached` | trigger.c:77-82 | for every positive maximum a run reaches it, and then no further trigger starts |
| `Trigger.FinishStep` | trigger.c:97-136 | so they do for each call of finish_child, abort() included |
| `Trigger.ChildrenAlwaysKnown` | trigger.c:64-165 | so it holds in every interleaving in which no pid is reused while a SIGCHLD names it |
| `Trigger.ExitsAnnouncedExactly` | trigger.c:121-136 | in every interleaving: each exit stays announced until it is reaped if and only if the handler is never entered for a pid without a child while another child waits |
| `Trigger.StaleSignal` | trigger.c:121-136 | an interleaving that leaves a SIGCHLD pending for a child already waited for |
| `Trigger.ReusedPidAborts` | trigger.c:121-136 | if that pid is then reused, abort() is reached |
| `Trigger.LostSignal` | trigger.c:121-136 | an interleaving in which an exit is not announced any more |
| `ConfigFile.Hash` | config.c:63-70 | the bucket of a name |
| `ConfigFile.StrStrip` | config.c:117-129 | the text without leading and trailing white space |
| `ConfigFile.BucketLookup` | config.c:188-204 | the first match in the bucket of a name is the first match in file order |
| `ConfigFile.Database.NewHeader` | config.c:72-81 | a new section at the end, even if one of that name exists |
| `ConfigFile.Database.AddOption` | config.c:166-177 | the option is appended to the last section in file order |
| `ConfigFile.Database.ParseConfigFile` | config.c:131-186 | the sections are those that the lines describe by the grammar of the file, and it fails exactly if some line is bad |
| `ConfigLines.LineMeans` | config.c:150-182 | a line is a section, an option, blank or bad exactly as its text says: `name = val` and `[name]` with any white space around the parts and a comment behind |
| `ConfigLines.LineAdds` | config.c:158-182 | an option line makes (name, value) the last option of the last section, a section line adds an empty section, a blank one nothing |
| `ConfigLines.FileSaysOnce` | config.c:131-186 | a file describes its sections in one way only |
| `ConfigLines.StripParts` | config.c:117-129 | what is left has no white space at its ends, and what was taken is white space |
| `ConfigFile.Database.ConfigString` | config.c:188-204 | hashed lookup is the linear scan for the first (section, name) match over repeated headers, with one fallback to the global section |
| `ConfigFile.LinearAt` | config.c:188-204 | the value found is that of the first option of that name in the sections of that name, and none is found exactly if there is none |
| `ConfigFile.LookupFinds` | config.c:188-204 | the first option in the section, without one there the first in the global section, and otherwise nothing |
| `Smbios.CheckEntry` | dmi.c:84-111 | accepts exactly the structures whose string set ends inside the table, and gives its end; it reads only inside the table if and only if the length byte is inside |
| `Smbios.EntryBounds` | dmi.c:84-111 | an accepted structure takes at least length + 2 bytes and ends inside the table |
| `Smbios.NextIsBehindDoubleZero` | dmi.c:84-111 | a structure is accepted exactly if two zero bytes in a row follow its formatted part inside the table, and ends behind the first such pair |
| `Smbios.GetString` | dmi.c:114-127 | on an accepted structure reads only its string set and returns string n, an empty one for 0, or null, if and only if this is not string 1 of a structure without strings, which gives an empty text |
| `Smbios.StringsExactly` | dmi.c:113-130 | strings start at the start of the set and behind each zero byte in it but the last two |
| `Smbios.EmptySetScan` | dmi.c:114-127 | a structure without strings has none, though the scan starts in its set |
| `Smbios.WalkDisjoint` | dmi.c:508-510 | the structures of a walk are disjoint, ascending and inside the table |
| `Smbios.Collect` | dmi.c:499-530 | the array gets exactly the wanted structures of the walk in order, and a null after them; it reads only inside the table if and only if the header of each structure looked at is inside |
| `Smbios.KeptExactly` | dmi.c:498-529 | kept are exactly the structures of the walk with the type, the minimum length and, for memory devices, a 16-bit size that is not 0, in order |
| `Smbios.WalkReachesEnd` | dmi.c:508-510 | a table whose walk looks at a structure behind its end |
| `CpuMap.CpumapLen` | cache.c:64-76 | the length for any text |
| `CpuMap.LengthOfGroups` | cache.c:64-76 | for hex digits and commas it is the rounded size of all groups |
| `CpuMap.OneWordPerGroup` | cache.c:64-76 | which is one word per group of 1 to 8 digits |
| `CpuMap.ParseCpumap` | cache.c:78-97 | the words are those of the groups in reverse; the assertion holds exactly if the length is that of the words written |
| `CpuMap.ReadCpuMap` | cache.c:99-112 | buffer length, words written and computed length agree, so the assertion holds |
| `CpuMap.HexBits` | cache.c:91-91 | bit i of the value of a group is bit i mod 4 of its digit i / 4 from the right |
| `CpuMap.BitIs` | yellow.c:41-59 | bit i counts 2^i |
| `CpuMap.WordExactly` | cache.c:78-95 | a group of more than eight digits keeps its last eight, or is all ones if more than 64 bits are needed |
| `CpuMap.DigitValues` | cache.c:60-95 | the digits in order, in either case, have the values 0 to 15, and no other character is one |
| `CpuMap.BitIsCpu` | yellow.c:31-32 | test_bit on the parsed words is membership of CPU i in the text |
| `CpuMap.Cpulist` | yellow.c:41-59 | the text lists the set bits, separated by single blanks |
| `CpuMap.DecimalReads` | yellow.c:41-59 | each number is printed in decimal digits without leading zeros that stand for it |
| `CpuMap.BelowLists` | yellow.c:51-56 | ascending, and exactly the set ones |
| `CpuMap.ListSharedCpus` | yellow.c:41-59 | from the text of the map to the list of the CPUs that its digits name |
| `CpuMap.CpusOfMeaning` | cache.c:78-97 | these are ascending and exactly the CPUs in the map |
| `Client.Connection.Output` | server.c:213-226 | the bytes taken by send move from pending to delivered; a finished answer is freed |
| `Client.Connection.AccessCheck` | server.c:145-168 | root, the configured user and the configured group are accepted, others denied with a notice, and peers without credentials without one |
| `Client.Connection.ClientInput` | server.c:171-200 | its assertion holds; success exactly if nothing was there or all was read from a permitted peer; the notice exactly if the peer was denied |
| `Client.Connection.ProcessCmd` | server.c:130-142 | its assertion holds; the answer becomes the pending output |
| `Client.Connection.ClientEvent` | server.c:203-242 | delivered plus pending bytes are exactly the answers in order, delivered always a prefix of them; nothing else is sent but the notice to a denied client, after all answers; fails exactly on an error flag, failed send or failed input |
| `PollRound.RoundIsDone` | eventloop.c:85-97 | a round runs each entry at most once and in order; one from before the round exactly if it was ready and not behind an entry that closed; one made in the round exactly if moreover the slot it was given had flags and fewer callbacks had run than poll counted |
| `PollRounds.NewcomerTakesPlace` | eventloop.c:85-97 | an entry made in the round runs in it only in place of a ready one that was passed over |
| `PollHangup.InheritedHangup` | eventloop.c:85-97 | a round in which a new connection is called and closed for flags that are not its own |
| `PollRounds.PassedOverMovesUp` | eventloop.c:85-97 | a ready entry that was passed over has moved towards the front |
| `PollRounds.NoStarvation` | eventloop.c:85-97 | over any number of rounds, an entry not run yet is still there and was passed over at most as often as it had entries in front of it |
| `EventLoop.PollTable.Register` | eventloop.c:53-71 | appends to both tables, or fails when full; the new entry has the flags left in its slot |
| `EventLoop.PollTable.Unregister` | eventloop.c:74-83 | both tables without the entry, in the old order; the slot that becomes free keeps its flags |
| `EventLoop.PollTable.ClientEntry` | server.c:203-242 | the connection takes the step AfterEvent; the entry asks for output exactly while an answer is pending, and is removed exactly if send or input fails or the flags in its slot, its own or inherited, hold an error |
| `EventLoop.PollTable.AcceptEntry` | server.c:245-273 | a new connection without history is registered exactly if every call succeeds and the table has room; its entry inherits the flags of the slot |
| `EventLoop.PollTable.Callback` | eventloop.c:92-94 | one more call is recorded, of the registration at k with its flags; its effect is that of the call after those before it, and every other connection is left alone |
| `PollCalls.SessionOfGrows` | server.c:203-242 | no sequence of calls takes back an answer or a delivered byte of any connection |
| `PollCalls.ClosedExactly` | eventloop.c:85-97 | a registration leaves the tables in a round exactly if its own call has an error flag, a failed send with bytes left after the calls before it, or failed input |
| `EventLoop.PollTable.PollCallbacks` | eventloop.c:85-97 | descriptor and callback of each registration stay paired; the calls made are those that Done says of the log replayed from the flags in all slots, each for the registration named there with its flags; each visit has the effect of its call; every connection is as the calls leave it |
| `EventLoop.PollTable.InheritedHangup` | server.c:203-242 | from every such state of the tables, three calls: the listener opens a connection, the client at 1 closes, the new client closes for the flags in its slot; the client at 2 is not called |
| `EventLoop.PollTable.Turn` | eventloop.c:138-146 | one turn from any flags that the kernel reports: no client assertion fails, and the calls are as in PollCallbacks from those flags; the flags in free slots are those of earlier turns; without flags nothing is called |
| `PollCalls.RunStarvesNone` | eventloop.c:130-148 | over any run, each registration is called or still in both tables, passed over when ready at most as often as it had entries in front of it |
| `EventLoop.PollTable.Loop` | eventloop.c:130-148 | any number of turns, each as Turn says of the flags given for it: the tables stay paired, no client assertion fails, no registration starves, and no connection loses an answer or a delivered byte |

## Left out

- Per-model decoders and their string tables: finite tables and single bit tests.
- Log, syslog and trigger message text, environment building, the text of client answers (an input of `ClientEvent`).
- sysfs, /proc, MSR, socket and process calls: each is an input that may succeed or fail; `mmap` is assumed to return fresh pages, since the daemon exits otherwise.
- `scanf`-based splitting of rates and addresses into fields, and what `strtoul` makes of characters other than hexadecimal digits in a CPU map.
- The sorting of the dump and of DMI address ranges: `qsort` is library code, and the comparator of the ranges is not an order.
- The ageing that a client query does to the database: the bucket refinement is about accounting calls.
- `more_cpus`, `tsc.c`, `bitfield.c` and cpuid packing: easy members.
- Nodes, clusters, list heads and chain entries are addressed by number in a store instead of by C pointer, so C type and lifetime errors are not part of the model. `N` is 63, its value with 64-bit pointers.
- The packed word of parent and colour is kept as two components in `RbTree`; `RbWord` shows that the setters act on the word as on the two.
- `account_page_error` also makes sure that a database entry exists when a page is reported; the tracker does not model that side effect on the database.
- LeakyBucket.Cell.Age: the conversion to `unsigned` of what an `unsigned` does not hold is undefined in C; it is modelled as the low 32 bits of a 63-bit conversion, and as 0 beyond that and for a quotient by 0, as on x86-64.
- Trigger: what the kernel does between two steps of the handler is a state machine; the handler's own steps act on the stored list (`RunTriggerStep`, `FinishStep`).
- PageTracker.Tracker.Replace: the number of replacements is unbounded, while `mp_replacement.count` wraps; nothing reads it but a message.
- PageTracker.Tracker.AccountPageError: not for an error on which `mempage_replace` has no cluster to look at, where the source dereferences null; `ReplacementAlwaysDefined` says when that can happen.
- MemDb.ErrType: its field `total` is not in the source; it is the sum whose low 32 bits `count` holds (`StoredCounts`).
- Client.Connection.ClientEvent: the text sent to a client that cannot be registered at all (server.c:264) is not modelled.
