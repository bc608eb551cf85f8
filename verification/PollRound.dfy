/** The bookkeeping of one round of poll_callbacks, free of the tables. Registrations are
    numbered by their position when the round starts; those made during the round go on
    from there. A callback that unregisters its own entry moves all later ones down by one
    while the loop goes on to the next position, so the entry directly behind is passed
    over in this round. A registration made during the round starts with the flags that an
    earlier entry left in its slot. */
module PollRound {
  import opened Sequences

  /** What a callback does to the tables. */
  datatype Effect = Kept | Closed | Opened

  /** What the loop does at one position: nothing to call, or a call with its effect. */
  datatype Visit = Skipped | Called(effect: Effect)

  datatype Log = Log(
    order: seq<nat>,    // the number of the registration at each position
    ran: seq<nat>,      // the registrations whose callback ran, in this order
    closed: set<nat>,   // those that unregistered themselves
    gone: nat,          // how many of them
    slots: seq<bool>,   // whether each slot of the descriptor table, used or not, has flags
    flags: seq<bool>)   // whether each registration had flags, polled or inherited

  predicate Ascending(s: seq<nat>) {
    forall a, b :: 0 <= a < b < |s| ==> s[a] < s[b]
  }

  // ----- the steps of the loop

  function Start(slots: seq<bool>, max: nat): Log
    requires max <= |slots|
  {
    Log(seq(max, i => i), [], {}, 0, slots, slots[..max])
  }

  /** The callback at k runs and keeps its entry. */
  function Run(l: Log, k: nat): Log {
    l.(ran := l.ran + [k + l.gone])
  }

  /** The callback at k runs and unregisters its entry. */
  function Close(l: Log, k: nat): Log
    requires k < |l.order| <= |l.slots|
  {
    Log(RemoveAt(l.order, k), l.ran + [k + l.gone], l.closed + {k + l.gone}, l.gone + 1,
        MovedDown(l.slots, k, |l.order|), l.flags)
  }

  /** The callback at k runs, keeps its entry and registers a new one in the next slot. */
  function Open(l: Log, k: nat): Log
    requires |l.order| < |l.slots|
  {
    Run(l, k).(order := l.order + [|l.order| + l.gone], flags := l.flags + [l.slots[|l.order|]])
  }

  /** A visit is possible: there is an entry at k, and room for a new one if it opens one. */
  predicate Possible(l: Log, k: nat, v: Visit) {
    k < |l.order| <= |l.slots| && (v == Called(Opened) ==> |l.order| < |l.slots|)
  }

  function Logged(l: Log, k: nat, v: Visit): Log
    requires Possible(l, k, v)
  {
    match v
    case Skipped => l
    case Called(Kept) => Run(l, k)
    case Called(Closed) => Close(l, k)
    case Called(Opened) => Open(l, k)
  }

  /** The log of a round that starts with max entries over the given slots, from what
      happened at positions 0, 1, 2 and so on. */
  function Replay(slots: seq<bool>, max: nat, visits: seq<Visit>): Log
    requires max <= |slots|
  {
    if |visits| == 0 then Start(slots, max)
    else
      var (l, k, v) := (Replay(slots, max, visits[..|visits| - 1]), |visits| - 1, visits[|visits| - 1]);
      if Possible(l, k, v) then Logged(l, k, v) else l
  }

  lemma ReplayMore(slots: seq<bool>, max: nat, visits: seq<Visit>, v: Visit)
    requires max <= |slots| && Possible(Replay(slots, max, visits), |visits|, v)
    ensures Replay(slots, max, visits + [v]) == Logged(Replay(slots, max, visits), |visits|, v)
  {
    assert (visits + [v])[..|visits|] == visits;
  }

  // ----- what they keep

  /** The table after looking at the positions below k: positions from k on hold what they
      held at the start, moved down by gone. */
  predicate Arranged(l: Log, k: nat) {
    && Ascending(l.order)
    && (forall t :: 0 <= t < |l.order| ==> l.order[t] !in l.closed && t <= l.order[t] < |l.order| + l.gone)
    && (forall t :: k <= t < |l.order| ==> l.order[t] == t + l.gone)
    && (forall j :: j in l.closed ==> j < |l.order| + l.gone)
    && (forall j :: 0 <= j < |l.order| + l.gone ==> j in l.closed || j in l.order)
  }

  /** The entries from k on still have the flags they came with. */
  predicate Slotted(l: Log, k: nat) {
    && |l.flags| == |l.order| + l.gone && |l.order| <= |l.slots|
    && forall t :: k <= t < |l.order| ==> l.slots[t] == l.flags[t + l.gone]
  }

  lemma FlagAt(l: Log, k: nat)
    requires Slotted(l, k) && k < |l.order|
    ensures k + l.gone < |l.flags| && l.flags[k + l.gone] == l.slots[k]
  {
  }

  /** What has run: each at most once and in order, all of them with flags; and everything
      with flags before k ran unless the entry in front of it closed, and then it did not. */
  predicate Ran(l: Log, k: nat) {
    && Ascending(l.ran)
    && (forall j {:trigger j in l.ran} :: j in l.ran ==>
          j < k + l.gone && j < |l.flags| && l.flags[j] && !(j > 0 && j - 1 in l.closed))
    && (forall j {:trigger j in l.ran} :: j in l.closed ==> j in l.ran)
    && (forall j :: j in l.closed ==> j + 1 < k + l.gone)
    && (forall j {:trigger l.flags[j]} :: 0 <= j < k + l.gone && j < |l.flags| && l.flags[j] ==>
          j in l.ran || (j > 0 && j - 1 in l.closed))
  }

  /** The number of callbacks that ran for registrations below j. */
  function RanBefore(ran: seq<nat>, j: nat): nat {
    if |ran| == 0 then 0
    else RanBefore(ran[..|ran| - 1], j) + if ran[|ran| - 1] < j then 1 else 0
  }

  /** Fewer than c callbacks had run when the loop came to an entry below k. */
  predicate Early(l: Log, k: nat, c: int) {
    forall j ::
      0 <= j < k + l.gone && !(j > 0 && j - 1 in l.closed) ==> RanBefore(l.ran, j) < c
  }

  /** The number of ready entries from number j on. */
  function CountFrom(ready: seq<bool>, j: nat): nat
    decreases |ready| - j
  {
    if j >= |ready| then 0 else (if ready[j] then 1 else 0) + CountFrom(ready, j + 1)
  }

  lemma CountStep(ready: seq<bool>, j: nat)
    ensures CountFrom(ready, j + 1) <= CountFrom(ready, j)
    ensures j < |ready| && ready[j] ==> CountFrom(ready, j + 1) == CountFrom(ready, j) - 1
    ensures j < |ready| && !ready[j] ==> CountFrom(ready, j + 1) == CountFrom(ready, j)
    ensures j >= |ready| ==> CountFrom(ready, j) == 0
  {
  }

  /** n callbacks may still run: poll counted all ready entries once, and those from k on
      are among them. */
  predicate Counted(l: Log, ready: seq<bool>, k: nat, n: int) {
    && ready <= l.flags && CountFrom(ready, k + l.gone) <= n
    && n + |l.ran| == CountFrom(ready, 0) && Early(l, k, CountFrom(ready, 0))
  }

  predicate Good(l: Log, ready: seq<bool>, k: nat, n: int) {
    Arranged(l, k) && Slotted(l, k) && Ran(l, k) && Counted(l, ready, k, n)
  }

  lemma StartGood(slots: seq<bool>, max: nat)
    requires max <= |slots|
    ensures Good(Start(slots, max), slots[..max], 0, CountFrom(slots[..max], 0))
  {
    var l := Start(slots, max);
    forall j: nat | j < max
      ensures j in l.order
    {
      assert l.order[j] == j;
    }
  }

  lemma AppendAscending(s: seq<nat>, x: nat)
    requires Ascending(s) && forall j :: j in s ==> j < x
    ensures Ascending(s + [x])
  {
    forall a, b | 0 <= a < b < |s + [x]|
      ensures (s + [x])[a] < (s + [x])[b]
    {
      assert s[a] in s;
    }
  }

  lemma {:induction false} AllBefore(ran: seq<nat>, j: nat)
    requires forall i :: 0 <= i < |ran| ==> ran[i] < j
    ensures RanBefore(ran, j) == |ran|
  {
    if |ran| > 0 {
      AllBefore(ran[..|ran| - 1], j);
    }
  }

  /** Everything that ran is in front of what is still to be looked at. */
  lemma RanCount(l: Log, k: nat, j: nat)
    requires Ran(l, k) && k + l.gone <= j
    ensures RanBefore(l.ran, j) == |l.ran|
  {
    forall i | 0 <= i < |l.ran|
      ensures l.ran[i] < j
    {
      assert l.ran[i] in l.ran;
    }
    AllBefore(l.ran, j);
  }

  lemma OneMoreRan(ran: seq<nat>, x: nat, j: nat)
    ensures RanBefore(ran + [x], j) == RanBefore(ran, j) + if x < j then 1 else 0
  {
    assert (ran + [x])[..|ran|] == ran;
  }

  /** The entry at k has no flags. */
  lemma SkippedGood(l: Log, ready: seq<bool>, k: nat, n: int)
    requires Good(l, ready, k, n) && k < |l.order| && n > 0 && !l.flags[k + l.gone]
    ensures Good(l, ready, k + 1, n)
  {
    CountStep(ready, k + l.gone);
    RanCount(l, k, k + l.gone);
  }

  /** m is the log after the callback at k has run. */
  predicate RanNext(l: Log, m: Log, k: nat) {
    && m.ran == l.ran + [k + l.gone] && l.flags <= m.flags
    && ((m.closed == l.closed && m.gone == l.gone)
        || (m.closed == l.closed + {k + l.gone} && m.gone == l.gone + 1))
  }

  lemma CalledEarly(l: Log, m: Log, k: nat, c: int)
    requires Ran(l, k) && Early(l, k, c) && |l.ran| < c && RanNext(l, m, k)
    ensures Early(m, k + 1, c)
  {
    RanCount(l, k, k + l.gone);
    forall j | 0 <= j < k + 1 + m.gone && !(j > 0 && j - 1 in m.closed)
      ensures RanBefore(m.ran, j) < c
    {
      OneMoreRan(l.ran, k + l.gone, j);
    }
  }

  lemma CalledCounted(l: Log, m: Log, ready: seq<bool>, k: nat, n: int)
    requires Ran(l, k) && Counted(l, ready, k, n) && n > 0 && k + l.gone < |l.flags| && l.flags[k + l.gone]
    requires RanNext(l, m, k)
    ensures Counted(m, ready, k + 1, n - 1)
  {
    CountStep(ready, k + l.gone);
    CountStep(ready, k + l.gone + 1);
    CalledEarly(l, m, k, CountFrom(ready, 0));
  }

  lemma CalledRan(l: Log, m: Log, k: nat)
    requires Ran(l, k) && k + l.gone < |l.flags| && l.flags[k + l.gone] && RanNext(l, m, k)
    ensures Ran(m, k + 1)
  {
    AppendAscending(l.ran, k + l.gone);
    assert forall j :: j in m.ran <==> j in l.ran || j == k + l.gone;
    assert forall j :: 0 <= j < |l.flags| ==> m.flags[j] == l.flags[j];
  }

  lemma RemoveIn(s: seq<nat>, k: nat, j: nat)
    requires k < |s| && j in s && j != s[k]
    ensures j in RemoveAt(s, k)
  {
    var t :| 0 <= t < |s| && s[t] == j;
    assert RemoveAt(s, k)[if t < k then t else t - 1] == j;
  }

  lemma CloseArranged(l: Log, k: nat)
    requires Arranged(l, k) && k < |l.order| <= |l.slots|
    ensures Arranged(Close(l, k), k + 1) && |Close(l, k).order| == |l.order| - 1
  {
    var m := Close(l, k);
    assert forall t :: 0 <= t < |m.order| ==> m.order[t] == l.order[if t < k then t else t + 1];
    forall j | 0 <= j < |m.order| + m.gone
      ensures j in m.closed || j in m.order
    {
      if j !in m.closed {
        RemoveIn(l.order, k, j);
      }
    }
  }

  lemma CloseSlotted(l: Log, k: nat)
    requires Slotted(l, k) && k < |l.order|
    ensures Slotted(Close(l, k), k + 1)
  {
    var m := Close(l, k);
    assert forall t :: k <= t < |l.order| - 1 ==> m.slots[t] == l.slots[t + 1];
  }

  lemma OpenArranged(l: Log, k: nat)
    requires Arranged(l, k) && k < |l.order| < |l.slots|
    ensures Arranged(Open(l, k), k + 1)
  {
    var m := Open(l, k);
    assert forall j :: j in m.order <==> j in l.order || j == |l.order| + l.gone;
  }

  lemma CalledArranged(l: Log, k: nat, effect: Effect)
    requires Arranged(l, k) && Slotted(l, k) && Possible(l, k, Called(effect))
    ensures var m := Logged(l, k, Called(effect));
      Arranged(m, k + 1) && Slotted(m, k + 1) && RanNext(l, m, k)
  {
    if effect.Closed? {
      CloseArranged(l, k);
      CloseSlotted(l, k);
    } else if effect.Opened? {
      OpenArranged(l, k);
    }
  }

  /** The callback at k runs. */
  lemma CalledGood(l: Log, ready: seq<bool>, k: nat, n: int, effect: Effect)
    requires Good(l, ready, k, n) && Possible(l, k, Called(effect)) && n > 0 && l.flags[k + l.gone]
    ensures Good(Logged(l, k, Called(effect)), ready, k + 1, n - 1)
  {
    CalledArranged(l, k, effect);
    CalledRan(l, Logged(l, k, Called(effect)), k);
    CalledCounted(l, Logged(l, k, Called(effect)), ready, k, n);
  }

  // ----- a whole round

  /** A whole round: every callback runs at most once and in table order. A registration,
      be it made before the round or in it, runs exactly if it has flags, the entry in front
      of it did not close, and fewer callbacks had run than poll counted; for those from
      before the round the count is never the reason. What stays in the table is what did
      not close, in the old order. */
  predicate Done(l: Log, ready: seq<bool>) {
    && Ascending(l.ran) && Ascending(l.order) && ready <= l.flags
    && (forall j :: 0 <= j < |ready| ==> (j in l.ran <==> ready[j] && !(j > 0 && j - 1 in l.closed)))
    && (forall j :: 0 <= j < |l.flags| ==> RunsByCount(l, ready, j))
    && (forall j {:trigger j in l.ran} :: j in l.ran ==> j < |l.flags|)
    && (forall j {:trigger j in l.ran} :: j in l.closed ==> j in l.ran)
    && (forall t :: 0 <= t < |l.order| ==> t <= l.order[t])
    && (forall t :: 0 <= t < |l.order| ==> l.order[t] !in l.closed)
    && (forall j :: 0 <= j < |ready| ==> j in l.closed || j in l.order)
  }

  predicate RunsByCount(l: Log, ready: seq<bool>, j: nat)
    requires j < |l.flags|
  {
    j in l.ran <==>
      l.flags[j] && !(j > 0 && j - 1 in l.closed) && RanBefore(l.ran, j) < CountFrom(ready, 0)
  }

  lemma {:induction false} NoneReady(ready: seq<bool>, j: nat, i: nat)
    requires CountFrom(ready, j) == 0 && j <= i < |ready|
    ensures !ready[i]
    decreases i - j
  {
    if j < i {
      NoneReady(ready, j + 1, i);
    }
  }

  lemma RunsAtEnd(l: Log, ready: seq<bool>, k: nat, n: int, j: nat)
    requires Good(l, ready, k, n) && (k >= |l.order| || n <= 0) && j < |l.flags|
    ensures RunsByCount(l, ready, j)
  {
    if k + l.gone <= j {
      RanCount(l, k, j);
    } else {
      assert !(j > 0 && j - 1 in l.closed) ==> RanBefore(l.ran, j) < CountFrom(ready, 0);
    }
  }

  /** The loop ends at the end of the table or when all ready entries have been counted. */
  lemma RoundIsDone(l: Log, ready: seq<bool>, k: nat, n: int)
    requires Good(l, ready, k, n) && (k >= |l.order| || n <= 0)
    ensures Done(l, ready)
  {
    forall j | 0 <= j < |ready| && ready[j]
      ensures j < k + l.gone
    {
      if k + l.gone <= j {
        NoneReady(ready, k + l.gone, j);
      }
    }
    forall j | 0 <= j < |l.flags|
      ensures RunsByCount(l, ready, j)
    {
      RunsAtEnd(l, ready, k, n, j);
    }
    assert forall j :: 0 <= j < |ready| ==> l.flags[j] == ready[j];
  }
}
