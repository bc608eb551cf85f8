/** The bookkeeping of trigger processes in trigger.c against a kernel that forks, exits
    and signals in any order. */
module Trigger {
  import opened LinkedList
  import opened Sequences

  type Pid = int

  // ----- the child list

  function Pids(entries: seq<Ptr>, pid: map<Ptr, Pid>): (r: seq<Pid>)
    requires forall x :: x in entries ==> x in pid
    ensures |r| == |entries| && forall i :: 0 <= i < |r| ==> r[i] == pid[entries[i]]
  {
    seq(|entries|, i requires 0 <= i < |entries| => pid[entries[i]])
  }

  lemma IndexIs(s: seq<Pid>, p: Pid, i: nat)
    requires i < |s| && s[i] == p && forall j :: 0 <= j < i ==> s[j] != p
    ensures IndexOf(s, p) == i
  {
    IndexOfMeaning(s, p);
  }

  /** The list without the first entry for p. */
  function Reaped(s: seq<Pid>, p: Pid): seq<Pid> {
    if IndexOf(s, p) < |s| then RemoveAt(s, IndexOf(s, p)) else s
  }

  /** childlist and num_children */
  class ChildTable {
    const list: ListMemory
    const head: Ptr
    var pid: map<Ptr, Pid>
    var numChildren: int
    ghost var entries: seq<Ptr>

    constructor (head: Ptr)
      ensures Valid() && entries == [] && numChildren == 0 && fresh(list)
    {
      this.head := head;
      list := new ListMemory(head);
      pid, numChildren, entries := map[], 0, [];
    }

    ghost predicate Valid()
      reads this, list
    {
      && IsList(list.links, head, entries) && numChildren == |entries|
      && (forall x :: x in entries ==> x in pid)
    }

    ghost function Children(): seq<Pid>
      requires forall x :: x in entries ==> x in pid
      reads this
    {
      Pids(entries, pid)
    }

    /** The parent's half of mcelog_fork; node is what xalloc returns. */
    method AddChild(child: Pid, node: Ptr)
      requires Valid() && node !in list.links
      modifies this, list
      ensures Valid() && Children() == old(Children()) + [child] && numChildren == old(numChildren) + 1
    {
      numChildren := numChildren + 1;
      pid := pid[node := child];
      EntriesInMemory(list.links, head, entries);
      ghost var links := list.links;
      list.links := list.links[node := Links(0, 0)];
      ListKept(links, list.links, head, entries);
      AddTailIsAppend(list.links, head, entries, node);
      list.ListAddTail(node, head);
      entries := entries + [node];
    }

    /** list_del, free and the count, for the entry at position i. xalloc may return the
        freed address again. */
    method RemoveEntry(c: Ptr, ghost i: nat)
      requires Valid() && i < |entries| && entries[i] == c
      modifies this`entries, this`numChildren, list
      ensures c !in list.links && list.links.Keys == old(list.links.Keys) - {c}
      ensures Valid() && Children() == RemoveAt(old(Children()), i)
    {
      ghost var (a, b) := (entries[..i], entries[i + 1..]);
      assert entries == a + [c] + b;
      DelRemoves(list.links, head, a, c, b);
      list.ListDel(c);
      ListFreed(list.links, head, a, c, b, old(list.links));
      list.links := list.links - {c};
      entries := a + b;
      numChildren := numChildren - 1;
    }

    /** finish_child; found is false where the source calls abort(). */
    method FinishChild(child: Pid) returns (found: bool)
      requires Valid()
      modifies this, list
      ensures Valid()
      ensures found <==> child in old(Children())
      ensures Children() == Reaped(old(Children()), child)
    {
      ghost var s := Children();
      IndexOfMeaning(s, child);
      ghost var i := 0;
      ListEnds(list.links, head, entries);
      var c := list.links[head].next;
      while c != head
        invariant Valid() && unchanged(this) && unchanged(list)
        invariant 0 <= i <= |entries| && c == (entries + [head])[i]
        invariant forall j :: 0 <= j < i ==> s[j] != child
        decreases |entries| - i
      {
        ListSteps(list.links, head, entries, i);
        if pid[c] == child {
          IndexIs(s, child, i);
          RemoveEntry(c, i);
          return true;
        }
        c := list.links[c].next;
        i := i + 1;
      }
      ListHeadOnce(list.links, head, entries, i);
      return false;
    }
  }

  lemma EntriesInMemory(m: Store, head: Ptr, s: seq<Ptr>)
    requires IsList(m, head, s)
    ensures head in m && forall x :: x in s ==> x in m
  {
    var r := [head] + s + [head];
    assert r[0] == head;
    forall i | 0 <= i < |s| ensures s[i] in m { assert r[i + 1] == s[i]; }
  }

  /** A list survives changes elsewhere in memory. */
  lemma ListKept(m: Store, m': Store, head: Ptr, s: seq<Ptr>)
    requires IsList(m, head, s) && forall x :: x in m ==> x in m' && m'[x] == m[x]
    ensures IsList(m', head, s)
  {
    ChainKept(m, m', [head] + s + [head]);
  }

  /** A list survives that a deleted entry is freed. */
  lemma ListFreed(m: Store, head: Ptr, a: seq<Ptr>, x: Ptr, b: seq<Ptr>, before: Store)
    requires IsList(m, head, a + b) && IsList(before, head, a + [x] + b)
    ensures IsList(m - {x}, head, a + b)
  {
    var (ring, rest) := ([head] + (a + [x] + b), [head] + (a + b) + [head]);
    assert ring[1 + |a|] == x;
    forall i | 0 <= i < |rest|
      ensures rest[i] != x
    {
      assert rest[i] == ring[if i == |rest| - 1 then 0 else if i <= |a| then i else i + 1];
    }
    ChainKept(m, m - {x}, rest);
  }

  lemma ListEnds(m: Store, head: Ptr, s: seq<Ptr>)
    requires IsList(m, head, s)
    ensures head in m && m[head].next == (s + [head])[0]
  {
    var r := [head] + s + [head];
    assert r[0] == head && r[1] == (s + [head])[0];
  }

  lemma ListSteps(m: Store, head: Ptr, s: seq<Ptr>, i: nat)
    requires IsList(m, head, s) && i <= |s| && (s + [head])[i] != head
    ensures i < |s| && s[i] in m && m[s[i]].next == (s + [head])[i + 1]
  {
    var r := [head] + s + [head];
    assert i < |s| ==> r[i + 1] == s[i] && r[i + 2] == (s + [head])[i + 1];
  }

  lemma ListHeadOnce(m: Store, head: Ptr, s: seq<Ptr>, i: nat)
    requires IsList(m, head, s) && i <= |s| && (s + [head])[i] == head
    ensures i == |s|
  {
    var r := [head] + s;
    forall j | 0 <= j < |s| ensures s[j] != head {
      assert r[j + 1] == s[j] && r[0] == head;
    }
  }

  // ----- fork, exit, SIGCHLD and drain in any order

  /** Where the daemon is: outside the signal handler, or in its waitpid(-1) loop. */
  datatype Phase = Outside | Draining

  /** The daemon's list and count, and the kernel's view: children that run, children that
      have exited but are not waited for, and the one SIGCHLD that can be pending. */
  datatype State = State(children: seq<Pid>, num: int, phase: Phase, aborted: bool,
                         running: set<Pid>, zombies: set<Pid>, pending: set<Pid>)

  datatype Step =
    | RunTrigger(pid: Pid, forkOk: bool)
    | Exit(pid: Pid)
    | Deliver(pid: Pid)
    | Drain(pid: Pid)
    | DrainEnds
    | Wait(pid: Pid)

  const Start := State([], 0, Outside, false, {}, {}, {})

  /** The kernel's side conditions. fork returns the pid of no process that exists; an exit
      raises SIGCHLD unless one is pending, which keeps its si_pid; signals are taken only
      while the daemon polls, so never inside the handler. */
  ghost predicate Enabled(s: State, a: Step) {
    && !s.aborted
    && match a
       case RunTrigger(p, ok) => s.phase == Outside && p !in s.running + s.zombies
       case Exit(p) => p in s.running
       case Deliver(p) => s.phase == Outside && p in s.pending
       case Drain(p) => s.phase == Draining && p in s.zombies
       case DrainEnds => s.phase == Draining && s.zombies == {}
       case Wait(p) => s.phase == Outside && p in s.zombies
  }

  /** finish_child */
  function Finish(s: State, p: Pid): State {
    if p in s.children then s.(children := Reaped(s.children, p), num := s.num - 1) else s.(aborted := true)
  }

  function Next(s: State, a: Step, childrenMax: int): State {
    match a
    case RunTrigger(p, ok) =>
      if (childrenMax > 0 && s.num >= childrenMax) || !ok then s
      else s.(children := s.children + [p], num := s.num + 1, running := s.running + {p})
    case Exit(p) =>
      s.(running := s.running - {p}, zombies := s.zombies + {p}, pending := if s.pending == {} then {p} else s.pending)
    case Deliver(p) =>
      var t := s.(pending := {});
      if p in s.zombies then Finish(t.(zombies := s.zombies - {p}, phase := Draining), p)
      else if p in s.running then Finish(t.(phase := Draining), p)  // waitpid returns 0
      else t                                                        // no such child
    case Drain(p) => Finish(s.(zombies := s.zombies - {p}), p)
    case DrainEnds => s.(phase := Outside)
    case Wait(p) => Finish(s.(zombies := s.zombies - {p}), p)
  }

  function RunSteps(s: State, steps: seq<Step>, childrenMax: int): State
    decreases |steps|
  {
    if |steps| == 0 then s else Next(RunSteps(s, steps[..|steps| - 1], childrenMax), steps[|steps| - 1], childrenMax)
  }

  ghost predicate Legal(steps: seq<Step>, childrenMax: int) {
    forall i :: 0 <= i < |steps| ==> Enabled(RunSteps(Start, steps[..i], childrenMax), steps[i])
  }

  /** No pid is handed out again while a SIGCHLD that names it is still pending. */
  ghost predicate NoStalePid(steps: seq<Step>, childrenMax: int) {
    forall i :: 0 <= i < |steps| && steps[i].RunTrigger? ==>
      steps[i].pid !in RunSteps(Start, steps[..i], childrenMax).pending
  }

  /** The daemon knows its children: num_children is the length of the list, at most a
      positive children_max, and the list holds exactly the children not waited for. */
  ghost predicate Known(s: State, childrenMax: int) {
    && !s.aborted && s.num == |s.children| && (childrenMax > 0 ==> s.num <= childrenMax)
    && Distinct(s.children) && (forall p :: p in s.children <==> p in s.running + s.zombies)
    && s.running !! s.zombies
  }

  lemma FinishKeeps(s: State, p: Pid)
    requires Distinct(s.children) && p in s.children && s.num == |s.children|
    ensures var t := Finish(s, p);
      && Distinct(t.children) && t.num == |t.children| == |s.children| - 1 && !t.aborted == !s.aborted
      && forall q :: q in t.children <==> q in s.children && q != p
  {
    IndexOfMeaning(s.children, p);
    var i := IndexOf(s.children, p);
    var r := Reaped(s.children, p);
    assert forall j :: 0 <= j < |r| ==> r[j] == s.children[if j < i then j else j + 1];
    forall q | q in s.children && q != p
      ensures q in r
    {
      var j :| 0 <= j < |s.children| && s.children[j] == q;
      assert r[if j < i then j else j - 1] == q;
    }
  }

  /** The step whose waitpid returns 0: SIGCHLD names a child that still runs. */
  ghost predicate DropsRunning(s: State, a: Step) {
    a.Deliver? && a.pid in s.running
  }

  lemma KnownNext(s: State, a: Step, childrenMax: int)
    requires Known(s, childrenMax) && Enabled(s, a)
    ensures Known(Next(s, a, childrenMax), childrenMax) <==> !DropsRunning(s, a)
  {
    if (a.Deliver? || a.Drain? || a.Wait?) && a.pid in s.running + s.zombies {
      FinishKeeps(s, a.pid);
    }
  }

  /** The state before step k of a run. */
  function Before(steps: seq<Step>, k: nat, childrenMax: int): State
    requires k <= |steps|
  {
    RunSteps(Start, steps[..k], childrenMax)
  }

  lemma OneStep(steps: seq<Step>, k: nat, childrenMax: int)
    requires Legal(steps, childrenMax) && k < |steps|
    ensures Before(steps, k + 1, childrenMax) == Next(Before(steps, k, childrenMax), steps[k], childrenMax)
    ensures Enabled(Before(steps, k, childrenMax), steps[k])
  {
    assert steps[..k + 1][..k] == steps[..k];
  }

  lemma {:induction false} KnownUntil(steps: seq<Step>, k: nat, childrenMax: int)
    requires Legal(steps, childrenMax) && k <= |steps|
    requires forall i :: 0 <= i < k ==> !DropsRunning(Before(steps, i, childrenMax), steps[i])
    ensures Known(Before(steps, k, childrenMax), childrenMax)
  {
    if k > 0 {
      KnownUntil(steps, k - 1, childrenMax);
      OneStep(steps, k - 1, childrenMax);
      KnownNext(Before(steps, k - 1, childrenMax), steps[k - 1], childrenMax);
    }
  }

  /** In every interleaving of fork, exit, coalesced SIGCHLD and drain: the daemon knows its
      children throughout, so abort() is never reached, if and only if the handler is never
      entered for a child that still runs, where waitpid returns 0 and finish_child is
      called all the same. */
  lemma ChildrenKnownExactly(steps: seq<Step>, childrenMax: int)
    requires Legal(steps, childrenMax)
    ensures (forall k :: 0 <= k <= |steps| ==> Known(Before(steps, k, childrenMax), childrenMax))
      <==> (forall i :: 0 <= i < |steps| ==> !DropsRunning(Before(steps, i, childrenMax), steps[i]))
  {
    if forall k :: 0 <= k <= |steps| ==> Known(Before(steps, k, childrenMax), childrenMax) {
      forall i | 0 <= i < |steps|
        ensures !DropsRunning(Before(steps, i, childrenMax), steps[i])
      {
        OneStep(steps, i, childrenMax);
        KnownNext(Before(steps, i, childrenMax), steps[i], childrenMax);
        assert Known(Before(steps, i + 1, childrenMax), childrenMax);
      }
    } else {
      var k :| 0 <= k <= |steps| && !Known(Before(steps, k, childrenMax), childrenMax);
      if forall i :: 0 <= i < |steps| ==> !DropsRunning(Before(steps, i, childrenMax), steps[i]) {
        KnownUntil(steps, k, childrenMax);
      }
    }
  }

  /** Without a stale pid no pending SIGCHLD names a running child. */
  lemma {:induction false} PendingNotRunning(steps: seq<Step>, k: nat, childrenMax: int)
    requires Legal(steps, childrenMax) && NoStalePid(steps, childrenMax) && k <= |steps|
    ensures var s := Before(steps, k, childrenMax); s.pending !! s.running && s.running !! s.zombies
  {
    if k > 0 {
      PendingNotRunning(steps, k - 1, childrenMax);
      OneStep(steps, k - 1, childrenMax);
    }
  }

  /** So the children are known in every interleaving with fresh pids. */
  lemma ChildrenAlwaysKnown(steps: seq<Step>, childrenMax: int)
    requires Legal(steps, childrenMax) && NoStalePid(steps, childrenMax)
    ensures Known(RunSteps(Start, steps, childrenMax), childrenMax)
  {
    forall i | 0 <= i < |steps|
      ensures !DropsRunning(Before(steps, i, childrenMax), steps[i])
    {
      PendingNotRunning(steps, i, childrenMax);
      OneStep(steps, i, childrenMax);
    }
    KnownUntil(steps, |steps|, childrenMax);
    assert steps[..|steps|] == steps;
  }

  // ----- when abort() is reached

  /** The step calls finish_child. */
  predicate Finishes(s: State, a: Step) {
    a.Drain? || a.Wait? || (a.Deliver? && a.pid in s.running + s.zombies)
  }

  /** What every state keeps until abort(): the list has no pid twice, and no pid that has
      no process. */
  ghost predicate Listed(s: State) {
    && Distinct(s.children) && s.num == |s.children| && !s.aborted && s.running !! s.zombies
    && forall p :: p in s.children ==> p in s.running + s.zombies
  }

  /** A process that the list has lost. */
  ghost predicate Dropped(s: State, p: Pid) {
    p in s.running + s.zombies && p !in s.children
  }

  lemma ListedNext(s: State, a: Step, childrenMax: int)
    requires Listed(s) && Enabled(s, a)
    ensures var t := Next(s, a, childrenMax);
      && (t.aborted <==> Finishes(s, a) && Dropped(s, a.pid))
      && (!t.aborted ==> Listed(t))
      && (!t.aborted ==> forall p :: Dropped(t, p) <==>
            (Dropped(s, p) && !(Finishes(s, a) && a.pid == p)) || (DropsRunning(s, a) && a.pid == p))
  {
    if Finishes(s, a) && a.pid in s.children {
      FinishKeeps(s, a.pid);
    }
  }

  /** Step i has dropped p while it ran, and p has not been finished between i and k. */
  ghost predicate DroppedAt(steps: seq<Step>, i: int, k: nat, p: Pid, childrenMax: int)
    requires 0 <= i < k <= |steps|
  {
    && DropsRunning(Before(steps, i, childrenMax), steps[i]) && steps[i].pid == p
    && forall j :: i < j < k && Finishes(Before(steps, j, childrenMax), steps[j]) ==> steps[j].pid != p
  }

  ghost predicate DroppedBefore(steps: seq<Step>, k: nat, p: Pid, childrenMax: int)
    requires k <= |steps|
  {
    exists i :: 0 <= i < k && DroppedAt(steps, i, k, p, childrenMax)
  }

  lemma {:induction false} ListedUntil(steps: seq<Step>, k: nat, childrenMax: int)
    requires Legal(steps, childrenMax) && k <= |steps| && (k == |steps| ==> !Before(steps, k, childrenMax).aborted)
    ensures Listed(Before(steps, k, childrenMax))
  {
    if k > 0 {
      ListedUntil(steps, k - 1, childrenMax);
      OneStep(steps, k - 1, childrenMax);
      NotAborted(steps, k, childrenMax);
      ListedNext(Before(steps, k - 1, childrenMax), steps[k - 1], childrenMax);
    }
  }

  /** Up to any point before abort(): the processes lost are exactly those dropped. */
  lemma {:induction false} DroppedExactly(steps: seq<Step>, k: nat, p: Pid, childrenMax: int)
    requires Legal(steps, childrenMax) && k <= |steps| && (k == |steps| ==> !Before(steps, k, childrenMax).aborted)
    ensures Dropped(Before(steps, k, childrenMax), p) <==> DroppedBefore(steps, k, p, childrenMax)
  {
    if k > 0 {
      DroppedExactly(steps, k - 1, p, childrenMax);
      ListedUntil(steps, k - 1, childrenMax);
      OneStep(steps, k - 1, childrenMax);
      NotAborted(steps, k, childrenMax);
      ListedNext(Before(steps, k - 1, childrenMax), steps[k - 1], childrenMax);
      DroppedOnce(steps, k, p, childrenMax);
    }
  }

  lemma NotAborted(steps: seq<Step>, k: nat, childrenMax: int)
    requires Legal(steps, childrenMax) && k <= |steps| && (k == |steps| ==> !Before(steps, k, childrenMax).aborted)
    ensures !Before(steps, k, childrenMax).aborted
  {
    if k < |steps| {
      OneStep(steps, k, childrenMax);
    }
  }

  /** One more step in terms of where p was dropped. */
  lemma DroppedOnce(steps: seq<Step>, k: nat, p: Pid, childrenMax: int)
    requires 0 < k <= |steps|
    ensures
      var (s, a) := (Before(steps, k - 1, childrenMax), steps[k - 1]);
      DroppedBefore(steps, k, p, childrenMax) <==>
        || (DroppedBefore(steps, k - 1, p, childrenMax) && !(Finishes(s, a) && a.pid == p))
        || (DropsRunning(s, a) && a.pid == p)
  {
    var (s, a) := (Before(steps, k - 1, childrenMax), steps[k - 1]);
    if DroppedBefore(steps, k, p, childrenMax) {
      var i :| 0 <= i < k && DroppedAt(steps, i, k, p, childrenMax);
      if i < k - 1 {
        assert DroppedAt(steps, i, k - 1, p, childrenMax);
      }
    }
    if DroppedBefore(steps, k - 1, p, childrenMax) && !(Finishes(s, a) && a.pid == p) {
      var i :| 0 <= i < k - 1 && DroppedAt(steps, i, k - 1, p, childrenMax);
      assert DroppedAt(steps, i, k, p, childrenMax);
    }
    if DropsRunning(s, a) && a.pid == p {
      assert DroppedAt(steps, k - 1, k, p, childrenMax);
    }
  }

  /** abort() is reached exactly when a child that the handler dropped while it ran is
      finished: by its own exit, or by another signal with its pid. */
  lemma AbortExactly(steps: seq<Step>, childrenMax: int)
    requires Legal(steps, childrenMax)
    ensures RunSteps(Start, steps, childrenMax).aborted <==>
      exists i, j :: 0 <= i < j < |steps| && Doomed(steps, i, j, childrenMax)
  {
    assert steps[..|steps|] == steps;
    if exists i, j :: 0 <= i < j < |steps| && Doomed(steps, i, j, childrenMax) {
      var i, j :| 0 <= i < j < |steps| && Doomed(steps, i, j, childrenMax);
      DoomedAborts(steps, i, j, childrenMax);
    } else if RunSteps(Start, steps, childrenMax).aborted {
      var k := |steps| - 1;
      OneStep(steps, k, childrenMax);
      ListedUntil(steps, k, childrenMax);
      ListedNext(Before(steps, k, childrenMax), steps[k], childrenMax);
      DroppedExactly(steps, k, steps[k].pid, childrenMax);
      assert DroppedBefore(steps, k, steps[k].pid, childrenMax);
      var i :| 0 <= i < k && DroppedAt(steps, i, k, steps[k].pid, childrenMax);
      assert Doomed(steps, i, k, childrenMax);
    }
  }

  /** Step i drops a running child, and step j finishes the same pid. */
  ghost predicate Doomed(steps: seq<Step>, i: nat, j: nat, childrenMax: int)
    requires i < j < |steps|
  {
    && DropsRunning(Before(steps, i, childrenMax), steps[i]) && Finishes(Before(steps, j, childrenMax), steps[j])
    && steps[i].pid == steps[j].pid
  }

  lemma {:induction false} DoomedAborts(steps: seq<Step>, i: nat, j: nat, childrenMax: int)
    requires Legal(steps, childrenMax) && i < j < |steps| && Doomed(steps, i, j, childrenMax)
    ensures RunSteps(Start, steps, childrenMax).aborted
    decreases j
  {
    assert steps[..|steps|] == steps;
    var p := steps[j].pid;
    if j + 1 < |steps| {
      OneStep(steps, j + 1, childrenMax);
    }
    if m :| i < m < j && Finishes(Before(steps, m, childrenMax), steps[m]) && steps[m].pid == p {
      DoomedAborts(steps, i, m, childrenMax);
    } else {
      assert DroppedAt(steps, i, j, p, childrenMax) && DroppedBefore(steps, j, p, childrenMax);
      DroppedExactly(steps, j, p, childrenMax);
      ListedUntil(steps, j, childrenMax);
      OneStep(steps, j, childrenMax);
      ListedNext(Before(steps, j, childrenMax), steps[j], childrenMax);
    }
  }

  // ----- the daemon's steps on the stored list

  /** The list and the count of the state machine, as they are stored. */
  ghost predicate Represents(table: ChildTable, s: State)
    reads table, table.list
  {
    table.Valid() && table.Children() == s.children && table.numChildren == s.num
  }

  /** run_trigger and mcelog_fork in the parent; node is what xalloc returns. */
  method RunTriggerStep(table: ChildTable, pid: Pid, forkOk: bool, node: Ptr, childrenMax: int, ghost s: State)
    requires Represents(table, s) && node !in table.list.links
    modifies table, table.list
    ensures Represents(table, Next(s, RunTrigger(pid, forkOk), childrenMax))
    ensures
      var starts := forkOk && (childrenMax <= 0 || old(table.numChildren) < childrenMax);
      && table.Children() == old(table.Children()) + (if starts then [pid] else [])
      && table.numChildren == old(table.numChildren) + (if starts then 1 else 0)
  {
    if childrenMax > 0 && table.numChildren >= childrenMax {
      return;
    }
    if !forkOk {
      return;
    }
    table.AddChild(pid, node);
  }

  /** One call of finish_child; returned is what waitpid gave: the pid, 0 if the child still
      runs, or a negative number if there is none. */
  method FinishStep(table: ChildTable, a: Step, returned: int, childrenMax: int, ghost s: State)
    returns (aborted: bool)
    requires Represents(table, s) && Enabled(s, a) && (a.Deliver? || a.Drain? || a.Wait?)
    requires returned == if a.pid in s.zombies then a.pid else if a.pid in s.running then 0 else -1
    requires forall p :: p in s.running + s.zombies ==> p > 0
    modifies table, table.list
    ensures Represents(table, Next(s, a, childrenMax)) && aborted == Next(s, a, childrenMax).aborted
  {
    aborted := false;
    assert a.pid in s.zombies ==> a.pid in s.running + s.zombies;
    if returned < 0 {
      return;
    }
    var found := table.FinishChild(a.pid);
    IndexOfMeaning(s.children, a.pid);
    aborted := !found;
  }

  // ----- exits that are announced

  /** Outside the handler, a child that waits to be reaped has a SIGCHLD pending. */
  ghost predicate Announced(s: State) {
    s.phase == Outside && s.zombies != {} ==> s.pending != {}
  }

  /** The step that fails waitpid: SIGCHLD names no child, while another one waits. */
  ghost predicate LosesExit(s: State, a: Step) {
    a.Deliver? && a.pid !in s.running + s.zombies && s.zombies != {}
  }

  lemma AnnouncedNext(s: State, a: Step, childrenMax: int)
    requires Announced(s) && Enabled(s, a)
    ensures Announced(Next(s, a, childrenMax)) <==> !LosesExit(s, a)
  {
  }

  lemma {:induction false} AnnouncedUntil(steps: seq<Step>, k: nat, childrenMax: int)
    requires Legal(steps, childrenMax) && k <= |steps|
    requires forall i :: 0 <= i < k ==> !LosesExit(Before(steps, i, childrenMax), steps[i])
    ensures Announced(Before(steps, k, childrenMax))
  {
    if k > 0 {
      AnnouncedUntil(steps, k - 1, childrenMax);
      OneStep(steps, k - 1, childrenMax);
      AnnouncedNext(Before(steps, k - 1, childrenMax), steps[k - 1], childrenMax);
    }
  }

  /** In every interleaving: every exit stays announced until its child is reaped, if and
      only if the handler is never entered for a pid without a child while another child
      waits to be reaped. */
  lemma ExitsAnnouncedExactly(steps: seq<Step>, childrenMax: int)
    requires Legal(steps, childrenMax)
    ensures (forall k :: 0 <= k <= |steps| ==> Announced(Before(steps, k, childrenMax)))
      <==> (forall i :: 0 <= i < |steps| ==> !LosesExit(Before(steps, i, childrenMax), steps[i]))
  {
    if forall k :: 0 <= k <= |steps| ==> Announced(Before(steps, k, childrenMax)) {
      forall i | 0 <= i < |steps|
        ensures !LosesExit(Before(steps, i, childrenMax), steps[i])
      {
        OneStep(steps, i, childrenMax);
        AnnouncedNext(Before(steps, i, childrenMax), steps[i], childrenMax);
        assert Announced(Before(steps, i + 1, childrenMax));
      }
    } else {
      var k :| 0 <= k <= |steps| && !Announced(Before(steps, k, childrenMax));
      if forall i :: 0 <= i < |steps| ==> !LosesExit(Before(steps, i, childrenMax), steps[i]) {
        AnnouncedUntil(steps, k, childrenMax);
      }
    }
  }

  lemma OneMore(steps: seq<Step>, a: Step, childrenMax: int)
    requires Legal(steps, childrenMax) && Enabled(RunSteps(Start, steps, childrenMax), a)
    ensures Legal(steps + [a], childrenMax)
    ensures RunSteps(Start, steps + [a], childrenMax) == Next(RunSteps(Start, steps, childrenMax), a, childrenMax)
  {
    var more := steps + [a];
    assert more[..|steps|] == steps;
    assert forall i :: 0 <= i < |steps| ==> more[..i] == steps[..i] && more[i] == steps[i];
  }

  // ----- every trigger that may be started is

  /** After any run, a trigger is started exactly if its fork succeeds and there is no maximum
      or fewer children are counted. */
  lemma StartsExactly(steps: seq<Step>, p: Pid, forkOk: bool, childrenMax: int)
    ensures
      var s := RunSteps(Start, steps, childrenMax);
      var t := RunSteps(Start, steps + [RunTrigger(p, forkOk)], childrenMax);
      && (p !in s.running ==> (p in t.running <==> forkOk && (childrenMax <= 0 || s.num < childrenMax)))
      && t.children == s.children + (if forkOk && (childrenMax <= 0 || s.num < childrenMax) then [p] else [])
  {
    assert (steps + [RunTrigger(p, forkOk)])[..|steps|] == steps;
  }

  /** The first k triggers of a daemon, each with a process of its own. */
  function Triggers(k: nat): seq<Step> {
    if k == 0 then [] else Triggers(k - 1) + [RunTrigger(k, true)]
  }

  /** The children 1 to k run, and nothing else has happened. */
  ghost predicate AllRun(s: State, k: nat) {
    && |s.children| == k && (forall i :: 0 <= i < k ==> s.children[i] == i + 1)
    && s.num == k && s.phase == Outside && !s.aborted && s.zombies == {}
    && forall p :: p in s.running <==> 1 <= p <= k
  }

  lemma OneMoreRuns(s: State, k: nat, childrenMax: int)
    requires AllRun(s, k) && (childrenMax <= 0 || k < childrenMax)
    ensures Enabled(s, RunTrigger(k + 1, true)) && AllRun(Next(s, RunTrigger(k + 1, true), childrenMax), k + 1)
  {
  }

  lemma {:induction false} TriggersRun(k: nat, childrenMax: int)
    requires childrenMax <= 0 || k <= childrenMax
    ensures Legal(Triggers(k), childrenMax) && AllRun(RunSteps(Start, Triggers(k), childrenMax), k)
  {
    if k > 0 {
      TriggersRun(k - 1, childrenMax);
      OneMoreRuns(RunSteps(Start, Triggers(k - 1), childrenMax), k - 1, childrenMax);
      OneMore(Triggers(k - 1), RunTrigger(k, true), childrenMax);
    }
  }

  /** Every positive maximum is reached: as many triggers run at once, and one more does not. */
  lemma MaximumReached(childrenMax: nat, p: Pid, forkOk: bool)
    requires childrenMax > 0
    ensures
      var steps := Triggers(childrenMax);
      var (s, more) := (RunSteps(Start, steps, childrenMax), steps + [RunTrigger(p, forkOk)]);
      && Legal(steps, childrenMax) && s.num == |s.children| == childrenMax
      && (forall p :: p in s.running <==> 1 <= p <= childrenMax) && RunSteps(Start, more, childrenMax) == s
  {
    TriggersRun(childrenMax, childrenMax);
    StartsExactly(Triggers(childrenMax), p, forkOk, childrenMax);
    var steps := Triggers(childrenMax);
    assert (steps + [RunTrigger(p, forkOk)])[..|steps|] == steps;
  }

  /** Two children, the second of which exits and is waited for while the handler runs for
      the first: a SIGCHLD for a child that is already gone stays pending. */
  lemma StaleSignal() returns (steps: seq<Step>)
    ensures Legal(steps, 4)
    ensures RunSteps(Start, steps, 4) == State([], 0, Outside, false, {}, {}, {2})
  {
    var s1 := [RunTrigger(1, true)];
    OneMore([], RunTrigger(1, true), 4);
    assert [] + [RunTrigger(1, true)] == s1;
    var s2 := s1 + [RunTrigger(2, true)];
    OneMore(s1, RunTrigger(2, true), 4);
    assert RunSteps(Start, s2, 4).children == [1, 2];
    var s3 := s2 + [Exit(1)];
    OneMore(s2, Exit(1), 4);
    assert RunSteps(Start, s3, 4) == State([1, 2], 2, Outside, false, {2}, {1}, {1});
    var s4 := s3 + [Deliver(1)];
    OneMore(s3, Deliver(1), 4);
    assert RunSteps(Start, s4, 4) == State([2], 1, Draining, false, {2}, {}, {});
    var s5 := s4 + [Exit(2)];
    OneMore(s4, Exit(2), 4);
    assert RunSteps(Start, s5, 4) == State([2], 1, Draining, false, {}, {2}, {2});
    var s6 := s5 + [Drain(2)];
    OneMore(s5, Drain(2), 4);
    assert RunSteps(Start, s6, 4) == State([], 0, Draining, false, {}, {}, {2});
    steps := s6 + [DrainEnds];
    OneMore(s6, DrainEnds, 4);
  }

  /** If the kernel then reuses that pid, the handler drops a child that still runs, and
      its real exit ends in abort(). */
  lemma ReusedPidAborts() returns (steps: seq<Step>)
    ensures Legal(steps, 4) && RunSteps(Start, steps, 4).aborted
  {
    var s0 := StaleSignal();
    var s1 := s0 + [RunTrigger(2, true)];
    OneMore(s0, RunTrigger(2, true), 4);
    assert RunSteps(Start, s1, 4) == State([2], 1, Outside, false, {2}, {}, {2});
    var s2 := s1 + [Deliver(2)];
    OneMore(s1, Deliver(2), 4);
    assert RunSteps(Start, s2, 4) == State([], 0, Draining, false, {2}, {}, {});
    var s3 := s2 + [DrainEnds];
    OneMore(s2, DrainEnds, 4);
    var s4 := s3 + [Exit(2)];
    OneMore(s3, Exit(2), 4);
    assert RunSteps(Start, s4, 4) == State([], 0, Outside, false, {}, {2}, {2});
    steps := s4 + [Deliver(2)];
    OneMore(s4, Deliver(2), 4);
  }

  /** A child that exits while a stale SIGCHLD is pending is not waited for when that
      signal is taken: it stays counted, with no signal left to announce it. */
  lemma LostSignal() returns (steps: seq<Step>)
    ensures Legal(steps, 4)
    ensures RunSteps(Start, steps, 4) == State([3], 1, Outside, false, {}, {3}, {})
  {
    var s0 := StaleSignal();
    var s1 := s0 + [RunTrigger(3, true)];
    OneMore(s0, RunTrigger(3, true), 4);
    assert RunSteps(Start, s1, 4) == State([3], 1, Outside, false, {3}, {}, {2});
    var s2 := s1 + [Exit(3)];
    OneMore(s1, Exit(3), 4);
    assert RunSteps(Start, s2, 4) == State([3], 1, Outside, false, {}, {3}, {2});
    steps := s2 + [Deliver(2)];
    OneMore(s2, Deliver(2), 4);
  }
}
