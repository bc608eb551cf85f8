/** What follows from one round of poll_callbacks for the registrations that it passes over
    and for those made in it, and what many rounds do for a registration. */
module PollRounds {
  import opened PollRound
  import opened Sequences

  // ----- registrations made in the round

  lemma {:induction false} BeforeGrows(ran: seq<nat>, j: nat)
    ensures RanBefore(ran, j + 1) >= RanBefore(ran, j) + if j in ran then 1 else 0
  {
    if |ran| > 0 {
      BeforeGrows(ran[..|ran| - 1], j);
      assert ran == ran[..|ran| - 1] + [ran[|ran| - 1]];
    }
  }

  /** If all ready entries below i ran, they are among those counted. */
  lemma {:induction false} AllCounted(ran: seq<nat>, ready: seq<bool>, i: nat)
    requires i <= |ready| && forall j :: 0 <= j < i && ready[j] ==> j in ran
    ensures RanBefore(ran, i) + CountFrom(ready, i) >= CountFrom(ready, 0)
  {
    if i > 0 {
      AllCounted(ran, ready, i - 1);
      BeforeGrows(ran, i - 1);
      CountStep(ready, i - 1);
    }
  }

  lemma {:induction false} BeforeMonotone(ran: seq<nat>, i: nat, j: nat)
    requires i <= j
    ensures RanBefore(ran, i) <= RanBefore(ran, j)
  {
    if |ran| > 0 {
      BeforeMonotone(ran[..|ran| - 1], i, j);
    }
  }

  /** A registration made in the round runs in it only in place of a ready one that was
      passed over. */
  lemma NewcomerTakesPlace(l: Log, ready: seq<bool>, j: nat) returns (i: nat)
    requires Done(l, ready) && |ready| <= j < |l.flags| && j in l.ran
    ensures i < |ready| && ready[i] && i !in l.ran
  {
    assert RunsByCount(l, ready, j);
    if forall i :: 0 <= i < |ready| && ready[i] ==> i in l.ran {
      AllCounted(l.ran, ready, |ready|);
      BeforeMonotone(l.ran, |ready|, j);
      assert false;
    }
    i :| 0 <= i < |ready| && ready[i] && i !in l.ran;
  }

  /** A ready entry that was passed over has come closer to the front of the table. */
  lemma PassedOverMovesUp(l: Log, ready: seq<bool>, t: nat)
    requires Done(l, ready) && t < |l.order| && l.order[t] < |ready|
    requires ready[l.order[t]] && l.order[t] !in l.ran
    ensures t < l.order[t]
  {
    var j := l.order[t];
    if t > 0 {
      assert l.order[t - 1] < j && l.order[t - 1] != j - 1;
      assert t - 1 <= l.order[t - 1];
    }
  }

  // ----- many rounds

  datatype Round = Round(log: Log, ready: seq<bool>)

  function Size(rounds: seq<Round>, max: nat): nat {
    if |rounds| == 0 then max else |rounds[|rounds| - 1].log.order|
  }

  /** Each round starts with the table that the one before left. */
  predicate Linked(rounds: seq<Round>, max: nat) {
    |rounds| == 0 ||
    var front, r := rounds[..|rounds| - 1], rounds[|rounds| - 1];
    Linked(front, max) && Done(r.log, r.ready) && |r.ready| == Size(front, max)
  }

  /** What became of a registration: its callback ran, or it waits at a position and was
      ready but passed over in some rounds. */
  datatype Fate = Finished | Waiting(pos: nat, passed: nat)

  function FateAfter(r: Round, f: Fate): Fate {
    if f.Finished? || f.pos in r.log.ran then Finished
    else Waiting(IndexOf(r.log.order, f.pos), if f.pos < |r.ready| && r.ready[f.pos] then f.passed + 1 else f.passed)
  }

  function Fates(rounds: seq<Round>, who: nat): Fate {
    if |rounds| == 0 then Waiting(who, 0)
    else FateAfter(rounds[|rounds| - 1], Fates(rounds[..|rounds| - 1], who))
  }

  lemma OneMoreRound(rounds: seq<Round>, r: Round, max: nat, who: nat)
    requires Linked(rounds, max) && Done(r.log, r.ready) && |r.ready| == Size(rounds, max)
    ensures Linked(rounds + [r], max) && Size(rounds + [r], max) == |r.log.order|
    ensures Fates(rounds + [r], who) == FateAfter(r, Fates(rounds, who))
  {
    assert (rounds + [r])[..|rounds|] == rounds;
  }

  /** No registration starves: over any number of rounds, one whose callback has not run yet
      is still in the table and was passed over at most as often as there were entries in
      front of it. */
  lemma {:induction false} NoStarvation(rounds: seq<Round>, max: nat, who: nat)
    requires Linked(rounds, max) && who < max
    ensures var f := Fates(rounds, who);
      f.Waiting? ==> f.passed + f.pos <= who && f.pos < Size(rounds, max)
  {
    if |rounds| > 0 {
      var front := rounds[..|rounds| - 1];
      NoStarvation(front, max, who);
      var f, r := Fates(front, who), rounds[|rounds| - 1];
      if f.Waiting? && f.pos !in r.log.ran {
        assert |r.ready| == Size(front, max);
        assert f.pos in r.log.order;
        IndexOfMeaning(r.log.order, f.pos);
        if r.ready[f.pos] {
          PassedOverMovesUp(r.log, r.ready, IndexOf(r.log.order, f.pos));
        }
      }
    }
  }
}
