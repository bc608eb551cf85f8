/** The calls that eventloop.c makes to the callbacks of server.c, and what they do to the poll
    tables in a call, a round and a run, free of the arrays that hold the tables. */
module PollCalls {
  import opened Client
  import opened PollRound
  import opened PollRounds
  import opened Sequences

  const MAX_POLLFD := 10

  datatype PollFd = PollFd(fd: int, events: Events, revents: Events)

  /** The callback and its data: the machine check device (process_mcefd, which leaves the
      tables alone), the listening socket (client_accept), or a client (client_event). */
  datatype PollCb = Device | Listener | Client(cc: Connection)

  function Conns(cbs: seq<PollCb>): set<Connection> {
    set a | 0 <= a < |cbs| && cbs[a].Client? :: cbs[a].cc
  }

  /** Each client has its own connection. */
  predicate Separate(cbs: seq<PollCb>) {
    forall a, b :: 0 <= a < b < |cbs| && cbs[a].Client? && cbs[b].Client? ==> cbs[a].cc != cbs[b].cc
  }

  /** A client entry asks for output exactly while an answer is pending. */
  ghost predicate Served(cb: PollCb, events: Events)
    reads if cb.Client? then {cb.cc} else {}
  {
    cb.Client? ==> cb.cc.Valid() && events == if cb.cc.outbuf.Some? then POLLOUT else POLLIN
  }

  /** Input is not signalled to a client whose answer is pending. */
  ghost predicate Calm(cb: PollCb, revents: Events)
    reads if cb.Client? then {cb.cc} else {}
  {
    cb.Client? && revents.pin && !revents.other ==> cb.cc.outbuf.None?
  }

  ghost predicate AllServed(cbs: seq<PollCb>, fds: seq<PollFd>)
    reads Conns(cbs)
  {
    && |cbs| == |fds| && Separate(cbs)
    && forall a :: 0 <= a < |cbs| ==> Served(cbs[a], fds[a].events)
  }

  /** The entries from k on are calm. */
  ghost predicate AllCalm(cbs: seq<PollCb>, fds: seq<PollFd>, k: nat)
    reads Conns(cbs)
  {
    && |cbs| == |fds|
    && forall a :: k <= a < |cbs| ==> Calm(cbs[a], fds[a].revents)
  }

  /** All is well with the clients other than the one at k. */
  ghost predicate OthersFine(cbs: seq<PollCb>, fds: seq<PollFd>, k: nat)
    requires k < |cbs| && cbs[k].Client? && Separate(cbs)
    reads Conns(cbs) - {cbs[k].cc}
  {
    && |cbs| == |fds|
    && (forall a :: 0 <= a < |cbs| && a != k ==> Served(cbs[a], fds[a].events))
    && (forall a :: k < a < |cbs| ==> Calm(cbs[a], fds[a].revents))
  }

  lemma RemovedEntry(cbs: seq<PollCb>, fds: seq<PollFd>, k: nat)
    requires k < |cbs| && cbs[k].Client? && Separate(cbs) && OthersFine(cbs, fds, k)
    ensures AllServed(RemoveAt(cbs, k), RemoveAt(fds, k)) && AllCalm(RemoveAt(cbs, k), RemoveAt(fds, k), k)
  {
    assert forall a :: 0 <= a < |cbs| - 1 ==> RemoveAt(cbs, k)[a] == cbs[if a < k then a else a + 1];
    assert forall a :: 0 <= a < |cbs| - 1 ==> RemoveAt(fds, k)[a] == fds[if a < k then a else a + 1];
  }

  lemma KeptEntry(cbs: seq<PollCb>, before: seq<PollFd>, after: seq<PollFd>, k: nat)
    requires k < |cbs| && cbs[k].Client? && Separate(cbs) && OthersFine(cbs, before, k)
    requires EventsChanged(before, after, k) && Served(cbs[k], after[k].events)
    ensures AllServed(cbs, after) && AllCalm(cbs, after, k + 1)
  {
  }

  lemma AddedEntry(cbs: seq<PollCb>, fds: seq<PollFd>, k: nat, cc: Connection, fd: PollFd)
    requires AllServed(cbs, fds) && AllCalm(cbs, fds, k)
    requires cc !in Conns(cbs) && cc.Valid() && cc.outbuf.None? && fd.events == POLLIN
    ensures AllServed(cbs + [Client(cc)], fds + [fd]) && AllCalm(cbs + [Client(cc)], fds + [fd], k)
  {
    var cbs2 := cbs + [Client(cc)];
    forall a, b | 0 <= a < b < |cbs2| && cbs2[a].Client? && cbs2[b].Client?
      ensures cbs2[a].cc != cbs2[b].cc
    {
      assert cbs[a].cc in Conns(cbs);
    }
  }

  /** The same descriptor table up to the field events of entry k. */
  predicate EventsChanged(before: seq<PollFd>, after: seq<PollFd>, k: nat) {
    && |after| == |before| && k < |before|
    && (forall t :: 0 <= t < |before| && t != k ==> after[t] == before[t])
    && after[k].fd == before[k].fd && after[k].revents == before[k].revents
  }

  /** Both tables still hold, at each position, what registration l.order[position] put there;
      entries from k on have the flags that poll stored. */
  predicate Tracks(l: Log, cbs0: seq<PollCb>, fds0: seq<PollFd>, cbs: seq<PollCb>, fds: seq<PollFd>, k: nat)
    requires |cbs0| == |fds0|
  {
    && |cbs| == |l.order| && |fds| == |l.order|
    && (forall t :: 0 <= t < |l.order| && l.order[t] < |cbs0| ==>
          cbs[t] == cbs0[l.order[t]] && fds[t].fd == fds0[l.order[t]].fd)
    && (forall t :: k <= t < |l.order| && l.order[t] < |cbs0| ==> fds[t].revents == fds0[l.order[t]].revents)
  }

  function ReadyOf(fds: seq<PollFd>): (r: seq<bool>)
    ensures |r| == |fds| && forall i :: 0 <= i < |r| ==> r[i] == fds[i].revents.Any()
  {
    seq(|fds|, i requires 0 <= i < |fds| => fds[i].revents.Any())
  }

  /** The tables after the callback of entry k, by its effect. */
  predicate Affected(effect: Effect, cbs: seq<PollCb>, fds: seq<PollFd>, cbs2: seq<PollCb>, fds2: seq<PollFd>, k: nat)
    requires k < |cbs| && k < |fds|
  {
    match effect
    case Kept => cbs2 == cbs && EventsChanged(fds, fds2, k)
    case Closed => cbs2 == RemoveAt(cbs, k) && fds2 == RemoveAt(fds, k)
    case Opened => |cbs2| == |cbs| + 1 && cbs < cbs2 && |fds2| == |fds| + 1 && fds < fds2
  }

  /** The flags in all slots of the descriptor table after the callback of entry k. */
  function FlagsAfter(effect: Effect, flags: seq<bool>, k: nat, max: nat): seq<bool>
    requires k < max <= |flags|
  {
    if effect.Closed? then MovedDown(flags, k, max) else flags
  }

  lemma LoggedTracks(l: Log, cbs0: seq<PollCb>, fds0: seq<PollFd>, cbs: seq<PollCb>, fds: seq<PollFd>,
                     cbs2: seq<PollCb>, fds2: seq<PollFd>, k: nat, effect: Effect)
    requires |cbs0| == |fds0| && Tracks(l, cbs0, fds0, cbs, fds, k) && Possible(l, k, Called(effect))
    requires Affected(effect, cbs, fds, cbs2, fds2, k) && |cbs0| <= |l.order| + l.gone
    ensures Tracks(Logged(l, k, Called(effect)), cbs0, fds0, cbs2, fds2, k + 1)
  {
  }

  // ----- the calls

  /** One call of a callback: for which registration, with which flags, and what it met. */
  datatype Call = Call(cb: PollCb, revents: Events, io: Io)

  /** The state of a connection after the given calls, of which those for it count. */
  ghost function SessionOf(c: Connection, calls: seq<Call>): Session {
    if |calls| == 0 then NEW_SESSION
    else
      var (s, last) := (SessionOf(c, calls[..|calls| - 1]), calls[|calls| - 1]);
      if last.cb == Client(c) then AfterEvent(s, last.revents, last.io) else s
  }

  lemma OneMoreCall(c: Connection, calls: seq<Call>, last: Call)
    ensures SessionOf(c, calls + [last]) ==
      if last.cb == Client(c) then AfterEvent(SessionOf(c, calls), last.revents, last.io) else SessionOf(c, calls)
  {
    assert (calls + [last])[..|calls|] == calls;
  }

  /** The clients in the calls are among the known ones. */
  ghost predicate Within(calls: seq<Call>, known: set<Connection>) {
    forall m :: 0 <= m < |calls| && calls[m].cb.Client? ==> calls[m].cb.cc in known
  }

  lemma {:induction false} NotYetCalled(c: Connection, calls: seq<Call>, known: set<Connection>)
    requires Within(calls, known) && c !in known
    ensures SessionOf(c, calls) == NEW_SESSION
  {
    if |calls| > 0 {
      NotYetCalled(c, calls[..|calls| - 1], known);
    }
  }

  /** Calls take back no answer and no delivered byte. */
  lemma {:induction false} SessionOfGrows(c: Connection, before: seq<Call>, calls: seq<Call>)
    requires before <= calls
    ensures SessionOf(c, before).answers <= SessionOf(c, calls).answers
    ensures SessionOf(c, before).delivered <= SessionOf(c, calls).delivered
  {
    if |before| < |calls| {
      var front := calls[..|calls| - 1];
      SessionOfGrows(c, before, front);
      SessionGrows(SessionOf(c, front), calls[|calls| - 1].revents, calls[|calls| - 1].io);
    } else {
      assert before == calls;
    }
  }

  /** The connection is as the calls have left it, and what was delivered is the beginning of
      its answers. */
  ghost predicate Account(c: Connection, calls: seq<Call>)
    reads c
  {
    c.Consistent() && c.Now() == SessionOf(c, calls) && c.delivered <= Concat(c.answers)
  }

  /** A call leaves the connections it is not for alone. */
  lemma OtherAccounts(known: set<Connection>, calls: seq<Call>, call: Call)
    requires forall c :: c in known && call.cb != Client(c) ==> Account(c, calls)
    ensures forall c :: c in known && call.cb != Client(c) ==> Account(c, calls + [call])
  {
    forall c | c in known && call.cb != Client(c)
      ensures Account(c, calls + [call])
    {
      OneMoreCall(c, calls, call);
    }
  }

  predicate Accepts(io: Io, max: nat) {
    io.accepted >= 0 && io.sockopt && io.closeOnExec && max < MAX_POLLFD
  }

  /** The call ends its client's connection: an error flag, a failed send with bytes left
      after the calls before it, or failed input. */
  ghost predicate CallFails(call: Call, before: seq<Call>) {
    call.cb.Client? && Fails(call.revents, Left(SessionOf(call.cb.cc, before)), call.io)
  }

  /** What a call does to tables of max entries after the given earlier calls. */
  ghost function EffectOf(call: Call, before: seq<Call>, max: nat): Effect {
    match call.cb
    case Device => Kept
    case Listener => if Accepts(call.io, max) then Opened else Kept
    case Client(cc) => if CallFails(call, before) then Closed else Kept
  }

  // ----- the tables in a round

  /** The used entries of the tables, the flags in all slots, the calls made so far, and the
      connections there have been. */
  datatype Tables =
    Tables(cbs: seq<PollCb>, fds: seq<PollFd>, flags: seq<bool>, called: seq<Call>, known: set<Connection>)

  ghost predicate Paired(s: Tables) {
    |s.cbs| == |s.fds| <= |s.flags|
  }

  /** s2 are the tables after the callback of entry k. */
  ghost predicate CallMade(s: Tables, k: nat, io: Io, effect: Effect, s2: Tables) {
    && Paired(s) && k < |s.fds|
    && s2.called == s.called + [Call(s.cbs[k], s.fds[k].revents, io)]
    && effect == EffectOf(Call(s.cbs[k], s.fds[k].revents, io), s.called, |s.fds|)
    && Affected(effect, s.cbs, s.fds, s2.cbs, s2.fds, k)
    && s2.flags == FlagsAfter(effect, s.flags, k, |s.fds|)
    && s.known <= s2.known
    && (effect.Opened? ==> |s.fds| < |s.flags| && s2.cbs[|s.cbs|].Client? && s2.cbs[|s.cbs|].cc !in s.known)
  }

  /** The log of a round that starts with the tables s. */
  ghost function LogOf(s: Tables, visits: seq<Visit>): Log
    requires Paired(s)
  {
    Replay(s.flags, |s.fds|, visits)
  }

  /** The calls explain the visits: a position is skipped exactly if its slot has no flags,
      otherwise there is a call, with what io gives for the position, and the visit has the
      effect of that call. */
  ghost predicate Explains(s: Tables, visits: seq<Visit>, calls: seq<Call>, io: nat -> Io)
    requires Paired(s)
  {
    if |visits| == 0 then calls == []
    else
      var (front, k) := (visits[..|visits| - 1], |visits| - 1);
      var l := LogOf(s, front);
      Possible(l, k, visits[k]) &&
      if !l.slots[k] then visits[k] == Skipped && Explains(s, front, calls, io)
      else
        && |calls| > 0
        && var (earlier, call) := (calls[..|calls| - 1], calls[|calls| - 1]);
           && Explains(s, front, earlier, io) && call.io == io(k)
           && visits[k] == Called(EffectOf(call, s.called + earlier, |l.order|))
  }

  /** The calls are for the registrations that the log names: those from before the round with
      their own flags, and new connections. */
  ghost predicate Names(s: Tables, l: Log, calls: seq<Call>)
    requires Paired(s)
  {
    && |calls| == |l.ran|
    && (forall m :: 0 <= m < |calls| && l.ran[m] < |s.fds| ==>
          calls[m].cb == s.cbs[l.ran[m]] && calls[m].revents == s.fds[l.ran[m]].revents)
    && (forall m :: 0 <= m < |calls| && l.ran[m] >= |s.fds| ==>
          calls[m].cb.Client? && calls[m].cb.cc !in s.known)
  }

  /** The registrations made in the round are for new connections. */
  ghost predicate Newcomers(s: Tables, l: Log, cbs: seq<PollCb>) {
    && |cbs| == |l.order|
    && forall t :: 0 <= t < |cbs| && l.order[t] >= |s.cbs| ==> cbs[t].Client? && cbs[t].cc !in s.known
  }

  /** The calls of the round so far. */
  ghost predicate Recorded(s: Tables, visits: seq<Visit>, io: nat -> Io, now: Tables) {
    && Paired(s) && s.called <= now.called && s.known <= now.known
    && Explains(s, visits, now.called[|s.called|..], io)
    && Names(s, LogOf(s, visits), now.called[|s.called|..])
    && Newcomers(s, LogOf(s, visits), now.cbs)
  }

  /** The log of a round from its start: what was visited, the registrations where the tables
      hold them, and the flags in the slots. */
  ghost predicate InRound(s: Tables, visits: seq<Visit>, now: Tables, n: int) {
    && Paired(s) && Paired(now) && LogOf(s, visits).slots == now.flags
    && Good(LogOf(s, visits), ReadyOf(s.fds), |visits|, n)
    && Tracks(LogOf(s, visits), s.cbs, s.fds, now.cbs, now.fds, |visits|)
  }

  /** The tables after a whole round over s. */
  ghost predicate RoundMade(s: Tables, visits: seq<Visit>, io: nat -> Io, now: Tables) {
    && Recorded(s, visits, io, now) && LogOf(s, visits).slots == now.flags
    && Done(LogOf(s, visits), ReadyOf(s.fds))
    && Tracks(LogOf(s, visits), s.cbs, s.fds, now.cbs, now.fds, |LogOf(s, visits).order|)
  }

  lemma NoneCalled(called: seq<Call>)
    ensures called[|called|..] == [] && called <= called
  {
  }

  lemma StartOfRound(s: Tables, io: nat -> Io)
    requires Paired(s) && s.flags[..|s.fds|] == ReadyOf(s.fds)
    ensures InRound(s, [], s, CountFrom(ReadyOf(s.fds), 0)) && Recorded(s, [], io, s)
  {
    StartGood(s.flags, |s.fds|);
    NoneCalled(s.called);
  }

  lemma EndOfRound(s: Tables, visits: seq<Visit>, io: nat -> Io, now: Tables, n: int)
    requires InRound(s, visits, now, n) && Recorded(s, visits, io, now) && (|visits| >= |now.fds| || n <= 0)
    ensures RoundMade(s, visits, io, now)
  {
    RoundIsDone(LogOf(s, visits), ReadyOf(s.fds), |visits|, n);
  }

  /** An entry without flags. */
  lemma SkippedInRound(s: Tables, visits: seq<Visit>, now: Tables, n: int)
    requires InRound(s, visits, now, n) && n > 0 && |visits| < |now.fds| && !now.flags[|visits|]
    ensures InRound(s, visits + [Skipped], now, n) && LogOf(s, visits + [Skipped]) == LogOf(s, visits)
  {
    FlagAt(LogOf(s, visits), |visits|);
    SkippedGood(LogOf(s, visits), ReadyOf(s.fds), |visits|, n);
    ReplayMore(s.flags, |s.fds|, visits, Skipped);
  }

  lemma SkippedRecorded(s: Tables, visits: seq<Visit>, io: nat -> Io, now: Tables)
    requires Recorded(s, visits, io, now) && LogOf(s, visits + [Skipped]) == LogOf(s, visits)
    requires |visits| < |now.cbs| <= |now.flags| && !now.flags[|visits|] && LogOf(s, visits).slots == now.flags
    ensures Recorded(s, visits + [Skipped], io, now)
  {
    assert (visits + [Skipped])[..|visits|] == visits;
  }

  lemma EntrySkipped(s: Tables, visits: seq<Visit>, io: nat -> Io, now: Tables, n: int)
    requires InRound(s, visits, now, n) && Recorded(s, visits, io, now)
    requires n > 0 && |visits| < |now.fds| && !now.flags[|visits|]
    ensures InRound(s, visits + [Skipped], now, n) && Recorded(s, visits + [Skipped], io, now)
  {
    SkippedInRound(s, visits, now, n);
    SkippedRecorded(s, visits, io, now);
  }

  lemma LoggedSlots(l: Log, k: nat, effect: Effect)
    requires Possible(l, k, Called(effect))
    ensures Logged(l, k, Called(effect)).slots == FlagsAfter(effect, l.slots, k, |l.order|)
  {
  }

  lemma FlaggedGood(l: Log, ready: seq<bool>, k: nat, n: int, effect: Effect)
    requires Good(l, ready, k, n) && n > 0 && Possible(l, k, Called(effect)) && l.slots[k]
    ensures Good(Logged(l, k, Called(effect)), ready, k + 1, n - 1)
  {
    FlagAt(l, k);
    CalledGood(l, ready, k, n, effect);
  }

  /** An entry with flags is called. */
  lemma CalledLog(s: Tables, visits: seq<Visit>, n: int, effect: Effect)
    requires Paired(s) && Good(LogOf(s, visits), ReadyOf(s.fds), |visits|, n) && n > 0
    requires Possible(LogOf(s, visits), |visits|, Called(effect)) && LogOf(s, visits).slots[|visits|]
    ensures LogOf(s, visits + [Called(effect)]) == Logged(LogOf(s, visits), |visits|, Called(effect))
    ensures Good(LogOf(s, visits + [Called(effect)]), ReadyOf(s.fds), |visits| + 1, n - 1)
  {
    FlaggedGood(LogOf(s, visits), ReadyOf(s.fds), |visits|, n, effect);
    ReplayMore(s.flags, |s.fds|, visits, Called(effect));
  }

  lemma CalledTracks(l: Log, s: Tables, now: Tables, k: nat, io: Io, effect: Effect, after: Tables)
    requires Paired(s) && CallMade(now, k, io, effect, after) && Possible(l, k, Called(effect))
    requires l.slots == now.flags && Tracks(l, s.cbs, s.fds, now.cbs, now.fds, k) && |s.fds| <= |l.order| + l.gone
    ensures Paired(after) && Logged(l, k, Called(effect)).slots == after.flags
    ensures Tracks(Logged(l, k, Called(effect)), s.cbs, s.fds, after.cbs, after.fds, k + 1)
  {
    LoggedSlots(l, k, effect);
    LoggedTracks(l, s.cbs, s.fds, now.cbs, now.fds, after.cbs, after.fds, k, effect);
  }

  /** Its callback has changed the tables. */
  lemma CalledInRound(s: Tables, visits: seq<Visit>, now: Tables, n: int, io: Io, effect: Effect, after: Tables)
    requires InRound(s, visits, now, n) && n > 0 && CallMade(now, |visits|, io, effect, after) && now.flags[|visits|]
    ensures InRound(s, visits + [Called(effect)], after, n - 1)
    ensures LogOf(s, visits + [Called(effect)]) == Logged(LogOf(s, visits), |visits|, Called(effect))
  {
    CalledLog(s, visits, n, effect);
    CalledTracks(LogOf(s, visits), s, now, |visits|, io, effect, after);
  }

  lemma ExplainsMore(s: Tables, visits: seq<Visit>, calls: seq<Call>, io: nat -> Io, call: Call, effect: Effect)
    requires Paired(s) && Explains(s, visits, calls, io) && call.io == io(|visits|)
    requires var l := LogOf(s, visits);
      && Possible(l, |visits|, Called(effect)) && l.slots[|visits|]
      && effect == EffectOf(call, s.called + calls, |l.order|)
    ensures Explains(s, visits + [Called(effect)], calls + [call], io)
  {
    assert (visits + [Called(effect)])[..|visits|] == visits;
    assert (calls + [call])[..|calls|] == calls;
  }

  lemma NamesMore(s: Tables, l: Log, now: Tables, k: nat, calls: seq<Call>, call: Call, effect: Effect)
    requires Paired(s) && Names(s, l, calls) && Newcomers(s, l, now.cbs) && Possible(l, k, Called(effect))
    requires Tracks(l, s.cbs, s.fds, now.cbs, now.fds, k) && Arranged(l, k)
    requires call.cb == now.cbs[k] && call.revents == now.fds[k].revents
    ensures Names(s, Logged(l, k, Called(effect)), calls + [call])
  {
    assert l.order[k] == k + l.gone;
  }

  lemma NewcomersMore(s: Tables, l: Log, now: Tables, k: nat, io: Io, effect: Effect, after: Tables)
    requires Newcomers(s, l, now.cbs) && Possible(l, k, Called(effect)) && s.known <= now.known
    requires CallMade(now, k, io, effect, after)
    ensures Newcomers(s, Logged(l, k, Called(effect)), after.cbs)
  {
  }

  lemma LaterCalls(earlier: seq<Call>, called: seq<Call>, call: Call)
    requires earlier <= called
    ensures earlier + called[|earlier|..] == called
    ensures (called + [call])[|earlier|..] == called[|earlier|..] + [call]
  {
  }

  lemma CalledRecorded(s: Tables, visits: seq<Visit>, io: nat -> Io, now: Tables, n: int, effect: Effect, after: Tables)
    requires InRound(s, visits, now, n) && Recorded(s, visits, io, now)
    requires CallMade(now, |visits|, io(|visits|), effect, after) && now.flags[|visits|]
    requires LogOf(s, visits + [Called(effect)]) == Logged(LogOf(s, visits), |visits|, Called(effect))
    ensures Recorded(s, visits + [Called(effect)], io, after)
  {
    var (l, k) := (LogOf(s, visits), |visits|);
    var (calls, call) := (now.called[|s.called|..], Call(now.cbs[k], now.fds[k].revents, io(k)));
    LaterCalls(s.called, now.called, call);
    ExplainsMore(s, visits, calls, io, call, effect);
    NamesMore(s, l, now, k, calls, call, effect);
    NewcomersMore(s, l, now, k, io(k), effect, after);
  }

  lemma SecondCloses(s: Tables, s1: Tables, io: Io, effect: Effect, s2: Tables)
    requires Paired(s) && |s.fds| == 3 && Affected(Opened, s.cbs, s.fds, s1.cbs, s1.fds, 0)
    requires s.cbs[1].Client? && s.fds[1].revents.other && CallMade(s1, 1, io, effect, s2)
    ensures effect == Closed
    ensures s2.cbs == [s.cbs[0], s.cbs[2], s1.cbs[3]] && s2.fds == [s.fds[0], s.fds[2], s1.fds[3]]
  {
  }

  lemma ThirdCloses(s2: Tables, io: Io, effect: Effect, s3: Tables)
    requires Paired(s2) && |s2.fds| == 3 && s2.cbs[2].Client? && s2.fds[2].revents.other
    requires CallMade(s2, 2, io, effect, s3)
    ensures effect == Closed && s3.cbs == [s2.cbs[0], s2.cbs[1]] && s3.fds == [s2.fds[0], s2.fds[1]]
  {
  }

  lemma ThreeCalls(s: Tables, s1: Tables, s2: Tables, s3: Tables, io: nat -> Io, first: Effect, second: Effect,
                   third: Effect)
    requires CallMade(s, 0, io(0), first, s1) && CallMade(s1, 1, io(1), second, s2)
    requires CallMade(s2, 2, io(2), third, s3)
    ensures s3.called == s.called + [Call(s.cbs[0], s.fds[0].revents, io(0)),
                                     Call(s1.cbs[1], s1.fds[1].revents, io(1)),
                                     Call(s2.cbs[2], s2.fds[2].revents, io(2))]
  {
  }

  lemma EntryCalled(s: Tables, visits: seq<Visit>, io: nat -> Io, now: Tables, n: int, effect: Effect, after: Tables)
    requires InRound(s, visits, now, n) && Recorded(s, visits, io, now) && n > 0
    requires CallMade(now, |visits|, io(|visits|), effect, after) && now.flags[|visits|]
    ensures InRound(s, visits + [Called(effect)], after, n - 1) && Recorded(s, visits + [Called(effect)], io, after)
  {
    CalledInRound(s, visits, now, n, io(|visits|), effect, after);
    CalledRecorded(s, visits, io, now, n, effect, after);
  }

  lemma {:induction false} RanByCall(s: Tables, visits: seq<Visit>, calls: seq<Call>, io: nat -> Io)
    requires Paired(s) && Explains(s, visits, calls, io)
    ensures |LogOf(s, visits).ran| == |calls|
    ensures forall j :: j in LogOf(s, visits).ran ==> j < |visits| + LogOf(s, visits).gone
    ensures forall j :: j in LogOf(s, visits).closed ==> j < |visits| + LogOf(s, visits).gone
  {
    if |visits| > 0 {
      var (front, k) := (visits[..|visits| - 1], |visits| - 1);
      RanByCall(s, front, if LogOf(s, front).slots[k] then calls[..|calls| - 1] else calls, io);
    }
  }

  /** The newest entry of the log is closed exactly if its call fails, and the others are
      closed or not as before. */
  lemma LastCall(l: Log, k: nat, v: Visit, m: nat)
    requires Possible(l, k, v) && v.Called? && m <= |l.ran|
    requires forall j :: j in l.ran || j in l.closed ==> j < k + l.gone
    ensures var l2 := Logged(l, k, v);
      l2.ran[m] in l2.closed <==> if m < |l.ran| then l.ran[m] in l.closed else v == Called(Closed)
  {
    if m < |l.ran| {
      assert l.ran[m] in l.ran;
    }
  }

  lemma {:induction false} ClosedByCall(s: Tables, visits: seq<Visit>, calls: seq<Call>, io: nat -> Io, m: nat)
    requires Paired(s) && Explains(s, visits, calls, io) && m < |calls|
    ensures m < |LogOf(s, visits).ran|
    ensures LogOf(s, visits).ran[m] in LogOf(s, visits).closed <==> CallFails(calls[m], s.called + calls[..m])
  {
    RanByCall(s, visits, calls, io);
    var (front, k) := (visits[..|visits| - 1], |visits| - 1);
    if LogOf(s, front).slots[k] {
      var earlier := calls[..|calls| - 1];
      RanByCall(s, front, earlier, io);
      LastCall(LogOf(s, front), k, visits[k], m);
      assert earlier[..m] == calls[..m];
      if m < |earlier| {
        ClosedByCall(s, front, earlier, io, m);
      }
    } else {
      ClosedByCall(s, front, calls, io, m);
    }
  }

  lemma CallsBefore(earlier: seq<Call>, called: seq<Call>, m: nat)
    requires earlier <= called && m < |called| - |earlier|
    ensures called[|earlier|..][m] == called[|earlier| + m]
    ensures earlier + called[|earlier|..][..m] == called[..|earlier| + m]
  {
  }

  /** A registration leaves the tables in a round exactly if its call fails, as that call and
      those before it determine. */
  lemma ClosedExactly(s: Tables, visits: seq<Visit>, io: nat -> Io, now: Tables, m: nat)
    requires Recorded(s, visits, io, now) && m < |LogOf(s, visits).ran|
    ensures |now.called| == |s.called| + |LogOf(s, visits).ran|
    ensures LogOf(s, visits).ran[m] in LogOf(s, visits).closed <==>
      CallFails(now.called[|s.called| + m], now.called[..|s.called| + m])
  {
    var calls := now.called[|s.called|..];
    RanByCall(s, visits, calls, io);
    ClosedByCall(s, visits, calls, io, m);
    CallsBefore(s.called, now.called, m);
  }

  // ----- turns

  function Reported(asked: Events, raw: Events): Events {
    Events(raw.pin && asked.pin, raw.pout && asked.pout, raw.other)
  }

  /** The return of ppoll: an error or nothing ready, or flags; with what the callbacks meet. */
  datatype PollResult = Nothing | Flags(raw: nat -> Events, io: nat -> Io)

  /** The tables after ppoll has stored its flags. It leaves those in the free slots alone. */
  ghost function AfterPoll(s: Tables, raw: nat -> Events): Tables
    requires Paired(s)
  {
    var fds := seq(|s.fds|, i requires 0 <= i < |s.fds| => s.fds[i].(revents := Reported(s.fds[i].events, raw(i))));
    s.(fds := fds, flags := ReadyOf(fds) + s.flags[|fds|..])
  }

  lemma PolledCalm(s: Tables, raw: nat -> Events)
    requires Paired(s) && AllServed(s.cbs, s.fds)
    ensures AllServed(s.cbs, AfterPoll(s, raw).fds) && AllCalm(s.cbs, AfterPoll(s, raw).fds, 0)
  {
    var fds := AfterPoll(s, raw).fds;
    forall a | 0 <= a < |s.cbs|
      ensures Served(s.cbs[a], fds[a].events) && Calm(s.cbs[a], fds[a].revents)
    {
      assert Served(s.cbs[a], s.fds[a].events);
      assert fds[a] == s.fds[a].(revents := Reported(s.fds[a].events, raw(a)));
    }
  }

  /** A waiting registration is where it is said to be. */
  predicate Holds(f: Fate, cbs: seq<PollCb>, fds: seq<PollFd>, cb: PollCb, fd: int) {
    f.Waiting? ==> f.pos < |cbs| && f.pos < |fds| && cbs[f.pos] == cb && fds[f.pos].fd == fd
  }

  lemma HoldsAfter(r: Round, f: Fate, cbs: seq<PollCb>, fds: seq<PollFd>, cbs2: seq<PollCb>, fds2: seq<PollFd>,
                   cb: PollCb, fd: int)
    requires Holds(f, cbs, fds, cb, fd) && |cbs| == |fds| == |r.ready| && Done(r.log, r.ready)
    requires Tracks(r.log, cbs, fds, cbs2, fds2, |r.log.order|)
    ensures Holds(FateAfter(r, f), cbs2, fds2, cb, fd)
  {
    if f.Waiting? && f.pos !in r.log.ran {
      IndexOfMeaning(r.log.order, f.pos);
      assert f.pos in r.log.order;
    }
  }

  /** One turn of eventloop leads from s to now. */
  ghost predicate TurnMade(s: Tables, poll: PollResult, visits: seq<Visit>, now: Tables) {
    && Paired(s) && Paired(now)
    && match poll
       case Nothing => visits == [] && now == s
       case Flags(raw, io) => RoundMade(AfterPoll(s, raw), visits, io, now)
  }

  ghost predicate TurnAt(turns: seq<PollResult>, tables: seq<Tables>, visits: seq<seq<Visit>>, i: nat) {
    i < |turns| && i < |visits| && i + 1 < |tables| && TurnMade(tables[i], turns[i], visits[i], tables[i + 1])
  }

  /** A run of eventloop: the tables before the first and after each turn. */
  ghost predicate Running(turns: seq<PollResult>, tables: seq<Tables>, visits: seq<seq<Visit>>) {
    && |tables| == |turns| + 1 && |visits| == |turns| && Paired(tables[0])
    && forall i :: 0 <= i < |turns| ==> TurnAt(turns, tables, visits, i)
  }

  lemma RunPaired(turns: seq<PollResult>, tables: seq<Tables>, visits: seq<seq<Visit>>, i: nat)
    requires Running(turns, tables, visits) && i <= |turns|
    ensures Paired(tables[i])
  {
    if i > 0 {
      assert TurnAt(turns, tables, visits, i - 1);
    }
  }

  /** The round in a turn, if there is one. */
  ghost function RoundIn(s: Tables, poll: PollResult, visits: seq<Visit>): seq<Round>
    requires Paired(s)
  {
    match poll
    case Nothing => []
    case Flags(raw, _) => [Round(LogOf(AfterPoll(s, raw), visits), ReadyOf(AfterPoll(s, raw).fds))]
  }

  /** The rounds of the turns below i, one for each in which poll has returned flags. */
  ghost function RoundsOf(turns: seq<PollResult>, tables: seq<Tables>, visits: seq<seq<Visit>>, i: nat): seq<Round>
    requires Running(turns, tables, visits) && i <= |turns|
  {
    if i == 0 then []
    else
      RunPaired(turns, tables, visits, i - 1);
      RoundsOf(turns, tables, visits, i - 1) + RoundIn(tables[i - 1], turns[i - 1], visits[i - 1])
  }

  /** The callback cb is among the calls made since the earlier ones. */
  ghost predicate CalledSince(cb: PollCb, earlier: seq<Call>, called: seq<Call>) {
    exists m :: |earlier| <= m < |called| && called[m].cb == cb
  }

  /** The rounds that lead from the first tables to the present ones fit together, and the
      registration who was called or is where its fate says. */
  ghost predicate Fits(rounds: seq<Round>, first: Tables, now: Tables, who: nat)
    requires Paired(first) && who < |first.fds|
  {
    && Linked(rounds, |first.fds|) && Size(rounds, |first.fds|) == |now.fds| && first.called <= now.called
    && Holds(Fates(rounds, who), now.cbs, now.fds, first.cbs[who], first.fds[who].fd)
    && (Fates(rounds, who).Finished? ==> CalledSince(first.cbs[who], first.called, now.called))
  }

  lemma RanWasCalled(s: Tables, visits: seq<Visit>, io: nat -> Io, now: Tables, k: nat)
    requires RoundMade(s, visits, io, now) && k < |s.fds| && k in LogOf(s, visits).ran
    ensures CalledSince(s.cbs[k], s.called, now.called)
  {
    var ran := LogOf(s, visits).ran;
    var m :| 0 <= m < |ran| && ran[m] == k;
    assert now.called[|s.called|..][m].cb == s.cbs[k];
    assert now.called[|s.called| + m].cb == s.cbs[k];
  }

  lemma RoundFits(rounds: seq<Round>, first: Tables, s: Tables, visits: seq<Visit>, io: nat -> Io, now: Tables,
                  who: nat)
    requires Paired(first) && who < |first.fds| && Fits(rounds, first, s, who) && RoundMade(s, visits, io, now)
    ensures Fits(rounds + [Round(LogOf(s, visits), ReadyOf(s.fds))], first, now, who)
  {
    var (r, f) := (Round(LogOf(s, visits), ReadyOf(s.fds)), Fates(rounds, who));
    HoldsAfter(r, f, s.cbs, s.fds, now.cbs, now.fds, first.cbs[who], first.fds[who].fd);
    OneMoreRound(rounds, r, |first.fds|, who);
    if f.Finished? {
      var m :| |first.called| <= m < |s.called| && s.called[m].cb == first.cbs[who];
      assert now.called[m].cb == first.cbs[who];
    } else if f.pos in r.log.ran {
      RanWasCalled(s, visits, io, now, f.pos);
    }
  }

  lemma PolledFits(rounds: seq<Round>, first: Tables, s: Tables, raw: nat -> Events, who: nat)
    requires Paired(first) && who < |first.fds| && Paired(s) && Fits(rounds, first, s, who)
    ensures Fits(rounds, first, AfterPoll(s, raw), who)
  {
    var polled := AfterPoll(s, raw);
    assert |polled.fds| == |s.fds| && polled.cbs == s.cbs && polled.called == s.called;
    assert forall i :: 0 <= i < |s.fds| ==> polled.fds[i].fd == s.fds[i].fd;
  }

  lemma TurnFits(rounds: seq<Round>, first: Tables, s: Tables, poll: PollResult, visits: seq<Visit>, now: Tables,
                 who: nat)
    requires Paired(first) && who < |first.fds| && Paired(s) && Fits(rounds, first, s, who)
    requires TurnMade(s, poll, visits, now)
    ensures Fits(rounds + RoundIn(s, poll, visits), first, now, who)
  {
    if poll.Flags? {
      PolledFits(rounds, first, s, poll.raw, who);
      RoundFits(rounds, first, AfterPoll(s, poll.raw), visits, poll.io, now, who);
    } else {
      assert rounds + [] == rounds;
    }
  }

  lemma StartFits(turns: seq<PollResult>, tables: seq<Tables>, visits: seq<seq<Visit>>, who: nat)
    requires Running(turns, tables, visits) && who < |tables[0].fds|
    ensures Fits(RoundsOf(turns, tables, visits, 0), tables[0], tables[0], who)
  {
  }

  lemma NextFits(turns: seq<PollResult>, tables: seq<Tables>, visits: seq<seq<Visit>>, i: nat, who: nat)
    requires Running(turns, tables, visits) && i < |turns| && who < |tables[0].fds|
    requires Fits(RoundsOf(turns, tables, visits, i), tables[0], tables[i], who)
    ensures Fits(RoundsOf(turns, tables, visits, i + 1), tables[0], tables[i + 1], who)
  {
    var rounds := RoundsOf(turns, tables, visits, i);
    RunPaired(turns, tables, visits, i);
    assert TurnAt(turns, tables, visits, i);
    TurnFits(rounds, tables[0], tables[i], turns[i], visits[i], tables[i + 1], who);
    assert RoundsOf(turns, tables, visits, i + 1) == rounds + RoundIn(tables[i], turns[i], visits[i]);
  }

  lemma {:induction false} RunFits(turns: seq<PollResult>, tables: seq<Tables>, visits: seq<seq<Visit>>, i: nat,
                                   who: nat)
    requires Running(turns, tables, visits) && i <= |turns| && who < |tables[0].fds|
    ensures Fits(RoundsOf(turns, tables, visits, i), tables[0], tables[i], who)
  {
    if i == 0 {
      StartFits(turns, tables, visits, who);
    } else {
      RunFits(turns, tables, visits, i - 1, who);
      NextFits(turns, tables, visits, i - 1, who);
    }
  }

  /** After the run, a registration was called, or it is in both tables and was passed over
      when ready at most as often as there were entries in front of it. */
  ghost predicate NotStarved(turns: seq<PollResult>, tables: seq<Tables>, visits: seq<seq<Visit>>, who: nat)
    requires Running(turns, tables, visits) && who < |tables[0].fds|
  {
    var (first, last) := (tables[0], tables[|turns|]);
    match Fates(RoundsOf(turns, tables, visits, |turns|), who)
    case Finished => CalledSince(first.cbs[who], first.called, last.called)
    case Waiting(pos, passed) =>
      && passed + pos <= who && pos < |last.cbs| && pos < |last.fds|
      && last.cbs[pos] == first.cbs[who] && last.fds[pos].fd == first.fds[who].fd
  }

  lemma RunStarvesNone(turns: seq<PollResult>, tables: seq<Tables>, visits: seq<seq<Visit>>)
    requires Running(turns, tables, visits)
    ensures forall who :: 0 <= who < |tables[0].fds| ==> NotStarved(turns, tables, visits, who)
  {
    forall who | 0 <= who < |tables[0].fds|
      ensures NotStarved(turns, tables, visits, who)
    {
      RunFits(turns, tables, visits, |turns|, who);
      NoStarvation(RoundsOf(turns, tables, visits, |turns|), |tables[0].fds|, who);
    }
  }

  lemma {:induction false} RunCalls(turns: seq<PollResult>, tables: seq<Tables>, visits: seq<seq<Visit>>, i: nat)
    requires Running(turns, tables, visits) && i <= |turns|
    ensures tables[0].called <= tables[i].called && tables[0].known <= tables[i].known
  {
    if i > 0 {
      RunCalls(turns, tables, visits, i - 1);
      assert TurnAt(turns, tables, visits, i - 1);
    }
  }

  lemma OneMoreTurn(turns: seq<PollResult>, i: nat, tables: seq<Tables>, visits: seq<seq<Visit>>, more: seq<Visit>,
                    now: Tables)
    requires i < |turns| && Running(turns[..i], tables, visits) && TurnMade(tables[i], turns[i], more, now)
    ensures Running(turns[..i + 1], tables + [now], visits + [more])
  {
    var (ts, ss, vs) := (turns[..i + 1], tables + [now], visits + [more]);
    forall t | 0 <= t < i + 1
      ensures TurnAt(ts, ss, vs, t)
    {
      if t < i {
        assert TurnAt(turns[..i], tables, visits, t);
      }
    }
  }

  lemma AllTurns(turns: seq<PollResult>)
    ensures turns[..|turns|] == turns
  {
  }

  lemma MovedPrefix<T>(s: seq<T>, i: nat, max: nat)
    requires i < max <= |s|
    ensures MovedDown(s, i, max)[..max - 1] == RemoveAt(s[..max], i)
  {
  }

  lemma MovedFlags(fds: seq<PollFd>, i: nat, max: nat)
    requires i < max <= |fds|
    ensures ReadyOf(MovedDown(fds, i, max)) == MovedDown(ReadyOf(fds), i, max)
  {
  }
}
