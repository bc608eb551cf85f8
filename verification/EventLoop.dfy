/** The poll tables of eventloop.c with the callbacks of server.c. */
module EventLoop {
  import opened Client
  import opened PollCalls
  import opened PollRound
  import opened Sequences

  class PollTable {
    const pollfds: array<PollFd>
    const pollcbs: array<PollCb>
    var max_pollfd: nat

    /** The calls made so far, and the connections there have been. */
    ghost var called: seq<Call>
    ghost var known: set<Connection>

    ghost predicate Shaped()
      reads this`max_pollfd
    {
      pollfds.Length == MAX_POLLFD && pollcbs.Length == MAX_POLLFD && max_pollfd <= MAX_POLLFD
    }

    ghost function Fds(): seq<PollFd>
      reads this`max_pollfd, pollfds
      requires Shaped()
    {
      pollfds[..max_pollfd]
    }

    ghost function Cbs(): seq<PollCb>
      reads this`max_pollfd, pollcbs
      requires Shaped()
    {
      pollcbs[..max_pollfd]
    }

    /** Whether each slot, used or free, has flags. */
    ghost function Flags(): (r: seq<bool>)
      reads this`max_pollfd, pollfds
      requires Shaped()
      ensures |r| == MAX_POLLFD && r[..max_pollfd] == ReadyOf(Fds())
    {
      ReadyOf(pollfds[..])
    }

    constructor ()
      ensures Valid() && Remembered() && max_pollfd == 0 && called == [] && fresh(pollfds) && fresh(pollcbs)
    {
      called, known := [], {};
      pollfds := new PollFd[MAX_POLLFD](i => PollFd(0, Events(false, false, false), Events(false, false, false)));
      pollcbs := new PollCb[MAX_POLLFD](i => Device);
      max_pollfd := 0;
    }

    /** register_pollcb; the field revents keeps whatever the slot held before. */
    method Register(fd: int, events: Events, cb: PollCb, closeOnExec: bool) returns (ok: bool)
      requires Shaped()
      modifies this`max_pollfd, pollfds, pollcbs
      ensures Shaped()
      ensures ok <==> closeOnExec && old(max_pollfd) < MAX_POLLFD
      ensures ok ==> Cbs() == old(Cbs()) + [cb]
      ensures ok ==> Fds() == old(Fds()) + [PollFd(fd, events, old(pollfds[max_pollfd].revents))]
      ensures !ok ==> Cbs() == old(Cbs()) && Fds() == old(Fds())
      ensures Flags() == old(Flags())
    {
      var i := max_pollfd;
      if !closeOnExec {
        return false;
      }
      if i >= MAX_POLLFD {
        return false;
      }
      max_pollfd := max_pollfd + 1;
      pollfds[i] := PollFd(fd, events, pollfds[i].revents);
      pollcbs[i] := cb;
      return true;
    }

    /** The memmove over pollfds */
    method MoveFds(i: nat)
      requires Shaped() && i < max_pollfd
      modifies pollfds
      ensures pollfds[..] == MovedDown(old(pollfds[..]), i, max_pollfd)
    {
      forall j | i <= j < max_pollfd - 1 {
        pollfds[j] := pollfds[j + 1];
      }
    }

    /** The memmove over pollcbs */
    method MoveCbs(i: nat)
      requires Shaped() && i < max_pollfd
      modifies pollcbs
      ensures pollcbs[..] == MovedDown(old(pollcbs[..]), i, max_pollfd)
    {
      forall j | i <= j < max_pollfd - 1 {
        pollcbs[j] := pollcbs[j + 1];
      }
    }

    /** unregister_pollcb. The slot that becomes free keeps its flags. */
    method Unregister(i: nat)
      requires Shaped() && i < max_pollfd
      modifies this`max_pollfd, pollfds, pollcbs
      ensures Shaped()
      ensures Fds() == RemoveAt(old(Fds()), i)
      ensures Cbs() == RemoveAt(old(Cbs()), i)
      ensures Flags() == MovedDown(old(Flags()), i, old(max_pollfd))
    {
      MovedPrefix(pollfds[..], i, max_pollfd);
      MovedPrefix(pollcbs[..], i, max_pollfd);
      MovedFlags(pollfds[..], i, max_pollfd);
      MoveFds(i);
      MoveCbs(i);
      max_pollfd := max_pollfd - 1;
    }

    ghost predicate Valid()
      reads this`max_pollfd, pollfds, pollcbs, if Shaped() then Conns(Cbs()) else {}
    {
      Shaped() && AllServed(Cbs(), Fds())
    }

    /** Every connection there has been is as the calls made have left it, whether it is still
        in the table or not. */
    ghost predicate Remembered()
      reads this, pollcbs, known
    {
      && Shaped() && Conns(Cbs()) <= known && Within(called, known)
      && forall c :: c in known ==> Account(c, called)
    }

    ghost function Now(): Tables
      reads this, pollfds, pollcbs
      requires Shaped()
    {
      Tables(Cbs(), Fds(), Flags(), called, known)
    }

    method SetEvents(k: nat, events: Events)
      requires Shaped() && k < max_pollfd
      modifies pollfds
      ensures EventsChanged(old(Fds()), Fds(), k) && Fds()[k].events == events && Flags() == old(Flags())
    {
      pollfds[k] := pollfds[k].(events := events);
    }

    /** The normal end of client_event */
    method KeepEntry(k: nat)
      requires Shaped() && k < max_pollfd && Cbs()[k].Client? && Cbs()[k].cc.Valid()
      requires Separate(Cbs()) && OthersFine(Cbs(), Fds(), k)
      modifies pollfds
      ensures Valid() && AllCalm(Cbs(), Fds(), k + 1)
      ensures EventsChanged(old(Fds()), Fds(), k) && Flags() == old(Flags())
    {
      var cc := pollcbs[k].cc;
      ghost var fds := Fds();
      SetEvents(k, if cc.outbuf.Some? then POLLOUT else POLLIN);
      KeptEntry(Cbs(), fds, Fds(), k);
    }

    /** The error end of client_event */
    method DropEntry(k: nat)
      requires Shaped() && k < max_pollfd && Cbs()[k].Client?
      requires Separate(Cbs()) && OthersFine(Cbs(), Fds(), k)
      modifies this`max_pollfd, pollfds, pollcbs
      ensures Valid() && AllCalm(Cbs(), Fds(), k)
      ensures Cbs() == RemoveAt(old(Cbs()), k) && Fds() == RemoveAt(old(Fds()), k)
      ensures Flags() == MovedDown(old(Flags()), k, old(max_pollfd))
    {
      ghost var cbs, fds := Cbs(), Fds();
      Unregister(k);
      RemovedEntry(cbs, fds, k);
    }

    /** client_event on entry k */
    method ClientEntry(k: nat, io: Io) returns (effect: Effect)
      requires Valid() && AllCalm(Cbs(), Fds(), k) && k < max_pollfd && Cbs()[k].Client?
      modifies this`max_pollfd, pollfds, pollcbs, Cbs()[k].cc
      ensures Valid() && AllCalm(Cbs(), Fds(), k + 1) && !effect.Opened?
      ensures var cc := old(Cbs()[k].cc);
        && cc.Consistent() && old(cc.Consistent()) && cc.delivered <= Concat(cc.answers)
        && cc.Now() == AfterEvent(old(cc.Now()), old(Fds()[k].revents), io)
        && (effect.Closed? <==> Fails(old(Fds()[k].revents), Left(old(cc.Now())), io))
      ensures Affected(effect, old(Cbs()), old(Fds()), Cbs(), Fds(), k)
      ensures Flags() == FlagsAfter(effect, old(Flags()), k, old(max_pollfd))
    {
      var cc := pollcbs[k].cc;
      ghost var cbs, fds := Cbs(), Fds();
      assert Served(cbs[k], fds[k].events) && Calm(cbs[k], fds[k].revents);
      assert OthersFine(cbs, fds, k);
      var ok := cc.ClientEvent(pollfds[k].revents, io);
      if ok {
        KeepEntry(k);
        return Kept;
      }
      DropEntry(k);
      return Closed;
    }

    /** client_accept, called for entry k */
    method AcceptEntry(k: nat, io: Io) returns (effect: Effect)
      requires Valid() && AllCalm(Cbs(), Fds(), k) && k < max_pollfd
      modifies this`max_pollfd, pollfds, pollcbs
      ensures Valid() && AllCalm(Cbs(), Fds(), k) && !effect.Closed?
      ensures Affected(effect, old(Cbs()), old(Fds()), Cbs(), Fds(), k)
      ensures Flags() == FlagsAfter(effect, old(Flags()), k, old(max_pollfd))
      ensures effect.Opened? <==> io.accepted >= 0 && io.sockopt && io.closeOnExec && old(max_pollfd) < 10
      ensures effect.Opened? ==>
        var cb := Cbs()[old(max_pollfd)];
        cb.Client? && fresh(cb.cc) && cb.cc.Consistent() && cb.cc.Now() == NEW_SESSION
      ensures effect.Opened? ==>
        Fds()[old(max_pollfd)] == PollFd(io.accepted, POLLIN, old(pollfds[max_pollfd].revents))
    {
      if io.accepted < 0 || !io.sockopt {
        return Kept;
      }
      var cc := new Connection();
      ghost var cbs, fds := Cbs(), Fds();
      assert cc !in Conns(cbs);
      var ok := Register(io.accepted, POLLIN, Client(cc), io.closeOnExec);
      if !ok {
        return Kept;
      }
      AddedEntry(cbs, fds, k, cc, Fds()[|fds|]);
      return Opened;
    }

    /** A callback brings in no connection but the one it accepts. */
    lemma ConnsKept(effect: Effect, cbs: seq<PollCb>, fds: seq<PollFd>, cbs2: seq<PollCb>, fds2: seq<PollFd>, k: nat)
      requires k < |cbs| && k < |fds| && Affected(effect, cbs, fds, cbs2, fds2, k)
      ensures forall c :: c in Conns(cbs2) ==>
        c in Conns(cbs) || (effect.Opened? && cbs2[|cbs|].Client? && c == cbs2[|cbs|].cc)
    {
    }


    /** One more call has been made, and there are some new connections. */
    ghost method Record(call: Call, newcomers: set<Connection>, k: nat)
      requires Valid() && AllCalm(Cbs(), Fds(), k)
      requires Conns(Cbs()) <= known + newcomers && Within(called + [call], known)
      requires forall c :: c in known && call.cb != Client(c) ==> Account(c, called)
      requires call.cb.Client? ==> Account(call.cb.cc, called + [call])
      requires forall c :: c in newcomers ==> c !in known && Account(c, [])
      modifies this`called, this`known
      ensures Valid() && Remembered() && AllCalm(Cbs(), Fds(), k)
      ensures Now() == old(Now()).(called := old(called) + [call], known := old(known) + newcomers)
    {
      OtherAccounts(known, called, call);
      forall c | c in newcomers
        ensures Account(c, called + [call])
      {
        NotYetCalled(c, called + [call], known);
      }
      called, known := called + [call], known + newcomers;
    }

    /** client_accept, in terms of the calls made. */
    method AcceptByCalls(k: nat, io: Io) returns (effect: Effect, ghost newcomers: set<Connection>)
      requires Valid() && Remembered() && AllCalm(Cbs(), Fds(), k) && k < max_pollfd && Cbs()[k].Listener?
      modifies this`max_pollfd, pollfds, pollcbs
      ensures Valid() && AllCalm(Cbs(), Fds(), k) && Conns(Cbs()) <= known + newcomers
      ensures forall c :: c in newcomers ==> fresh(c) && Account(c, [])
      ensures var call := Call(Listener, old(Fds()[k].revents), io);
        CallMade(old(Now()), k, io, effect, Now().(called := called + [call], known := known + newcomers))
      ensures effect.Opened? ==> fresh(Cbs()[old(max_pollfd)].cc)
      ensures effect.Opened? ==>
        Fds()[old(max_pollfd)] == PollFd(io.accepted, POLLIN, old(pollfds[max_pollfd].revents))
    {
      ghost var before := Now();
      effect := AcceptEntry(k, io);
      newcomers := if effect.Opened? then {Cbs()[max_pollfd - 1].cc} else {};
      ConnsKept(effect, before.cbs, before.fds, Cbs(), Fds(), k);
    }

    /** The callback of the listener at k is called, and the call recorded. */
    method CallListener(k: nat, io: Io) returns (effect: Effect)
      requires Valid() && Remembered() && AllCalm(Cbs(), Fds(), k) && k < max_pollfd && Cbs()[k].Listener?
      modifies this, pollfds, pollcbs
      ensures Valid() && Remembered() && AllCalm(Cbs(), Fds(), k)
      ensures CallMade(old(Now()), k, io, effect, Now())
      ensures effect.Opened? ==> fresh(Cbs()[old(max_pollfd)].cc)
      ensures effect.Opened? ==>
        Fds()[old(max_pollfd)] == PollFd(io.accepted, POLLIN, old(pollfds[max_pollfd].revents))
    {
      ghost var call := Call(Listener, pollfds[k].revents, io);
      ghost var newcomers;
      effect, newcomers := AcceptByCalls(k, io);
      Record(call, newcomers, k);
    }

    /** client_event on entry k, in terms of the calls made. */
    method ClientByCalls(k: nat, io: Io) returns (effect: Effect)
      requires Valid() && Remembered() && AllCalm(Cbs(), Fds(), k) && k < max_pollfd && Cbs()[k].Client?
      modifies this`max_pollfd, pollfds, pollcbs, Cbs()[k].cc
      ensures Valid() && AllCalm(Cbs(), Fds(), k + 1) && Conns(Cbs()) <= known
      ensures var call := Call(old(Cbs()[k]), old(Fds()[k].revents), io);
        && Account(call.cb.cc, called + [call])
        && CallMade(old(Now()), k, io, effect, Now().(called := called + [call]))
    {
      ghost var before := Now();
      ghost var (cc, call) := (Cbs()[k].cc, Call(Cbs()[k], Fds()[k].revents, io));
      assert cc in Conns(Cbs());
      assert Account(cc, called);
      OneMoreCall(cc, called, call);
      effect := ClientEntry(k, io);
      ConnsKept(effect, before.cbs, before.fds, Cbs(), Fds(), k);
    }

    /** The callback of the client at k is called, and the call recorded. */
    method CallClient(k: nat, io: Io) returns (effect: Effect)
      requires Valid() && Remembered() && AllCalm(Cbs(), Fds(), k) && k < max_pollfd && Cbs()[k].Client?
      modifies this, pollfds, pollcbs, Cbs()[k].cc
      ensures Valid() && Remembered() && AllCalm(Cbs(), Fds(), k + 1)
      ensures CallMade(old(Now()), k, io, effect, Now())
    {
      ghost var call := Call(pollcbs[k], pollfds[k].revents, io);
      assert Cbs()[k].cc in Conns(Cbs());
      effect := ClientByCalls(k, io);
      Record(call, {}, k + 1);
    }

    /** The callback of entry k is called, and the call recorded. */
    method Callback(k: nat, io: Io) returns (effect: Effect)
      requires Valid() && Remembered() && AllCalm(Cbs(), Fds(), k) && k < max_pollfd
      modifies this, pollfds, pollcbs, Conns(Cbs())
      ensures Valid() && Remembered() && AllCalm(Cbs(), Fds(), k + 1)
      ensures CallMade(old(Now()), k, io, effect, Now())
      ensures forall c :: c in Conns(Cbs()) ==> c in old(Conns(Cbs())) || fresh(c)
    {
      ghost var before := Now();
      match pollcbs[k] {
        case Device =>
          effect := Kept;
          Record(Call(Device, pollfds[k].revents, io), {}, k + 1);
        case Listener =>
          effect := CallListener(k, io);
        case Client(cc) =>
          assert before.cbs[k].cc in Conns(before.cbs);
          effect := CallClient(k, io);
      }
      ConnsKept(effect, before.cbs, before.fds, Cbs(), Fds(), k);
    }

    /** An entry with flags is called. */
    method CallEntry(k: nat, n: int, io: nat -> Io, ghost s: Tables, ghost visits: seq<Visit>)
      returns (ghost v: Visit)
      requires Valid() && Remembered() && AllCalm(Cbs(), Fds(), k) && k == |visits| < max_pollfd && n > 0 && Flags()[k]
      requires InRound(s, visits, Now(), n) && Recorded(s, visits, io, Now())
      modifies this, pollfds, pollcbs, Conns(Cbs())
      ensures Valid() && Remembered() && AllCalm(Cbs(), Fds(), k + 1)
      ensures InRound(s, visits + [v], Now(), n - 1) && Recorded(s, visits + [v], io, Now())
      ensures forall c :: c in Conns(Cbs()) ==> c in old(Conns(Cbs())) || fresh(c)
    {
      ghost var before := Now();
      var effect := Callback(k, io(k));
      v := Called(effect);
      EntryCalled(s, visits, io, before, n, effect, Now());
    }

    /** The body of the loop in poll_callbacks. */
    method Visit(k: nat, n: int, io: nat -> Io, ghost s: Tables, ghost visits: seq<Visit>)
      returns (left: int, ghost v: Visit)
      requires Valid() && Remembered() && AllCalm(Cbs(), Fds(), k) && k == |visits| < max_pollfd && n > 0
      requires InRound(s, visits, Now(), n) && Recorded(s, visits, io, Now())
      modifies this, pollfds, pollcbs, Conns(Cbs())
      ensures Valid() && Remembered() && AllCalm(Cbs(), Fds(), k + 1)
      ensures InRound(s, visits + [v], Now(), left) && Recorded(s, visits + [v], io, Now())
      ensures left < n || (left == n && max_pollfd == old(max_pollfd))
      ensures forall c :: c in Conns(Cbs()) ==> c in old(Conns(Cbs())) || fresh(c)
    {
      left, v := n, Skipped;
      assert pollfds[k].revents.Any() == Flags()[k];
      if pollfds[k].revents.Any() {
        v := CallEntry(k, n, io, s, visits);
        left := n - 1;
      } else {
        EntrySkipped(s, visits, io, Now(), n);
      }
    }

    /** poll_callbacks: one round over the entries that poll found ready. The calls made are
        exactly those of the visits, and Done says which these are, connections accepted in
        the round included. */
    method PollCallbacks(ready: int, io: nat -> Io) returns (ghost visits: seq<Visit>)
      requires Valid() && Remembered() && AllCalm(Cbs(), Fds(), 0) && ready == CountFrom(ReadyOf(Fds()), 0)
      modifies this, pollfds, pollcbs, Conns(Cbs())
      ensures Valid() && Remembered() && RoundMade(old(Now()), visits, io, Now())
      ensures forall c :: c in Conns(Cbs()) ==> c in old(Conns(Cbs())) || fresh(c)
    {
      ghost var s := Now();
      visits := [];
      StartOfRound(s, io);
      var n := ready;
      var k := 0;
      while k < max_pollfd && n > 0
        invariant Valid() && Remembered() && AllCalm(Cbs(), Fds(), k) && k == |visits|
        invariant InRound(s, visits, Now(), n) && Recorded(s, visits, io, Now())
        invariant forall c :: c in Conns(Cbs()) ==> c in old(Conns(Cbs())) || fresh(c)
        decreases n, max_pollfd - k
      {
        ghost var v;
        n, v := Visit(k, n, io, s, visits);
        visits := visits + [v];
        k := k + 1;
      }
      EndOfRound(s, visits, io, Now(), n);
    }

    /** The first two calls of the round in InheritedHangup. */
    method AcceptThenClose(io: nat -> Io) returns (ghost s1: Tables)
      requires Valid() && Remembered() && AllCalm(Cbs(), Fds(), 0) && max_pollfd == 3
      requires Cbs()[0].Listener? && Cbs()[1].Client? && Fds()[1].revents.other && Accepts(io(0), 3)
      modifies this, pollfds, pollcbs, Conns(Cbs())
      ensures Valid() && Remembered() && AllCalm(Cbs(), Fds(), 2)
      ensures CallMade(old(Now()), 0, io(0), Opened, s1) && CallMade(s1, 1, io(1), Closed, Now())
      ensures Cbs() == [old(Cbs()[0]), old(Cbs()[2]), s1.cbs[3]]
      ensures Fds() == [old(Fds()[0]), old(Fds()[2]), s1.fds[3]]
      ensures s1.cbs[3].Client? && fresh(s1.cbs[3].cc) && s1.fds[3].revents == old(pollfds[3].revents)
    {
      ghost var s := Now();
      var first := CallListener(0, io(0));
      s1 := Now();
      var second := Callback(1, io(1));
      SecondCloses(s, s1, io(1), second, Now());
    }

    /** A state in which a new client loses its connection to the flags of another one: the
        listener accepts it into a slot with a hang-up, the client at 1 closes, and the one at
        2 is passed over while the new one is called and closed in its place. */
    method InheritedHangup(io: nat -> Io) returns (ghost s1: Tables, ghost s2: Tables)
      requires Valid() && Remembered() && AllCalm(Cbs(), Fds(), 0) && max_pollfd == 3
      requires Cbs()[0].Listener? && Cbs()[1].Client? && Accepts(io(0), 3)
      requires Fds()[1].revents.other && pollfds[3].revents.other
      modifies this, pollfds, pollcbs, Conns(Cbs())
      ensures Valid() && Remembered()
      ensures CallMade(old(Now()), 0, io(0), Opened, s1) && s1.cbs[3].Client? && fresh(s1.cbs[3].cc)
      ensures CallMade(s1, 1, io(1), Closed, s2) && CallMade(s2, 2, io(2), Closed, Now())
      ensures called == old(called) + [Call(Listener, old(Fds()[0].revents), io(0)),
                                       Call(old(Cbs()[1]), old(Fds()[1].revents), io(1)),
                                       Call(s1.cbs[3], old(pollfds[3].revents), io(2))]
      ensures Cbs() == [old(Cbs()[0]), old(Cbs()[2])] && Fds() == [old(Fds()[0]), old(Fds()[2])]
    {
      ghost var s := Now();
      s1 := AcceptThenClose(io);
      s2 := Now();
      var third := Callback(2, io(2));
      ThirdCloses(s2, io(2), third, Now());
      ThreeCalls(s, s1, s2, Now(), io, Opened, Closed, third);
    }

    /** ppoll stores flags in every entry: those asked for, and errors. The flags it would
        like to report are arbitrary. */
    method Poll(raw: nat -> Events) returns (n: nat)
      requires Valid() && Remembered()
      modifies pollfds
      ensures Valid() && Remembered() && Now() == AfterPoll(old(Now()), raw)
      ensures AllCalm(Cbs(), Fds(), 0) && n == CountFrom(ReadyOf(Fds()), 0)
    {
      ghost var before := Now();
      forall i | 0 <= i < max_pollfd {
        pollfds[i] := pollfds[i].(revents := Reported(pollfds[i].events, raw(i)));
      }
      assert Fds() == AfterPoll(before, raw).fds;
      assert Flags() == AfterPoll(before, raw).flags;
      PolledCalm(before, raw);
      n := CountFrom(ReadyOf(pollfds[..max_pollfd]), 0);
    }

    /** One turn of eventloop; false of a turn in which poll fails or has nothing ready. */
    method Turn(poll: PollResult) returns (ghost visits: seq<Visit>)
      requires Valid() && Remembered()
      modifies this, pollfds, pollcbs, Conns(Cbs())
      ensures Valid() && Remembered() && TurnMade(old(Now()), poll, visits, Now())
      ensures forall c :: c in Conns(Cbs()) ==> c in old(Conns(Cbs())) || fresh(c)
    {
      visits := [];
      if poll.Flags? {
        var n := Poll(poll.raw);
        visits := PollCallbacks(n, poll.io);
      }
    }

    /** eventloop over any number of turns; in each one the kernel reports any flags, or poll
        fails. No registration starves, and no connection that there has been loses an answer
        or a delivered byte. */
    method Loop(turns: seq<PollResult>) returns (ghost tables: seq<Tables>, ghost visits: seq<seq<Visit>>)
      requires Valid() && Remembered()
      modifies this, pollfds, pollcbs, Conns(Cbs())
      ensures Valid() && Remembered() && Running(turns, tables, visits)
      ensures tables[0] == old(Now()) && tables[|turns|] == Now()
      ensures forall who :: 0 <= who < old(max_pollfd) ==> NotStarved(turns, tables, visits, who)
      ensures forall c :: c in old(known) ==>
        c in known && old(c.answers) <= c.answers && old(c.delivered) <= c.delivered
    {
      tables, visits := [Now()], [];
      for i := 0 to |turns|
        invariant Valid() && Remembered() && Running(turns[..i], tables, visits)
        invariant tables[0] == old(Now()) && tables[i] == Now()
        invariant forall c :: c in Conns(Cbs()) ==> c in old(Conns(Cbs())) || fresh(c)
      {
        ghost var more := Turn(turns[i]);
        OneMoreTurn(turns, i, tables, visits, more, Now());
        tables, visits := tables + [Now()], visits + [more];
      }
      AllTurns(turns);
      RunCalls(turns, tables, visits, |turns|);
      RunStarvesNone(turns, tables, visits);
      forall c | c in old(known)
        ensures c in known && old(c.answers) <= c.answers && old(c.delivered) <= c.delivered
      {
        assert old(Account(c, called)) && Account(c, called);
        SessionOfGrows(c, old(called), called);
      }
    }
  }
}
