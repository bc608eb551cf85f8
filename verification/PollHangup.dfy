/** A round of poll_callbacks in which a new connection is closed for another one's flags. */
module PollHangup {
  import opened PollRound
  import opened Sequences

  /** Three ready entries and flags left in the free slot. The first opens a connection, the
      second closes; the third is passed over, and the new connection is called in its place
      for the flags in its slot, here a hang-up that closes it. */
  lemma InheritedHangup()
    ensures
      var l := Replay([true, true, true, true], 3, [Called(Opened), Called(Closed), Called(Closed)]);
      && Good(l, [true, true, true], 3, 0) && Done(l, [true, true, true])
      && 3 in l.ran && 3 in l.closed && 2 !in l.ran && l.order == [0, 2]
  {
    var (slots, ready) := ([true, true, true, true], [true, true, true]);
    ThreeReady();
    assert slots[..3] == ready;
    StartGood(slots, 3);
    CalledGood(Start(slots, 3), ready, 0, 3, Opened);
    var l1 := HangupOpened();
    CalledGood(l1, ready, 1, 2, Closed);
    var l2 := HangupClosed();
    CalledGood(l2, ready, 2, 1, Closed);
    RoundIsDone(Close(l2, 2), ready, 3, 0);
  }

  /** After the first visit. */
  lemma HangupOpened() returns (l: Log)
    ensures l == Replay([true, true, true, true], 3, [Called(Opened)]) == Open(Start([true, true, true, true], 3), 0)
    ensures l == Log([0, 1, 2, 3], [0], {}, 0, [true, true, true, true], [true, true, true, true])
  {
    var (slots, v) := ([true, true, true, true], Called(Opened));
    l := Open(Start(slots, 3), 0);
    ReplayMore(slots, 3, [], v);
    assert [] + [v] == [v];
    assert l.order == [0, 1, 2, 3];
  }

  /** After the second one. */
  lemma HangupClosed() returns (l: Log)
    ensures l == Replay([true, true, true, true], 3, [Called(Opened), Called(Closed)])
    ensures l == Close(Replay([true, true, true, true], 3, [Called(Opened)]), 1)
    ensures l == Log([0, 2, 3], [0, 1], {1}, 1, [true, true, true, true], [true, true, true, true])
    ensures Replay([true, true, true, true], 3, [Called(Opened), Called(Closed), Called(Closed)]) == Close(l, 2)
    ensures Close(l, 2).order == [0, 2] && Close(l, 2).ran == [0, 1, 3]
  {
    var (slots, a, b) := ([true, true, true, true], Called(Opened), Called(Closed));
    var l1 := HangupOpened();
    l := Close(l1, 1);
    assert l.order == [0, 2, 3] && l.slots == slots;
    ReplayMore(slots, 3, [a], b);
    assert [a] + [b] == [a, b];
    ReplayMore(slots, 3, [a, b], b);
    assert [a, b] + [b] == [a, b, b];
  }

  lemma ThreeReady()
    ensures CountFrom([true, true, true], 0) == 3
  {
    var ready := [true, true, true];
    assert CountFrom(ready, 3) == 0;
    assert CountFrom(ready, 2) == 1;
    assert CountFrom(ready, 1) == 2;
  }
}
