/** A client connection of server.c: struct clientcon and the work of client_event on it. */
module Client {
  import opened Wrappers

  /** A set of poll flags: POLLIN, POLLOUT, and whether any other one is in it. */
  datatype Events = Events(pin: bool, pout: bool, other: bool) {
    predicate Any() {
      pin || pout || other
    }
  }

  const POLLIN := Events(true, false, false)
  const POLLOUT := Events(false, true, false)

  /** User and group, of a peer or as configured; -1U stands for none configured. */
  datatype Credentials = Credentials(uid: nat, gid: nat)

  const NO_ID: nat := 0xFFFF_FFFF

  /** What the kernel and the command interpreter answer during one event: the results of
      send, ioctl(FIONREAD) and recvmsg, the credentials that came with the message and those
      configured, the result of the send in access_check, the text of the answer to the
      commands, and the results of accept, setsockopt and fcntl. */
  datatype Io = Io(sent: int, avail: int, received: int, text: string, peer: Option<Credentials>, acc: Credentials,
                   noticed: int, answer: string, accepted: int, sockopt: bool, closeOnExec: bool)

  /** root, the configured user, or a member of the configured group */
  predicate Permitted(uc: Credentials, acc: Credentials) {
    uc.uid == 0 || (acc.uid != NO_ID && uc.uid == acc.uid) || (acc.gid != NO_ID && uc.gid == acc.gid)
  }

  predicate Granted(io: Io) {
    io.peer.Some? && Permitted(io.peer.value, io.acc)
  }

  predicate Denied(io: Io) {
    io.peer.Some? && !Permitted(io.peer.value, io.acc)
  }

  const DENIED := "permission denied\n"

  function Concat(ss: seq<string>): string {
    if |ss| == 0 then "" else Concat(ss[..|ss| - 1]) + ss[|ss| - 1]
  }

  /** The bytes that send takes when left are offered to it. */
  function Taken(sent: int, left: nat): nat {
    if left == 0 || sent < 0 then 0 else if sent <= left then sent else left
  }

  /** client_input succeeds: nothing was there, or all of it was read from a permitted peer. */
  predicate ReadsInput(io: Io) {
    io.avail == 0 || (io.avail > 0 && io.received >= io.avail && Granted(io))
  }

  /** What access_check sends to a client that it turns away. */
  function Notice(io: Io): string {
    if io.avail > 0 && io.received >= io.avail && Denied(io) then DENIED[..Taken(io.noticed, |DENIED|)] else ""
  }

  /** The event ends the connection: an error flag, a failed send with left bytes to go, or
      failed input. */
  predicate Fails(revents: Events, left: nat, io: Io) {
    revents.other || (revents.pout && left > 0 && io.sent < 0) || (revents.pin && !ReadsInput(io))
  }

  /** The event gets as far as the input branch. */
  predicate ReachesInput(revents: Events, left: nat, io: Io) {
    revents.pin && !revents.other && !(revents.pout && left > 0 && io.sent < 0)
  }

  /** Without input there is no command and the answer is empty. */
  function AnswerTo(io: Io): string {
    if io.avail == 0 then "" else io.answer
  }

  /** What can be said of a connection from outside: the bytes of the answer that is being
      sent, if there is one, the answers made, the bytes of them that the client has been
      sent, and all that it has been sent. */
  datatype Session = Session(pending: Option<string>, answers: seq<string>, delivered: string, wire: string)

  const NEW_SESSION := Session(None, [], "", "")

  function Left(s: Session): nat {
    if s.pending.Some? then |s.pending.value| else 0
  }

  /** The POLLOUT branch: the bytes that send takes, and no answer is pending after its last
      byte. */
  function AfterOutput(s: Session, sent: int): Session {
    if s.pending.None? then s
    else
      var (p, n) := (s.pending.value, Taken(sent, Left(s)));
      Session(if n == |p| then None else Some(p[n..]), s.answers, s.delivered + p[..n], s.delivered + p[..n])
  }

  /** The POLLIN branch: one more answer, or the end with a notice. */
  function AfterInput(s: Session, io: Io): Session {
    if ReadsInput(io) then s.(pending := Some(AnswerTo(io)), answers := s.answers + [AnswerTo(io)])
    else s.(wire := s.wire + Notice(io))
  }

  /** client_event */
  function AfterEvent(s: Session, revents: Events, io: Io): Session {
    if revents.other || (revents.pout && Left(s) > 0 && io.sent < 0) then s
    else
      var t := if revents.pout then AfterOutput(s, io.sent) else s;
      if revents.pin then AfterInput(t, io) else t
  }

  /** No answer and no delivered byte is ever taken back. */
  lemma SessionGrows(s: Session, revents: Events, io: Io)
    ensures s.answers <= AfterEvent(s, revents, io).answers
    ensures s.delivered <= AfterEvent(s, revents, io).delivered
  {
  }

  /** Sending the next n bytes moves them from the pending to the delivered ones. */
  lemma SendMoves(delivered: string, buf: string, cur: nat, n: nat)
    requires cur + n <= |buf|
    ensures delivered + buf[cur..cur + n] + buf[cur + n..] == delivered + buf[cur..]
    ensures cur + n == |buf| ==> buf[cur + n..] == ""
  {
    assert buf[cur..] == buf[cur..cur + n] + buf[cur + n..];
  }

  lemma NothingPending(delivered: string, answers: seq<string>)
    requires delivered + "" == Concat(answers)
    ensures delivered == Concat(answers)
  {
    assert delivered + "" == delivered;
  }

  class Connection {
    var inbuf: Option<string>
    var outbuf: Option<string>
    var outcur: nat
    var outlen: nat

    /** The answers made so far, and the bytes that send has taken so far. */
    ghost var answers: seq<string>
    ghost var delivered: string

    /** All that the client has been sent. */
    ghost var wire: string

    ghost predicate Consistent()
      reads this
    {
      outcur <= outlen && outlen == if outbuf.Some? then |outbuf.value| else 0
    }

    ghost function Pending(): string
      reads this
      requires Consistent()
    {
      if outbuf.Some? then outbuf.value[outcur..] else ""
    }

    ghost function Now(): Session
      reads this
      requires Consistent()
    {
      Session(if outbuf.Some? then Some(outbuf.value[outcur..]) else None, answers, delivered, wire)
    }

    /** Between two events: no input is held, and what was delivered and what is still
        pending are together exactly the answers in order. */
    ghost predicate Valid()
      reads this
    {
      && Consistent() && inbuf.None? && wire == delivered
      && delivered + Pending() == Concat(answers)
    }

    constructor ()
      ensures Valid() && outbuf.None? && Now() == NEW_SESSION
    {
      inbuf, outbuf, outcur, outlen := None, None, 0, 0;
      answers, delivered, wire := [], "", "";
    }

    /** free_outbuf */
    method FreeOutbuf()
      modifies this`outbuf, this`outcur, this`outlen
      ensures Consistent() && outbuf.None?
    {
      outbuf, outcur, outlen := None, 0, 0;
    }

    /** send takes n of the bytes that are left. */
    method Send(n: nat)
      requires Valid() && outbuf.Some? && outcur + n <= outlen
      modifies this`outcur, this`delivered, this`wire
      ensures Valid() && outcur == old(outcur) + n
      ensures delivered == old(delivered) + old(Pending())[..n] && Pending() == old(Pending())[n..]
    {
      SendMoves(delivered, outbuf.value, outcur, n);
      delivered := delivered + outbuf.value[outcur..outcur + n];
      wire := delivered;
      outcur := outcur + n;
    }

    /** The POLLOUT branch of client_event; false is its jump to error. */
    method Output(io: Io) returns (ok: bool)
      requires Valid()
      modifies this`outbuf, this`outcur, this`outlen, this`delivered, this`wire
      ensures Valid() && old(delivered) <= delivered
      ensures ok && outbuf.Some? ==> outbuf == old(outbuf) && outcur < outlen
      ensures !ok <==> old(outcur) < old(outlen) && io.sent < 0
      ensures ok ==> |delivered| == |old(delivered)| + Taken(io.sent, old(outlen) - old(outcur))
      ensures var left := old(outlen) - old(outcur);
        ok && left > 0 ==>
          && 0 <= |delivered| - |old(delivered)| == (if io.sent < left then io.sent else left)
          && delivered == old(delivered) + old(Pending())[..|delivered| - |old(delivered)|]
      ensures Now() == if ok then AfterOutput(old(Now()), io.sent) else old(Now())
    {
      if outcur < outlen {
        var n := if io.sent <= outlen - outcur then io.sent else outlen - outcur;
        if n < 0 {
          return false;
        }
        Send(n);
      }
      if outcur == outlen {
        assert Pending() == "";
        FreeOutbuf();
      }
      return true;
    }

    /** access_check, with the notice to a client that is denied */
    method AccessCheck(io: Io) returns (r: int)
      modifies this`wire
      ensures r == if Granted(io) then 0 else -1
      ensures r == 0 <==>
        && io.peer.Some?
        && (|| io.peer.value.uid == 0
            || (io.acc.uid != 0xFFFF_FFFF && io.peer.value.uid == io.acc.uid)
            || (io.acc.gid != 0xFFFF_FFFF && io.peer.value.gid == io.acc.gid))
      ensures r == 0 || io.peer.None? ==> wire == old(wire)
      ensures r < 0 && io.peer.Some? ==>
        var n := if io.noticed < 0 then 0 else if io.noticed > 18 then 18 else io.noticed;
        wire == old(wire) + "permission denied\n"[..n]
      ensures Granted(io) ==> wire == old(wire)
      ensures wire == old(wire) + if Denied(io) then DENIED[..Taken(io.noticed, |DENIED|)] else ""
    {
      if io.peer.None? {
        return -1;
      }
      var (uc, acc) := (io.peer.value, io.acc);
      if uc.uid == 0 || (acc.uid != NO_ID && uc.uid == acc.uid) || (acc.gid != NO_ID && uc.gid == acc.gid) {
        return 0;
      }
      wire := wire + DENIED[..Taken(io.noticed, |DENIED|)];
      return -1;
    }

    /** client_input */
    method ClientInput(io: Io) returns (n: int)
      requires inbuf.None?
      modifies this`inbuf, this`wire
      ensures n == 0 ==> inbuf.None?
      ensures n > 0 ==> inbuf == Some(io.text)
      ensures n == 0 <==> io.avail == 0
      ensures n >= 0 <==> ReadsInput(io)
      ensures n > 0 ==> io.received >= io.avail && io.peer.Some?
      ensures n >= 0 ==> wire == old(wire)
      ensures n < 0 ==> wire == old(wire) + Notice(io)
    {
      assert inbuf == None;
      if io.avail < 0 {
        return -1;
      }
      if io.avail == 0 {
        return 0;
      }
      inbuf := Some(io.text);
      if io.received < io.avail {
        return -1;
      }
      var denied := AccessCheck(io);
      return if denied == 0 then io.avail else -1;
    }

    /** process_cmd; without input there is no command and the answer is empty. */
    method ProcessCmd(io: Io)
      requires Consistent() && outbuf.None? && delivered == Concat(answers)
      modifies this`outbuf, this`outcur, this`outlen, this`answers
      ensures Consistent() && outbuf.Some? && delivered + Pending() == Concat(answers)
      ensures answers == old(answers) + [if inbuf.Some? then io.answer else ""]
      ensures Pending() == if inbuf.Some? then io.answer else ""
    {
      assert outbuf == None;
      var answer := if inbuf.Some? then io.answer else "";
      outbuf, outlen, outcur := Some(answer), |answer|, 0;
      answers := answers + [answer];
      assert answers[..|answers| - 1] == old(answers) && answer[0..] == answer;
    }

    /** The POLLIN branch of client_event after client_input has succeeded. */
    method AnswerInput(io: Io)
      requires Consistent() && outbuf.None? && wire == delivered == Concat(answers)
      requires inbuf == if io.avail == 0 then None else Some(io.text)
      modifies this`inbuf, this`outbuf, this`outcur, this`outlen, this`answers
      ensures Valid() && outbuf.Some? && answers == old(answers) + [AnswerTo(io)] && Pending() == AnswerTo(io)
    {
      ProcessCmd(io);
      inbuf := None;
    }

    /** The POLLIN branch of client_event. */
    method Input(io: Io) returns (ok: bool)
      requires Valid() && outbuf.None?
      modifies this`inbuf, this`outbuf, this`outcur, this`outlen, this`answers, this`wire
      ensures ok ==> Valid() && outbuf.Some? && answers == old(answers) + [AnswerTo(io)]
      ensures !ok ==> delivered == Concat(answers) && wire == delivered + Notice(io) && answers == old(answers)
      ensures ok <==> ReadsInput(io)
      ensures Consistent() && Now() == AfterInput(old(Now()), io)
    {
      NothingPending(delivered, answers);
      var n := ClientInput(io);
      ok := n >= 0;
      if ok {
        AnswerInput(io);
      }
    }

    /** client_event up to its jump to error (ok is false). Input may only be signalled while
        no answer is pending; then neither assertion of client_input and process_cmd can
        fail. What was delivered is always the beginning of the answers in order. The client
        is sent nothing else, but for the notice when it is turned away, which follows all
        answers. */
    method ClientEvent(revents: Events, io: Io) returns (ok: bool)
      requires Valid() && (revents.pin && !revents.other ==> outbuf.None?)
      modifies this
      ensures ok ==> Valid()
      ensures Consistent() && Now() == AfterEvent(old(Now()), revents, io)
      ensures old(delivered) <= delivered <= Concat(answers)
      ensures ok && !revents.pout ==> delivered == old(delivered)
      ensures ok && revents.pout ==> |delivered| == |old(delivered)| + Taken(io.sent, old(outlen) - old(outcur))
      ensures answers == if ok && revents.pin then old(answers) + [AnswerTo(io)] else old(answers)
      ensures ok <==> !Fails(revents, old(outlen) - old(outcur), io)
      ensures ok <==>
        && !revents.other && (revents.pout && old(outcur) < old(outlen) ==> io.sent >= 0)
        && (revents.pin && io.avail != 0 ==>
              && io.avail > 0 && io.received >= io.avail && io.peer.Some?
              && (|| io.peer.value.uid == 0
                  || (io.acc.uid != 0xFFFF_FFFF && io.peer.value.uid == io.acc.uid)
                  || (io.acc.gid != 0xFFFF_FFFF && io.peer.value.gid == io.acc.gid)))
      ensures wire == delivered + if ReachesInput(revents, old(outlen) - old(outcur), io) then Notice(io) else ""
      ensures
        var denied :=
          && revents.pin && !revents.other && !(revents.pout && old(outcur) < old(outlen) && io.sent < 0)
          && io.avail > 0 && io.received >= io.avail && io.peer.Some?
          && io.peer.value.uid != 0 && (io.acc.uid == 0xFFFF_FFFF || io.peer.value.uid != io.acc.uid)
          && (io.acc.gid == 0xFFFF_FFFF || io.peer.value.gid != io.acc.gid);
        var n := if io.noticed < 0 then 0 else if io.noticed > 18 then 18 else io.noticed;
        wire == delivered + if denied then "permission denied\n"[..n] else ""
      ensures ok && revents.pin ==> answers == old(answers) + [if io.avail == 0 then "" else io.answer]
      ensures wire != delivered ==> delivered == Concat(answers)
    {
      if revents.other {
        return false;
      }
      if revents.pout {
        ok := Output(io);
        if !ok {
          return;
        }
      }
      if revents.pin {
        ok := Input(io);
        if !ok {
          return;
        }
      }
      return true;
    }
  }
}
