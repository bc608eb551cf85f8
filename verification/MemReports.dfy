/** When memory errors run triggers: the reports on each count of each DIMM and socket are the
    overflows of one leaky bucket that is charged with that count's errors. */
module MemReports {
  import opened MemDb
  import B = LeakyBucket

  // ----- the counts of an entry

  function Part(md: Memdimm, uncorrected: bool): ErrType {
    if uncorrected then md.uc else md.ce
  }

  predicate IsSocket(k: Key) {
    k.channel == -1 && k.dimm == -1
  }

  function LimitsFor(cfg: Config, k: Key, uncorrected: bool): B.Limits {
    var tr := if IsSocket(k) then cfg.sockets else cfg.dimms;
    if uncorrected then tr.uc else tr.ce
  }

  /** The error is accounted to the entry. */
  predicate Touches(cfg: Config, e: Event, k: Key) {
    && e.hasSocket && k.socketid == e.socketid
    && if IsSocket(k) then cfg.sockdbEnabled else cfg.memdbEnabled && e.channel == k.channel && e.dimm == k.dimm
  }

  /** The errors lost before a record are charged to the corrected count of the socket at
      once, before the error itself. */
  function LostCharges(e: Event, uncorrected: bool): seq<B.Charge> {
    if !uncorrected && e.corrErrCnt > 1 then [B.Charge(e.corrErrCnt - 1, e.time)] else []
  }

  function UnitCharges(e: Event, uncorrected: bool): seq<B.Charge> {
    if e.uncorrected == uncorrected then [B.Charge(1, e.time)] else []
  }

  function SocketCharges(e: Event, uncorrected: bool): seq<B.Charge> {
    LostCharges(e, uncorrected) + UnitCharges(e, uncorrected)
  }

  /** What the error charges to a count of the entry. */
  function Charges(cfg: Config, e: Event, k: Key, uncorrected: bool): seq<B.Charge> {
    if !Touches(cfg, e, k) then []
    else if IsSocket(k) then SocketCharges(e, uncorrected)
    else UnitCharges(e, uncorrected)
  }

  // ----- a bucket under charges

  function BucketAfter(l: B.Limits, b: B.Bucket, cs: seq<B.Charge>): B.Bucket {
    if |cs| == 0 then b
    else
      var last := cs[|cs| - 1];
      B.AccountedBy(l, BucketAfter(l, b, cs[..|cs| - 1]), last.inc, last.time, 1).0
  }

  /** The charges that overflow, each with the bucket that is left. */
  function Overflowing(l: B.Limits, b: B.Bucket, cs: seq<B.Charge>): seq<(B.u32, B.Bucket)> {
    if |cs| == 0 then []
    else
      var (front, last) := (cs[..|cs| - 1], cs[|cs| - 1]);
      var (after, over) := B.AccountedBy(l, BucketAfter(l, b, front), last.inc, last.time, 1);
      Overflowing(l, b, front) + if over then [(last.inc, after)] else []
  }

  lemma OneCharge(l: B.Limits, b: B.Bucket, c: B.Charge)
    ensures var (after, over) := B.AccountedBy(l, b, c.inc, c.time, 1);
      BucketAfter(l, b, [c]) == after && Overflowing(l, b, [c]) == if over then [(c.inc, after)] else []
  {
    assert [c][..0] == [];
  }

  lemma {:induction false} ChargedOn(l: B.Limits, b: B.Bucket, cs: seq<B.Charge>, ds: seq<B.Charge>)
    ensures BucketAfter(l, b, cs + ds) == BucketAfter(l, BucketAfter(l, b, cs), ds)
    ensures Overflowing(l, b, cs + ds) == Overflowing(l, b, cs) + Overflowing(l, BucketAfter(l, b, cs), ds)
  {
    if |ds| == 0 {
      assert cs + ds == cs;
    } else {
      ChargedOn(l, b, cs, ds[..|ds| - 1]);
      assert (cs + ds)[..|cs + ds| - 1] == cs + ds[..|ds| - 1];
    }
  }

  // ----- the reports on one count

  /** The reports on a count of an entry, as number accounted and bucket shown. */
  function ReportsOn(rs: seq<Report>, k: Key, uncorrected: bool): seq<(B.u32, B.Bucket)> {
    if |rs| == 0 then []
    else
      var r := rs[|rs| - 1];
      ReportsOn(rs[..|rs| - 1], k, uncorrected)
      + if r.md.key == k && r.uncorrected == uncorrected then [(r.inc, Part(r.md, uncorrected).bucket)] else []
  }

  lemma {:induction false} ReportsOnConcat(rs: seq<Report>, qs: seq<Report>, k: Key, uncorrected: bool)
    ensures ReportsOn(rs + qs, k, uncorrected) == ReportsOn(rs, k, uncorrected) + ReportsOn(qs, k, uncorrected)
  {
    if |qs| == 0 {
      assert rs + qs == rs;
    } else {
      ReportsOnConcat(rs, qs[..|qs| - 1], k, uncorrected);
      assert (rs + qs)[..|rs + qs| - 1] == rs + qs[..|qs| - 1];
    }
  }

  /** What an accounting of the entry md does: it becomes after, with the reports rs. */
  ghost predicate Charged(tr: Triggers, md: Memdimm, u: bool, cs: seq<B.Charge>, after: Memdimm, rs: seq<Report>) {
    var (l, b) := (if u then tr.uc else tr.ce, Part(md, u).bucket);
    && after.key == md.key && Part(after, u).bucket == BucketAfter(l, b, cs)
    && ReportsOn(rs, md.key, u) == Overflowing(l, b, cs)
  }

  lemma OneReport(r: Report, k: Key, u: bool)
    ensures ReportsOn([r], k, u) == if r.md.key == k && r.uncorrected == u then [(r.inc, Part(r.md, u).bucket)] else []
  {
    assert [r][..0] == [];
  }

  lemma OneCharged(tr: Triggers, md: Memdimm, uncorrected: bool, t: int, u: bool)
    ensures Charged(tr, md, u, if uncorrected == u then [B.Charge(1, t)] else [],
                    AccountOne(tr, md, uncorrected, t), OneReports(tr, md, uncorrected, t))
  {
    OneReport(Report(AccountOne(tr, md, uncorrected, t), uncorrected, false, 1, t), md.key, u);
    OneCharge(if u then tr.uc else tr.ce, Part(md, u).bucket, B.Charge(1, t));
  }

  lemma OverCharged(tr: Triggers, md: Memdimm, n: B.u32, t: int, u: bool)
    ensures Charged(tr, md, u, if !u && n > 1 then [B.Charge(n - 1, t)] else [],
                    AccountOver(tr, md, n, t), OverReports(tr, md, n, t))
  {
    if n > 1 {
      OneReport(Report(AccountOver(tr, md, n, t), false, true, n - 1, 0), md.key, u);
      OneCharge(tr.ce, md.ce.bucket, B.Charge(n - 1, t));
    }
  }

  lemma BothCharged(tr: Triggers, md: Memdimm, u: bool, cs: seq<B.Charge>, mid: Memdimm, rs: seq<Report>,
                    ds: seq<B.Charge>, after: Memdimm, qs: seq<Report>)
    requires Charged(tr, md, u, cs, mid, rs) && Charged(tr, mid, u, ds, after, qs)
    ensures Charged(tr, md, u, cs + ds, after, rs + qs)
  {
    ChargedOn(if u then tr.uc else tr.ce, Part(md, u).bucket, cs, ds);
    ReportsOnConcat(rs, qs, md.key, u);
  }

  /** Reports on another entry. */
  lemma {:induction false} ReportsElsewhere(rs: seq<Report>, k: Key, u: bool)
    requires forall i :: 0 <= i < |rs| ==> rs[i].md.key != k
    ensures ReportsOn(rs, k, u) == []
  {
    if |rs| > 0 {
      ReportsElsewhere(rs[..|rs| - 1], k, u);
    }
  }

  // ----- one error

  /** The bucket of a count of an entry, or the one that it gets when it is made at now. */
  ghost function BucketOf(t: Table, k: Key, u: bool, now: int): B.Bucket
    requires Good(t)
  {
    Part(Ensured(t, k, now), u).bucket
  }

  /** What one error does to a count, from t to after with the reports rs. */
  ghost predicate Accounted(cfg: Config, t: Table, e: Event, k: Key, u: bool, touched: bool, cs: seq<B.Charge>,
                            after: Table, rs: seq<Report>)
    requires Good(t) && Good(after)
  {
    var (l, b) := (LimitsFor(cfg, k, u), BucketOf(t, k, u, e.now));
    && (Has(after, k) <==> Has(t, k) || touched)
    && (Has(after, k) ==> Part(Get(after, k), u).bucket == BucketAfter(l, b, cs))
    && ReportsOn(rs, k, u) == Overflowing(l, b, cs)
    && (!touched ==> cs == [])
  }

  lemma DimmAccounted(cfg: Config, t: Table, e: Event, k: Key, u: bool)
    requires Good(t) && e.hasSocket
    ensures Accounted(cfg, t, e, k, u, !IsSocket(k) && Touches(cfg, e, k),
                      if IsSocket(k) then [] else Charges(cfg, e, k, u), DimmStep(cfg, t, e), DimmReports(cfg, t, e))
  {
    if cfg.memdbEnabled && Located(e) {
      var md := Ensured(t, DimmKey(e), e.now);
      PutIsMapUpdate(t, AccountOne(cfg.dimms, md, e.uncorrected, e.time), k);
      if k == DimmKey(e) {
        OneCharged(cfg.dimms, md, e.uncorrected, e.time, u);
      } else {
        ReportsElsewhere(DimmReports(cfg, t, e), k, u);
      }
    }
  }

  /** The lost errors, then the error itself. */
  lemma SocketCharged(tr: Triggers, md: Memdimm, e: Event, u: bool)
    ensures
      var mid := AccountOver(tr, md, e.corrErrCnt, e.time);
      Charged(tr, md, u, SocketCharges(e, u), AccountOne(tr, mid, e.uncorrected, e.time),
              OverReports(tr, md, e.corrErrCnt, e.time) + OneReports(tr, mid, e.uncorrected, e.time))
  {
    var mid := AccountOver(tr, md, e.corrErrCnt, e.time);
    OverCharged(tr, md, e.corrErrCnt, e.time, u);
    OneCharged(tr, mid, e.uncorrected, e.time, u);
    BothCharged(tr, md, u, LostCharges(e, u), mid, OverReports(tr, md, e.corrErrCnt, e.time), UnitCharges(e, u),
                AccountOne(tr, mid, e.uncorrected, e.time), OneReports(tr, mid, e.uncorrected, e.time));
  }

  lemma SocketAccounted(cfg: Config, t: Table, e: Event, k: Key, u: bool)
    requires Good(t) && e.hasSocket
    ensures Accounted(cfg, t, e, k, u, IsSocket(k) && Touches(cfg, e, k),
                      if IsSocket(k) then Charges(cfg, e, k, u) else [],
                      SocketStep(cfg, t, e), SocketReports(cfg, t, e))
  {
    if cfg.sockdbEnabled {
      var md := Ensured(t, SocketKey(e), e.now);
      var mid := AccountOver(cfg.sockets, md, e.corrErrCnt, e.time);
      PutIsMapUpdate(t, AccountOne(cfg.sockets, mid, e.uncorrected, e.time), k);
      if k == SocketKey(e) {
        SocketCharged(cfg.sockets, md, e, u);
      } else {
        ReportsElsewhere(SocketReports(cfg, t, e), k, u);
      }
    }
  }

  lemma ErrorAccounted(cfg: Config, t: Table, e: Event, k: Key, u: bool)
    requires Good(t)
    ensures Accounted(cfg, t, e, k, u, Touches(cfg, e, k), Charges(cfg, e, k, u),
                      ErrorStep(cfg, t, e), ErrorReports(cfg, t, e))
  {
    if e.hasSocket {
      DimmAccounted(cfg, t, e, k, u);
      SocketAccounted(cfg, DimmStep(cfg, t, e), e, k, u);
      ReportsOnConcat(DimmReports(cfg, t, e), SocketReports(cfg, DimmStep(cfg, t, e), e), k, u);
    }
  }

  // ----- runs

  /** All reports of a run. */
  ghost function RunReports(cfg: Config, t: Table, es: seq<Event>): seq<Report>
    requires Good(t)
  {
    if |es| == 0 then []
    else
      var (front, e) := (es[..|es| - 1], es[|es| - 1]);
      RunReports(cfg, t, front) + ErrorReports(cfg, ErrorRun(cfg, t, front), e)
  }

  predicate TouchedIn(cfg: Config, es: seq<Event>, k: Key) {
    exists i :: 0 <= i < |es| && Touches(cfg, es[i], k)
  }

  /** When an entry that is not there before the errors is made. */
  function Made(cfg: Config, es: seq<Event>, k: Key): int {
    if |es| == 0 then 0
    else if TouchedIn(cfg, es[..|es| - 1], k) then Made(cfg, es[..|es| - 1], k)
    else es[|es| - 1].now
  }

  function AllCharges(cfg: Config, es: seq<Event>, k: Key, u: bool): seq<B.Charge> {
    if |es| == 0 then []
    else AllCharges(cfg, es[..|es| - 1], k, u) + Charges(cfg, es[|es| - 1], k, u)
  }

  /** The charges to a count of a DIMM: one for each error of that kind on its socket, channel
      and DIMM number, at its time. */
  function DimmTimes(es: seq<Event>, socketid: int, channel: int, dimm: int, uncorrected: bool): seq<B.Charge> {
    if |es| == 0 then []
    else
      var e := es[|es| - 1];
      DimmTimes(es[..|es| - 1], socketid, channel, dimm, uncorrected)
      + if e.hasSocket && e.socketid == socketid && e.channel == channel && e.dimm == dimm
           && e.uncorrected == uncorrected
        then [B.Charge(1, e.time)] else []
  }

  lemma {:induction false} DimmCharges(cfg: Config, es: seq<Event>, s: int, c: int, d: int, u: bool)
    requires cfg.memdbEnabled && !(c == -1 && d == -1)
    ensures AllCharges(cfg, es, Key(s, c, d), u) == DimmTimes(es, s, c, d, u)
  {
    if |es| > 0 {
      DimmCharges(cfg, es[..|es| - 1], s, c, d, u);
    }
  }

  /** What a report says: of lost errors how many and no time, otherwise one error of the kind
      and the time of the record; always of the socket of the record. */
  lemma ReportContents(cfg: Config, t: Table, e: Event, i: nat)
    requires Good(t) && i < |ErrorReports(cfg, t, e)|
    ensures var r := ErrorReports(cfg, t, e)[i];
      && e.hasSocket && r.md.key.socketid == e.socketid
      && (r.md.key == Key(e.socketid, -1, -1) || r.md.key == Key(e.socketid, e.channel, e.dimm))
      && (r.lost ==> r.md.key == Key(e.socketid, -1, -1) && !r.uncorrected && r.inc + 1 == e.corrErrCnt && r.time == 0)
      && (!r.lost ==> r.uncorrected == e.uncorrected && r.inc == 1 && r.time == e.time)
  {
  }

  lemma {:induction false} Untouched(cfg: Config, es: seq<Event>, k: Key, u: bool)
    requires !TouchedIn(cfg, es, k)
    ensures AllCharges(cfg, es, k, u) == []
  {
    if |es| > 0 {
      assert Touches(cfg, es[|es| - 1], k) ==> TouchedIn(cfg, es, k);
      forall i | 0 <= i < |es| - 1
        ensures !Touches(cfg, es[i], k)
      {
      }
      Untouched(cfg, es[..|es| - 1], k, u);
    }
  }

  lemma TouchedMore(cfg: Config, es: seq<Event>, k: Key)
    requires |es| > 0
    ensures TouchedIn(cfg, es, k) <==> TouchedIn(cfg, es[..|es| - 1], k) || Touches(cfg, es[|es| - 1], k)
  {
    var (front, n) := (es[..|es| - 1], |es| - 1);
    if TouchedIn(cfg, front, k) {
      var i :| 0 <= i < n && Touches(cfg, front[i], k);
      assert Touches(cfg, es[i], k);
    }
    if TouchedIn(cfg, es, k) && !Touches(cfg, es[n], k) {
      var i :| 0 <= i < |es| && Touches(cfg, es[i], k);
      assert Touches(cfg, front[i], k);
    }
  }

  /** Over every run, each count of each entry has a bucket of its own, which is charged with
      exactly the errors of that count, from the time when the entry is made; and the triggers
      run for it are exactly the charges that overflow, each with the bucket as it is then. */
  lemma {:induction false} ReportsExactly(cfg: Config, t: Table, es: seq<Event>, k: Key, u: bool)
    requires Good(t)
    ensures
      var (l, b, cs) := (LimitsFor(cfg, k, u), BucketOf(t, k, u, Made(cfg, es, k)), AllCharges(cfg, es, k, u));
      && (Has(ErrorRun(cfg, t, es), k) <==> Has(t, k) || TouchedIn(cfg, es, k))
      && (Has(ErrorRun(cfg, t, es), k) ==> Part(Get(ErrorRun(cfg, t, es), k), u).bucket == BucketAfter(l, b, cs))
      && ReportsOn(RunReports(cfg, t, es), k, u) == Overflowing(l, b, cs)
    decreases |es|
  {
    if |es| > 0 {
      var (front, e) := (es[..|es| - 1], es[|es| - 1]);
      var (s, l) := (ErrorRun(cfg, t, front), LimitsFor(cfg, k, u));
      ReportsExactly(cfg, t, front, k, u);
      TouchedMore(cfg, es, k);
      ErrorAccounted(cfg, s, e, k, u);
      ReportsOnConcat(RunReports(cfg, t, front), ErrorReports(cfg, s, e), k, u);
      ChargedOn(l, BucketOf(t, k, u, Made(cfg, es, k)), AllCharges(cfg, front, k, u), Charges(cfg, e, k, u));
      if !TouchedIn(cfg, front, k) {
        Untouched(cfg, front, k, u);
      }
    }
  }

  // ----- in terms of the window counter

  lemma {:induction false} BucketRuns(l: B.Limits, b: B.Bucket, cs: seq<B.Charge>)
    requires l.enabled
    ensures BucketAfter(l, b, cs) == B.Final(l.rate(1), b, cs)
    ensures |Overflowing(l, b, cs)| == B.Overflows(B.Reports(l.rate(1), b, cs))
    decreases |cs|
  {
    if |cs| > 0 {
      assert cs == [cs[0]] + cs[1..];
      OneCharge(l, b, cs[0]);
      ChargedOn(l, b, [cs[0]], cs[1..]);
      BucketRuns(l, BucketAfter(l, b, [cs[0]]), cs[1..]);
    }
  }

  /** How often a window counter overflows. */
  function TimesOver(trace: seq<(B.Window, bool)>): nat {
    if |trace| == 0 then 0 else (if trace[0].1 then 1 else 0) + TimesOver(trace[1..])
  }

  lemma {:induction false} TraceReports(r: B.Rate, b: B.Bucket, cs: seq<B.Charge>)
    ensures TimesOver(B.Trace(r, b, cs)) == B.Overflows(B.Reports(r, b, cs))
    decreases |cs|
  {
    if |cs| > 0 {
      TraceReports(r, B.Charged(r, b, cs[0].inc, cs[0].time).0, cs[1..]);
    }
  }

  /** For an entry made in the run, the triggers run are as many as the overflows of a counter
      that restarts with each window, as long as 32 bits suffice for that counter's charges. */
  lemma TriggersAreWindowOverflows(cfg: Config, conf: B.Conf, t: Table, es: seq<Event>, k: Key, u: bool)
    requires Good(t) && !Has(t, k) && LimitsFor(cfg, k, u) == B.LimitsOf(conf) && conf.capacity > 0
    ensures
      var (r, w, cs) := (B.RateOf(conf, 1), B.Window(Made(cfg, es, k), 0), AllCharges(cfg, es, k, u));
      B.WindowFits(r, w, cs) ==> |ReportsOn(RunReports(cfg, t, es), k, u)| == TimesOver(B.WindowTrace(r, w, cs))
  {
    var (l, start, cs) := (LimitsFor(cfg, k, u), Made(cfg, es, k), AllCharges(cfg, es, k, u));
    ReportsExactly(cfg, t, es, k, u);
    BucketRuns(l, B.Bucket(0, 0, start), cs);
    B.BucketIsWindowCounter(conf, 1, start, cs);
    TraceReports(B.RateOf(conf, 1), B.Bucket(0, 0, start), cs);
  }
}
