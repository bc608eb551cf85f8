/** What the page tracker makes visible in every run, read off the errors and the visible
    actions alone: reports, triggers and kernel requests. */
module PageReports {
  import opened LeakyBucket
  import opened PageModel
  import opened Powers

  /** account_page_error counts the error: tracking is on, the error is corrected and has an
      address, and it is not a duplicate of the firmware. */
  predicate CountedError(cfg: Config, e: Event) {
    && cfg.mode != Off && e.addrValid && !e.uncorrected
    && !(cfg.sandyBridgeEp && e.bank == 1 && e.cpu == 0)
  }

  /** The first address of the error's page. */
  function PageAddr(e: Event): int {
    e.addr / 4096 * 4096
  }

  /** What the error number k makes visible. */
  function Visible(cfg: Config, now: int, es: seq<Event>, k: nat): seq<Action>
    requires k < |es|
  {
    StepActions(cfg, Upto(cfg, now, es, k), es[k])
  }

  /** A kernel request was made. */
  predicate Tried(v: seq<Action>) {
    exists i :: 0 <= i < |v| && v[i].Request?
  }

  /** A kernel request was made that the kernel accepts. */
  predicate Granted(v: seq<Action>, e: Event) {
    exists i :: 0 <= i < |v| && v[i].Request? && if v[i].kind.Soft? then e.softOk else e.hardOk
  }

  /** The page was reported. */
  predicate Reported(v: seq<Action>) {
    exists i :: 0 <= i < |v| && v[i].Report?
  }

  /** What can be said of a page from outside since its counter was handed out: the number of
      errors, the bucket charged with one for each of them, whether it was reported, how often
      the kernel refused, and whether it was asked and has accepted. */
  datatype Watch =
    Watch(errors: nat, bucket: Bucket, reported: bool, refused: nat, tried: bool, granted: bool)

  /** The capacity multiplier doubles with each refusal, in an unsigned char. */
  function Multiplier(cfg: Config, w: Watch): u8 {
    if cfg.retry then Pow2(w.refused) % 256 else 1
  }

  function Watching(cfg: Config, w: Watch, e: Event, v: seq<Action>): Watch {
    Watch(w.errors + 1, AccountedBy(cfg.page, w.bucket, 1, e.time, Multiplier(cfg, w)).0,
          w.reported || Reported(v), w.refused + (if Tried(v) && !Granted(v, e) then 1 else 0),
          w.tried || Tried(v), w.granted || Granted(v, e))
  }

  /** The visible actions of each error of a run. */
  function Seen(cfg: Config, now: int, es: seq<Event>): (vs: seq<seq<Action>>)
    ensures |vs| == |es|
  {
    seq(|es|, k requires 0 <= k < |es| => Visible(cfg, now, es, k))
  }

  /** The watch on the page of error from before error k, where vs are the visible actions. */
  function Watched(cfg: Config, es: seq<Event>, vs: seq<seq<Action>>, from: nat, k: nat): Watch
    requires from < |es| == |vs| && from <= k <= |es|
    decreases k
  {
    if k == from then Watch(0, Bucket(0, 0, es[from].now), false, 0, false, false)
    else
      var (w, e) := (Watched(cfg, es, vs, from, k - 1), es[k - 1]);
      if CountedError(cfg, e) && e.addr / 4096 == es[from].addr / 4096
      then Watching(cfg, w, e, vs[k - 1])
      else w
  }

  /** One more error overflows the bucket while offlining has not settled the page. */
  predicate Due(cfg: Config, w: Watch, e: Event) {
    && AccountedBy(cfg.page, w.bucket, 1, e.time, Multiplier(cfg, w)).1
    && !(if cfg.retry then w.granted else w.tried)
  }

  /** The page of error k got its counter with error from and has kept it. */
  ghost predicate CounterSince(cfg: Config, now: int, es: seq<Event>, from: nat, k: nat) {
    && from <= k < |es| && CountedError(cfg, es[from]) && es[from].addr / 4096 == es[k].addr / 4096
    && NoCounter(Upto(cfg, now, es, from), PageAddr(es[k])) && Kept(cfg, now, es, from, k, PageAddr(es[k]))
  }

  ghost predicate Kept(cfg: Config, now: int, es: seq<Event>, from: nat, k: nat, a: int)
    requires k < |es|
  {
    forall m :: from < m <= k ==> !NoCounter(Upto(cfg, now, es, m), a)
  }

  // ----- the reports of replacements

  /** The error takes over the counter of another page. */
  ghost predicate Replaces(cfg: Config, now: int, es: seq<Event>, k: nat)
    requires k < |es|
  {
    && CountedError(cfg, es[k]) && NoCounter(Upto(cfg, now, es, k), PageAddr(es[k]))
    && |Upto(cfg, now, es, k).recs| >= cfg.maxCounters
  }

  /** A bucket charged with one for each replacement. */
  ghost function Replacements(cfg: Config, now: int, es: seq<Event>, k: nat): Bucket
    requires k <= |es|
  {
    if k == 0 then Bucket(0, 0, now)
    else
      var b := Replacements(cfg, now, es, k - 1);
      if Replaces(cfg, now, es, k - 1) then AccountedBy(cfg.replacement, b, 1, es[k - 1].time, 1).0 else b
  }

  ghost predicate ReplacementDue(cfg: Config, now: int, es: seq<Event>, k: nat)
    requires k < |es|
  {
    Replaces(cfg, now, es, k) && AccountedBy(cfg.replacement, Replacements(cfg, now, es, k), 1, es[k].time, 1).1
  }

  // ----- one error

  /** The counter is as the watch says. */
  ghost predicate Agrees(cfg: Config, mp: Mempage, w: Watch) {
    && mp.bucket == w.bucket && mp.multiplier == Multiplier(cfg, w) && mp.count == w.errors % 0x1_0000_0000
    && mp.offlined == (if w.granted then Offline else if w.tried then OfflineFailed else Online)
    && (w.granted ==> w.tried) && mp.triggered == w.reported
  }

  /** The actions for a page that is due, by mode. */
  function DueActions(mode: Mode, a: int, softOk: bool): seq<Action> {
    match mode
    case Soft => [Report(a), PreSoft(a), Request(a, Soft), PostSoft(a)]
    case SoftThenHard =>
      if softOk then [Report(a), PreSoft(a), Request(a, Soft), PostSoft(a)]
      else [Report(a), PreSoft(a), Request(a, Soft), Request(a, Hard), PostSoft(a)]
    case Hard => [Report(a), Request(a, Hard)]
    case _ => [Report(a)]
  }

  lemma RequestsSeen(v0: seq<Action>, v1: seq<Action>, e: Event)
    requires forall i :: 0 <= i < |v0| ==> !v0[i].Request? && !v0[i].Report?
    ensures Reported(v0 + v1) <==> Reported(v1)
    ensures Tried(v0 + v1) <==> Tried(v1)
    ensures Granted(v0 + v1, e) <==> Granted(v1, e)
  {
    var v := v0 + v1;
    assert forall i :: |v0| <= i < |v| ==> v[i] == v1[i - |v0|];
    assert forall i :: 0 <= i < |v1| ==> v1[i] == v[i + |v0|];
  }

  /** Which of these actions are requests, and whether the kernel accepts one. */
  lemma DueSeen(mode: Mode, a: int, e: Event)
    requires !mode.Off?
    ensures Reported(DueActions(mode, a, e.softOk))
    ensures Tried(DueActions(mode, a, e.softOk)) <==> !mode.Account?
    ensures Granted(DueActions(mode, a, e.softOk), e) <==> !mode.Account? && MemoryOffline(mode, e.softOk, e.hardOk)
  {
    var v := DueActions(mode, a, e.softOk);
    assert v[0].Report?;
    match mode
    case Soft => assert v[2].Request?;
    case SoftThenHard => assert v[2].Request? && (!e.softOk ==> v[3].Request?);
    case Hard => assert v[1].Request?;
    case _ =>
  }

  lemma DueIsReported(cfg: Config, mp: Mempage, w: Watch, e: Event)
    requires Agrees(cfg, mp, w) && !cfg.mode.Off?
    ensures
      var o := Touch(cfg, mp, e);
      && o.page.addr == mp.addr
      && Actions(cfg, o, e) == if Due(cfg, w, e) then DueActions(cfg.mode, mp.addr, e.softOk) else []
  {
    var (a, soft, hard) := (mp.addr, Request(mp.addr, Soft), Request(mp.addr, Hard));
    assert [Report(a), PreSoft(a)] + [soft] + [PostSoft(a)] == [Report(a), PreSoft(a), soft, PostSoft(a)];
    assert [Report(a), PreSoft(a)] + ([soft] + [hard]) + [PostSoft(a)]
      == [Report(a), PreSoft(a), soft, hard, PostSoft(a)];
    assert [soft] + [] == [soft] && [Report(a)] + [hard] == [Report(a), hard] && [Report(a)] + [] == [Report(a)];
  }

  lemma RefusedOnce(f: nat)
    ensures Pow2(f) % 256 * 2 % 256 == Pow2(f + 1) % 256
  {
    DoubleMod(Pow2(f));
  }

  lemma TouchAgrees(cfg: Config, mp: Mempage, w: Watch, e: Event)
    requires Agrees(cfg, mp, w) && !cfg.mode.Off?
    ensures
      var o := Touch(cfg, mp, e);
      Agrees(cfg, o.page, Watching(cfg, w, e, Actions(cfg, o, e)))
  {
    DueIsReported(cfg, mp, w, e);
    DueSeen(cfg.mode, mp.addr, e);
    RefusedOnce(w.refused);
  }

  /** The counter of a page. */
  function CounterOf(s: Tracked, a: int): Mempage {
    if FindPage(s.recs, a) < |s.recs| then s.recs[FindPage(s.recs, a)] else Fresh(a, 0)
  }

  lemma PageIs(addr: nat)
    ensures addr / 4096 * 4096 == addr - addr % 4096
  {
  }

  ghost predicate Full(cfg: Config, s: Tracked, a: int) {
    NoCounter(s, a) && |s.recs| >= cfg.maxCounters
  }

  /** A counted error: on the page's counter, or on a fresh one. */
  lemma StepVisible(cfg: Config, s: Tracked, e: Event)
    requires BoundedMap(cfg, s) && ConfigOk(cfg) && cfg.maxCounters > 0 && CountedError(cfg, e)
    ensures
      var (a, t) := (PageAddr(e), Step(cfg, s, e));
      var o := Touch(cfg, if NoCounter(s, a) then Fresh(a, e.now) else CounterOf(s, a), e);
      && !NoCounter(t, a) && CounterOf(t, a) == o.page && (!NoCounter(s, a) ==> CounterOf(s, a).addr == a)
      && StepActions(cfg, s, e)
         == (if Full(cfg, s, a) && AccountedBy(cfg.replacement, s.replBucket, 1, e.time, 1).1
             then [ReportReplacements] else []) + Actions(cfg, o, e)
      && t.replBucket
         == if Full(cfg, s, a) then AccountedBy(cfg.replacement, s.replBucket, 1, e.time, 1).0 else s.replBucket
  {
    var a := PageAddr(e);
    PageIs(e.addr);
    FindPageMeaning(s.recs, a);
    BoundedIsDefined(cfg, s, e);
    StepBounded(cfg, s, e);
    var (s', i) := Located(cfg, s, e);
    TouchKeepsAddr(cfg, s'.recs[i], e);
    FindPageIs(Step(cfg, s, e).recs, a, i);
  }

  lemma StepIgnored(cfg: Config, s: Tracked, e: Event)
    requires !CountedError(cfg, e)
    ensures Step(cfg, s, e) == s && StepActions(cfg, s, e) == []
  {
  }

  /** An error on another page. */
  lemma StepOther(cfg: Config, s: Tracked, e: Event, a: int)
    requires BoundedMap(cfg, s) && a != PageAddr(e)
    ensures NoCounter(s, a) ==> NoCounter(Step(cfg, s, e), a)
    ensures !NoCounter(s, a) && !NoCounter(Step(cfg, s, e), a) ==> CounterOf(Step(cfg, s, e), a) == CounterOf(s, a)
  {
    PageIs(e.addr);
    FindPageMeaning(s.recs, PageOf(e.addr));
    FindPageMeaning(s.recs, a);
    StepBounded(cfg, s, e);
    var (s', i) := Located(cfg, s, e);
    if i < |s'.recs| {
      TouchKeepsAddr(cfg, s'.recs[i], e);
    }
    if !NoCounter(s, a) && !NoCounter(Step(cfg, s, e), a) {
      FindPageIs(Step(cfg, s, e).recs, a, FindPage(s.recs, a));
    }
  }

  // ----- runs

  /** The counter and the visible actions after one more counted error on the page. */
  lemma NextVisible(cfg: Config, s: Tracked, e: Event, mp: Mempage, w: Watch)
    requires BoundedMap(cfg, s) && ConfigOk(cfg) && cfg.maxCounters > 0 && CountedError(cfg, e)
    requires mp == if NoCounter(s, PageAddr(e)) then Fresh(PageAddr(e), e.now) else CounterOf(s, PageAddr(e))
    requires Agrees(cfg, mp, w)
    ensures Agrees(cfg, CounterOf(Step(cfg, s, e), PageAddr(e)), Watching(cfg, w, e, StepActions(cfg, s, e)))
    ensures !NoCounter(Step(cfg, s, e), PageAddr(e))
    ensures StepActions(cfg, s, e)
      == (if Full(cfg, s, PageAddr(e)) && AccountedBy(cfg.replacement, s.replBucket, 1, e.time, 1).1
          then [ReportReplacements] else [])
         + (if Due(cfg, w, e) then DueActions(cfg.mode, PageAddr(e), e.softOk) else [])
  {
    StepVisible(cfg, s, e);
    DueIsReported(cfg, mp, w, e);
    TouchAgrees(cfg, mp, w, e);
    RequestsSeen(if Full(cfg, s, PageAddr(e)) && AccountedBy(cfg.replacement, s.replBucket, 1, e.time, 1).1
                 then [ReportReplacements] else [], Actions(cfg, Touch(cfg, mp, e), e), e);
  }

  lemma FreshAgrees(cfg: Config, a: int, now: int)
    ensures Agrees(cfg, Fresh(a, now), Watch(0, Bucket(0, 0, now), false, 0, false, false))
  {
    Pow2Values();
  }

  /** One more error of any kind, while page number p keeps its counter. */
  lemma NextAgrees(cfg: Config, s: Tracked, e: Event, p: nat, w: Watch)
    requires BoundedMap(cfg, s) && ConfigOk(cfg) && cfg.maxCounters > 0
    requires !NoCounter(s, p * 4096) && !NoCounter(Step(cfg, s, e), p * 4096) && Agrees(cfg, CounterOf(s, p * 4096), w)
    ensures Agrees(cfg, CounterOf(Step(cfg, s, e), p * 4096),
                   if CountedError(cfg, e) && e.addr / 4096 == p then Watching(cfg, w, e, StepActions(cfg, s, e))
                   else w)
  {
    if !CountedError(cfg, e) {
      StepIgnored(cfg, s, e);
    } else if e.addr / 4096 == p {
      NextVisible(cfg, s, e, CounterOf(s, p * 4096), w);
    } else {
      StepOther(cfg, s, e, p * 4096);
    }
  }

  ghost predicate SeenAt(cfg: Config, now: int, es: seq<Event>, vs: seq<seq<Action>>, k: nat) {
    k < |es| == |vs| && vs[k] == Visible(cfg, now, es, k)
  }

  ghost predicate AllSeen(cfg: Config, now: int, es: seq<Event>, vs: seq<seq<Action>>) {
    |vs| == |es| && forall k :: 0 <= k < |es| ==> SeenAt(cfg, now, es, vs, k)
  }

  /** The counter of the page of error from agrees with the watch before error k. */
  ghost predicate AgreesAt(cfg: Config, now: int, es: seq<Event>, vs: seq<seq<Action>>, from: nat, k: nat)
    requires from < |es| == |vs| && from <= k <= |es|
  {
    Agrees(cfg, CounterOf(Upto(cfg, now, es, k), PageAddr(es[from])), Watched(cfg, es, vs, from, k))
  }

  lemma FirstWatched(cfg: Config, now: int, es: seq<Event>, vs: seq<seq<Action>>, from: nat)
    requires from < |es| && AllSeen(cfg, now, es, vs)
    requires ConfigOk(cfg) && cfg.maxCounters > 0 && CountedError(cfg, es[from])
    requires NoCounter(Upto(cfg, now, es, from), PageAddr(es[from]))
    ensures AgreesAt(cfg, now, es, vs, from, from + 1)
  {
    var (a, t) := (PageAddr(es[from]), es[from].now);
    UptoNext(cfg, now, es, from);
    FreshAgrees(cfg, a, t);
    assert SeenAt(cfg, now, es, vs, from);
    var w := Watch(0, Bucket(0, 0, t), false, 0, false, false);
    NextVisible(cfg, Upto(cfg, now, es, from), es[from], Fresh(a, t), w);
  }

  lemma NextWatched(cfg: Config, now: int, es: seq<Event>, vs: seq<seq<Action>>, from: nat, k: nat)
    requires from < k < |es| && AllSeen(cfg, now, es, vs) && ConfigOk(cfg) && cfg.maxCounters > 0
    requires !NoCounter(Upto(cfg, now, es, k), PageAddr(es[from]))
    requires !NoCounter(Upto(cfg, now, es, k + 1), PageAddr(es[from]))
    requires AgreesAt(cfg, now, es, vs, from, k)
    ensures AgreesAt(cfg, now, es, vs, from, k + 1)
  {
    UptoNext(cfg, now, es, k);
    assert SeenAt(cfg, now, es, vs, k);
    NextAgrees(cfg, Upto(cfg, now, es, k), es[k], es[from].addr / 4096, Watched(cfg, es, vs, from, k));
  }

  /** As long as a page keeps its counter, this is what the watch says. */
  lemma {:induction false} CounterWatched(cfg: Config, now: int, es: seq<Event>, vs: seq<seq<Action>>, from: nat,
                                          k: nat)
    requires from < k <= |es| && AllSeen(cfg, now, es, vs)
    requires ConfigOk(cfg) && cfg.maxCounters > 0 && CountedError(cfg, es[from])
    requires NoCounter(Upto(cfg, now, es, from), PageAddr(es[from]))
    requires forall m :: from < m <= k ==> !NoCounter(Upto(cfg, now, es, m), PageAddr(es[from]))
    ensures AgreesAt(cfg, now, es, vs, from, k)
    decreases k
  {
    if k - 1 == from {
      FirstWatched(cfg, now, es, vs, from);
    } else {
      CounterWatched(cfg, now, es, vs, from, k - 1);
      NextWatched(cfg, now, es, vs, from, k - 1);
    }
  }

  /** Going back from error k to the one that its page got its counter with. */
  lemma {:induction false} FindStart(cfg: Config, now: int, es: seq<Event>, j: nat, k: nat) returns (from: nat)
    requires j <= k < |es| && CountedError(cfg, es[k]) && Kept(cfg, now, es, j, k, PageAddr(es[k]))
    ensures CounterSince(cfg, now, es, from, k)
    decreases j
  {
    var a := PageAddr(es[k]);
    if NoCounter(Upto(cfg, now, es, j), a) {
      from := j;
      if j < k {
        UptoNext(cfg, now, es, j);
        assert !NoCounter(Upto(cfg, now, es, j + 1), a);
        NewCounter(cfg, Upto(cfg, now, es, j), es[j], a);
      }
    } else {
      assert j > 0 by {
        assert es[..0] == [];
      }
      from := FindStart(cfg, now, es, j - 1, k);
    }
  }

  lemma NewCounter(cfg: Config, s: Tracked, e: Event, a: int)
    requires BoundedMap(cfg, s) && NoCounter(s, a) && !NoCounter(Step(cfg, s, e), a)
    ensures CountedError(cfg, e) && PageAddr(e) == a
  {
    if !CountedError(cfg, e) {
      StepIgnored(cfg, s, e);
    } else if a != PageAddr(e) {
      StepOther(cfg, s, e, a);
    }
  }

  lemma {:induction false} ReplacementBucket(cfg: Config, now: int, es: seq<Event>, k: nat)
    requires k <= |es| && ConfigOk(cfg) && cfg.maxCounters > 0
    ensures Upto(cfg, now, es, k).replBucket == Replacements(cfg, now, es, k)
  {
    if k == 0 {
      assert es[..0] == [];
    } else {
      ReplacementBucket(cfg, now, es, k - 1);
      UptoNext(cfg, now, es, k - 1);
      if CountedError(cfg, es[k - 1]) {
        StepVisible(cfg, Upto(cfg, now, es, k - 1), es[k - 1]);
      } else {
        StepIgnored(cfg, Upto(cfg, now, es, k - 1), es[k - 1]);
      }
    }
  }

  lemma SeenIsAll(cfg: Config, now: int, es: seq<Event>)
    ensures AllSeen(cfg, now, es, Seen(cfg, now, es))
  {
  }

  /** Over every run: a counted error reports its page exactly if it overflows the bucket that
      has been charged with one for each error since the page got its counter, and offlining
      has not settled the page. Triggers surround the requests exactly in the two soft modes; a
      hard request is made exactly in mode hard, or after a refused soft one. Before that comes
      a report of replacements, exactly if the error takes over another page's counter and
      overflows the bucket charged with one for each replacement. */
  lemma VisibleExactly(cfg: Config, now: int, es: seq<Event>, k: nat) returns (from: nat)
    requires k < |es| && ConfigOk(cfg) && cfg.maxCounters > 0 && CountedError(cfg, es[k])
    ensures CounterSince(cfg, now, es, from, k)
    ensures
      var a := es[k].addr / 4096 * 4096;
      Visible(cfg, now, es, k)
      == (if ReplacementDue(cfg, now, es, k) then [ReportReplacements] else [])
         + if !Due(cfg, Watched(cfg, es, Seen(cfg, now, es), from, k), es[k]) then []
           else
             match cfg.mode
             case Soft => [Report(a), PreSoft(a), Request(a, Soft), PostSoft(a)]
             case SoftThenHard =>
               if es[k].softOk then [Report(a), PreSoft(a), Request(a, Soft), PostSoft(a)]
               else [Report(a), PreSoft(a), Request(a, Soft), Request(a, Hard), PostSoft(a)]
             case Hard => [Report(a), Request(a, Hard)]
             case _ => [Report(a)]
  {
    from := FindStart(cfg, now, es, k, k);
    var (s, e, vs) := (Upto(cfg, now, es, k), es[k], Seen(cfg, now, es));
    SeenIsAll(cfg, now, es);
    RunBounded(cfg, now, es[..k]);
    ReplacementBucket(cfg, now, es, k);
    if from == k {
      FreshAgrees(cfg, PageAddr(e), e.now);
      NextVisible(cfg, s, e, Fresh(PageAddr(e), e.now), Watched(cfg, es, vs, from, k));
    } else {
      CounterWatched(cfg, now, es, vs, from, k);
      assert !NoCounter(Upto(cfg, now, es, k), PageAddr(es[k]));
      NextVisible(cfg, s, e, CounterOf(s, PageAddr(e)), Watched(cfg, es, vs, from, k));
    }
  }

  /** Other errors change nothing and make nothing visible. */
  lemma IgnoredErrors(cfg: Config, now: int, es: seq<Event>, k: nat)
    requires k < |es| && !CountedError(cfg, es[k])
    ensures Visible(cfg, now, es, k) == [] && Upto(cfg, now, es, k + 1) == Upto(cfg, now, es, k)
  {
    UptoNext(cfg, now, es, k);
    StepIgnored(cfg, Upto(cfg, now, es, k), es[k]);
  }

  /** The actions of a run are those of its errors in order. */
  lemma RunActionsNext(cfg: Config, now: int, es: seq<Event>, k: nat)
    requires k < |es|
    ensures RunActions(cfg, Init(now), es[..k + 1]) == RunActions(cfg, Init(now), es[..k]) + Visible(cfg, now, es, k)
  {
    assert es[..k + 1][..k] == es[..k];
  }
}
