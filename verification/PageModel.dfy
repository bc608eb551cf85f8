/** The per-page error tracker of page.c as a state machine on a plain sequence of
    counters, and what holds over every run of it. Module PageTracker shows that the
    tree, the clusters and the recency list of page.c implement exactly this machine. */
module PageModel {
  import opened LeakyBucket
  import opened Powers
  import opened Wrappers

  /** Counters per cluster: (4096 - sizeof(list_head)) / sizeof(mempage) with 64-bit pointers. */
  const N: int := 63

  datatype OfflineState = Online | Offline | OfflineFailed

  /** struct mempage without its tree node. */
  datatype Mempage = Mempage(addr: int, offlined: OfflineState, triggered: bool,
                             multiplier: u8, count: u32, bucket: Bucket)

  /** enum otype, in its order */
  datatype Mode = Off | Account | Soft | Hard | SoftThenHard

  datatype Config = Config(mode: Mode, retry: bool, page: Limits, replacement: Limits,
                           maxCounters: int, sandyBridgeEp: bool)

  type Int32 = x: int | -0x8000_0000 <= x < 0x8000_0000

  /** The int that the conversion of an unsigned long gives. */
  function ToInt(x: nat): Int32 {
    var low := x % 0x1_0000_0000;
    if low >= 0x8000_0000 then low - 0x1_0000_0000 else low
  }

  /** roundup(n, N) in page_setup, computed in unsigned long because N is one. */
  function RoundUp(n: Int32): Int32 {
    ToInt((n + 62) % 0x1_0000_0000_0000_0000 / 63 * 63)
  }

  /** What page_setup leaves is a multiple of N, if it is positive: then it is the least one
      that is not below n. It is positive for every n from 1 to INT_MAX - 1. The option
      parser takes any int; 0 stays 0, a negative number stays negative or becomes 0, and
      INT_MAX becomes negative. */
  lemma RoundUpExactly(n: Int32)
    ensures RoundUp(n) > 0 <==> 0 < n < 0x7FFF_FFFF
    ensures RoundUp(n) > 0 ==> RoundUp(n) % 63 == 0 && n <= RoundUp(n) < n + N
    ensures n == 0 ==> RoundUp(n) == 0
  {
    if n < -62 {
      var x := n + 62 + 0x1_0000_0000_0000_0000;
      assert (n + 62) % 0x1_0000_0000_0000_0000 == x;
      WrapsNegative(x / 63 * 63);
    } else if n <= 0 {
      assert (n + 62) / 63 == 0;
    } else {
      LeastMultiple(n);
      var m := (n + 62) / 63 * 63;
      if n < 0x7FFF_FFFF {
        assert m <= 0x7FFF_FFFE;
      } else {
        assert m == 0x8000_003D;
      }
    }
  }

  lemma LeastMultiple(n: nat)
    ensures ((n + 62) / 63 * 63) % 63 == 0 && n <= (n + 62) / 63 * 63 < n + 63
  {
  }

  lemma WrapsNegative(q: nat)
    requires 0xFFFF_FFFF_8000_0000 <= q <= 0xFFFF_FFFF_FFFF_FFFF
    ensures ToInt(q) < 0
  {
    var low := q - 0xFFFF_FFFF * 0x1_0000_0000;
    assert q % 0x1_0000_0000 == low;
  }

  /** What page_setup leaves, for every value of the option. */
  ghost predicate ConfigOk(cfg: Config) {
    cfg.maxCounters > 0 ==> cfg.maxCounters % 63 == 0
  }

  /** OFFLINE_RETRY_EXP_BACKOFF or NO_OFFLINE_RETRY */
  function BackoffBase(cfg: Config): int {
    if cfg.retry then 2 else 1
  }

  /** A machine check record as account_page_error reads it, the wall clock at the
      call, and whether the kernel accepts a soft and a hard offline request. */
  datatype Event = Event(addrValid: bool, uncorrected: bool, bank: int, cpu: int, addr: nat,
                         time: int, now: int, softOk: bool, hardOk: bool)

  predicate Accepted(cfg: Config, e: Event) {
    && cfg.mode != Off && e.addrValid && !e.uncorrected
    && !(cfg.sandyBridgeEp && e.bank == 1 && e.cpu == 0)
  }

  /** addr & ~(PAGE_SIZE - 1) */
  function PageOf(addr: nat): int {
    addr - addr % 4096
  }

  /** memory_offline: whether the page went offline. */
  function MemoryOffline(mode: Mode, softOk: bool, hardOk: bool): bool {
    match mode
    case SoftThenHard => softOk || hardOk
    case Soft => softOk
    case _ => hardOk
  }

  /** A counter as mempage_alloc or mempage_replace followed by bucket_init leaves it. */
  function Fresh(addr: int, now: int): Mempage {
    Mempage(addr, Online, false, 1, 0, Bucket(0, 0, now))
  }

  predicate Suppressed(cfg: Config, mp: Mempage) {
    (cfg.retry && mp.offlined == Offline) || (!cfg.retry && mp.offlined != Online)
  }

  /** What one accounted error does: the counter afterwards, whether the page was
      reported (message and trigger), and whether offlining was tried and failed. */
  datatype Outcome = Outcome(page: Mempage, reported: bool, attempted: bool, failed: bool)

  /** offline_action */
  function OfflineAction(cfg: Config, mp: Mempage, e: Event): Outcome {
    if cfg.mode.Off? || cfg.mode.Account? then Outcome(mp, true, false, false)
    else if MemoryOffline(cfg.mode, e.softOk, e.hardOk) then Outcome(mp.(offlined := Offline), true, true, false)
    else Outcome(mp.(offlined := OfflineFailed, multiplier := mp.multiplier * BackoffBase(cfg) % 256), true, true, true)
  }

  /** The part of account_page_error after the counter has been found. */
  function Touch(cfg: Config, mp: Mempage, e: Event): Outcome
  {
    var (bucket, over) := AccountedBy(cfg.page, mp.bucket, 1, e.time, mp.multiplier);
    var counted := mp.(count := (mp.count + 1) % 0x1_0000_0000, bucket := bucket);
    if !over || Suppressed(cfg, counted) then Outcome(counted, false, false, false)
    else OfflineAction(cfg, counted.(triggered := true), e)
  }

  /** The tracker: counters in the order of their slots, the number of replacements
      so far (mp_replacement.count without its wrap-around), and their bucket. */
  datatype Tracked = Tracked(recs: seq<Mempage>, replaced: nat, replBucket: Bucket)

  /** The first counter for addr by linear scan, or the length. */
  function FindPage(recs: seq<Mempage>, addr: int): nat
  {
    if |recs| == 0 then 0 else if recs[0].addr == addr then 0 else 1 + FindPage(recs[1..], addr)
  }

  lemma {:induction false} FindPageMeaning(recs: seq<Mempage>, addr: int)
    ensures FindPage(recs, addr) <= |recs|
    ensures FindPage(recs, addr) < |recs| ==> recs[FindPage(recs, addr)].addr == addr
    ensures forall i :: 0 <= i < FindPage(recs, addr) ==> recs[i].addr != addr
  {
    if |recs| != 0 {
      FindPageMeaning(recs[1..], addr);
    }
  }

  /** mp_replacement.bucket after one more replacement */
  function CountedReplacement(cfg: Config, b: Bucket, t: int): Bucket {
    AccountedBy(cfg.replacement, b, 1, t, 1).0
  }

  /** The first part of account_page_error: find, hand out or replace the counter for the
      page; the result is the state then and the counter's index. Where mempage_replace has
      no slot to reuse (see ReplacementDefined) the index lies outside. */
  function Located(cfg: Config, s: Tracked, e: Event): (Tracked, nat)
  {
    var a := PageOf(e.addr);
    var i := FindPage(s.recs, a);
    var victim := s.replaced % 63;
    if i < |s.recs| then (s, i)
    else if |s.recs| < cfg.maxCounters then (s.(recs := s.recs + [Fresh(a, e.now)]), |s.recs|)
    else if victim >= |s.recs| then (s, victim)
    else (Tracked(s.recs[victim := Fresh(a, e.now)], s.replaced + 1,
                  CountedReplacement(cfg, s.replBucket, e.time)), victim)
  }

  /** account_page_error */
  function Step(cfg: Config, s: Tracked, e: Event): Tracked
  {
    var (s', i) := Located(cfg, s, e);
    if !Accepted(cfg, e) || i >= |s'.recs| then s
    else s'.(recs := s'.recs[i := Touch(cfg, s'.recs[i], e).page])
  }

  /** What account_page_error does about the counter, if it accepts the error. */
  function StepOutcome(cfg: Config, s: Tracked, e: Event): Option<Outcome>
  {
    var (s', i) := Located(cfg, s, e);
    if !Accepted(cfg, e) || i >= |s'.recs| then None
    else Some(Touch(cfg, s'.recs[i], e))
  }

  /** mempage_replace finds a slot that is in use, whenever it is called. */
  predicate ReplacementDefined(cfg: Config, s: Tracked, e: Event) {
    Accepted(cfg, e) && FindPage(s.recs, PageOf(e.addr)) == |s.recs| && |s.recs| >= cfg.maxCounters
    ==> s.replaced % 63 < |s.recs|
  }

  lemma LocatedNew(cfg: Config, s: Tracked, e: Event, s': Tracked)
    requires FindPage(s.recs, PageOf(e.addr)) == |s.recs| < cfg.maxCounters
    requires s' == s.(recs := s.recs + [Fresh(PageOf(e.addr), e.now)])
    ensures Located(cfg, s, e) == (s', |s.recs|)
  {
  }

  lemma LocatedReused(cfg: Config, s: Tracked, e: Event, s': Tracked)
    requires FindPage(s.recs, PageOf(e.addr)) == |s.recs| == cfg.maxCounters && s.replaced % 63 < |s.recs|
    requires s'.recs == s.recs[s.replaced % 63 := Fresh(PageOf(e.addr), e.now)] && s'.replaced == s.replaced + 1
    requires s'.replBucket == CountedReplacement(cfg, s.replBucket, e.time)
    ensures Located(cfg, s, e) == (s', s.replaced % 63)
  {
  }

  // ----- what the outside sees

  /** A report of a page with its trigger, the triggers around soft offlining, a
      request to the kernel, and the report that counters are replaced too often. */
  datatype Action =
    | Report(addr: int)
    | PreSoft(addr: int)
    | Request(addr: int, kind: Mode)
    | PostSoft(addr: int)
    | ReportReplacements

  /** The kernel requests of memory_offline, in order. */
  function Requests(mode: Mode, addr: int, softOk: bool): seq<Action> {
    match mode
    case Soft => [Request(addr, Soft)]
    case SoftThenHard => [Request(addr, Soft)] + if softOk then [] else [Request(addr, Hard)]
    case Hard => [Request(addr, Hard)]
    case _ => []
  }

  /** Everything that one accounted error of a page makes visible. */
  function Actions(cfg: Config, o: Outcome, e: Event): seq<Action> {
    var a := o.page.addr;
    var requests := if o.attempted then Requests(cfg.mode, a, e.softOk) else [];
    if !o.reported then []
    else if cfg.mode.Soft? || cfg.mode.SoftThenHard? then [Report(a), PreSoft(a)] + requests + [PostSoft(a)]
    else [Report(a)] + requests
  }

  /** Whether one more replacement is reported. */
  function ReplacementReports(cfg: Config, b: Bucket, t: int): seq<Action> {
    if AccountedBy(cfg.replacement, b, 1, t, 1).1 then [ReportReplacements] else []
  }

  /** The report of replacements comes first: only when a counter is reused. */
  function LocateActions(cfg: Config, s: Tracked, e: Event): seq<Action> {
    if Located(cfg, s, e).0.replaced > s.replaced then ReplacementReports(cfg, s.replBucket, e.time) else []
  }

  function StepActions(cfg: Config, s: Tracked, e: Event): seq<Action> {
    match StepOutcome(cfg, s, e)
    case None => []
    case Some(o) => LocateActions(cfg, s, e) + Actions(cfg, o, e)
  }

  function Init(now: int): Tracked {
    Tracked([], 0, Bucket(0, 0, now))
  }

  function Run(cfg: Config, s: Tracked, es: seq<Event>): Tracked
    decreases |es|
  {
    if |es| == 0 then s else Step(cfg, Run(cfg, s, es[..|es| - 1]), es[|es| - 1])
  }

  /** The outcome of each error of a run. */
  function RunOutcomes(cfg: Config, s: Tracked, es: seq<Event>): seq<Option<Outcome>>
    decreases |es|
  {
    if |es| == 0 then []
    else
      var front := es[..|es| - 1];
      RunOutcomes(cfg, s, front) + [StepOutcome(cfg, Run(cfg, s, front), es[|es| - 1])]
  }

  function RunActions(cfg: Config, s: Tracked, es: seq<Event>): seq<Action>
    decreases |es|
  {
    if |es| == 0 then []
    else
      var front := es[..|es| - 1];
      RunActions(cfg, s, front) + StepActions(cfg, Run(cfg, s, front), es[|es| - 1])
  }

  lemma {:induction false} RunOutcomeAt(cfg: Config, s: Tracked, es: seq<Event>, i: nat)
    requires i < |es|
    ensures |RunOutcomes(cfg, s, es)| == |es|
    ensures RunOutcomes(cfg, s, es)[i] == StepOutcome(cfg, Run(cfg, s, es[..i]), es[i])
    decreases |es|
  {
    var front := es[..|es| - 1];
    if i < |front| {
      RunOutcomeAt(cfg, s, front, i);
      assert front[..i] == es[..i];
    } else if |front| > 0 {
      RunOutcomeAt(cfg, s, front, 0);
    }
  }

  lemma RunStep(cfg: Config, s: Tracked, es: seq<Event>, k: nat)
    requires k < |es|
    ensures Run(cfg, s, es[..k + 1]) == Step(cfg, Run(cfg, s, es[..k]), es[k])
  {
    assert es[..k + 1][..k] == es[..k];
  }

  // ----- bounded map

  ghost predicate DistinctPages(recs: seq<Mempage>) {
    forall i, j :: 0 <= i < j < |recs| ==> recs[i].addr != recs[j].addr
  }

  ghost predicate Aligned(recs: seq<Mempage>) {
    forall i :: 0 <= i < |recs| ==> recs[i].addr % 4096 == 0
  }

  /** A map from page addresses to counters, never larger than the rounded maximum. */
  ghost predicate BoundedMap(cfg: Config, s: Tracked) {
    && DistinctPages(s.recs) && Aligned(s.recs) && (|s.recs| <= cfg.maxCounters || s.recs == [])
    && (s.replaced > 0 ==> |s.recs| == cfg.maxCounters)
  }

  lemma TouchKeepsAddr(cfg: Config, mp: Mempage, e: Event)
    ensures Touch(cfg, mp, e).page.addr == mp.addr
  {
  }

  lemma StepBounded(cfg: Config, s: Tracked, e: Event)
    requires BoundedMap(cfg, s)
    ensures BoundedMap(cfg, Step(cfg, s, e))
  {
    FindPageMeaning(s.recs, PageOf(e.addr));
    var (s', i) := Located(cfg, s, e);
    if i < |s'.recs| {
      TouchKeepsAddr(cfg, s'.recs[i], e);
    }
  }

  lemma {:induction false} RunBounded(cfg: Config, now: int, es: seq<Event>)
    ensures BoundedMap(cfg, Run(cfg, Init(now), es))
    decreases |es|
  {
    if |es| != 0 {
      RunBounded(cfg, now, es[..|es| - 1]);
      StepBounded(cfg, Run(cfg, Init(now), es[..|es| - 1]), es[|es| - 1]);
    }
  }

  /** For a positive maximum a full map has all slots of the first cluster in use. */
  lemma BoundedIsDefined(cfg: Config, s: Tracked, e: Event)
    requires ConfigOk(cfg) && cfg.maxCounters > 0 && BoundedMap(cfg, s)
    ensures ReplacementDefined(cfg, s, e)
  {
  }

  ghost predicate DefinedAfter(cfg: Config, now: int, es: seq<Event>, e: Event) {
    ReplacementDefined(cfg, Run(cfg, Init(now), es), e)
  }

  /** With tracking on, replacement finds a slot in use in every run, if and only if the
      option was between 1 and INT_MAX - 1. Otherwise the very first error enters
      mempage_replace while mp_cluster is still null. */
  lemma ReplacementAlwaysDefined(cfg: Config, n: Int32, now: int)
    requires cfg.maxCounters == RoundUp(n) && !cfg.mode.Off?
    ensures (forall es, e :: DefinedAfter(cfg, now, es, e)) <==> 0 < n < 0x7FFF_FFFF
  {
    RoundUpExactly(n);
    if 0 < n < 0x7FFF_FFFF {
      forall es, e
        ensures DefinedAfter(cfg, now, es, e)
      {
        RunBounded(cfg, now, es);
        BoundedIsDefined(cfg, Run(cfg, Init(now), es), e);
      }
    } else {
      assert !DefinedAfter(cfg, now, [], Event(true, false, 0, 0, 0, 0, 0, true, true));
    }
  }

  /** What an accepted event changes. A known page: only its counter. A new page with
      room: one more counter. A new page when full: exactly one page is evicted, by
      round robin over the first cluster, and all others keep their counters. */
  lemma OneCounterChanges(cfg: Config, s: Tracked, e: Event)
    requires ConfigOk(cfg) && cfg.maxCounters > 0 && BoundedMap(cfg, s) && Accepted(cfg, e)
    ensures
      var s' := Step(cfg, s, e);
      var a := PageOf(e.addr);
      if exists i :: 0 <= i < |s.recs| && s.recs[i].addr == a then
        exists i :: 0 <= i < |s.recs| && s.recs[i].addr == a
                    && s' == s.(recs := s.recs[i := Touch(cfg, s.recs[i], e).page])
      else if |s.recs| < cfg.maxCounters then
        s' == s.(recs := s.recs + [Touch(cfg, Fresh(a, e.now), e).page])
      else
        && s.replaced % 63 < N <= |s.recs| && s'.replaced == s.replaced + 1
        && s'.recs == s.recs[s.replaced % 63 := Touch(cfg, Fresh(a, e.now), e).page]
  {
    FindPageMeaning(s.recs, PageOf(e.addr));
    assert |s.recs| == cfg.maxCounters ==> N <= |s.recs|;
  }

  /** Although page.c keeps a recency list, pages outside the first cluster are never
      evicted: their slots keep their page for the rest of every run. */
  lemma {:induction false} LaterClustersKept(cfg: Config, s: Tracked, es: seq<Event>, j: int)
    requires BoundedMap(cfg, s) && N <= j < |s.recs|
    ensures |Run(cfg, s, es).recs| >= |s.recs| && Run(cfg, s, es).recs[j].addr == s.recs[j].addr
    decreases |es|
  {
    if |es| != 0 {
      var (front, e) := (es[..|es| - 1], es[|es| - 1]);
      LaterClustersKept(cfg, s, front, j);
      var m := Run(cfg, s, front);
      FindPageMeaning(m.recs, PageOf(e.addr));
      var (m', i) := Located(cfg, m, e);
      if i < |m'.recs| {
        TouchKeepsAddr(cfg, m'.recs[i], e);
      }
    }
  }

  // ----- the life of a counter

  /** A counter after a sequence of accounted errors. */
  function TouchRun(cfg: Config, mp: Mempage, es: seq<Event>): Mempage
    decreases |es|
  {
    if |es| == 0 then mp else Touch(cfg, TouchRun(cfg, mp, es[..|es| - 1]), es[|es| - 1]).page
  }

  /** What the i-th of these errors did. */
  function OutcomeAt(cfg: Config, mp: Mempage, es: seq<Event>, i: int): Outcome
    requires 0 <= i < |es|
  {
    Touch(cfg, TouchRun(cfg, mp, es[..i]), es[i])
  }

  /** The accepted errors on page addr. */
  function OnPage(cfg: Config, addr: int, es: seq<Event>): seq<Event>
    decreases |es|
  {
    if |es| == 0 then []
    else
      var (rest, e) := (OnPage(cfg, addr, es[..|es| - 1]), es[|es| - 1]);
      if Accepted(cfg, e) && PageOf(e.addr) == addr then rest + [e] else rest
  }

  /** A counter's page, and the number and the time of the error it was handed out for. */
  datatype Life = Life(addr: int, born: int, from: nat)

  /** The page and the starting point of each slot after a run. */
  function Lives(cfg: Config, now: int, es: seq<Event>): seq<Life>
    decreases |es|
  {
    if |es| == 0 then []
    else
      var (front, e) := (es[..|es| - 1], es[|es| - 1]);
      var (s, lives) := (Run(cfg, Init(now), front), Lives(cfg, now, front));
      var (s', i) := Located(cfg, s, e);
      var life := Life(PageOf(e.addr), e.now, |front|);
      if !Accepted(cfg, e) || i >= |s'.recs| || FindPage(s.recs, PageOf(e.addr)) < |s.recs| then lives
      else if i >= |lives| then lives + [life]
      else lives[i := life]
  }

  /** All errors that a counter has seen. */
  function Touches(cfg: Config, life: Life, es: seq<Event>): seq<Event>
    requires life.from <= |es|
  {
    OnPage(cfg, life.addr, es[life.from..])
  }

  /** Slot j of state s has the page and the counter that its life explains: it is the
      counter of a page that had none, since error number from, and the result of all
      accepted errors on this page from then on. */
  ghost predicate Explains(cfg: Config, now: int, es: seq<Event>, life: Life, mp: Mempage)
  {
    && life.from < |es| && Accepted(cfg, es[life.from])
    && life.addr == PageOf(es[life.from].addr) && life.born == es[life.from].now
    && NoCounter(Run(cfg, Init(now), es[..life.from]), life.addr)
    && mp == TouchRun(cfg, Fresh(life.addr, life.born), Touches(cfg, life, es)) && mp.addr == life.addr
  }

  ghost predicate NoCounter(s: Tracked, addr: int) {
    forall i :: 0 <= i < |s.recs| ==> s.recs[i].addr != addr
  }

  lemma OnPageMore(cfg: Config, addr: int, es: seq<Event>, from: nat)
    requires from < |es|
    ensures
      var (e, before) := (es[|es| - 1], OnPage(cfg, addr, es[..|es| - 1][from..]));
      OnPage(cfg, addr, es[from..]) == if Accepted(cfg, e) && PageOf(e.addr) == addr then before + [e] else before
  {
    assert es[from..][..|es| - from - 1] == es[..|es| - 1][from..];
  }

  lemma TouchRunOnce(cfg: Config, mp: Mempage, es: seq<Event>, e: Event)
    ensures TouchRun(cfg, mp, es + [e]) == Touch(cfg, TouchRun(cfg, mp, es), e).page
  {
    assert (es + [e])[..|es|] == es;
  }

  ghost predicate Explained(cfg: Config, now: int, es: seq<Event>, lives: seq<Life>, recs: seq<Mempage>) {
    |lives| == |recs| && forall j :: 0 <= j < |lives| ==> Explains(cfg, now, es, lives[j], recs[j])
  }

  /** In every run each counter is the result of exactly the errors on its page since
      the counter was last handed out or replaced. */
  lemma {:induction false} RunIsLives(cfg: Config, now: int, es: seq<Event>)
    ensures Explained(cfg, now, es, Lives(cfg, now, es), Run(cfg, Init(now), es).recs)
    decreases |es|
  {
    if |es| != 0 {
      var (front, e) := (es[..|es| - 1], es[|es| - 1]);
      RunIsLives(cfg, now, front);
      RunBounded(cfg, now, front);
      var (s, lives) := (Run(cfg, Init(now), front), Lives(cfg, now, front));
      FindPageMeaning(s.recs, PageOf(e.addr));
      if !Accepted(cfg, e) || Located(cfg, s, e).1 >= |Located(cfg, s, e).0.recs| {
        OthersExplained(cfg, now, es, lives, s.recs, |lives|);
      } else if FindPage(s.recs, PageOf(e.addr)) < |s.recs| {
        TouchedExplained(cfg, now, es, lives, s.recs, FindPage(s.recs, PageOf(e.addr)));
      } else {
        NewLifeExplained(cfg, now, es);
        OthersExplained(cfg, now, es, lives, s.recs, |lives|);
      }
    }
  }

  /** The counters of other pages than that of the last error, k aside. */
  lemma OthersExplained(cfg: Config, now: int, es: seq<Event>, lives: seq<Life>, recs: seq<Mempage>, k: nat)
    requires |es| > 0 && Explained(cfg, now, es[..|es| - 1], lives, recs)
    requires !Accepted(cfg, es[|es| - 1])
      || forall j :: 0 <= j < |recs| && j != k ==> recs[j].addr != PageOf(es[|es| - 1].addr)
    ensures forall j :: 0 <= j < |recs| && j != k ==> Explains(cfg, now, es, lives[j], recs[j])
  {
    forall j | 0 <= j < |recs| && j != k
      ensures Explains(cfg, now, es, lives[j], recs[j])
    {
      LifeExtended(cfg, now, es, lives[j], recs[j]);
    }
  }

  lemma TouchedExplained(cfg: Config, now: int, es: seq<Event>, lives: seq<Life>, recs: seq<Mempage>, k: nat)
    requires |es| > 0 && Explained(cfg, now, es[..|es| - 1], lives, recs) && DistinctPages(recs)
    requires Accepted(cfg, es[|es| - 1]) && k < |recs| && recs[k].addr == PageOf(es[|es| - 1].addr)
    ensures Explained(cfg, now, es, lives, recs[k := Touch(cfg, recs[k], es[|es| - 1]).page])
  {
    OthersExplained(cfg, now, es, lives, recs, k);
    LifeExtended(cfg, now, es, lives[k], recs[k]);
  }

  lemma NewLifeExplained(cfg: Config, now: int, es: seq<Event>)
    requires |es| > 0
    ensures
      var (front, e) := (es[..|es| - 1], es[|es| - 1]);
      var life := Life(PageOf(e.addr), e.now, |front|);
      Accepted(cfg, e) && NoCounter(Run(cfg, Init(now), front), life.addr)
      ==> Explains(cfg, now, es, life, Touch(cfg, Fresh(life.addr, e.now), e).page)
  {
    var (e, a) := (es[|es| - 1], PageOf(es[|es| - 1].addr));
    assert es[|es| - 1..] == [e];
    if Accepted(cfg, e) {
      assert OnPage(cfg, a, [e]) == [e];
      TouchRunOnce(cfg, Fresh(a, e.now), [], e);
      assert [] + [e] == [e];
      TouchKeepsAddr(cfg, Fresh(a, e.now), e);
    }
  }

  lemma LifeExtended(cfg: Config, now: int, es: seq<Event>, life: Life, mp: Mempage)
    requires |es| > 0 && Explains(cfg, now, es[..|es| - 1], life, mp)
    ensures
      var e := es[|es| - 1];
      var hit := Accepted(cfg, e) && mp.addr == PageOf(e.addr);
      Explains(cfg, now, es, life, if hit then Touch(cfg, mp, e).page else mp)
  {
    var (front, e) := (es[..|es| - 1], es[|es| - 1]);
    assert front[..life.from] == es[..life.from];
    OnPageMore(cfg, life.addr, es, life.from);
    TouchRunOnce(cfg, Fresh(life.addr, life.born), Touches(cfg, life, front), e);
    TouchKeepsAddr(cfg, mp, e);
  }

  lemma LivesOnce(cfg: Config, now: int, es: seq<Event>, j: nat)
    requires |es| > 0 && j < |Lives(cfg, now, es)|
    ensures
      var (before, life) := (Lives(cfg, now, es[..|es| - 1]), Lives(cfg, now, es)[j]);
      life.from == |es| - 1 || (j < |before| && before[j] == life)
  {
    RunIsLives(cfg, now, es[..|es| - 1]);
  }

  /** The slot has held this counter, and no other one, ever since. */
  lemma {:induction false} LifeHeld(cfg: Config, now: int, es: seq<Event>, j: nat, k: nat)
    requires j < |Lives(cfg, now, es)| && Lives(cfg, now, es)[j].from < k <= |es|
    ensures j < |Lives(cfg, now, es[..k])| && Lives(cfg, now, es[..k])[j] == Lives(cfg, now, es)[j]
    decreases |es|
  {
    if k == |es| {
      assert es[..k] == es;
    } else {
      LivesOnce(cfg, now, es, j);
      assert es[..|es| - 1][..k] == es[..k];
      LifeHeld(cfg, now, es[..|es| - 1], j, k);
    }
  }

  /** The errors that a counter had seen before the last one of es. */
  function Earlier(cfg: Config, life: Life, es: seq<Event>): seq<Event>
    requires life.from < |es|
  {
    OnPage(cfg, life.addr, es[..|es| - 1][life.from..])
  }

  lemma TouchesEarlier(cfg: Config, life: Life, es: seq<Event>)
    requires life.from < |es|
    requires Accepted(cfg, es[|es| - 1]) && PageOf(es[|es| - 1].addr) == life.addr
    ensures Touches(cfg, life, es) == Earlier(cfg, life, es) + [es[|es| - 1]]
    ensures life.from == |es| - 1 ==> Earlier(cfg, life, es) == []
  {
    OnPageMore(cfg, life.addr, es, life.from);
  }

  /** The counter that account_page_error charges with the last error of es. */
  lemma LocatedLife(cfg: Config, now: int, es: seq<Event>, i: nat)
    requires |es| > 0 && Accepted(cfg, es[|es| - 1])
    requires ReplacementDefined(cfg, Run(cfg, Init(now), es[..|es| - 1]), es[|es| - 1])
    requires i == Located(cfg, Run(cfg, Init(now), es[..|es| - 1]), es[|es| - 1]).1
    ensures i < |Lives(cfg, now, es)|
    ensures
      var life := Lives(cfg, now, es)[i];
      var recs := Located(cfg, Run(cfg, Init(now), es[..|es| - 1]), es[|es| - 1]).0.recs;
      && life.from < |es| && life.addr == PageOf(es[|es| - 1].addr)
      && i < |recs| && recs[i] == TouchRun(cfg, Fresh(life.addr, life.born), Earlier(cfg, life, es))
  {
    var (front, e) := (es[..|es| - 1], es[|es| - 1]);
    var s := Run(cfg, Init(now), front);
    RunIsLives(cfg, now, front);
    FindPageMeaning(s.recs, PageOf(e.addr));
    if i < |s.recs| && FindPage(s.recs, PageOf(e.addr)) == i {
      assert Explains(cfg, now, front, Lives(cfg, now, front)[i], s.recs[i]);
    } else {
      TouchesEarlier(cfg, Life(PageOf(e.addr), e.now, |front|), es);
    }
  }

  /** The outcome of an accepted error of a run is that of the last touch of its page's
      counter. */
  lemma OutcomeInRun(cfg: Config, now: int, es: seq<Event>, i: nat) returns (life: Life)
    requires i < |es| && Accepted(cfg, es[i]) && ReplacementDefined(cfg, Run(cfg, Init(now), es[..i]), es[i])
    ensures life in Lives(cfg, now, es[..i + 1]) && life.addr == PageOf(es[i].addr) && life.from <= i
    ensures
      var touches := Touches(cfg, life, es[..i + 1]);
      && |touches| > 0 && touches[|touches| - 1] == es[i]
      && StepOutcome(cfg, Run(cfg, Init(now), es[..i]), es[i])
         == Some(OutcomeAt(cfg, Fresh(life.addr, life.born), touches, |touches| - 1))
  {
    var all := es[..i + 1];
    assert all[..i] == es[..i] && all[i] == es[i];
    var j := Located(cfg, Run(cfg, Init(now), es[..i]), es[i]).1;
    LocatedLife(cfg, now, all, j);
    life := Lives(cfg, now, all)[j];
    TouchesEarlier(cfg, life, all);
    var (touches, earlier) := (Touches(cfg, life, all), Earlier(cfg, life, all));
    assert touches[..|touches| - 1] == earlier && touches[|touches| - 1] == es[i];
  }

  // ----- offlining

  /** The i-th error made the kernel accept an offline request or, without retry, made
      any request. */
  ghost predicate Settled(cfg: Config, mp: Mempage, es: seq<Event>, i: int)
    requires 0 <= i < |es|
  {
    var o := OutcomeAt(cfg, mp, es, i);
    o.attempted && (!o.failed || !cfg.retry)
  }

  ghost predicate Quiet(cfg: Config, mp: Mempage, es: seq<Event>, k: int)
    requires 0 <= k < |es|
  {
    var o := OutcomeAt(cfg, mp, es, k);
    !o.reported && !o.attempted
  }

  lemma SettledSuppresses(cfg: Config, mp: Mempage, e: Event)
    ensures var o := Touch(cfg, mp, e);
      && (o.attempted && (!o.failed || !cfg.retry) ==> Suppressed(cfg, o.page))
      && (Suppressed(cfg, mp) ==> Suppressed(cfg, o.page) && !o.reported && !o.attempted)
  {
  }

  /** From then on the page is neither reported nor offlined again. */
  lemma {:induction false} QuietAfterOfflining(cfg: Config, mp: Mempage, es: seq<Event>, i: int, k: int)
    requires 0 <= i < k <= |es| && Settled(cfg, mp, es, i)
    ensures Suppressed(cfg, TouchRun(cfg, mp, es[..k])) && (k < |es| ==> Quiet(cfg, mp, es, k))
    decreases k
  {
    assert es[..k][..k - 1] == es[..k - 1] && es[..k][k - 1] == es[k - 1];
    SettledSuppresses(cfg, TouchRun(cfg, mp, es[..k - 1]), es[k - 1]);
    if i < k - 1 {
      QuietAfterOfflining(cfg, mp, es, i, k - 1);
    }
    if k < |es| {
      SettledSuppresses(cfg, TouchRun(cfg, mp, es[..k]), es[k]);
    }
  }

  /** The same for every counter of every run of the tracker, until it is replaced. */
  lemma OfflinedPagesStayQuiet(cfg: Config, now: int, es: seq<Event>, j: int)
    requires 0 <= j < |Lives(cfg, now, es)|
    ensures |Run(cfg, Init(now), es).recs| == |Lives(cfg, now, es)| && Lives(cfg, now, es)[j].from < |es|
    ensures
      var (life, mp) := (Lives(cfg, now, es)[j], Run(cfg, Init(now), es).recs[j]);
      QuietOnceSettled(cfg, mp, Fresh(life.addr, life.born), Touches(cfg, life, es))
  {
    RunIsLives(cfg, now, es);
    var life := Lives(cfg, now, es)[j];
    assert Explains(cfg, now, es, life, Run(cfg, Init(now), es).recs[j]);
    var (mp, touches) := (Fresh(life.addr, life.born), Touches(cfg, life, es));
    assert touches[..|touches|] == touches;
    forall i | 0 <= i < |touches| && Settled(cfg, mp, touches, i)
      ensures Suppressed(cfg, TouchRun(cfg, mp, touches))
    {
      QuietAfterOfflining(cfg, mp, touches, i, |touches|);
    }
    forall i, k | 0 <= i < k < |touches| && Settled(cfg, mp, touches, i)
      ensures Quiet(cfg, mp, touches, k)
    {
      QuietAfterOfflining(cfg, mp, touches, i, k);
    }
  }

  /** Once an error has settled the counter mp0, all later ones are quiet, and it ends
      suppressed, as mp. */
  ghost predicate QuietOnceSettled(cfg: Config, mp: Mempage, mp0: Mempage, es: seq<Event>) {
    && (forall i :: 0 <= i < |es| && Settled(cfg, mp0, es, i) ==> Suppressed(cfg, mp))
    && (forall i, k :: 0 <= i < k < |es| && Settled(cfg, mp0, es, i) ==> Quiet(cfg, mp0, es, k))
  }

  /** An outcome that made the kernel accept an offline request or, without retry, made any
      request. */
  ghost predicate SettledOutcome(cfg: Config, o: Option<Outcome>) {
    o.Some? && o.value.attempted && (!o.value.failed || !cfg.retry)
  }

  /** The page has a counter that is neither reported nor offlined. */
  ghost predicate Silent(cfg: Config, s: Tracked, addr: int) {
    FindPage(s.recs, addr) < |s.recs| && Suppressed(cfg, s.recs[FindPage(s.recs, addr)])
  }

  lemma SettledIsSilent(cfg: Config, s: Tracked, e: Event)
    requires BoundedMap(cfg, s) && SettledOutcome(cfg, StepOutcome(cfg, s, e))
    ensures Silent(cfg, Step(cfg, s, e), PageOf(e.addr))
  {
    var (s', i) := Located(cfg, s, e);
    FindPageMeaning(s.recs, PageOf(e.addr));
    StepBounded(cfg, s, e);
    TouchKeepsAddr(cfg, s'.recs[i], e);
    SettledSuppresses(cfg, s'.recs[i], e);
    FindPageIs(Step(cfg, s, e).recs, PageOf(e.addr), i);
  }

  lemma FindPageIs(recs: seq<Mempage>, addr: int, i: nat)
    requires DistinctPages(recs) && i < |recs| && recs[i].addr == addr
    ensures FindPage(recs, addr) == i
  {
    FindPageMeaning(recs, addr);
  }

  lemma SilentNext(cfg: Config, s: Tracked, e: Event, addr: int)
    requires BoundedMap(cfg, s) && Silent(cfg, s, addr) && !NoCounter(Step(cfg, s, e), addr)
    ensures Silent(cfg, Step(cfg, s, e), addr)
  {
    var k := FindPage(s.recs, addr);
    var t := Step(cfg, s, e);
    FindPageMeaning(s.recs, addr);
    FindPageMeaning(s.recs, PageOf(e.addr));
    StepBounded(cfg, s, e);
    SettledSuppresses(cfg, s.recs[k], e);
    TouchKeepsAddr(cfg, s.recs[k], e);
    var (s', i) := Located(cfg, s, e);
    if Accepted(cfg, e) && i < |s'.recs| {
      TouchKeepsAddr(cfg, s'.recs[i], e);
    }
    assert t.recs[k].addr == addr || NoCounter(t, addr);
    FindPageIs(t.recs, addr, k);
  }

  /** The state before error k of a run. */
  function Upto(cfg: Config, now: int, es: seq<Event>, k: nat): Tracked
    requires k <= |es|
  {
    Run(cfg, Init(now), es[..k])
  }

  lemma UptoNext(cfg: Config, now: int, es: seq<Event>, k: nat)
    requires k < |es|
    ensures Upto(cfg, now, es, k + 1) == Step(cfg, Upto(cfg, now, es, k), es[k])
    ensures BoundedMap(cfg, Upto(cfg, now, es, k))
  {
    RunStep(cfg, Init(now), es, k);
    RunBounded(cfg, now, es[..k]);
  }

  /** Error i was settled, and its page has kept a counter until before error k. */
  ghost predicate SettledSince(cfg: Config, now: int, es: seq<Event>, i: nat, k: nat) {
    && i < k <= |es| && SettledOutcome(cfg, StepOutcome(cfg, Upto(cfg, now, es, i), es[i]))
    && forall m :: i < m <= k ==> !NoCounter(Upto(cfg, now, es, m), PageOf(es[i].addr))
  }

  lemma {:induction false} SilentUntil(cfg: Config, now: int, es: seq<Event>, i: nat, k: nat)
    requires SettledSince(cfg, now, es, i, k)
    ensures Silent(cfg, Upto(cfg, now, es, k), PageOf(es[i].addr))
    decreases k
  {
    UptoNext(cfg, now, es, k - 1);
    if i == k - 1 {
      SettledIsSilent(cfg, Upto(cfg, now, es, i), es[i]);
    } else {
      SilentUntil(cfg, now, es, i, k - 1);
      SilentNext(cfg, Upto(cfg, now, es, k - 1), es[k - 1], PageOf(es[i].addr));
    }
  }

  /** Read off the run itself: after a page was offlined or, without retry, tried, further
      errors on it do nothing that can be seen, as long as it keeps its counter. */
  lemma OfflinedPageIsSilent(cfg: Config, now: int, es: seq<Event>, i: nat, k: nat)
    requires k < |es| && SettledSince(cfg, now, es, i, k) && PageOf(es[k].addr) == PageOf(es[i].addr)
    ensures StepActions(cfg, Upto(cfg, now, es, k), es[k]) == []
  {
    SilentUntil(cfg, now, es, i, k);
    SilentActions(cfg, Upto(cfg, now, es, k), es[k]);
  }

  lemma SilentActions(cfg: Config, s: Tracked, e: Event)
    requires Silent(cfg, s, PageOf(e.addr))
    ensures StepActions(cfg, s, e) == []
  {
    SettledSuppresses(cfg, s.recs[FindPage(s.recs, PageOf(e.addr))], e);
  }

  function Failures(cfg: Config, mp: Mempage, es: seq<Event>): nat
    decreases |es|
  {
    if |es| == 0 then 0
    else Failures(cfg, mp, es[..|es| - 1]) + if OutcomeAt(cfg, mp, es, |es| - 1).failed then 1 else 0
  }

  lemma TouchMultiplier(cfg: Config, mp: Mempage, e: Event)
    ensures var o := Touch(cfg, mp, e);
      o.page.multiplier == if o.failed then mp.multiplier * BackoffBase(cfg) % 256 else mp.multiplier
  {
  }

  lemma DoubleMod(x: int)
    ensures x % 256 * 2 % 256 == 2 * x % 256
  {
  }

  /** The multiplier of a counter is 2^f mod 256 after f failed requests. */
  lemma {:induction false} MultiplierIsPower(cfg: Config, a: int, born: int, es: seq<Event>)
    ensures TouchRun(cfg, Fresh(a, born), es).multiplier
            == if cfg.retry then Pow2(Failures(cfg, Fresh(a, born), es)) % 256 else 1
    decreases |es|
  {
    if |es| != 0 {
      var (front, e) := (es[..|es| - 1], es[|es| - 1]);
      MultiplierIsPower(cfg, a, born, front);
      TouchMultiplier(cfg, TouchRun(cfg, Fresh(a, born), front), e);
      DoubleMod(Pow2(Failures(cfg, Fresh(a, born), front)));
    }
  }

  lemma MultiplierInEveryRun(cfg: Config, now: int, es: seq<Event>, j: int)
    requires 0 <= j < |Lives(cfg, now, es)|
    ensures |Run(cfg, Init(now), es).recs| == |Lives(cfg, now, es)| && Lives(cfg, now, es)[j].from < |es|
    ensures
      var life := Lives(cfg, now, es)[j];
      Run(cfg, Init(now), es).recs[j].multiplier
        == if cfg.retry then Pow2(Failures(cfg, Fresh(life.addr, life.born), Touches(cfg, life, es))) % 256 else 1
  {
    RunIsLives(cfg, now, es);
    var life := Lives(cfg, now, es)[j];
    assert Explains(cfg, now, es, life, Run(cfg, Init(now), es).recs[j]);
    MultiplierIsPower(cfg, life.addr, life.born, Touches(cfg, life, es));
  }
}
