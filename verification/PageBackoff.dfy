/** The exponential backoff of page offlining: when the attempts happen if the kernel
    refuses every one of them. */
module PageBackoff {
  import opened LeakyBucket
  import opened PageModel
  import opened Powers
  import opened Wrappers

  /** Offlining with retry and the limits of c. */
  ghost predicate Retrying(cfg: Config, c: Conf) {
    && cfg.retry && !cfg.mode.Off? && !cfg.mode.Account?
    && cfg.page == LimitsOf(c) && c.capacity > 0 && c.agetime > 0
  }

  /** An error in the ageing window, for which the kernel refuses every request. */
  ghost predicate Refused(c: Conf, born: int, e: Event) {
    !e.softOk && !e.hardOk && e.time - born < c.agetime
  }

  /** With retry, every request refused, and all errors inside one ageing window. */
  ghost predicate AlwaysFailing(cfg: Config, c: Conf, born: int, es: seq<Event>) {
    Retrying(cfg, c) && forall i :: 0 <= i < |es| ==> Refused(c, born, es[i])
  }

  lemma FailingPrefix(cfg: Config, c: Conf, born: int, es: seq<Event>, i: nat)
    requires AlwaysFailing(cfg, c, born, es) && i <= |es|
    ensures AlwaysFailing(cfg, c, born, es[..i])
  {
  }

  function Attempts(cfg: Config, mp: Mempage, es: seq<Event>): nat
    decreases |es|
  {
    if |es| == 0 then 0
    else Attempts(cfg, mp, es[..|es| - 1]) + if OutcomeAt(cfg, mp, es, |es| - 1).attempted then 1 else 0
  }

  // ----- capacity times a power of two

  function Level(c: nat, k: nat): nat {
    if k == 0 then c else 2 * Level(c, k - 1)
  }

  lemma {:induction false} LevelIs(c: nat, k: nat)
    ensures Level(c, k) == c * Pow2(k)
  {
    if k > 0 {
      LevelIs(c, k - 1);
      Twice(c, Pow2(k - 1));
    }
  }

  lemma Twice(c: nat, x: int)
    ensures c * (2 * x) == 2 * (c * x)
  {
  }

  lemma {:induction false} LevelGrows(c: nat, j: nat, k: nat)
    requires j <= k
    ensures c <= Level(c, j) <= Level(c, k)
    ensures c > 0 && j < k ==> Level(c, j) < Level(c, k)
    decreases k
  {
    if j < k {
      LevelGrows(c, j, k - 1);
    } else if j > 0 {
      LevelGrows(c, j - 1, j - 1);
    }
  }

  /** The number of the error on which the k-th attempt is due. */
  function Due(c: Conf, k: nat): int {
    c.capacity * (Pow2(k) - 1)
  }

  lemma DueIs(c: Conf, k: nat)
    ensures Due(c, k) == Level(c.capacity, k) - c.capacity
  {
    LevelIs(c.capacity, k);
    TimesMinusOne(c.capacity, Pow2(k));
  }

  lemma TimesMinusOne(c: nat, x: int)
    ensures c * (x - 1) == c * x - c
  {
  }

  /** The threshold after k failed attempts. */
  lemma ThresholdAfter(c: Conf, k: nat)
    requires k <= 7
    ensures 1 <= Pow2(k) <= 128 && Threshold(c, Pow2(k)) == Level(c.capacity, k) % 0x1_0000_0000
  {
    Pow2Values();
    Pow2Monotone(k, 7);
    LevelIs(c.capacity, k);
  }

  // ----- one error

  /** One unit charge inside the window. */
  lemma ChargeInRate(r: Rate, b: Bucket, t: int)
    requires t - b.tstamp < r.agetime && (b.count == 0 || b.count < r.threshold)
    ensures
      var (b', over) := Charged(r, b, 1, t);
      && b'.tstamp == b.tstamp && (over <==> b.count + 1 >= r.threshold)
      && b'.count == if over then 0 else b.count + 1
  {
  }

  /** One more error inside the window: an attempt exactly when the count reaches the
      threshold, which is capacity times multiplier in unsigned arithmetic. */
  lemma TouchInWindow(cfg: Config, c: Conf, mp: Mempage, e: Event, threshold: int)
    requires Retrying(cfg, c) && Refused(c, mp.bucket.tstamp, e) && mp.offlined != Offline
    requires threshold == Threshold(c, mp.multiplier)
    requires mp.bucket.count == 0 || mp.bucket.count < threshold
    ensures
      var o := Touch(cfg, mp, e);
      && o.page.offlined != Offline && o.page.bucket.tstamp == mp.bucket.tstamp
      && (o.attempted <==> mp.bucket.count + 1 >= threshold) && (o.attempted <==> o.failed)
      && o.page.bucket.count == (if o.attempted then 0 else mp.bucket.count + 1)
      && o.page.multiplier == (if o.attempted then mp.multiplier * 2 % 256 else mp.multiplier)
  {
    ChargeInRate(RateOf(c, mp.multiplier), mp.bucket, e.time);
  }

  /** A counter after n such errors, k of which were attempts, all of them on time. */
  ghost predicate BackoffState(c: nat, born: int, mp: Mempage, n: nat, k: nat) {
    && mp.offlined != Offline && mp.bucket.tstamp == born
    && (k <= 7 ==> mp.multiplier == Pow2(k) && n + c == Level(c, k) + mp.bucket.count && mp.bucket.count < Level(c, k))
    && (k >= 8 ==> mp.multiplier == 0 && mp.bucket.count == 0 && n + c == Level(c, 8) + (k - 8))
  }

  lemma NextMultiplier(k: nat)
    requires k <= 7
    ensures Pow2(k) * 2 % 256 == if k < 7 then Pow2(k + 1) else 0
  {
    Pow2Values();
    if k < 7 {
      Pow2Monotone(k + 1, 7);
    }
    Pow2Monotone(0, k);
  }

  lemma Small(x: nat)
    requires x < 0x1_0000_0000
    ensures x % 0x1_0000_0000 == x
  {
  }

  lemma BackoffNext(cfg: Config, c: Conf, born: int, mp: Mempage, n: nat, k: nat, e: Event)
    requires Retrying(cfg, c) && Refused(c, born, e) && BackoffState(c.capacity, born, mp, n, k)
    requires k <= 7 ==> Level(c.capacity, k) < U32
    ensures
      var o := Touch(cfg, mp, e);
      BackoffState(c.capacity, born, o.page, n + 1, if o.attempted then k + 1 else k)
    ensures Touch(cfg, mp, e).attempted <==> (k <= 7 ==> n + 1 + c.capacity == Level(c.capacity, k + 1))
  {
    if k <= 7 {
      ThresholdAfter(c, k);
      Small(Level(c.capacity, k));
      TouchInWindow(cfg, c, mp, e, Level(c.capacity, k));
      NextMultiplier(k);
      LevelGrows(c.capacity, 0, k);
    } else {
      TouchInWindow(cfg, c, mp, e, 0);
    }
  }

  // ----- the schedule while thresholds fit 32 bits

  ghost predicate StateFits(cfg: Config, c: Conf, a: int, born: int, es: seq<Event>, k: nat) {
    var n := Attempts(cfg, Fresh(a, born), es);
    n < k || k == 8 ==> BackoffState(c.capacity, born, TouchRun(cfg, Fresh(a, born), es), |es|, n)
  }

  lemma StateFitsNext(cfg: Config, c: Conf, a: int, born: int, es: seq<Event>, k: nat)
    requires AlwaysFailing(cfg, c, born, es) && 1 <= k <= 8 && Level(c.capacity, k - 1) < U32 && |es| > 0
    requires StateFits(cfg, c, a, born, es[..|es| - 1], k)
    ensures StateFits(cfg, c, a, born, es, k)
  {
    var n := Attempts(cfg, Fresh(a, born), es[..|es| - 1]);
    if n < k {
      LevelGrows(c.capacity, n, k - 1);
    }
    assert n < k || k == 8 ==> n <= 7 ==> Level(c.capacity, n) < U32;
    BackoffMore(cfg, c, a, born, es);
  }

  /** The state after any number of such errors, as long as fewer than k of them were
      attempts and the threshold of the k-th attempt fits; with k = 8 there is no limit on
      the attempts. */
  lemma {:induction false} BackoffRun(cfg: Config, c: Conf, a: int, born: int, es: seq<Event>, k: nat)
    requires AlwaysFailing(cfg, c, born, es) && 1 <= k <= 8 && Level(c.capacity, k - 1) < U32
    ensures StateFits(cfg, c, a, born, es, k)
    decreases |es|
  {
    if |es| != 0 {
      FailingPrefix(cfg, c, born, es, |es| - 1);
      BackoffRun(cfg, c, a, born, es[..|es| - 1], k);
      StateFitsNext(cfg, c, a, born, es, k);
    }
  }

  lemma BackoffMore(cfg: Config, c: Conf, a: int, born: int, es: seq<Event>)
    requires AlwaysFailing(cfg, c, born, es) && |es| > 0
    ensures
      var (mp, front) := (Fresh(a, born), es[..|es| - 1]);
      var (n, attempted) := (Attempts(cfg, mp, front), OutcomeAt(cfg, mp, es, |es| - 1).attempted);
      (n <= 7 ==> Level(c.capacity, n) < U32)
      && BackoffState(c.capacity, born, TouchRun(cfg, mp, front), |front|, n) ==>
        && BackoffState(c.capacity, born, TouchRun(cfg, mp, es), |es|, Attempts(cfg, mp, es))
        && (attempted <==> (n <= 7 ==> |es| + c.capacity == Level(c.capacity, n + 1)))
        && Attempts(cfg, mp, es) == if attempted then n + 1 else n
  {
    var (mp, front) := (Fresh(a, born), es[..|es| - 1]);
    var n := Attempts(cfg, mp, front);
    if (n <= 7 ==> Level(c.capacity, n) < U32)
       && BackoffState(c.capacity, born, TouchRun(cfg, mp, front), |front|, n) {
      BackoffNext(cfg, c, born, TouchRun(cfg, mp, front), |front|, n, es[|es| - 1]);
    }
  }

  /** An error of the run is an attempt exactly if it is the one on which the next attempt
      is due; this is asked of the errors before the k-th attempt and of that one. */
  ghost predicate OnTime(cfg: Config, c: Conf, mp: Mempage, es: seq<Event>, k: nat, i: int)
    requires 0 <= i < |es|
  {
    var n := Attempts(cfg, mp, es[..i]);
    n < k ==> (OutcomeAt(cfg, mp, es, i).attempted <==> i + 1 == Due(c, n + 1))
  }

  /** Attempts 1 to k fall on the errors number capacity * (2^j - 1). */
  ghost predicate OnSchedule(cfg: Config, c: Conf, mp: Mempage, es: seq<Event>, k: nat) {
    forall i :: 0 <= i < |es| ==> OnTime(cfg, c, mp, es, k, i)
  }

  lemma ErrorOnTime(cfg: Config, c: Conf, a: int, born: int, es: seq<Event>, k: nat, i: nat)
    requires AlwaysFailing(cfg, c, born, es) && 1 <= k <= 8 && Level(c.capacity, k - 1) < U32 && i < |es|
    ensures var n := Attempts(cfg, Fresh(a, born), es[..i]);
      n < k ==> (OutcomeAt(cfg, Fresh(a, born), es, i).attempted <==> i + 1 + c.capacity == Level(c.capacity, n + 1))
  {
    var (mp, front) := (Fresh(a, born), es[..i]);
    var n := Attempts(cfg, mp, front);
    if n < k {
      FailingPrefix(cfg, c, born, es, i);
      BackoffRun(cfg, c, a, born, front, k);
      LevelGrows(c.capacity, n, k - 1);
      BackoffNext(cfg, c, born, TouchRun(cfg, mp, front), i, n, es[i]);
    }
  }

  /** Attempts up to the k-th are on schedule if the threshold of the k-th fits 32 bits. */
  lemma BackoffSchedule(cfg: Config, c: Conf, a: int, born: int, es: seq<Event>, k: nat)
    requires AlwaysFailing(cfg, c, born, es) && 1 <= k <= 8 && c.capacity * Pow2(k - 1) < U32
    ensures OnSchedule(cfg, c, Fresh(a, born), es, k)
  {
    LevelIs(c.capacity, k - 1);
    forall i | 0 <= i < |es|
      ensures OnTime(cfg, c, Fresh(a, born), es, k, i)
    {
      ErrorOnTime(cfg, c, a, born, es, k, i);
      DueIs(c, Attempts(cfg, Fresh(a, born), es[..i]) + 1);
    }
  }

  /** k attempts are not made before the k-th is due. */
  lemma {:induction false} NotEarly(cfg: Config, c: Conf, a: int, born: int, es: seq<Event>, k: nat)
    requires AlwaysFailing(cfg, c, born, es) && 1 <= k <= 8 && Level(c.capacity, k - 1) < U32
    ensures Attempts(cfg, Fresh(a, born), es) >= k ==> |es| + c.capacity >= Level(c.capacity, k)
    decreases |es|
  {
    if |es| != 0 {
      FailingPrefix(cfg, c, born, es, |es| - 1);
      NotEarly(cfg, c, a, born, es[..|es| - 1], k);
      var n := Attempts(cfg, Fresh(a, born), es[..|es| - 1]);
      if n < k {
        BackoffRun(cfg, c, a, born, es[..|es| - 1], k);
        LevelGrows(c.capacity, n, k - 1);
        BackoffMore(cfg, c, a, born, es);
      }
    }
  }

  /** Just before the k-th attempt is due, k - 1 attempts have been made. */
  lemma AttemptsBefore(cfg: Config, c: Conf, a: int, born: int, es: seq<Event>, k: nat)
    requires AlwaysFailing(cfg, c, born, es) && 1 <= k <= 8 && Level(c.capacity, k - 1) < U32
    requires |es| + 1 + c.capacity == Level(c.capacity, k)
    ensures Attempts(cfg, Fresh(a, born), es) == k - 1
    ensures BackoffState(c.capacity, born, TouchRun(cfg, Fresh(a, born), es), |es|, k - 1)
  {
    var n := Attempts(cfg, Fresh(a, born), es);
    if n >= k {
      NotEarly(cfg, c, a, born, es, k);
    }
    BackoffRun(cfg, c, a, born, es, k);
    if n < k - 1 {
      LevelGrows(c.capacity, n + 1, k - 1);
    }
  }

  lemma AttemptAtLevel(cfg: Config, c: Conf, a: int, born: int, es: seq<Event>, n: nat)
    requires AlwaysFailing(cfg, c, born, es) && 1 <= n <= 8 && Level(c.capacity, n - 1) < U32
    requires |es| + c.capacity == Level(c.capacity, n)
    ensures |es| > 0 && OutcomeAt(cfg, Fresh(a, born), es, |es| - 1).attempted
    ensures Attempts(cfg, Fresh(a, born), es) == n
    ensures BackoffState(c.capacity, born, TouchRun(cfg, Fresh(a, born), es), |es|, n)
  {
    LevelGrows(c.capacity, 0, n - 1);
    FailingPrefix(cfg, c, born, es, |es| - 1);
    AttemptsBefore(cfg, c, a, born, es[..|es| - 1], n);
    BackoffMore(cfg, c, a, born, es);
  }

  /** The error on which the n-th attempt is due is the n-th attempt. */
  lemma AttemptNumbers(cfg: Config, c: Conf, a: int, born: int, es: seq<Event>, n: nat)
    requires AlwaysFailing(cfg, c, born, es) && 1 <= n <= 8 && c.capacity * Pow2(n - 1) < U32
    requires |es| == Due(c, n)
    ensures |es| > 0 && OutcomeAt(cfg, Fresh(a, born), es, |es| - 1).attempted
    ensures Attempts(cfg, Fresh(a, born), es) == n
  {
    LevelIs(c.capacity, n - 1);
    DueIs(c, n);
    AttemptAtLevel(cfg, c, a, born, es, n);
  }

  /** With retry, once eight attempts on a counter have failed its multiplier and its threshold
      are 0, and every further error is an attempt, until one succeeds: for any configuration
      of the bucket that limits at all, any times and any answers of the kernel. */
  lemma EveryErrorAfterEighth(cfg: Config, c: Conf, a: int, born: int, es: seq<Event>, e: Event)
    requires cfg.retry && !cfg.mode.Off? && !cfg.mode.Account? && cfg.page == LimitsOf(c) && c.capacity > 0
    ensures
      var mp := TouchRun(cfg, Fresh(a, born), es);
      Failures(cfg, Fresh(a, born), es) >= 8 && mp.offlined != Offline ==> Touch(cfg, mp, e).attempted
  {
    var mp := TouchRun(cfg, Fresh(a, born), es);
    if Failures(cfg, Fresh(a, born), es) >= 8 && mp.offlined != Offline {
      MultiplierIsPower(cfg, a, born, es);
      PowerOfManyFailures(Failures(cfg, Fresh(a, born), es));
      ZeroThreshold(c);
      ZeroMultiplier(cfg, c, mp, e);
    }
  }

  lemma ZeroThreshold(c: Conf)
    ensures Threshold(c, 0) == 0
  {
    assert c.capacity * 0 == 0;
  }

  lemma ZeroMultiplier(cfg: Config, c: Conf, mp: Mempage, e: Event)
    requires cfg.retry && !cfg.mode.Off? && !cfg.mode.Account? && cfg.page == LimitsOf(c) && c.capacity > 0
    requires mp.multiplier == 0 && mp.offlined != Offline && Threshold(c, mp.multiplier) == 0
    ensures Touch(cfg, mp, e).attempted
  {
    ZeroOverflows(RateOf(c, mp.multiplier), mp.bucket, e.time);
  }

  lemma ZeroOverflows(r: Rate, b: Bucket, t: int)
    requires r.threshold == 0
    ensures Charged(r, b, 1, t).1
  {
  }

  lemma {:induction false} PowerOfManyFailures(f: nat)
    requires f >= 8
    ensures Pow2(f) % 256 == 0
    decreases f
  {
    if f == 8 {
      Pow2Values();
    } else {
      PowerOfManyFailures(f - 1);
    }
  }

  // ----- when a threshold wraps

  /** n attempts were on time, and m more errors since were none. */
  ghost predicate Waiting(cfg: Config, mp: Mempage, es: seq<Event>, n: nat, m: nat) {
    var p := TouchRun(cfg, mp, es);
    && Attempts(cfg, mp, es) == n && p.offlined != Offline && p.bucket.tstamp == mp.bucket.tstamp
    && 1 <= n <= 7 && p.multiplier == Pow2(n) && p.bucket.count == m
  }

  /** The low 32 bits of the first threshold that does not fit. */
  lemma FirstWrapped(x: nat)
    requires U32 <= x < 2 * U32
    ensures x % 0x1_0000_0000 == x - 0x1_0000_0000
  {
  }

  lemma WaitOne(cfg: Config, c: Conf, born: int, mp: Mempage, n: nat, e: Event)
    requires Retrying(cfg, c) && Refused(c, born, e) && 1 <= n <= 7
    requires Level(c.capacity, n - 1) < U32 <= Level(c.capacity, n)
    requires mp.offlined != Offline && mp.bucket.tstamp == born && mp.multiplier == Pow2(n)
    requires mp.bucket.count == 0 || mp.bucket.count < Level(c.capacity, n) - U32
    ensures
      var o := Touch(cfg, mp, e);
      && (o.attempted <==> mp.bucket.count + 1 >= Level(c.capacity, n) - U32)
      && (!o.attempted ==> o.page.offlined != Offline && o.page.bucket.tstamp == born
                           && o.page.multiplier == mp.multiplier && o.page.bucket.count == mp.bucket.count + 1)
  {
    ThresholdAfter(c, n);
    FirstWrapped(Level(c.capacity, n));
    TouchInWindow(cfg, c, mp, e, Level(c.capacity, n) - U32);
  }

  /** Between attempt n and the next one, when threshold n is the first that wraps. */
  lemma {:induction false} WaitRun(cfg: Config, c: Conf, a: int, born: int, es: seq<Event>, n: nat, m: nat)
    requires AlwaysFailing(cfg, c, born, es) && 1 <= n <= 7
    requires Level(c.capacity, n - 1) < U32 <= Level(c.capacity, n)
    requires |es| + c.capacity == Level(c.capacity, n) + m && (m == 0 || m < Level(c.capacity, n) - U32)
    ensures Waiting(cfg, Fresh(a, born), es, n, m)
    decreases m
  {
    LevelGrows(c.capacity, 0, n);
    if m == 0 {
      AttemptAtLevel(cfg, c, a, born, es, n);
    } else {
      FailingPrefix(cfg, c, born, es, |es| - 1);
      WaitRun(cfg, c, a, born, es[..|es| - 1], n, m - 1);
      WaitOne(cfg, c, born, TouchRun(cfg, Fresh(a, born), es[..|es| - 1]), n, es[|es| - 1]);
    }
  }

  /** The number of errors from the n-th attempt to the next, once the threshold wraps. */
  function Early(c: Conf, n: nat): int {
    var low := Level(c.capacity, n) - U32;
    if low > 1 then low else 1
  }

  /** The next attempt comes early: after as many errors as the low 32 bits say. */
  lemma EarlyAttempt(cfg: Config, c: Conf, a: int, born: int, es: seq<Event>, n: nat, i: nat)
    requires AlwaysFailing(cfg, c, born, es) && 1 <= n <= 7 && i < |es|
    requires Level(c.capacity, n - 1) < U32 <= Level(c.capacity, n)
    requires i + 1 + c.capacity == Level(c.capacity, n) + Early(c, n)
    ensures Attempts(cfg, Fresh(a, born), es[..i]) == n && OutcomeAt(cfg, Fresh(a, born), es, i).attempted
    ensures i + 1 + c.capacity != Level(c.capacity, n + 1)
  {
    FailingPrefix(cfg, c, born, es, i);
    WaitRun(cfg, c, a, born, es[..i], n, Early(c, n) - 1);
    WaitOne(cfg, c, born, TouchRun(cfg, Fresh(a, born), es[..i]), n, es[i]);
  }

  lemma FirstWrap(c: nat, k: nat) returns (n: nat)
    requires c < U32 <= Level(c, k)
    ensures 1 <= n <= k && Level(c, n - 1) < U32 <= Level(c, n)
  {
    n := k;
    while n > 0 && Level(c, n - 1) >= U32
      invariant 0 <= n <= k && U32 <= Level(c, n)
    {
      n := n - 1;
    }
  }

  /** The first threshold that does not fit puts an attempt off schedule. */
  lemma OffSchedule(cfg: Config, c: Conf, a: int, born: int, es: seq<Event>, k: nat)
    requires AlwaysFailing(cfg, c, born, es) && 1 <= k <= 8 && |es| + c.capacity >= Level(c.capacity, k)
    requires Level(c.capacity, k - 1) >= U32
    ensures !OnSchedule(cfg, c, Fresh(a, born), es, k)
  {
    var n := FirstWrap(c.capacity, k - 1);
    LevelGrows(c.capacity, n + 1, k);
    LevelGrows(c.capacity, 0, n);
    var i := Level(c.capacity, n) - c.capacity + Early(c, n) - 1;
    EarlyAttempt(cfg, c, a, born, es, n, i);
    DueIs(c, n + 1);
    assert !OnTime(cfg, c, Fresh(a, born), es, k, i);
  }

  /** Over every run that is long enough: attempts 1 to k, for k up to 8, fall on the errors
      number capacity * (2^j - 1) if and only if capacity * 2^(k-1) fits an unsigned. */
  lemma ScheduleExactly(cfg: Config, c: Conf, a: int, born: int, es: seq<Event>, k: nat)
    requires AlwaysFailing(cfg, c, born, es) && 1 <= k <= 8 && |es| >= Due(c, k)
    ensures OnSchedule(cfg, c, Fresh(a, born), es, k) <==> c.capacity * Pow2(k - 1) < U32
  {
    LevelIs(c.capacity, k - 1);
    if c.capacity * Pow2(k - 1) < U32 {
      BackoffSchedule(cfg, c, a, born, es, k);
    } else {
      DueIs(c, k);
      OffSchedule(cfg, c, a, born, es, k);
    }
  }

  /** The least capacity whose eighth threshold does not fit: it becomes 0, and the eighth
      attempt follows the seventh at once. */
  lemma EighthThresholdWraps()
    ensures Threshold(Conf(0x200_0000, 1), 128) == 0 && Early(Conf(0x200_0000, 1), 7) == 1
    ensures Conf(0x200_0000, 1).capacity * Pow2(6) < U32 <= Conf(0x200_0000, 1).capacity * Pow2(7)
  {
    Pow2Values();
  }

  // ----- the schedule in a run of the tracker

  /** The outcome of an error of any run, for a page whose errors so far were all refused in
      one window: an attempt exactly when the next one is due. */
  lemma BackoffInRun(cfg: Config, c: Conf, now: int, es: seq<Event>, i: nat, k: nat) returns (life: Life)
    requires i < |es| && Accepted(cfg, es[i]) && ReplacementDefined(cfg, Run(cfg, Init(now), es[..i]), es[i])
    requires 1 <= k <= 8 && c.capacity * Pow2(k - 1) < U32
    ensures life in Lives(cfg, now, es[..i + 1]) && life.addr == PageOf(es[i].addr) && life.from <= i
    ensures
      var touches := Touches(cfg, life, es[..i + 1]);
      var mp := Fresh(life.addr, life.born);
      AlwaysFailing(cfg, c, life.born, touches) && |touches| > 0
      && Attempts(cfg, mp, touches[..|touches| - 1]) < k
      ==> StepOutcome(cfg, Run(cfg, Init(now), es[..i]), es[i]).Some?
          && (StepOutcome(cfg, Run(cfg, Init(now), es[..i]), es[i]).value.attempted
              <==> |touches| == Due(c, Attempts(cfg, mp, touches[..|touches| - 1]) + 1))
  {
    life := OutcomeInRun(cfg, now, es, i);
    var touches := Touches(cfg, life, es[..i + 1]);
    if AlwaysFailing(cfg, c, life.born, touches) && |touches| > 0 {
      BackoffSchedule(cfg, c, life.addr, life.born, touches, k);
      assert OnTime(cfg, c, Fresh(life.addr, life.born), touches, k, |touches| - 1);
    }
  }
}
