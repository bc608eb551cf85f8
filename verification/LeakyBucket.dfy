/** The leaky bucket of leaky-bucket.c, with the 32-bit arithmetic of the source. */
module LeakyBucket {
  import opened Powers
  import opened Wrappers

  const U32: int := 0x1_0000_0000

  type u32 = x: int | 0 <= x < 0x1_0000_0000

  type u8 = x: int | 0 <= x < 256

  /** struct bucket_conf. Both may be 0, whatever parse_rate was given (see ParseRateZero). */
  datatype Conf = Conf(capacity: u32, agetime: u32)

  /** struct leaky_bucket */
  datatype Bucket = Bucket(count: u32, excess: u32, tstamp: int)

  /** capacity * capacity_multiplier, computed in unsigned arithmetic. */
  function Threshold(c: Conf, mult: u8): u32 {
    (c.capacity * mult) % 0x1_0000_0000
  }

  /** (diff / (double)agetime) * capacity * capacity_multiplier, rounded towards zero. */
  function ExactAge(c: Conf, diff: int, mult: u8): int
    requires c.agetime > 0
  {
    ((diff as real / c.agetime as real) * c.capacity as real * mult as real).Floor
  }

  /** The conversion of a number that is not negative to unsigned: the low 32 bits, and 0 for
      what 63 bits do not hold. */
  function Converted(x: int): u32 {
    if x < 0x8000_0000_0000_0000 then x % 0x1_0000_0000 else 0
  }

  /** The variable age of bucket_age. A quotient by 0 is not a number or infinite. */
  function ComputedAge(c: Conf, diff: int, mult: u8): u32 {
    if c.agetime == 0 then 0 else Converted(ExactAge(c, diff, mult))
  }

  /** What one accounting call takes from the configuration and the multiplier:
      the period, the overflow threshold, and the age of an elapsed time after
      conversion to unsigned. */
  datatype Rate = Rate(agetime: u32, threshold: u32, age: int -> u32)

  function RateOf(c: Conf, mult: u8): Rate {
    Rate(c.agetime, Threshold(c, mult), diff => ComputedAge(c, diff, mult))
  }

  /** bucket_age */
  function Aged(r: Rate, b: Bucket, now: int): Bucket {
    var diff := now - b.tstamp;
    if diff >= r.agetime then
      Bucket(if r.age(diff) > b.count then 0 else b.count - r.age(diff), 0, now)
    else b
  }

  /** __bucket_account with a positive capacity: the new bucket and whether it overflowed. */
  function Charged(r: Rate, b: Bucket, inc: u32, t: int): (Bucket, bool) {
    var a := Aged(r, b, t);
    var count := (a.count + inc) % 0x1_0000_0000;
    if count >= r.threshold then (Bucket(0, (a.excess + count) % 0x1_0000_0000, a.tstamp), true)
    else (a.(count := count), false)
  }

  /** __bucket_account */
  function Accounted(c: Conf, b: Bucket, inc: u32, t: int, mult: u8): (Bucket, bool) {
    if c.capacity == 0 then (b, false) else Charged(RateOf(c, mult), b, inc, t)
  }

  /** A bucket configuration as its users see it: whether it limits at all, and the
      rate for every capacity multiplier. */
  datatype Limits = Limits(enabled: bool, rate: u8 -> Rate)

  function LimitsOf(c: Conf): Limits {
    Limits(c.capacity > 0, (mult: u8) => RateOf(c, mult))
  }

  function AccountedBy(l: Limits, b: Bucket, inc: u32, t: int, mult: u8): (Bucket, bool) {
    if l.enabled then Charged(l.rate(mult), b, inc, t) else (b, false)
  }

  /** Without a capacity nothing is counted and nothing overflows. */
  lemma NoCapacity(agetime: u32, b: Bucket, inc: u32, t: int, mult: u8)
    ensures Accounted(Conf(0, agetime), b, inc, t, mult) == (b, false)
    ensures AccountedBy(LimitsOf(Conf(0, agetime)), b, inc, t, mult) == (b, false)
  {
  }

  lemma ThresholdReached(r: Rate, b: Bucket, inc: u32, t: int)
    requires r.threshold <= inc && b.count + inc < 0x1_0000_0000
    ensures Charged(r, b, inc, t).1
  {
  }

  /** With one, a charge of the whole capacity overflows. */
  lemma CapacityReached(c: Conf, b: Bucket, t: int)
    requires c.capacity > 0 && b.count + c.capacity < 0x1_0000_0000
    ensures Accounted(c, b, c.capacity, t, 1).1 && AccountedBy(LimitsOf(c), b, c.capacity, t, 1).1
  {
    assert Threshold(c, 1) == c.capacity;
    ThresholdReached(RateOf(c, 1), b, c.capacity, t);
  }

  /** The users that see a configuration as limits account as __bucket_account does. */
  lemma LimitsAccount(c: Conf, b: Bucket, inc: u32, t: int, mult: u8)
    ensures AccountedBy(LimitsOf(c), b, inc, t, mult) == Accounted(c, b, inc, t, mult)
  {
  }

  /** struct leaky_bucket as the functions of leaky-bucket.c update it in place. */
  class Cell {
    var count: u32
    var excess: u32
    var tstamp: int

    function Value(): Bucket
      reads this
    {
      Bucket(count, excess, tstamp)
    }

    /** bucket_init */
    constructor (now: int)
      ensures Value() == Bucket(0, 0, now)
    {
      count, excess, tstamp := 0, 0, now;
    }

    /** bucket_age */
    method Age(c: Conf, now: int, mult: u8)
      modifies this
      ensures Value() == Aged(RateOf(c, mult), old(Value()), now)
    {
      var diff := now - tstamp;
      if diff >= c.agetime {
        var age := ComputedAge(c, diff, mult);
        tstamp := now;
        if age > count {
          count := 0;
        } else {
          count := count - age;
        }
        excess := 0;
      }
    }

    /** __bucket_account */
    method Account(c: Conf, inc: u32, t: int, mult: u8) returns (overflow: bool)
      modifies this
      ensures (Value(), overflow) == Accounted(c, old(Value()), inc, t, mult)
      ensures c.capacity == 0 ==> !overflow && Value() == old(Value())
    {
      if c.capacity == 0 {
        return false;
      }
      Age(c, t, mult);
      count := (count + inc) % 0x1_0000_0000;
      if count >= Threshold(c, mult) {
        excess := (excess + count) % 0x1_0000_0000;
        count := 0;
        return true;
      }
      return false;
    }
  }

  // ----- ageing empties the bucket

  /** After diff seconds the computed age covers a whole threshold. */
  ghost predicate Covers(r: Rate, diff: int) {
    diff >= r.agetime ==> r.age(diff) >= r.threshold
  }

  /** Between calls the count is below the threshold. */
  ghost predicate Below(r: Rate, b: Bucket) {
    b.count == 0 || b.count < r.threshold
  }

  lemma ScaleUp(q: real, k: real)
    requires q >= 1.0 && k >= 0.0
    ensures q * k >= k
  {
    assert q * k - k == (q - 1.0) * k;
  }

  lemma ProductMonotone(a: real, b: real, k: real)
    requires a <= b && k >= 0.0
    ensures a * k <= b * k
  {
    assert (b - a) * k >= 0.0;
  }

  lemma QuotientAtLeastOne(n: int, d: int)
    requires n >= d > 0
    ensures n as real / d as real >= 1.0
  {
  }

  lemma QuotientTimes(n: real, d: real, a: real, b: real)
    requires d > 0.0
    ensures n / d * a * b * d == n * a * b
  {
    assert n / d * d == n;
    assert n / d * a * b * d == (n / d * d) * a * b;
  }

  lemma RealProduct(a: int, b: int)
    ensures a as real * b as real == (a * b) as real
  {
  }

  lemma ProductStrict(a: real, b: real, k: real)
    requires a < b && k > 0.0
    ensures a * k < b * k
  {
    assert (b - a) * k > 0.0;
  }

  lemma FloorTimes(x: real, n: int, d: int, y: int)
    requires d > 0 && x * d as real == y as real && n as real <= x < (n + 1) as real
    ensures n * d <= y < (n + 1) * d
  {
    ProductMonotone(n as real, x, d as real);
    ProductStrict(x, (n + 1) as real, d as real);
    RealProduct(n, d);
    RealProduct(n + 1, d);
  }

  /** The exact age in whole numbers: diff * capacity * multiplier divided by the period. */
  lemma ExactAgeIs(c: Conf, diff: nat, mult: u8)
    requires c.agetime > 0
    ensures ExactAge(c, diff, mult) * c.agetime <= diff * c.capacity * mult < (ExactAge(c, diff, mult) + 1) * c.agetime
  {
    QuotientTimes(diff as real, c.agetime as real, c.capacity as real, mult as real);
    RealProduct(diff, c.capacity);
    RealProduct(diff * c.capacity, mult);
    FloorTimes(diff as real / c.agetime as real * c.capacity as real * mult as real, ExactAge(c, diff, mult),
               c.agetime, diff * c.capacity * mult);
  }

  /** Once a whole ageing period has passed, the exact age covers the threshold. */
  lemma ExactAgeCovers(c: Conf, diff: int, mult: u8)
    requires c.agetime > 0 && diff >= c.agetime
    ensures ExactAge(c, diff, mult) >= c.capacity * mult
  {
    var q := diff as real / c.agetime as real;
    QuotientAtLeastOne(diff, c.agetime);
    ScaleUp(q, c.capacity as real);
    ProductMonotone(c.capacity as real, q * c.capacity as real, mult as real);
    assert q * c.capacity as real * mult as real >= (c.capacity * mult) as real;
  }

  function Real(n: int): real {
    n as real
  }

  /** x rounds to y without crossing the integer n. Double rounding is monotone and
      exact on integers below 2^53, so it crosses none of them. */
  ghost predicate RoundsPast(x: real, y: real, n: int) {
    x >= Real(n) ==> y >= Real(n)
  }

  lemma ProductAbove(x: real, a: int, k: int)
    requires x >= Real(a) && 0 <= k
    ensures x * Real(k) >= Real(a * k)
  {
    ProductMonotone(Real(a), x, Real(k));
    assert Real(a) * Real(k) == Real(a * k);
  }

  /** The same for double arithmetic, which rounds the quotient to q and the products
      to p and age: the age still covers the threshold. */
  lemma RoundedAgeCovers(c: Conf, diff: int, mult: u8, q: real, p: real, age: real)
    requires c.agetime > 0 && diff >= c.agetime
    requires RoundsPast(Real(diff) / Real(c.agetime), q, 1)
    requires RoundsPast(q * Real(c.capacity), p, c.capacity)
    requires RoundsPast(p * Real(mult), age, c.capacity * mult)
    ensures age.Floor >= c.capacity * mult
  {
    QuotientAtLeastOne(diff, c.agetime);
    ProductAbove(q, 1, c.capacity);
    ProductAbove(p, c.capacity, mult);
  }

  lemma ScaleNonNegative(a: int, b: int)
    requires a >= 0 && b >= 0
    ensures a * b >= 0
  {
  }

  /** Without wrap-around in the conversion, the rate of a configuration covers. */
  lemma ConfCovers(c: Conf, diff: int, mult: u8)
    requires c.agetime > 0
    requires diff >= c.agetime ==> ExactAge(c, diff, mult) < U32
    ensures Covers(RateOf(c, mult), diff)
  {
    ScaleNonNegative(c.capacity, mult);
    if diff >= c.agetime {
      ExactAgeCovers(c, diff, mult);
      LowPart(c.capacity * mult);
      assert ComputedAge(c, diff, mult) == ExactAge(c, diff, mult);
    }
  }

  lemma LowPart(n: nat)
    ensures n % 0x1_0000_0000 <= n
  {
  }

  /** Ageing leaves a count of exactly zero if and only if the converted age is at
      least the count; when the age covers the threshold it always is. */
  lemma AgeingEmpties(r: Rate, b: Bucket, now: int)
    requires now - b.tstamp >= r.agetime
    ensures Aged(r, b, now).count == 0 <==> r.age(now - b.tstamp) >= b.count
    ensures Covers(r, now - b.tstamp) && Below(r, b) ==> Aged(r, b, now) == Bucket(0, 0, now)
  {
  }

  /** The conversion can fail to cover: 2^32 becomes age 0 and a full count survives. */
  lemma WrappedAgeLeaks()
    ensures
      var r := RateOf(Conf(0x8000_0000, 1), 1);
      Below(r, Bucket(5, 0, 0)) && Aged(r, Bucket(5, 0, 0), 2).count == 5
  {
    assert (2 as real / 1 as real) * 0x8000_0000 as real * 1 as real == 0x1_0000_0000 as real;
  }

  /** An age that 63 bits do not hold is lost altogether. */
  lemma HugeAgeLost(c: Conf, mult: u8, b: Bucket, now: int)
    requires now - b.tstamp >= c.agetime > 0 && ExactAge(c, now - b.tstamp, mult) >= 0x8000_0000_0000_0000
    ensures Aged(RateOf(c, mult), b, now) == Bucket(b.count, 0, now)
  {
  }

  // ----- refinement of a fixed-window counter

  /** A counter that restarts when a window of agetime has passed. */
  datatype Window = Window(start: int, count: int)

  function WindowStep(r: Rate, w: Window, inc: int, t: int): (Window, bool) {
    var base := if t - w.start >= r.agetime then Window(t, 0) else w;
    var n := base.count + inc;
    if n >= r.threshold then (base.(count := 0), true) else (base.(count := n), false)
  }

  datatype Charge = Charge(inc: u32, time: int)

  /** The bucket after a run of accounting calls, and what the calls returned. */
  function Final(r: Rate, b: Bucket, es: seq<Charge>): Bucket
    decreases |es|
  {
    if |es| == 0 then b else Final(r, Charged(r, b, es[0].inc, es[0].time).0, es[1..])
  }

  function Reports(r: Rate, b: Bucket, es: seq<Charge>): seq<bool>
    decreases |es|
  {
    if |es| == 0 then []
    else
      var (b', over) := Charged(r, b, es[0].inc, es[0].time);
      [over] + Reports(r, b', es[1..])
  }

  function AsWindow(b: Bucket): Window {
    Window(b.tstamp, b.count)
  }

  /** What one call needs to act as the window counter: the sum does not exceed 32 bits,
      and after a whole period the converted age uses up the old count, unless the new
      charge overflows on its own. */
  predicate CallFits(r: Rate, b: Bucket, e: Charge) {
    && Aged(r, b, e.time).count + e.inc < U32
    && (e.time - b.tstamp >= r.agetime ==> r.age(e.time - b.tstamp) >= b.count || e.inc >= r.threshold)
  }

  /** One call is one step of the window counter exactly if it fits. */
  lemma ChargeIsWindowStep(r: Rate, b: Bucket, e: Charge)
    requires Below(r, b)
    ensures
      var (b', over) := Charged(r, b, e.inc, e.time);
      (AsWindow(b'), over) == WindowStep(r, AsWindow(b), e.inc, e.time) <==> CallFits(r, b, e)
  {
  }

  /** No call can leave the threshold reached, whatever its arguments. */
  lemma {:induction false} AlwaysBelow(r: Rate, b: Bucket, es: seq<Charge>)
    requires Below(r, b)
    ensures Below(r, Final(r, b, es))
    decreases |es|
  {
    if |es| != 0 {
      AlwaysBelow(r, Charged(r, b, es[0].inc, es[0].time).0, es[1..]);
    }
  }

  /** What can be seen of a run: window and report after each call. */
  function Trace(r: Rate, b: Bucket, es: seq<Charge>): seq<(Window, bool)>
    decreases |es|
  {
    if |es| == 0 then []
    else
      var (b', over) := Charged(r, b, es[0].inc, es[0].time);
      [(AsWindow(b'), over)] + Trace(r, b', es[1..])
  }

  function WindowTrace(r: Rate, w: Window, es: seq<Charge>): seq<(Window, bool)>
    decreases |es|
  {
    if |es| == 0 then []
    else
      var (w', over) := WindowStep(r, w, es[0].inc, es[0].time);
      [(w', over)] + WindowTrace(r, w', es[1..])
  }

  /** Every call of the run fits when it is made. */
  predicate RunFits(r: Rate, b: Bucket, es: seq<Charge>)
    decreases |es|
  {
    |es| == 0 || (CallFits(r, b, es[0]) && RunFits(r, Charged(r, b, es[0].inc, es[0].time).0, es[1..]))
  }

  /** A run of accounting calls, of any length, behaves as the fixed-window counter
      exactly if each call fits. */
  lemma {:induction false} RunIsWindowRun(r: Rate, b: Bucket, es: seq<Charge>)
    requires Below(r, b)
    ensures Trace(r, b, es) == WindowTrace(r, AsWindow(b), es) <==> RunFits(r, b, es)
    decreases |es|
  {
    if |es| != 0 {
      var (b', over) := Charged(r, b, es[0].inc, es[0].time);
      var (w', over') := WindowStep(r, AsWindow(b), es[0].inc, es[0].time);
      ChargeIsWindowStep(r, b, es[0]);
      HeadAndTail((AsWindow(b'), over), Trace(r, b', es[1..]), (w', over'), WindowTrace(r, w', es[1..]));
      if AsWindow(b') == w' {
        RunIsWindowRun(r, b', es[1..]);
      }
    }
  }

  lemma HeadAndTail<T>(x: T, xs: seq<T>, y: T, ys: seq<T>)
    ensures [x] + xs == [y] + ys <==> x == y && xs == ys
  {
    assert ([x] + xs)[0] == x && ([y] + ys)[0] == y;
    assert ([x] + xs)[1..] == xs && ([y] + ys)[1..] == ys;
  }

  /** The same condition read off the window counter. */
  predicate StepFits(r: Rate, w: Window, e: Charge) {
    var diff := e.time - w.start;
    if diff < r.agetime then w.count + e.inc < U32
    else r.age(diff) >= w.count || (e.inc >= r.threshold && w.count - r.age(diff) + e.inc < U32)
  }

  predicate WindowFits(r: Rate, w: Window, es: seq<Charge>)
    decreases |es|
  {
    |es| == 0 || (StepFits(r, w, es[0]) && WindowFits(r, WindowStep(r, w, es[0].inc, es[0].time).0, es[1..]))
  }

  lemma {:induction false} FitsAsWindow(r: Rate, b: Bucket, es: seq<Charge>)
    requires Below(r, b)
    ensures RunFits(r, b, es) <==> WindowFits(r, AsWindow(b), es)
    decreases |es|
  {
    if |es| != 0 {
      assert CallFits(r, b, es[0]) <==> StepFits(r, AsWindow(b), es[0]);
      ChargeIsWindowStep(r, b, es[0]);
      if CallFits(r, b, es[0]) {
        FitsAsWindow(r, Charged(r, b, es[0].inc, es[0].time).0, es[1..]);
      }
    }
  }

  /** The refinement for any configuration and multiplier, from bucket_init on, over runs of
      any length: exact, and stated on the window counter alone. Only the gap since the start
      of a window is ever converted. */
  lemma BucketIsWindowCounter(c: Conf, mult: u8, start: int, es: seq<Charge>)
    ensures
      var (r, w) := (RateOf(c, mult), Window(start, 0));
      Trace(r, Bucket(0, 0, start), es) == WindowTrace(r, w, es) <==> WindowFits(r, w, es)
  {
    RunIsWindowRun(RateOf(c, mult), Bucket(0, 0, start), es);
    FitsAsWindow(RateOf(c, mult), Bucket(0, 0, start), es);
  }

  /** The ages computed when a window ends stay within 32 bits, and so do the counts. */
  predicate AgesFit(c: Conf, mult: u8, w: Window, es: seq<Charge>)
    requires c.agetime > 0
    decreases |es|
  {
    |es| == 0 ||
    var (diff, r) := (es[0].time - w.start, RateOf(c, mult));
    && (diff >= c.agetime ==> ExactAge(c, diff, mult) < U32)
    && (diff < c.agetime ==> w.count + es[0].inc < U32)
    && AgesFit(c, mult, WindowStep(r, w, es[0].inc, es[0].time).0, es[1..])
  }

  /** It is enough that nothing leaves 32 bits. */
  lemma {:induction false} AgesFitSuffices(c: Conf, mult: u8, w: Window, es: seq<Charge>)
    requires c.agetime > 0 && AgesFit(c, mult, w, es) && (w.count == 0 || 0 < w.count < Threshold(c, mult))
    ensures WindowFits(RateOf(c, mult), w, es)
    decreases |es|
  {
    if |es| != 0 {
      ConfCovers(c, es[0].time - w.start, mult);
      AgesFitSuffices(c, mult, WindowStep(RateOf(c, mult), w, es[0].inc, es[0].time).0, es[1..]);
    }
  }

  // ----- no ageing period

  /** sscanf's fields of a rate; 0 stands for a unit that is missing. */
  datatype RateText = RateText(cap: u32, cunit: char, t: u32, tunit: char)

  const NO_UNIT: char := '\0'

  /** timeconv */
  function Seconds(unit: char): Option<u32> {
    if unit == 'd' then Some(86400)
    else if unit == 'h' then Some(3600)
    else if unit == 'm' then Some(60)
    else if unit == 's' || unit == NO_UNIT then Some(1)
    else None
  }

  function Factor(unit: char): Option<u32> {
    if unit == 'g' then Some(1_000_000_000)
    else if unit == 'm' then Some(1_000_000)
    else if unit == 'k' then Some(1000)
    else if unit == NO_UNIT then Some(1)
    else None
  }

  /** parse_rate after sscanf and tolower */
  function ParseRate(text: RateText): Option<Conf> {
    if text.t == 0 || text.cap == 0 then None
    else
      match (Factor(text.cunit), Seconds(text.tunit))
      case (Some(f), Some(s)) => Some(Conf((text.cap * f) % 0x1_0000_0000, (s * text.t) % 0x1_0000_0000))
      case _ => None
  }

  /** Factors and low 32 bits: a product can be reduced before it is multiplied on. */
  lemma ReduceFirst(f: nat, g: nat, x: nat)
    ensures (f * (g * x % 0x1_0000_0000)) % 0x1_0000_0000 == (f * g * x) % 0x1_0000_0000
  {
    var (y, q) := (g * x % 0x1_0000_0000, g * x / 0x1_0000_0000);
    assert f * g * x == f * (g * x) == f * (q * 0x1_0000_0000 + y) == f * q * 0x1_0000_0000 + f * y;
    SameLow(f * q, f * y);
  }

  lemma SameLow(q: nat, y: nat)
    ensures (q * 0x1_0000_0000 + y) % 0x1_0000_0000 == y % 0x1_0000_0000
  {
  }

  /** A rate is accepted exactly if both numbers are positive and the units are known. */
  lemma RateAccepted(text: RateText)
    ensures ParseRate(text).Some? <==>
      && text.cap > 0 && text.cunit in {'g', 'm', 'k', '\0'}
      && text.t > 0 && text.tunit in {'d', 'h', 'm', 's', '\0'}
  {
  }

  /** Numbers without units are the capacity and the seconds themselves. */
  lemma PlainRate(cap: u32, t: u32)
    requires cap > 0 && t > 0
    ensures ParseRate(RateText(cap, '\0', t, '\0')) == Some(Conf(cap, t)) == ParseRate(RateText(cap, '\0', t, 's'))
  {
  }

  /** A day is 24 hours, an hour 60 minutes and a minute 60 seconds; also where the number of
      the smaller unit wraps at 32 bits, unless it wraps to 0, which is not accepted. */
  lemma TimeUnits(cap: u32, cunit: char, t: u32)
    ensures 24 * t % 0x1_0000_0000 != 0 ==>
      ParseRate(RateText(cap, cunit, t, 'd')) == ParseRate(RateText(cap, cunit, 24 * t % 0x1_0000_0000, 'h'))
    ensures 60 * t % 0x1_0000_0000 != 0 ==>
      ParseRate(RateText(cap, cunit, t, 'h')) == ParseRate(RateText(cap, cunit, 60 * t % 0x1_0000_0000, 'm'))
    ensures 60 * t % 0x1_0000_0000 != 0 ==>
      ParseRate(RateText(cap, cunit, t, 'm')) == ParseRate(RateText(cap, cunit, 60 * t % 0x1_0000_0000, 's'))
    ensures ParseRate(RateText(cap, cunit, t, 's')) == ParseRate(RateText(cap, cunit, t, '\0'))
  {
    ReduceFirst(3600, 24, t);
    ReduceFirst(60, 60, t);
    ReduceFirst(1, 60, t);
  }

  lemma SameCapacity(cap: u32, f: u32, small: u32, g: u32, cunit: char, sunit: char, t: u32, tunit: char)
    requires cap > 0 && small > 0 && Factor(cunit) == Some(f) && Factor(sunit) == Some(g)
    requires (cap * f) % 0x1_0000_0000 == (small * g) % 0x1_0000_0000
    ensures ParseRate(RateText(cap, cunit, t, tunit)) == ParseRate(RateText(small, sunit, t, tunit))
  {
  }

  /** g, m and k are steps of 1000. */
  lemma CapacityUnits(cap: u32, t: u32, tunit: char)
    ensures 1000 * cap % 0x1_0000_0000 != 0 ==>
      && ParseRate(RateText(cap, 'g', t, tunit)) == ParseRate(RateText(1000 * cap % 0x1_0000_0000, 'm', t, tunit))
      && ParseRate(RateText(cap, 'm', t, tunit)) == ParseRate(RateText(1000 * cap % 0x1_0000_0000, 'k', t, tunit))
      && ParseRate(RateText(cap, 'k', t, tunit)) == ParseRate(RateText(1000 * cap % 0x1_0000_0000, '\0', t, tunit))
  {
    var small := 1000 * cap % 0x1_0000_0000;
    if small != 0 {
      ReduceFirst(1_000_000, 1000, cap);
      SameCapacity(cap, 1_000_000_000, small, 1_000_000, 'g', 'm', t, tunit);
      ReduceFirst(1000, 1000, cap);
      SameCapacity(cap, 1_000_000, small, 1000, 'm', 'k', t, tunit);
      ReduceFirst(1, 1000, cap);
      SameCapacity(cap, 1000, small, 1, 'k', '\0', t, tunit);
    }
  }

  /** Both products wrap at 32 bits. They come out as 0 exactly for multiples of a power of
      two that depends on the unit; seconds and plain numbers never do. */
  lemma ParseRateZero(text: RateText)
    requires ParseRate(text).Some?
    ensures ParseRate(text).value.agetime == 0 <==>
      || (text.tunit == 'd' && text.t % 0x200_0000 == 0)
      || (text.tunit == 'h' && text.t % 0x1000_0000 == 0)
      || (text.tunit == 'm' && text.t % 0x4000_0000 == 0)
    ensures ParseRate(text).value.capacity == 0 <==>
      || (text.cunit == 'g' && text.cap % 0x80_0000 == 0)
      || (text.cunit == 'm' && text.cap % 0x400_0000 == 0)
      || (text.cunit == 'k' && text.cap % 0x2000_0000 == 0)
  {
    VanishesForMultiples(86400, 675, 0x2000000, 18989323, 382, text.t);
    VanishesForMultiples(3600, 225, 0x10000000, 124076833, 104, text.t);
    VanishesForMultiples(60, 15, 0x40000000, 787410671, 11, text.t);
    VanishesForMultiples(1000000000, 1953125, 0x800000, 3054701, 711228, text.cap);
    VanishesForMultiples(1000000, 15625, 0x4000000, 12738873, 2966, text.cap);
    VanishesForMultiples(1000, 125, 0x20000000, 115964117, 27, text.cap);
  }

  /** A product with t vanishes at 32 bits exactly for the multiples of p, if inverse is an
      inverse of its odd part modulo p. */
  lemma VanishesForMultiples(factor: nat, odd: nat, p: nat, inverse: nat, m: nat, t: nat)
    requires p > 0 && factor * p == 0x1_0000_0000 * odd && inverse * odd == 1 + p * m
    ensures (factor * t) % 0x1_0000_0000 == 0 <==> t % p == 0
  {
    if (factor * t) % 0x1_0000_0000 == 0 {
      var y := QuotientOf(factor, odd, p, inverse, m, t, (factor * t) / 0x1_0000_0000);
      QuotientUnique(t, p, y, 0);
    }
    if t % p == 0 {
      var k := t / p;
      FactorOfMultiple(factor, odd, p, k, t);
      QuotientUnique(factor * t, 0x1_0000_0000, odd * k, 0);
    }
  }

  lemma FactorOfMultiple(factor: nat, odd: nat, p: nat, k: nat, t: nat)
    requires factor * p == 0x1_0000_0000 * odd && t == p * k
    ensures factor * t == (odd * k) * 0x1_0000_0000
  {
    assert factor * t == (factor * p) * k by {
      assert factor * (p * k) == (factor * p) * k;
    }
    assert (0x1_0000_0000 * odd) * k == (odd * k) * 0x1_0000_0000;
  }

  lemma QuotientOf(factor: nat, odd: nat, p: nat, inverse: nat, m: nat, t: nat, q: nat) returns (y: nat)
    requires p > 0 && factor * p == 0x1_0000_0000 * odd && inverse * odd == 1 + p * m
    requires factor * t == 0x1_0000_0000 * q
    ensures t == y * p
  {
    assert (factor * p) * t == (factor * t) * p;
    assert (0x1_0000_0000 * odd) * t == 0x1_0000_0000 * (odd * t);
    assert (0x1_0000_0000 * q) * p == 0x1_0000_0000 * (q * p);
    assert odd * t == q * p;
    assert (inverse * odd) * t == inverse * (odd * t) == inverse * (q * p) == (inverse * q) * p;
    assert (1 + p * m) * t == t + (m * t) * p;
    var z := inverse * q - m * t;
    assert t == z * p;
    NegativeProduct(z, p);
    y := z;
  }

  lemma NegativeProduct(z: int, p: int)
    requires p > 0
    ensures z < 0 ==> z * p < 0
  {
    if z < 0 {
      ScaleUpInt(-z, p);
    }
  }

  /** The rate "10 / 33554432d" is accepted and has no ageing period. */
  lemma AcceptedWithoutPeriod()
    ensures ParseRate(RateText(10, NO_UNIT, 33554432, 'd')) == Some(Conf(10, 0))
  {
  }

  /** Then the count never ages: a call only moves the time stamp and clears the excess. */
  lemma NoPeriodNeverAges(c: Conf, mult: u8, b: Bucket, now: int)
    requires c.agetime == 0
    ensures Aged(RateOf(c, mult), b, now) == if now >= b.tstamp then Bucket(b.count, 0, now) else b
  {
  }

  // ----- one window

  function Overflows(overs: seq<bool>): nat {
    if |overs| == 0 then 0 else (if overs[0] then 1 else 0) + Overflows(overs[1..])
  }

  /** n unit charges inside the window of bucket b. */
  ghost predicate UnitsInWindow(r: Rate, b: Bucket, es: seq<Charge>) {
    b.count < r.threshold && forall e :: e in es ==> e.inc == 1 && e.time - b.tstamp < r.agetime
  }

  lemma UnitStep(r: Rate, b: Bucket, e: Charge)
    requires b.count < r.threshold && e.inc == 1 && e.time - b.tstamp < r.agetime
    ensures
      var (b', over) := Charged(r, b, e.inc, e.time);
      && b'.tstamp == b.tstamp && b'.count < r.threshold
      && b.count + 1 == (if over then r.threshold else 0) + b'.count
  {
  }

  lemma OverflowsStep(over: bool, overs: seq<bool>, t: int)
    ensures Overflows([over] + overs) * t == (if over then t else 0) + Overflows(overs) * t
  {
    assert ([over] + overs)[1..] == overs;
    assert (1 + Overflows(overs)) * t == t + Overflows(overs) * t;
  }

  lemma {:induction false} UnitRunSum(r: Rate, b: Bucket, es: seq<Charge>)
    requires UnitsInWindow(r, b, es)
    ensures Final(r, b, es).tstamp == b.tstamp && Final(r, b, es).count < r.threshold
    ensures b.count + |es| == Overflows(Reports(r, b, es)) * r.threshold + Final(r, b, es).count
    decreases |es|
  {
    if |es| != 0 {
      assert es[0] in es;
      UnitStep(r, b, es[0]);
      var (b', over) := Charged(r, b, es[0].inc, es[0].time);
      UnitRunSum(r, b', es[1..]);
      OverflowsStep(over, Reports(r, b', es[1..]), r.threshold);
    }
  }

  /** n unit charges inside one window, from any count below the threshold T: exactly
      (count + n) / T overflows are reported and (count + n) mod T remain. */
  lemma UnitRun(r: Rate, b: Bucket, es: seq<Charge>)
    requires UnitsInWindow(r, b, es)
    ensures Final(r, b, es).count == (b.count + |es|) % r.threshold
    ensures Overflows(Reports(r, b, es)) == (b.count + |es|) / r.threshold
  {
    UnitRunSum(r, b, es);
    QuotientUnique(b.count + |es|, r.threshold, Overflows(Reports(r, b, es)), Final(r, b, es).count);
  }

  function SumInc(es: seq<Charge>): nat {
    if |es| == 0 then 0 else es[0].inc + SumInc(es[1..])
  }

  lemma ModAdd(a: int, b: int)
    ensures (a % 0x1_0000_0000 + b) % 0x1_0000_0000 == (a + b) % 0x1_0000_0000
  {
  }

  lemma ChargeConserved(r: Rate, b: Bucket, e: Charge)
    requires e.time - b.tstamp < r.agetime
    ensures
      var b' := Charged(r, b, e.inc, e.time).0;
      (b'.count + b'.excess) % 0x1_0000_0000 == (b.count + b.excess + e.inc) % 0x1_0000_0000 && b'.tstamp == b.tstamp
  {
    ModAdd(b.count + e.inc, b.excess);
  }

  /** Within one window no charge is lost: count + excess grows by exactly the sum
      of the increments, in the unsigned arithmetic that bucket_output prints. */
  lemma {:induction false} ChargesConserved(r: Rate, b: Bucket, es: seq<Charge>)
    requires forall e :: e in es ==> e.time - b.tstamp < r.agetime
    ensures
      var b' := Final(r, b, es);
      (b'.count + b'.excess) % 0x1_0000_0000 == (b.count + b.excess + SumInc(es)) % 0x1_0000_0000
    decreases |es|
  {
    if |es| != 0 {
      var e := es[0];
      var b1 := Charged(r, b, e.inc, e.time).0;
      ChargeConserved(r, b, e);
      ChargesConserved(r, b1, es[1..]);
      ModAdd(b1.count + b1.excess, SumInc(es[1..]));
      ModAdd(b.count + b.excess + e.inc, SumInc(es[1..]));
    }
  }
}
