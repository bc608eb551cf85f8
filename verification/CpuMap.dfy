/** The shared-CPU map of a cache: cache.c parses the text, yellow.c lists the CPUs.
    The text is groups of hexadecimal digits separated by commas, the most significant
    group and digit first. */
module CpuMap {
  import opened Powers

  predicate IsHex(c: char) {
    '0' <= c <= '9' || 'a' <= c <= 'f' || 'A' <= c <= 'F'
  }

  function Digit(c: char): (d: nat)
    requires IsHex(c)
    ensures d < 16
  {
    if c <= '9' then c as int - '0' as int
    else if c <= 'F' then c as int - 'A' as int + 10
    else c as int - 'a' as int + 10
  }

  /** The digits in order, in either case, are those and no others. */
  lemma DigitValues()
    ensures forall c :: IsHex(c) <==> c in "0123456789abcdefABCDEF"
    ensures forall i :: 0 <= i < 16 ==> Digit("0123456789abcdef"[i]) == i && Digit("0123456789ABCDEF"[i]) == i
  {
  }

  predicate AllHex(s: string) {
    forall i :: 0 <= i < |s| ==> IsHex(s[i])
  }

  /** The characters a map is made of. */
  predicate MapText(s: string) {
    forall i :: 0 <= i < |s| ==> IsHex(s[i]) || s[i] == ','
  }

  lemma MapCharacters(s: string)
    ensures MapText(s) <==> forall i :: 0 <= i < |s| ==> s[i] in "0123456789abcdefABCDEF,"
  {
    DigitValues();
  }

  /** The text between the commas. */
  function Groups(s: string): (g: seq<string>)
    ensures |g| > 0
  {
    if |s| == 0 then [""]
    else
      var g := Groups(s[..|s| - 1]);
      if s[|s| - 1] == ',' then g + [""] else g[..|g| - 1] + [g[|g| - 1] + [s[|s| - 1]]]
  }

  function Last<T>(s: seq<T>): T
    requires |s| > 0
  {
    s[|s| - 1]
  }

  /** Splitting at the last comma. */
  lemma {:induction false} GroupsAtComma(s: string, p: nat)
    requires p < |s| && s[p] == ',' && ',' !in s[p + 1..]
    ensures Groups(s) == Groups(s[..p]) + [s[p + 1..]]
  {
    var front := s[..|s| - 1];
    if p == |s| - 1 {
      assert s[p + 1..] == "";
    } else {
      assert Last(s[p + 1..]) == Last(s);
      assert front[p + 1..] == s[p + 1..|s| - 1];
      assert front[..p] == s[..p];
      GroupsAtComma(front, p);
      assert s[p + 1..] == front[p + 1..] + [Last(s)];
    }
  }

  lemma {:induction false} OneGroup(s: string)
    requires ',' !in s
    ensures Groups(s) == [s]
  {
    if |s| > 0 {
      OneGroup(s[..|s| - 1]);
      assert s == s[..|s| - 1] + [Last(s)];
    }
  }

  lemma {:induction false} GroupsHex(s: string)
    requires MapText(s)
    ensures forall i :: 0 <= i < |Groups(s)| ==> AllHex(Groups(s)[i])
  {
    if |s| > 0 {
      GroupsHex(s[..|s| - 1]);
      assert AllHex(Last(Groups(s[..|s| - 1])));
    }
  }

  // ----- the length

  /** Bytes for one group of width digits: round_up(width * 4, 32) / 8 */
  function GroupBytes(width: nat): nat {
    (width * 4 + 31) / 32 * 32 / 8
  }

  /** The least number of whole 32-bit words that holds the digits. */
  lemma GroupBytesIs(width: nat)
    ensures GroupBytes(width) % 4 == 0 && 2 * GroupBytes(width) >= width
    ensures width > 0 ==> 2 * (GroupBytes(width) - 4) < width
    ensures width == 0 ==> GroupBytes(width) == 0
  {
  }

  function TotalBytes(groups: seq<string>): nat {
    if |groups| == 0 then 0 else TotalBytes(groups[..|groups| - 1]) + GroupBytes(|Last(groups)|)
  }

  /** The variables len and width of cpumap_len after it has read s. */
  function Scanned(s: string): (nat, nat) {
    if |s| == 0 then (0, 0)
    else
      var (len, width) := Scanned(s[..|s| - 1]);
      if IsHex(Last(s)) then (len, width + 1) else (len + GroupBytes(width), 0)
  }

  /** The value cpumap_len returns, the terminating zero byte ending the last group. */
  function MapBytes(s: string): nat {
    Scanned(s).0 + GroupBytes(Scanned(s).1)
  }

  /** cpumap_len */
  method CpumapLen(s: string) returns (len: nat)
    ensures len == MapBytes(s)
  {
    len := 0;
    var width := 0;
    var i := 0;
    while i < |s|
      invariant 0 <= i <= |s| && (len, width) == Scanned(s[..i])
    {
      assert s[..i + 1][..i] == s[..i];
      if IsHex(s[i]) {
        width := width + 1;
      } else {
        len := len + GroupBytes(width);
        width := 0;
      }
      i := i + 1;
    }
    assert s[..|s|] == s;
    len := len + GroupBytes(width);
  }

  lemma {:induction false} LengthOfGroups(s: string)
    requires MapText(s)
    ensures Scanned(s).1 == |Last(Groups(s))| && MapBytes(s) == TotalBytes(Groups(s))
  {
    var g := Groups(s);
    if |s| > 0 {
      var front := s[..|s| - 1];
      var h := Groups(front);
      LengthOfGroups(front);
      if Last(s) == ',' {
        assert g[..|g| - 1] == h;
      } else {
        assert g[..|g| - 1] == h[..|h| - 1];
      }
    }
  }

  /** Every group has one to eight digits, so it fits an unsigned of 32 bits. */
  predicate WordGroups(groups: seq<string>) {
    forall i :: 0 <= i < |groups| ==> 1 <= |groups[i]| <= 8
  }

  lemma {:induction false} OneWordPerGroup(groups: seq<string>)
    requires WordGroups(groups)
    ensures TotalBytes(groups) == 4 * |groups|
  {
    if |groups| > 0 {
      OneWordPerGroup(groups[..|groups| - 1]);
    }
  }

  // ----- the words

  function HexValue(s: string): nat
    requires AllHex(s)
  {
    if |s| == 0 then 0 else 16 * HexValue(s[..|s| - 1]) + Digit(Last(s))
  }

  /** strtoul with base 16, which stops at ULONG_MAX, stored in an unsigned. */
  function Word(s: string): nat
    requires AllHex(s)
  {
    var v := HexValue(s);
    if v >= 0x1_0000_0000_0000_0000 then 0xFFFF_FFFF else v % 0x1_0000_0000
  }

  lemma SliceHex(s: string, from: nat, to: nat)
    requires from <= to <= |s| && AllHex(s[from..to])
    ensures forall k :: from <= k < to ==> IsHex(s[k])
  {
    var slice := s[from..to];
    assert forall i :: 0 <= i < |slice| ==> IsHex(slice[i]) && slice[i] == s[from + i];
    assert forall k :: from <= k < to ==> s[k] == slice[k - from];
  }

  /** strtoul(s + from, NULL, 16), stored in an unsigned */
  method Strtoul(s: string, from: nat, ghost to: nat) returns (w: nat)
    requires from <= to <= |s| && AllHex(s[from..to]) && (to == |s| || !IsHex(s[to]))
    ensures w == Word(s[from..to])
  {
    var v := 0;
    var i := from;
    SliceHex(s, from, to);
    while i < |s| && IsHex(s[i])
      invariant from <= i <= to && AllHex(s[from..i]) && v == HexValue(s[from..i])
    {
      assert i < to;
      assert s[from..i + 1][..i - from] == s[from..i];
      v := 16 * v + Digit(s[i]);
      i := i + 1;
    }
    assert i == to;
    w := if v >= 0x1_0000_0000_0000_0000 then 0xFFFF_FFFF else v % 0x1_0000_0000;
  }

  /** memrchr(s, ',', n): the last comma before position n. */
  method LastComma(s: string, n: nat) returns (found: bool, p: nat)
    requires n <= |s|
    ensures found ==> p < n && s[p] == ',' && ',' !in s[p + 1..n]
    ensures !found ==> ',' !in s[..n]
  {
    p := n;
    while p > 0
      invariant p <= n && ',' !in s[p..n]
    {
      p := p - 1;
      if s[p] == ',' {
        return true, p;
      }
      assert s[p..n] == [s[p]] + s[p + 1..n];
    }
    return false, 0;
  }

  predicate IsWordOf(w: nat, group: string) {
    AllHex(group) && w == Word(group)
  }

  /** The first c words are those of the last c groups, the last group first. */
  predicate Filled(buf: seq<nat>, groups: seq<string>, c: nat) {
    && c <= |buf| && c <= |groups|
    && forall j :: 0 <= j < c ==> IsWordOf(buf[j], groups[|groups| - 1 - j])
  }

  /** Where the last group before position end starts. */
  method GroupStart(s: string, end: nat) returns (start: nat)
    requires end <= |s|
    ensures start <= end
    ensures start == 0 ==> Groups(s[..end]) == [s[..end]]
    ensures start > 0 ==> s[start - 1] == ',' && Groups(s[..end]) == Groups(s[..start - 1]) + [s[start..end]]
  {
    var found, p := LastComma(s, end);
    if found {
      assert s[..end][p + 1..] == s[p + 1..end] && s[..end][..p] == s[..p];
      GroupsAtComma(s[..end], p);
      return p + 1;
    }
    OneGroup(s[..end]);
    return 0;
  }

  method PutWord(buf: array<nat>, c: nat, w: nat, ghost groups: seq<string>)
    requires c < buf.Length && c < |groups| && Filled(buf[..], groups, c)
    requires IsWordOf(w, groups[|groups| - 1 - c])
    modifies buf
    ensures Filled(buf[..], groups, c + 1)
  {
    ghost var before := buf[..];
    buf[c] := w;
    assert forall j :: 0 <= j < c ==> buf[..][j] == before[j];
    assert buf[..][c] == w;
  }

  /** parse_cpumap. The buffer must have a word for every group; asserted is the outcome of
      the assertion at its end. */
  method ParseCpumap(map_: string, buf: array<nat>, len: nat) returns (asserted: bool)
    requires MapText(map_) && |Groups(map_)| <= buf.Length
    modifies buf
    ensures Filled(buf[..], Groups(map_), |Groups(map_)|)
    ensures asserted <==> len == 4 * |Groups(map_)|
  {
    var c := 0;
    var end := |map_|;
    ghost var groups := Groups(map_);
    assert map_[..|map_|] == map_;
    GroupsHex(map_);
    while true
      invariant 0 <= end <= |map_| && (end == |map_| || !IsHex(map_[end]))
      invariant |Groups(map_[..end])| + c == |groups| && Groups(map_[..end]) <= groups
      invariant Filled(buf[..], groups, c)
      decreases end
    {
      var s := GroupStart(map_, end);
      assert groups[|groups| - 1 - c] == Last(Groups(map_[..end])) == map_[s..end];
      var w := Strtoul(map_, s, end);
      PutWord(buf, c, w, groups);
      c := c + 1;
      if s == 0 {
        break;
      }
      end := s - 1;
    }
    asserted := len == c * 4;
  }

  // ----- the bits

  /** Bit i of w, as test_bit reads it. */
  predicate Bit(w: nat, i: nat)
    decreases i
  {
    if i == 0 then w % 2 == 1 else Bit(w / 2, i - 1)
  }

  /** A half rounded down, divided on. */
  lemma HalfDivided(w: nat, p: nat)
    requires p > 0
    ensures w / 2 / p == w / (2 * p)
  {
    var (q, r) := (w / 2 / p, w / 2 % p);
    assert w / 2 == q * p + r;
    QuotientUnique(w, 2 * p, q, 2 * r + w % 2);
  }

  /** Bit i counts 2^i. */
  lemma {:induction false} BitIs(w: nat, i: nat)
    ensures Pow2(i) > 0 && (Bit(w, i) <==> w / Pow2(i) % 2 == 1)
  {
    Pow2Monotone(0, i);
    if i > 0 {
      BitIs(w / 2, i - 1);
      HalfDivided(w, Pow2(i - 1));
    }
  }

  lemma ShiftFour(w: nat, d: nat, i: nat)
    requires d < 16
    ensures Bit(16 * w + d, i) == if i < 4 then Bit(d, i) else Bit(w, i - 4)
  {
    var v := 16 * w + d;
    assert v / 2 == 8 * w + d / 2 && v / 2 / 2 == 4 * w + d / 4 && v / 2 / 2 / 2 == 2 * w + d / 8;
    assert v / 2 / 2 / 2 / 2 == w;
    if i >= 4 {
      assert Bit(v, i) == Bit(v / 2, i - 1) == Bit(v / 2 / 2, i - 2) == Bit(v / 2 / 2 / 2, i - 3) == Bit(w, i - 4);
    } else {
      assert d / 2 / 2 == d / 4 && d / 2 / 2 / 2 == d / 8;
    }
  }

  lemma {:induction false} ZeroBits(i: nat)
    ensures !Bit(0, i)
  {
    if i > 0 {
      ZeroBits(i - 1);
    }
  }

  /** Bit i of a group, read off its digits without evaluating it. */
  predicate GroupBit(s: string, i: nat)
    requires AllHex(s)
  {
    i / 4 < |s| && Bit(Digit(s[|s| - 1 - i / 4]), i % 4)
  }

  lemma {:induction false} HexBits(s: string, i: nat)
    requires AllHex(s)
    ensures Bit(HexValue(s), i) == GroupBit(s, i)
  {
    if |s| == 0 {
      ZeroBits(i);
    } else {
      var front := s[..|s| - 1];
      ShiftFour(HexValue(front), Digit(Last(s)), i);
      if i >= 4 {
        HexBits(front, i - 4);
        assert i / 4 == (i - 4) / 4 + 1 && i % 4 == (i - 4) % 4;
      }
    }
  }

  function Pow16(n: nat): nat {
    if n == 0 then 1 else 16 * Pow16(n - 1)
  }

  lemma {:induction false} HexBound(s: string)
    requires AllHex(s)
    ensures HexValue(s) < Pow16(|s|)
  {
    if |s| > 0 {
      HexBound(s[..|s| - 1]);
    }
  }

  lemma {:induction false} Pow16Grows(m: nat, n: nat)
    requires m <= n
    ensures Pow16(m) <= Pow16(n)
  {
    if m < n {
      Pow16Grows(m, n - 1);
    }
  }

  /** Eight digits fit the word: nothing is cut off. */
  lemma WordKeepsValue(s: string)
    requires AllHex(s) && |s| <= 8
    ensures Word(s) == HexValue(s)
  {
    HexBound(s);
    Pow16Grows(|s|, 8);
    assert Pow16(4) == 0x1_0000;
    assert Pow16(8) == 0x1_0000_0000;
  }

  lemma Regroup(h: nat, p: nat, low: nat, d: nat)
    ensures 16 * (h * p + low) + d == h * (16 * p) + (16 * low + d)
  {
  }

  lemma {:induction false} HexSplit(s: string, k: nat)
    requires AllHex(s) && k <= |s|
    ensures HexValue(s) == HexValue(s[..|s| - k]) * Pow16(k) + HexValue(s[|s| - k..])
    decreases k
  {
    if k == 0 {
      assert s[..|s|] == s && s[|s|..] == "";
    } else {
      var (front, low) := (s[..|s| - 1], s[|s| - k..]);
      HexSplit(front, k - 1);
      assert front[..|front| - (k - 1)] == s[..|s| - k];
      assert low[..|low| - 1] == front[|front| - (k - 1)..];
      Regroup(HexValue(s[..|s| - k]), Pow16(k - 1), HexValue(front[|front| - (k - 1)..]), Digit(Last(s)));
    }
  }

  lemma Reduced(h: nat, low: nat)
    requires low < 0x1_0000_0000
    ensures (h * 0x1_0000_0000 + low) % 0x1_0000_0000 == low
  {
  }

  /** A group of more than eight digits keeps its last eight, unless it has more than sixteen
      and those in front of the last sixteen are not all 0: then the word is all ones. */
  lemma WordExactly(s: string)
    requires AllHex(s)
    ensures
      var (high, low) := (if |s| > 16 then s[..|s| - 16] else "", if |s| > 8 then s[|s| - 8..] else s);
      Word(s) == if HexValue(high) > 0 then 0xFFFF_FFFF else HexValue(low)
  {
    WordPowers();
    if |s| <= 8 {
      WordKeepsValue(s);
    } else {
      var (front, low) := (s[..|s| - 8], s[|s| - 8..]);
      HexSplit(s, 8);
      HexBound(low);
      Reduced(HexValue(front), HexValue(low));
      HexBound(s);
      if |s| > 16 {
        HexSplit(s, 16);
        HexBound(s[|s| - 16..]);
      } else {
        Pow16Grows(|s|, 16);
      }
    }
  }

  lemma WordPowers()
    ensures Pow16(8) == 0x1_0000_0000 && Pow16(16) == 0x1_0000_0000_0000_0000
  {
    assert Pow16(4) == 0x1_0000;
    assert Pow16(8) == 0x1_0000_0000;
    assert Pow16(12) == 0x1_0000_0000_0000;
  }

  /** CPU i is in the map: its digit is counted from the right end of its group of 32, and
      the groups from the right end of the map. */
  predicate InMap(map_: string, i: nat)
    requires MapText(map_)
  {
    GroupsHex(map_);
    var g := Groups(map_);
    i / 32 < |g| && GroupBit(g[|g| - 1 - i / 32], i % 32)
  }

  /** test_bit on a buffer of words */
  predicate TestBit(words: seq<nat>, i: nat) {
    i / 32 < |words| && Bit(words[i / 32], i % 32)
  }

  lemma BitIsCpu(map_: string, words: seq<nat>, i: nat)
    requires MapText(map_) && WordGroups(Groups(map_))
    requires |words| == |Groups(map_)| && Filled(words, Groups(map_), |words|)
    ensures TestBit(words, i) == InMap(map_, i)
  {
    GroupsHex(map_);
    if i / 32 < |words| {
      var s := Groups(map_)[|words| - 1 - i / 32];
      WordKeepsValue(s);
      HexBits(s, i % 32);
    }
  }

  // ----- the list

  function Decimal(n: nat): string {
    if n < 10 then [(n + '0' as int) as char] else Decimal(n / 10) + [(n % 10 + '0' as int) as char]
  }

  /** The number that a text of decimal digits stands for. */
  function NumberOf(s: string): int {
    if |s| == 0 then 0 else 10 * NumberOf(s[..|s| - 1]) + (s[|s| - 1] as int - '0' as int)
  }

  /** A number is printed in decimal digits, without leading zeros, that stand for it. */
  lemma {:induction false} DecimalReads(n: nat)
    ensures NumberOf(Decimal(n)) == n && |Decimal(n)| > 0
    ensures forall i :: 0 <= i < |Decimal(n)| ==> '0' <= Decimal(n)[i] <= '9'
    ensures n > 0 ==> Decimal(n)[0] != '0'
  {
    if n >= 10 {
      DecimalReads(n / 10);
      var (front, d) := (Decimal(n / 10), (n % 10 + '0' as int) as char);
      assert (front + [d])[..|front|] == front;
    } else {
      assert [(n + '0' as int) as char][..0] == "";
    }
  }

  /** Numbers separated by one space. */
  function Spaced(cpus: seq<nat>): string {
    if |cpus| == 0 then ""
    else Spaced(cpus[..|cpus| - 1]) + (if |cpus| > 1 then " " else "") + Decimal(Last(cpus))
  }

  /** The CPUs below n that are on. */
  ghost function Below(on: nat -> bool, n: nat): seq<nat> {
    if n == 0 then [] else if on(n - 1) then Below(on, n - 1) + [n - 1] else Below(on, n - 1)
  }

  /** They are in ascending order, and each one is there. */
  lemma {:induction false} BelowLists(on: nat -> bool, n: nat)
    ensures forall a, b :: 0 <= a < b < |Below(on, n)| ==> Below(on, n)[a] < Below(on, n)[b]
    ensures forall i: nat :: i in Below(on, n) <==> i < n && on(i)
  {
    if n > 0 {
      BelowLists(on, n - 1);
      var cpus := Below(on, n - 1);
      assert forall a :: 0 <= a < |cpus| ==> cpus[a] in cpus;
    }
  }

  lemma {:induction false} BelowSame(on: nat -> bool, on': nat -> bool, n: nat)
    requires forall i: nat :: i < n ==> on(i) == on'(i)
    ensures Below(on, n) == Below(on', n)
  {
    if n > 0 {
      BelowSame(on, on', n - 1);
    }
  }

  lemma {:induction false} BelowNone(on: nat -> bool, n: nat)
    requires forall i: nat :: i < n ==> !on(i)
    ensures Below(on, n) == []
  {
    if n > 0 {
      BelowNone(on, n - 1);
    }
  }

  lemma SpacedAppend(cpus: seq<nat>, i: nat)
    ensures Spaced(cpus + [i]) == Spaced(cpus) + (if |cpus| > 0 then " " else "") + Decimal(i)
  {
    assert (cpus + [i])[..|cpus|] == cpus;
  }

  lemma ConcatAssoc(a: string, b: string, c: string, d: string)
    ensures a + b + c + d == a + (b + c + d)
  {
  }

  /** fprintf of one CPU number */
  method Append(buf: string, k: nat, i: nat, ghost prefix: string, ghost cpus: seq<nat>) returns (r: string)
    requires k == |cpus| && buf == prefix + Spaced(cpus)
    ensures r == prefix + Spaced(cpus + [i])
  {
    SpacedAppend(cpus, i);
    ConcatAssoc(prefix, Spaced(cpus), if k > 0 then " " else "", Decimal(i));
    r := buf + (if k > 0 then " " else "") + Decimal(i);
  }

  /** test_bit on the words of an array */
  predicate BitAt(a: array<nat>, i: nat)
    requires i < 32 * a.Length
    reads a
    ensures BitAt(a, i) == TestBit(a[..], i)
  {
    Bit(a[i / 32], i % 32)
  }

  ghost function Mask(words: seq<nat>): nat -> bool {
    (i: nat) => TestBit(words, i)
  }

  /** The list after the first i bits: k numbers, cpus, have been printed. */
  ghost predicate Shown(buf: string, k: nat, prefix: string, cpus: seq<nat>, words: seq<nat>, i: nat) {
    k == |cpus| && buf == prefix + Spaced(cpus) && cpus == Below(Mask(words), i)
  }

  lemma NothingShown(prefix: string, words: seq<nat>)
    ensures Shown(prefix, 0, prefix, [], words, 0)
  {
    assert prefix + "" == prefix;
  }

  /** The body of the loop of cpulist. */
  method ListBit(cpumask: array<nat>, i: nat, buf: string, k: nat, ghost prefix: string, ghost cpus: seq<nat>)
    returns (r: string, n: nat, ghost more: seq<nat>)
    requires i < 32 * cpumask.Length && Shown(buf, k, prefix, cpus, cpumask[..], i)
    ensures Shown(r, n, prefix, more, cpumask[..], i + 1)
  {
    r, n, more := buf, k, cpus;
    if BitAt(cpumask, i) {
      r := Append(buf, k, i, prefix, cpus);
      n, more := k + 1, cpus + [i];
    }
  }

  /** cpulist; the mask has a whole number of words. */
  method Cpulist(prefix: string, cpumask: array<nat>, cpumasklen: nat) returns (buf: string)
    requires cpumasklen == 4 * cpumask.Length
    ensures buf == prefix + Spaced(Below(Mask(cpumask[..]), 32 * cpumask.Length))
  {
    ghost var cpus: seq<nat> := [];
    ghost var words := cpumask[..];
    NothingShown(prefix, words);
    buf := prefix;
    var k: nat := 0;
    var i: nat := 0;
    while i < cpumasklen * 8
      invariant 0 <= i <= cpumasklen * 8 && cpumask[..] == words
      invariant Shown(buf, k, prefix, cpus, words, i)
    {
      buf, k, cpus := ListBit(cpumask, i, buf, k, prefix, cpus);
      i := i + 1;
    }
  }

  /** No words for an empty text, otherwise one for each group. */
  predicate ParsedWords(map_: string, words: seq<nat>) {
    if map_ == "" then |words| == 0
    else |words| == |Groups(map_)| && Filled(words, Groups(map_), |words|)
  }

  /** read_cpu_map: an empty text gives no map (no words); otherwise a buffer of exactly the
      computed length is filled, and the assertion in parse_cpumap holds. */
  method ReadCpuMap(map_: string) returns (cpumap: array<nat>, cpumaplen: nat)
    requires MapText(map_) && (map_ != "" ==> WordGroups(Groups(map_)))
    ensures fresh(cpumap) && cpumaplen == 4 * cpumap.Length
    ensures ParsedWords(map_, cpumap[..])
  {
    if map_ == "" {
      return new nat[0], 0;
    }
    LengthOfGroups(map_);
    OneWordPerGroup(Groups(map_));
    cpumaplen := CpumapLen(map_);
    cpumap := new nat[cpumaplen / 4](i => 0);
    var asserted := ParseCpumap(map_, cpumap, cpumaplen);
    assert asserted;
  }

  /** The CPUs that the digits of a map name. */
  ghost function CpusOf(map_: string): seq<nat>
    requires MapText(map_)
  {
    Below((i: nat) => InMap(map_, i), 32 * |Groups(map_)|)
  }

  lemma CpusOfMeaning(map_: string)
    requires MapText(map_)
    ensures forall a, b :: 0 <= a < b < |CpusOf(map_)| ==> CpusOf(map_)[a] < CpusOf(map_)[b]
    ensures forall i: nat :: i in CpusOf(map_) <==> InMap(map_, i)
  {
    BelowLists((i: nat) => InMap(map_, i), 32 * |Groups(map_)|);
  }

  lemma MaskIsMap(map_: string, words: seq<nat>)
    requires MapText(map_)
    requires (map_ != "" ==> WordGroups(Groups(map_))) && ParsedWords(map_, words)
    ensures Below(Mask(words), 32 * |words|) == CpusOf(map_)
  {
    var (on, n) := ((i: nat) => InMap(map_, i), 32 * |Groups(map_)|);
    if map_ == "" {
      BelowNone(on, n);
    } else {
      forall i: nat
        ensures Mask(words)(i) == on(i)
      {
        BitIsCpu(map_, words, i);
      }
      BelowSame(Mask(words), on, n);
    }
  }

  /** From the text to the list: the CPUs printed are exactly those the digits name, in
      ascending order (see CpusOfMeaning). */
  method ListSharedCpus(prefix: string, map_: string) returns (buf: string)
    requires MapText(map_) && (map_ != "" ==> WordGroups(Groups(map_)))
    ensures buf == prefix + Spaced(CpusOf(map_))
  {
    var cpumap, cpumaplen := ReadCpuMap(map_);
    buf := Cpulist(prefix, cpumap, cpumaplen);
    MaskIsMap(map_, cpumap[..]);
  }
}
