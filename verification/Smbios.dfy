/** The walk over the SMBIOS structure table in dmi.c. Memory is a function from offsets to
    bytes; the table is the range [0, end). */
module Smbios {
  import opened Wrappers

  type Byte = x: int | 0 <= x < 256

  type Memory = nat -> Byte

  predicate Ascending(s: seq<nat>) {
    forall i, j :: 0 <= i < j < |s| ==> s[i] < s[j]
  }

  /** The first zero byte from s on, or end - 1 if there is none before it. */
  function Terminator(mem: Memory, s: nat, end: int): nat
    requires s < end
    decreases end - s
  {
    if s < end - 1 && mem(s) != 0 then Terminator(mem, s + 1, end) else s
  }

  lemma {:induction false} TerminatorMeaning(mem: Memory, s: nat, end: int)
    requires s < end
    ensures
      var p := Terminator(mem, s, end);
      && s <= p <= end - 1 && (p < end - 1 ==> mem(p) == 0) && forall i :: s <= i < p ==> mem(i) != 0
    decreases end - s
  {
    if s < end - 1 && mem(s) != 0 {
      TerminatorMeaning(mem, s + 1, end);
    }
  }

  /** A string set from s on: strings each ended by a zero byte, and one more zero byte
      after the last (section 6.1.3 of DMTF DSP0134). The offset after it, if it lies
      within the table. */
  function SetEnd(mem: Memory, s: nat, end: int): Option<nat>
    decreases end - s
  {
    if s >= end - 1 then None
    else
      TerminatorMeaning(mem, s, end);
      var p := Terminator(mem, s, end);
      if p >= end - 1 then None
      else if mem(p + 1) == 0 then Some(p + 2)
      else SetEnd(mem, p + 1, end)
  }

  /** e->length, the second byte of the structure header */
  function Length(mem: Memory, e: nat): Byte {
    mem(e + 1)
  }

  /** Where the structure after e starts, if e is well formed. */
  function NextEntry(mem: Memory, e: nat, end: int): Option<nat> {
    SetEnd(mem, e + Length(mem, e), end)
  }

  /** A byte of memory, with a note of where it was read. */
  method Read(mem: Memory, p: nat, ghost reads_: set<nat>) returns (b: Byte, ghost noted: set<nat>)
    ensures b == mem(p) && noted == reads_ + {p}
  {
    b, noted := mem(p), reads_ + {p};
  }

  /** All these offsets lie inside the table. */
  predicate AllInside(noted: set<nat>, end: int) {
    forall p :: p in noted ==> p < end
  }

  /** The inner loop of check_entry: to the first zero byte, or to the last byte of the table. */
  method SkipString(mem: Memory, start: nat, end: int, ghost reads_: set<nat>)
    returns (s: nat, ghost noted: set<nat>)
    ensures start >= end ==> s == start
    ensures start < end ==> s == Terminator(mem, start, end)
    ensures reads_ <= noted && forall p :: p in noted ==> p in reads_ || p < end
  {
    s, noted := start, reads_;
    while s < end - 1
      invariant start < end ==> s < end && Terminator(mem, s, end) == Terminator(mem, start, end)
      invariant start >= end ==> s == start
      invariant reads_ <= noted && forall p :: p in noted ==> p in reads_ || p < end
    {
      var b;
      b, noted := Read(mem, s, noted);
      if b == 0 {
        break;
      }
      s := s + 1;
    }
  }

  /** check_entry. It reads only inside the table exactly if the length byte of the header
      is inside; the callers do not check that. */
  method CheckEntry(mem: Memory, e: nat, end: int) returns (ok: bool, next: nat, ghost noted: set<nat>)
    ensures ok <==> NextEntry(mem, e, end).Some?
    ensures ok ==> next == NextEntry(mem, e, end).value
    ensures AllInside(noted, end) <==> e + 1 < end
  {
    next, noted := 0, {};
    var length;
    length, noted := Read(mem, e + 1, noted);
    var s := e + length;
    while true
      invariant SetEnd(mem, s, end) == NextEntry(mem, e, end)
      invariant e + 1 in noted && forall p :: p in noted ==> p == e + 1 || p < end
      decreases end - s
    {
      if s < end { TerminatorMeaning(mem, s, end); }
      s, noted := SkipString(mem, s, end, noted);
      if s >= end - 1 {
        return false, 0, noted;
      }
      s := s + 1;
      var b;
      b, noted := Read(mem, s, noted);
      if b == 0 {
        return true, s + 1, noted;
      }
    }
  }

  /** An accepted structure takes at least length + 2 bytes and ends inside the table. */
  lemma {:induction false} SetEndBounds(mem: Memory, s: nat, end: int)
    requires SetEnd(mem, s, end).Some?
    ensures s + 2 <= SetEnd(mem, s, end).value <= end
    decreases end - s
  {
    TerminatorMeaning(mem, s, end);
    var p := Terminator(mem, s, end);
    if mem(p + 1) != 0 {
      SetEndBounds(mem, p + 1, end);
    }
  }

  lemma EntryBounds(mem: Memory, e: nat, end: int)
    requires NextEntry(mem, e, end).Some?
    ensures e + Length(mem, e) + 2 <= NextEntry(mem, e, end).value <= end
  {
    SetEndBounds(mem, e + Length(mem, e), end);
  }

  /** The string set ends with the first two zero bytes in a row; nothing else ends it. */
  lemma {:induction false} SetEndIsDoubleZero(mem: Memory, s: nat, end: int, n: nat)
    ensures SetEnd(mem, s, end) == Some(n) <==>
      && s + 2 <= n <= end && mem(n - 2) == 0 && mem(n - 1) == 0
      && forall p :: s <= p < n - 2 ==> !(mem(p) == 0 && mem(p + 1) == 0)
    decreases end - s
  {
    if s < end - 1 {
      TerminatorMeaning(mem, s, end);
      var p := Terminator(mem, s, end);
      if p < end - 1 && mem(p + 1) != 0 {
        SetEndIsDoubleZero(mem, p + 1, end, n);
        assert n < p + 3 ==> SetEnd(mem, s, end) != Some(n);
      }
      assert s + 2 <= n <= end && mem(n - 2) == 0 ==> p <= n - 2;
    }
  }

  /** check_entry accepts a structure exactly if two zero bytes in a row follow its formatted
      part inside the table; the next one starts behind the first such pair. */
  lemma NextIsBehindDoubleZero(mem: Memory, e: nat, end: int, n: nat)
    ensures NextEntry(mem, e, end) == Some(n) <==>
      && e + mem(e + 1) + 2 <= n <= end && mem(n - 2) == 0 && mem(n - 1) == 0
      && forall p :: e + mem(e + 1) <= p < n - 2 ==> !(mem(p) == 0 && mem(p + 1) == 0)
  {
    SetEndIsDoubleZero(mem, e + Length(mem, e), end, n);
  }

  // ----- strings

  /** Two zero bytes at once: a structure without strings (section 6.1.3 of DMTF DSP0134). */
  predicate EmptySet(mem: Memory, s: nat) {
    mem(s) == 0 && mem(s + 1) == 0
  }

  /** The offsets of the strings of a well formed set. */
  function Strings(mem: Memory, s: nat, end: int): seq<nat>
    requires SetEnd(mem, s, end).Some?
  {
    if EmptySet(mem, s) then [] else StringsFrom(mem, s, end)
  }

  /** The offset s and those that follow a zero byte of the set. */
  function StringsFrom(mem: Memory, s: nat, end: int): seq<nat>
    requires SetEnd(mem, s, end).Some?
    decreases end - s
  {
    TerminatorMeaning(mem, s, end);
    var p := Terminator(mem, s, end);
    if mem(p + 1) == 0 then [s] else [s] + StringsFrom(mem, p + 1, end)
  }

  /** Strings start at the beginning of the set and behind each zero byte in it but the last
      two. */
  lemma {:induction false} StringsExactly(mem: Memory, s: nat, end: int, x: nat)
    requires SetEnd(mem, s, end).Some?
    ensures x in StringsFrom(mem, s, end) <==>
      s <= x < SetEnd(mem, s, end).value - 1 && (x > s ==> mem(x - 1) == 0)
    decreases end - s
  {
    TerminatorMeaning(mem, s, end);
    SetEndBounds(mem, s, end);
    var p := Terminator(mem, s, end);
    if mem(p + 1) != 0 {
      StringsExactly(mem, p + 1, end, x);
      assert x in StringsFrom(mem, s, end) <==> x == s || x in StringsFrom(mem, p + 1, end);
      SetEndBounds(mem, p + 1, end);
      assert p < x ==> (x > p + 1 || mem(x - 1) == 0);
      assert s < x <= p ==> mem(x - 1) != 0;
    }
  }

  /** They are numbered from the front. */
  lemma {:induction false} StringsAscending(mem: Memory, s: nat, end: int)
    requires SetEnd(mem, s, end).Some?
    ensures Ascending(StringsFrom(mem, s, end))
    decreases end - s
  {
    TerminatorMeaning(mem, s, end);
    var p := Terminator(mem, s, end);
    if mem(p + 1) != 0 {
      StringsAscending(mem, p + 1, end);
      var rest := StringsFrom(mem, p + 1, end);
      forall i | 0 <= i < |rest|
        ensures s < rest[i]
      {
        assert rest[i] in rest;
        StringsExactly(mem, p + 1, end, rest[i]);
      }
    }
  }

  /** A byte of the string set that ends before bound. */
  function Inside(mem: Memory, p: nat, ghost from: nat, ghost bound: nat): Byte
    requires from <= p < bound
  {
    mem(p)
  }

  datatype StringRef = Empty | At(offset: nat) | Null

  /** The n-th string, counted from 1; 0 stands for an empty string. */
  function Pick(strings: seq<nat>, n: nat): StringRef {
    if n == 0 then Empty else if n <= |strings| then At(strings[n - 1]) else Null
  }

  /** On a structure without strings the scan starts in the empty set all the same. */
  lemma EmptySetScan(mem: Memory, s: nat, end: int)
    requires SetEnd(mem, s, end).Some?
    ensures EmptySet(mem, s) ==> Strings(mem, s, end) == [] && StringsFrom(mem, s, end) == [s]
    ensures !EmptySet(mem, s) ==> Strings(mem, s, end) == StringsFrom(mem, s, end)
  {
    TerminatorMeaning(mem, s, end);
  }

  /** The inner loop of dmi_getstring. */
  method ToZero(mem: Memory, start: nat, ghost from: nat, ghost bound: nat, ghost end: int) returns (s: nat)
    requires from <= start && SetEnd(mem, start, end) == Some(bound)
    ensures s == Terminator(mem, start, end) && start <= s < end - 1 && s + 1 < bound
  {
    TerminatorInside(mem, start, end);
    s := start;
    while Inside(mem, s, from, bound) != 0
      invariant start <= s < end - 1 && s < bound && Terminator(mem, s, end) == Terminator(mem, start, end)
      decreases end - s
    {
      StepInside(mem, start, s, end);
      s := s + 1;
    }
  }

  /** dmi_getstring on an accepted structure: every byte read lies in its string set. The
      result is the number-th string, the empty string for 0, or NULL, unless string 1 of a
      structure without strings is asked for: then it is the empty text in front of the
      second zero byte instead of NULL. */
  method GetString(mem: Memory, e: nat, number: nat, ghost end: int) returns (r: StringRef)
    requires NextEntry(mem, e, end).Some?
    ensures var s := e + Length(mem, e);
      && (r == Pick(Strings(mem, s, end), number) <==> !(EmptySet(mem, s) && number == 1))
      && (EmptySet(mem, s) && number == 1 ==> r == At(s) && mem(s) == 0)
    ensures var strings := Strings(mem, e + Length(mem, e), end);
      && (r == Empty <==> number == 0) && (0 < number <= |strings| ==> r == At(strings[number - 1]))
      && (number > |strings| && !(strings == [] && number == 1) ==> r == Null)
  {
    EmptySetScan(mem, e + Length(mem, e), end);
    ghost var from := e + Length(mem, e);
    ghost var bound := NextEntry(mem, e, end).value;
    var s := e + Length(mem, e);
    if number == 0 {
      return Empty;
    }
    var left := number;
    while true
      invariant from <= s && 0 < left <= number && SetEnd(mem, s, end) == Some(bound)
      invariant Pick(StringsFrom(mem, from, end), number) == Pick(StringsFrom(mem, s, end), left)
      decreases end - s
    {
      SetEndBounds(mem, s, end);
      TerminatorMeaning(mem, s, end);
      left := left - 1;
      if left == 0 {
        return At(s);
      }
      s := ToZero(mem, s, from, bound, end);
      s := s + 1;
      if Inside(mem, s, from, bound) == 0 {
        return Null;
      }
      SetEndBounds(mem, s, end);
    }
  }

  lemma TerminatorInside(mem: Memory, s: nat, end: int)
    requires SetEnd(mem, s, end).Some?
    ensures s <= Terminator(mem, s, end) < end - 1 && Terminator(mem, s, end) + 2 <= SetEnd(mem, s, end).value
  {
    TerminatorMeaning(mem, s, end);
    if mem(Terminator(mem, s, end) + 1) != 0 {
      SetEndBounds(mem, Terminator(mem, s, end) + 1, end);
    }
  }

  lemma StepInside(mem: Memory, start: nat, s: nat, end: int)
    requires SetEnd(mem, start, end).Some? && start <= s < end - 1 && mem(s) != 0
    requires Terminator(mem, s, end) == Terminator(mem, start, end)
    ensures s + 1 < end - 1 && s + 1 < SetEnd(mem, start, end).value
    ensures Terminator(mem, s + 1, end) == Terminator(mem, start, end)
  {
    TerminatorInside(mem, start, end);
    TerminatorMeaning(mem, s, end);
    TerminatorMeaning(mem, s + 1, end);
  }

  // ----- the walk

  /** The offsets of the structures that are accepted when at most n are looked at. */
  function Walk(mem: Memory, e: nat, end: int, n: nat): seq<nat>
    decreases n
  {
    if n == 0 || NextEntry(mem, e, end).None? then []
    else [e] + Walk(mem, NextEntry(mem, e, end).value, end, n - 1)
  }

  /** The structures of a walk are disjoint, in order and inside the table: each one with
      its string set ends before the next begins, and the last one before the table does. */
  lemma {:induction false} WalkDisjoint(mem: Memory, e: nat, end: int, n: nat)
    ensures |Walk(mem, e, end, n)| <= n
    ensures forall i :: 0 <= i < |Walk(mem, e, end, n)| ==>
      var x := Walk(mem, e, end, n)[i];
      e <= x && NextEntry(mem, x, end).Some? && x + Length(mem, x) + 2 <= NextEntry(mem, x, end).value <= end
    ensures forall i, j :: 0 <= i < j < |Walk(mem, e, end, n)| ==>
      NextEntry(mem, Walk(mem, e, end, n)[i], end).value <= Walk(mem, e, end, n)[j]
    decreases n
  {
    if n != 0 && NextEntry(mem, e, end).Some? {
      EntryBounds(mem, e, end);
      WalkDisjoint(mem, NextEntry(mem, e, end).value, end, n - 1);
    }
  }

  /** What dmi_collect keeps: the type, a minimum length, and for memory devices (type 17)
      a size that is not zero. */
  predicate Wanted(mem: Memory, e: nat, kind: int, minsize: int) {
    && mem(e) == kind && Length(mem, e) >= minsize
    && !(kind == 17 && mem(e + 12) == 0 && mem(e + 13) == 0)
  }

  function Filtered(mem: Memory, es: seq<nat>, kind: int, minsize: int): seq<nat> {
    if |es| == 0 then []
    else (if Wanted(mem, es[0], kind, minsize) then [es[0]] else []) + Filtered(mem, es[1..], kind, minsize)
  }

  /** The structures that dmi_collect keeps when it looks at no more than n from e on. */
  function Kept(mem: Memory, e: nat, end: int, n: nat, kind: int, minsize: int): seq<nat> {
    Filtered(mem, Walk(mem, e, end, n), kind, minsize)
  }

  lemma {:induction false} FilteredExactly(mem: Memory, es: seq<nat>, kind: int, minsize: int, x: nat)
    ensures x in Filtered(mem, es, kind, minsize) <==>
      && x in es && mem(x) == kind && mem(x + 1) >= minsize
      && (kind == 17 ==> mem(x + 12) + 256 * mem(x + 13) != 0)
  {
    if |es| > 0 {
      FilteredExactly(mem, es[1..], kind, minsize, x);
      assert x in es <==> x == es[0] || x in es[1..];
    }
  }

  lemma {:induction false} FilteredAscending(mem: Memory, es: seq<nat>, kind: int, minsize: int)
    requires Ascending(es)
    ensures Ascending(Filtered(mem, es, kind, minsize))
  {
    if |es| > 0 {
      FilteredAscending(mem, es[1..], kind, minsize);
      var rest := Filtered(mem, es[1..], kind, minsize);
      forall i | 0 <= i < |rest|
        ensures es[0] < rest[i]
      {
        assert rest[i] in rest;
        FilteredExactly(mem, es[1..], kind, minsize, rest[i]);
      }
    }
  }

  lemma WalkAscending(mem: Memory, e: nat, end: int, n: nat)
    ensures Ascending(Walk(mem, e, end, n))
  {
    WalkDisjoint(mem, e, end, n);
    var es := Walk(mem, e, end, n);
    forall i, j | 0 <= i < j < |es|
      ensures es[i] < es[j]
    {
      assert es[i] + Length(mem, es[i]) + 2 <= NextEntry(mem, es[i], end).value <= es[j];
    }
  }

  /** Kept are exactly the structures of the walk that have the type and the minimum length
      and, for memory devices (type 17), a 16-bit size at offset 12 that is not 0; in order. */
  lemma KeptExactly(mem: Memory, e: nat, end: int, n: nat, kind: int, minsize: int, x: nat)
    ensures x in Kept(mem, e, end, n, kind, minsize) <==>
      && x in Walk(mem, e, end, n) && mem(x) == kind && mem(x + 1) >= minsize
      && (kind == 17 ==> mem(x + 12) + 256 * mem(x + 13) != 0)
    ensures Ascending(Kept(mem, e, end, n, kind, minsize))
  {
    WalkAscending(mem, e, end, n);
    FilteredAscending(mem, Walk(mem, e, end, n), kind, minsize);
    FilteredExactly(mem, Walk(mem, e, end, n), kind, minsize, x);
  }

  /** One structure of the walk: it is kept if wanted, and the walk goes on after it. */
  lemma KeptStep(mem: Memory, e: nat, end: int, n: nat, kind: int, minsize: int, kept: seq<nat>)
    requires n > 0 && NextEntry(mem, e, end).Some?
    ensures kept + Kept(mem, e, end, n, kind, minsize)
      == (if Wanted(mem, e, kind, minsize) then kept + [e] else kept)
         + Kept(mem, NextEntry(mem, e, end).value, end, n - 1, kind, minsize)
  {
    var after := Walk(mem, NextEntry(mem, e, end).value, end, n - 1);
    assert Walk(mem, e, end, n)[1..] == after;
    var rest := Filtered(mem, after, kind, minsize);
    assert kept + ([e] + rest) == kept + [e] + rest;
    assert [] + rest == rest;
  }

  /** The slots of r: the offsets in kept, then only NULL. */
  predicate Holds(r: array<Option<nat>>, kept: seq<nat>)
    reads r
  {
    && |kept| < r.Length
    && (forall i :: 0 <= i < |kept| ==> r[i] == Some(kept[i]))
    && (forall i :: |kept| <= i < r.Length ==> r[i] == None)
  }

  /** The body of the loop of dmi_collect after check_entry. */
  method Consider(mem: Memory, r: array<Option<nat>>, k: nat, e: nat, kind: int, minsize: int, ghost kept: seq<nat>)
    returns (len: nat, ghost more: seq<nat>, ghost noted: set<nat>)
    requires Holds(r, kept) && k == |kept| && k + 1 < r.Length
    modifies r
    ensures more == (if Wanted(mem, e, kind, minsize) then kept + [e] else kept)
    ensures |more| > |kept| <==>
      mem(e) == kind && mem(e + 1) >= minsize && (kind == 17 ==> mem(e + 12) + 256 * mem(e + 13) != 0)
    ensures Holds(r, more) && len == |more|
    ensures forall p :: p in noted ==> p <= e + 1 || (p <= e + 13 && kind == 17 && Length(mem, e) >= minsize)
  {
    len, more, noted := k, kept, {};
    var type_, length;
    type_, noted := Read(mem, e, noted);
    if type_ != kind {
      return;
    }
    length, noted := Read(mem, e + 1, noted);
    if length < minsize {
      return;
    }
    if kind == 17 {
      var low, high;
      low, noted := Read(mem, e + 12, noted);
      high, noted := Read(mem, e + 13, noted);
      if low == 0 && high == 0 {
        return;
      }
    }
    r[len] := Some(e);
    len, more := len + 1, kept + [e];
  }

  /** The structures that check_entry is asked about: those accepted and the first one that
      is not. */
  function Looked(mem: Memory, e: nat, end: int, n: nat): seq<nat>
    decreases n
  {
    if n == 0 then []
    else [e] + if NextEntry(mem, e, end).None? then [] else Looked(mem, NextEntry(mem, e, end).value, end, n - 1)
  }

  /** The header of each of them starts at or before end - 2. */
  predicate HeadersInside(looked: seq<nat>, end: int) {
    forall i :: 0 <= i < |looked| ==> looked[i] + 1 < end
  }

  lemma HeadersStep(mem: Memory, e: nat, end: int, n: nat)
    requires n > 0
    ensures
      var next := NextEntry(mem, e, end);
      HeadersInside(Looked(mem, e, end, n), end) <==>
        e + 1 < end && (next.Some? ==> HeadersInside(Looked(mem, next.value, end, n - 1), end))
  {
    var next := NextEntry(mem, e, end);
    var (all, rest) := (Looked(mem, e, end, n), Looked(mem, e, end, n)[1..]);
    assert next.Some? ==> rest == Looked(mem, next.value, end, n - 1);
    if HeadersInside(all, end) {
      assert forall i :: 0 <= i < |rest| ==> rest[i] == all[i + 1];
    }
    assert all[0] == e;
  }

  /** One turn of the loop of dmi_collect; ok is false where it stops. */
  method TakeEntry(mem: Memory, end: int, r: array<Option<nat>>, k: nat, e: nat, kind: int, minsize: int,
                   ghost kept: seq<nat>)
    returns (ok: bool, next: nat, len: nat, ghost more: seq<nat>, ghost noted: set<nat>)
    requires Holds(r, kept) && k == |kept| && k + 1 < r.Length
    modifies r
    ensures Holds(r, more) && len == |more|
    ensures ok <==> NextEntry(mem, e, end).Some?
    ensures ok ==> next == NextEntry(mem, e, end).value
    ensures more == if ok && Wanted(mem, e, kind, minsize) then kept + [e] else kept
    ensures (kind == 17 ==> minsize >= 12) ==> (AllInside(noted, end) <==> e + 1 < end)
  {
    len, more := k, kept;
    ok, next, noted := CheckEntry(mem, e, end);
    if ok {
      EntryBounds(mem, e, end);
      ghost var read;
      len, more, read := Consider(mem, r, k, e, kind, minsize, kept);
      noted := noted + read;
    }
  }

  /** What dmi_collect is called with, and the walk from the first of its structures. */
  datatype Request = Request(mem: Memory, end: int, numentries: nat, kind: int, minsize: int)

  function Answer(q: Request): seq<nat> {
    Kept(q.mem, 0, q.end, q.numentries, q.kind, q.minsize)
  }

  ghost predicate AllHeadersInside(q: Request) {
    HeadersInside(Looked(q.mem, 0, q.end, q.numentries), q.end)
  }

  /** The minimum length covers the size field of a memory device. */
  predicate LongEnough(q: Request) {
    q.kind == 17 ==> q.minsize >= 12
  }

  /** Before the structure at e, with left more to look at. */
  ghost predicate Underway(q: Request, kept: seq<nat>, e: nat, left: nat, noted: set<nat>) {
    && Answer(q) == kept + Kept(q.mem, e, q.end, left, q.kind, q.minsize)
    && (LongEnough(q) ==> AllInside(noted, q.end))
    && (AllHeadersInside(q) <==> HeadersInside(Looked(q.mem, e, q.end, left), q.end))
  }

  lemma UnderwayNext(q: Request, kept: seq<nat>, e: nat, left: nat, noted: set<nat>, more: seq<nat>, read: set<nat>)
    requires Underway(q, kept, e, left, noted) && left > 0 && NextEntry(q.mem, e, q.end).Some?
    requires more == if Wanted(q.mem, e, q.kind, q.minsize) then kept + [e] else kept
    requires LongEnough(q) ==> (AllInside(read, q.end) <==> e + 1 < q.end)
    ensures Underway(q, more, NextEntry(q.mem, e, q.end).value, left - 1, noted + read)
  {
    EntryBounds(q.mem, e, q.end);
    HeadersStep(q.mem, e, q.end, left);
    KeptStep(q.mem, e, q.end, left, q.kind, q.minsize, kept);
    InsideBoth(noted, read, q.end);
  }

  /** The walk stops: nothing is left, or the structure at e is not accepted. */
  ghost predicate Stopped(q: Request, kept: seq<nat>, noted: set<nat>) {
    kept == Answer(q) && (LongEnough(q) ==> (AllInside(noted, q.end) <==> AllHeadersInside(q)))
  }

  lemma StopsAtEnd(q: Request, kept: seq<nat>, e: nat, noted: set<nat>)
    requires Underway(q, kept, e, 0, noted)
    ensures Stopped(q, kept, noted)
  {
  }

  lemma StopsAt(q: Request, kept: seq<nat>, e: nat, left: nat, noted: set<nat>, read: set<nat>)
    requires Underway(q, kept, e, left, noted) && left > 0 && NextEntry(q.mem, e, q.end).None?
    requires LongEnough(q) ==> (AllInside(read, q.end) <==> e + 1 < q.end)
    ensures Stopped(q, kept, noted + read)
  {
    HeadersStep(q.mem, e, q.end, left);
    InsideBoth(noted, read, q.end);
  }

  /** dmi_collect: the array of numentries + 1 slots, all NULL at first, gets the wanted
      structures of the walk in order and keeps a NULL after them. With the minimum length
      that its caller gives for memory devices, it reads only inside the table exactly if
      the header of each structure looked at is inside. */
  method Collect(q: Request) returns (r: array<Option<nat>>, len: nat, ghost noted: set<nat>)
    ensures fresh(r) && r.Length == q.numentries + 1
    ensures Holds(r, Answer(q)) && len == |Answer(q)|
    ensures LongEnough(q) ==> (AllInside(noted, q.end) <==> AllHeadersInside(q))
  {
    r := new Option<nat>[q.numentries + 1](i => None);
    len, noted := 0, {};
    ghost var kept: seq<nat> := [];
    var e: nat := 0;
    var left: nat := q.numentries;
    while left > 0
      invariant len == |kept| <= q.numentries - left && Holds(r, kept)
      invariant Underway(q, kept, e, left, noted)
    {
      ghost var read, more;
      var ok, next;
      ok, next, len, more, read := TakeEntry(q.mem, q.end, r, len, e, q.kind, q.minsize, kept);
      if !ok {
        StopsAt(q, kept, e, left, noted, read);
        noted := noted + read;
        return;
      }
      UnderwayNext(q, kept, e, left, noted, more, read);
      kept, noted, e, left := more, noted + read, next, left - 1;
    }
    StopsAtEnd(q, kept, e, noted);
  }

  lemma InsideBoth(a: set<nat>, b: set<nat>, end: int)
    ensures AllInside(a + b, end) <==> AllInside(a, end) && AllInside(b, end)
  {
    assert AllInside(a + b, end) ==> (forall p :: p in a ==> p in a + b) && (forall p :: p in b ==> p in a + b);
  }

  /** A table of one structure of four bytes without strings, and a count of two: the walk
      goes on at the end of the table, and the next header is read behind it. */
  lemma WalkReachesEnd()
    ensures
      var mem: Memory := (p: nat) => if p == 1 then 4 else 0;
      Looked(mem, 0, 6, 2) == [0, 6] && !HeadersInside(Looked(mem, 0, 6, 2), 6)
  {
    var mem: Memory := (p: nat) => if p == 1 then 4 else 0;
    assert Terminator(mem, 4, 6) == 4;
    assert SetEnd(mem, 4, 6) == Some(6);
    assert NextEntry(mem, 0, 6) == Some(6);
    assert NextEntry(mem, 6, 6) == None;
    assert Looked(mem, 6, 6, 1) == [6];
    assert Looked(mem, 0, 6, 2)[1] == 6;
  }
}
