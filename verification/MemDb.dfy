/** The DIMM and socket error database of memdb.c: a hash table of chains that behaves as
    a map, and conservation of the error counts over every run. */
module MemDb {
  import opened LeakyBucket

  datatype Key = Key(socketid: int, channel: int, dimm: int)

  /** struct err_type, and with it the total that its unsigned count is the low part of
      (see StoredCounts). */
  datatype ErrType = ErrType(count: u32, total: nat, bucket: Bucket)

  /** struct memdimm; the link to the next entry is the position in the chain. */
  datatype Memdimm = Memdimm(key: Key, ce: ErrType, uc: ErrType)

  type Chain = seq<Memdimm>

  /** md_dimms and the hash function that places entries in it. */
  datatype Table = Table(chains: seq<Chain>, hash: Key -> nat)

  // ----- the hash function

  /** O(x): the low byte of a two's complement number */
  function LowByte(x: int): bv32 {
    (x % 256) as bv32
  }

  function Fnv(hash: bv32, byte: bv32): bv32 {
    (hash ^ byte) * 0x01000193
  }

  /** dimmhash: FNV-1a over two bytes of the socket and one of dimm and channel */
  function DimmHash(k: Key): (h: nat)
    ensures h < 17
  {
    var h := Fnv(Fnv(2166136261, LowByte(k.socketid)), LowByte(k.socketid / 256));
    var h' := Fnv(Fnv(h, LowByte(k.dimm)), LowByte(k.channel));
    h' as nat % 17
  }

  /** The hash of socket 1, channel 2, DIMM 3: FNV-1a over the bytes 1, 0, 3 and 2. */
  lemma FnvValues()
    ensures Fnv(Fnv(Fnv(Fnv(2166136261, 1), 0), 3), 2) == 1869686885
  {
    assert Fnv(2166136261, 1) == 67918732;
    assert Fnv(67918732, 0) == 3950255460;
    assert Fnv(3950255460, 3) == 248138021;
  }

  lemma DimmHashValue()
    ensures DimmHash(Key(1, 2, 3)) == 1869686885 % 17
  {
    FnvValues();
    assert LowByte(1) == 1 && LowByte(0) == 0 && LowByte(2) == 2 && LowByte(3) == 3;
  }

  // ----- chains and the table

  function FindIn(c: Chain, k: Key): nat {
    if |c| == 0 then 0 else if c[0].key == k then 0 else 1 + FindIn(c[1..], k)
  }

  lemma {:induction false} FindInMeaning(c: Chain, k: Key)
    ensures FindIn(c, k) <= |c|
    ensures FindIn(c, k) < |c| ==> c[FindIn(c, k)].key == k
    ensures forall i :: 0 <= i < FindIn(c, k) ==> c[i].key != k
  {
    if |c| != 0 {
      FindInMeaning(c[1..], k);
    }
  }

  ghost predicate DistinctKeys(c: Chain) {
    forall i, j :: 0 <= i < j < |c| ==> c[i].key != c[j].key
  }

  /** Store an entry under its key: replaced where it is, or put in front. */
  function PutIn(c: Chain, md: Memdimm): Chain {
    if FindIn(c, md.key) < |c| then c[FindIn(c, md.key) := md] else [md] + c
  }

  lemma FindUnique(c: Chain, k: Key, i: nat)
    requires DistinctKeys(c) && i < |c| && c[i].key == k
    ensures FindIn(c, k) == i
  {
    FindInMeaning(c, k);
  }

  lemma FindNone(c: Chain, k: Key)
    requires forall i :: 0 <= i < |c| ==> c[i].key != k
    ensures FindIn(c, k) == |c|
  {
    FindInMeaning(c, k);
  }

  lemma PutInKeys(c: Chain, md: Memdimm)
    requires DistinctKeys(c)
    ensures DistinctKeys(PutIn(c, md))
    ensures forall j :: 0 <= j < |PutIn(c, md)| ==>
      PutIn(c, md)[j].key == md.key || exists i :: 0 <= i < |c| && c[i].key == PutIn(c, md)[j].key
  {
    FindInMeaning(c, md.key);
    var c' := PutIn(c, md);
    if FindIn(c, md.key) < |c| {
      assert forall j :: 0 <= j < |c| ==> c'[j].key == c[j].key;
    } else {
      assert forall j :: 0 < j < |c'| ==> c'[j] == c[j - 1];
    }
  }

  lemma PutInFind(c: Chain, md: Memdimm, k: Key)
    requires DistinctKeys(c)
    ensures
      var (c', i, i') := (PutIn(c, md), FindIn(c, k), FindIn(PutIn(c, md), k));
      && (i' < |c'| <==> i < |c| || k == md.key)
      && (i' < |c'| ==> c'[i'] == if k == md.key then md else if i < |c| then c[i] else md)
  {
    var (c', at, i) := (PutIn(c, md), FindIn(c, md.key), FindIn(c, k));
    PutInKeys(c, md);
    FindInMeaning(c, md.key);
    FindInMeaning(c, k);
    if k == md.key {
      FindUnique(c', k, if at < |c| then at else 0);
    } else if i < |c| {
      FindUnique(c', k, if at < |c| then i else i + 1);
    } else {
      if at >= |c| {
        assert forall j :: 0 < j < |c'| ==> c'[j] == c[j - 1];
      }
      FindNone(c', k);
    }
  }

  /** Every entry is in the chain of its hash, and no key occurs twice. */
  ghost predicate Good(t: Table) {
    && |t.chains| == 17 && (forall k :: t.hash(k) < 17)
    && forall h :: 0 <= h < 17 ==> GoodChain(t, h)
  }

  ghost predicate GoodChain(t: Table, h: nat)
    requires h < |t.chains|
  {
    DistinctKeys(t.chains[h]) && forall i :: 0 <= i < |t.chains[h]| ==> t.hash(t.chains[h][i].key) == h
  }

  ghost function ChainOf(t: Table, k: Key): Chain
    requires Good(t)
  {
    t.chains[t.hash(k)]
  }

  ghost predicate Has(t: Table, k: Key)
    requires Good(t)
  {
    FindIn(ChainOf(t, k), k) < |ChainOf(t, k)|
  }

  ghost function Get(t: Table, k: Key): (md: Memdimm)
    requires Good(t) && Has(t, k)
    ensures md.key == k
  {
    FindInMeaning(ChainOf(t, k), k);
    ChainOf(t, k)[FindIn(ChainOf(t, k), k)]
  }

  ghost function Put(t: Table, md: Memdimm): Table
    requires Good(t)
  {
    t.(chains := t.chains[t.hash(md.key) := PutIn(ChainOf(t, md.key), md)])
  }

  lemma PutGood(t: Table, md: Memdimm)
    requires Good(t)
    ensures Good(Put(t, md))
  {
    var (t', at) := (Put(t, md), t.hash(md.key));
    assert GoodChain(t, at);
    PutInKeys(t.chains[at], md);
    forall h | 0 <= h < 17
      ensures GoodChain(t', h)
    {
      assert GoodChain(t, h) && GoodChain(t, at);
    }
  }

  /** The laws of a map: Put keeps the table well formed and changes exactly one key. */
  lemma PutIsMapUpdate(t: Table, md: Memdimm, k: Key)
    requires Good(t)
    ensures Good(Put(t, md))
    ensures Has(Put(t, md), k) <==> Has(t, k) || k == md.key
    ensures Has(Put(t, md), k) ==> Get(Put(t, md), k) == if k == md.key then md else if Has(t, k) then Get(t, k) else md
  {
    PutGood(t, md);
    assert GoodChain(t, t.hash(md.key));
    PutInFind(ChainOf(t, md.key), md, k);
  }

  // ----- totals

  /** Number of entries, as md_numdimms should count them. */
  function Total(chains: seq<Chain>): nat {
    if |chains| == 0 then 0 else |chains[0]| + Total(chains[1..])
  }

  /** All entries, chain by chain. */
  function Flatten(chains: seq<Chain>): seq<Memdimm> {
    if |chains| == 0 then [] else chains[0] + Flatten(chains[1..])
  }

  lemma {:induction false} FlattenUpdate(chains: seq<Chain>, h: nat, c: Chain)
    requires h < |chains|
    ensures Total(chains[h := c]) == Total(chains) - |chains[h]| + |c|
    ensures |Flatten(chains)| == Total(chains)
  {
    FlattenLength(chains);
    if h > 0 {
      FlattenUpdate(chains[1..], h - 1, c);
      assert chains[h := c][1..] == chains[1..][h - 1 := c];
    } else {
      assert chains[h := c][1..] == chains[1..];
    }
  }

  lemma {:induction false} FlattenLength(chains: seq<Chain>)
    ensures |Flatten(chains)| == Total(chains)
  {
    if |chains| != 0 {
      FlattenLength(chains[1..]);
    }
  }

  // ----- accounting

  datatype Triggers = Triggers(ce: Limits, uc: Limits)

  datatype Config = Config(memdbEnabled: bool, sockdbEnabled: bool, dimms: Triggers, sockets: Triggers)

  /** A memory error as memory_error receives it, whether the record has a socket id, and
      the wall clock for new buckets. */
  datatype Event = Event(hasSocket: bool, socketid: int, channel: int, dimm: int,
                         corrErrCnt: u32, uncorrected: bool, time: int, now: int)

  function NewEntry(k: Key, now: int): Memdimm {
    Memdimm(k, ErrType(0, 0, Bucket(0, 0, now)), ErrType(0, 0, Bucket(0, 0, now)))
  }

  function Bumped(l: Limits, e: ErrType, inc: u32, t: int): ErrType {
    ErrType((e.count + inc) % 0x1_0000_0000, e.total + inc, AccountedBy(l, e.bucket, inc, t, 1).0)
  }

  /** account_over: all but one of the errors a record stands for are assumed corrected. */
  function AccountOver(tr: Triggers, md: Memdimm, corrErrCnt: u32, t: int): Memdimm {
    if corrErrCnt > 1 then md.(ce := Bumped(tr.ce, md.ce, corrErrCnt - 1, t)) else md
  }

  /** account_memdb */
  function AccountOne(tr: Triggers, md: Memdimm, uncorrected: bool, t: int): Memdimm {
    if uncorrected then md.(uc := Bumped(tr.uc, md.uc, 1, t)) else md.(ce := Bumped(tr.ce, md.ce, 1, t))
  }

  /** A run of memdb_trigger: the entry as it is then, its count that has exceeded the
      threshold, whether that was for errors lost between records, the number accounted, and
      the time that is passed on (0 with lost errors). */
  datatype Report = Report(md: Memdimm, uncorrected: bool, lost: bool, inc: u32, time: int)

  /** Accounting inc errors overflows the bucket. */
  predicate Exceeds(l: Limits, e: ErrType, inc: u32, t: int) {
    AccountedBy(l, e.bucket, inc, t, 1).1
  }

  /** What account_over and account_memdb report. */
  function OverReports(tr: Triggers, md: Memdimm, corrErrCnt: u32, t: int): seq<Report> {
    if corrErrCnt > 1 && Exceeds(tr.ce, md.ce, corrErrCnt - 1, t)
    then [Report(AccountOver(tr, md, corrErrCnt, t), false, true, corrErrCnt - 1, 0)]
    else []
  }

  function OneReports(tr: Triggers, md: Memdimm, uncorrected: bool, t: int): seq<Report> {
    if (if uncorrected then Exceeds(tr.uc, md.uc, 1, t) else Exceeds(tr.ce, md.ce, 1, t))
    then [Report(AccountOne(tr, md, uncorrected, t), uncorrected, false, 1, t)]
    else []
  }

  function DimmKey(e: Event): Key {
    Key(e.socketid, e.channel, e.dimm)
  }

  function SocketKey(e: Event): Key {
    Key(e.socketid, -1, -1)
  }

  /** ch/dimm == -1 both: the error has no known location. */
  predicate Located(e: Event) {
    e.channel != -1 || e.dimm != -1
  }

  /** What get_memdimm with insert finds or creates. */
  ghost function Ensured(t: Table, k: Key, now: int): Memdimm
    requires Good(t)
  {
    if Has(t, k) then Get(t, k) else NewEntry(k, now)
  }

  ghost function DimmStep(cfg: Config, t: Table, e: Event): (r: Table)
    requires Good(t)
    ensures Good(r)
  {
    if cfg.memdbEnabled && Located(e) then
      var md := AccountOne(cfg.dimms, Ensured(t, DimmKey(e), e.now), e.uncorrected, e.time);
      PutGood(t, md);
      Put(t, md)
    else t
  }

  ghost function SocketStep(cfg: Config, t: Table, e: Event): (r: Table)
    requires Good(t)
    ensures Good(r)
  {
    if cfg.sockdbEnabled then
      var md := AccountOver(cfg.sockets, Ensured(t, SocketKey(e), e.now), e.corrErrCnt, e.time);
      var md' := AccountOne(cfg.sockets, md, e.uncorrected, e.time);
      PutGood(t, md');
      Put(t, md')
    else t
  }

  /** memory_error */
  ghost function ErrorStep(cfg: Config, t: Table, e: Event): (r: Table)
    requires Good(t)
    ensures Good(r)
  {
    if e.hasSocket then SocketStep(cfg, DimmStep(cfg, t, e), e) else t
  }

  ghost function DimmReports(cfg: Config, t: Table, e: Event): seq<Report>
    requires Good(t)
  {
    if cfg.memdbEnabled && Located(e) then OneReports(cfg.dimms, Ensured(t, DimmKey(e), e.now), e.uncorrected, e.time)
    else []
  }

  ghost function SocketReports(cfg: Config, t: Table, e: Event): seq<Report>
    requires Good(t)
  {
    if cfg.sockdbEnabled then
      var md := Ensured(t, SocketKey(e), e.now);
      OverReports(cfg.sockets, md, e.corrErrCnt, e.time)
      + OneReports(cfg.sockets, AccountOver(cfg.sockets, md, e.corrErrCnt, e.time), e.uncorrected, e.time)
    else []
  }

  /** What memory_error reports, in order. */
  ghost function ErrorReports(cfg: Config, t: Table, e: Event): seq<Report>
    requires Good(t)
  {
    if e.hasSocket then DimmReports(cfg, t, e) + SocketReports(cfg, DimmStep(cfg, t, e), e) else []
  }

  ghost function ErrorRun(cfg: Config, t: Table, es: seq<Event>): (r: Table)
    requires Good(t)
    ensures Good(r)
    decreases |es|
  {
    if |es| == 0 then t else ErrorStep(cfg, ErrorRun(cfg, t, es[..|es| - 1]), es[|es| - 1])
  }

  // ----- conservation per entry

  ghost function CeCount(t: Table, k: Key): int
    requires Good(t)
  {
    if Has(t, k) then Get(t, k).ce.total else 0
  }

  ghost function UcCount(t: Table, k: Key): int
    requires Good(t)
  {
    if Has(t, k) then Get(t, k).uc.total else 0
  }

  function Max(a: int, b: int): int {
    if a > b then a else b
  }

  /** Adding to the low 32 bits gives the low 32 bits of the new total. */
  lemma LowBits(total: nat, inc: u32)
    ensures (total % 0x1_0000_0000 + inc) % 0x1_0000_0000 == (total + inc) % 0x1_0000_0000
  {
  }

  /** The error is reported for this DIMM, which is not the one of no location. */
  predicate OnDimm(e: Event, socketid: int, channel: int, dimm: int) {
    && e.hasSocket && e.socketid == socketid && e.channel == channel && e.dimm == dimm
    && !(channel == -1 && dimm == -1)
  }

  /** What an error adds to the two counts of its DIMM entry and of its socket entry. */
  function DimmCe(cfg: Config, e: Event, k: Key): nat {
    if cfg.memdbEnabled && OnDimm(e, k.socketid, k.channel, k.dimm) && !e.uncorrected then 1 else 0
  }

  function DimmUc(cfg: Config, e: Event, k: Key): nat {
    if cfg.memdbEnabled && OnDimm(e, k.socketid, k.channel, k.dimm) && e.uncorrected then 1 else 0
  }

  function SocketCe(cfg: Config, e: Event, k: Key): nat {
    if e.hasSocket && cfg.sockdbEnabled && k == SocketKey(e)
    then Max(1, e.corrErrCnt) - (if e.uncorrected then 1 else 0)
    else 0
  }

  function SocketUc(cfg: Config, e: Event, k: Key): nat {
    if e.hasSocket && cfg.sockdbEnabled && k == SocketKey(e) && e.uncorrected then 1 else 0
  }

  lemma DimmStepCounts(cfg: Config, t: Table, e: Event, k: Key)
    requires Good(t) && e.hasSocket
    ensures CeCount(DimmStep(cfg, t, e), k) == CeCount(t, k) + DimmCe(cfg, e, k)
    ensures UcCount(DimmStep(cfg, t, e), k) == UcCount(t, k) + DimmUc(cfg, e, k)
  {
    if cfg.memdbEnabled && Located(e) {
      PutIsMapUpdate(t, AccountOne(cfg.dimms, Ensured(t, DimmKey(e), e.now), e.uncorrected, e.time), k);
    }
  }

  lemma ChargedTwice(tr: Triggers, md: Memdimm, e: Event)
    ensures
      var md' := AccountOne(tr, AccountOver(tr, md, e.corrErrCnt, e.time), e.uncorrected, e.time);
      && md'.key == md.key
      && md'.ce.total == md.ce.total + (Max(1, e.corrErrCnt) - if e.uncorrected then 1 else 0)
      && md'.uc.total == md.uc.total + if e.uncorrected then 1 else 0
  {
  }

  lemma SocketStepCounts(cfg: Config, t: Table, e: Event, k: Key)
    requires Good(t) && e.hasSocket
    ensures CeCount(SocketStep(cfg, t, e), k) == CeCount(t, k) + SocketCe(cfg, e, k)
    ensures UcCount(SocketStep(cfg, t, e), k) == UcCount(t, k) + SocketUc(cfg, e, k)
  {
    if cfg.sockdbEnabled {
      var md := Ensured(t, SocketKey(e), e.now);
      ChargedTwice(cfg.sockets, md, e);
      var over := AccountOver(cfg.sockets, md, e.corrErrCnt, e.time);
      PutIsMapUpdate(t, AccountOne(cfg.sockets, over, e.uncorrected, e.time), k);
    }
  }

  function CeShare(cfg: Config, e: Event, k: Key): nat {
    DimmCe(cfg, e, k) + SocketCe(cfg, e, k)
  }

  function UcShare(cfg: Config, e: Event, k: Key): nat {
    DimmUc(cfg, e, k) + SocketUc(cfg, e, k)
  }

  lemma StepCounts(cfg: Config, t: Table, e: Event, k: Key)
    requires Good(t)
    ensures CeCount(ErrorStep(cfg, t, e), k) == CeCount(t, k) + CeShare(cfg, e, k)
    ensures UcCount(ErrorStep(cfg, t, e), k) == UcCount(t, k) + UcShare(cfg, e, k)
  {
    if e.hasSocket {
      DimmStepCounts(cfg, t, e, k);
      SocketStepCounts(cfg, DimmStep(cfg, t, e), e, k);
    }
  }

  function CeShares(cfg: Config, es: seq<Event>, k: Key): nat
    decreases |es|
  {
    if |es| == 0 then 0 else CeShares(cfg, es[..|es| - 1], k) + CeShare(cfg, es[|es| - 1], k)
  }

  function UcShares(cfg: Config, es: seq<Event>, k: Key): nat
    decreases |es|
  {
    if |es| == 0 then 0 else UcShares(cfg, es[..|es| - 1], k) + UcShare(cfg, es[|es| - 1], k)
  }

  /** Every count of every entry is exactly the sum of the shares of the errors so far,
      whatever trackers are enabled. */
  lemma {:induction false} RunCounts(cfg: Config, t: Table, es: seq<Event>, k: Key)
    requires Good(t)
    ensures CeCount(ErrorRun(cfg, t, es), k) == CeCount(t, k) + CeShares(cfg, es, k)
    ensures UcCount(ErrorRun(cfg, t, es), k) == UcCount(t, k) + UcShares(cfg, es, k)
    decreases |es|
  {
    if |es| != 0 {
      var (front, e) := (es[..|es| - 1], es[|es| - 1]);
      RunCounts(cfg, t, front, k);
      StepCounts(cfg, ErrorRun(cfg, t, front), e, k);
    }
  }

  /** What the records of a socket stand for together. */
  function SocketErrors(es: seq<Event>, socketid: int): nat
    decreases |es|
  {
    if |es| == 0 then 0
    else
      var e := es[|es| - 1];
      SocketErrors(es[..|es| - 1], socketid) + if e.hasSocket && e.socketid == socketid then Max(1, e.corrErrCnt) else 0
  }

  lemma {:induction false} SocketShares(cfg: Config, es: seq<Event>, socketid: int)
    requires cfg.sockdbEnabled
    ensures CeShares(cfg, es, Key(socketid, -1, -1)) + UcShares(cfg, es, Key(socketid, -1, -1))
      == SocketErrors(es, socketid)
    decreases |es|
  {
    if |es| != 0 {
      SocketShares(cfg, es[..|es| - 1], socketid);
    }
  }

  /** From an empty table, the socket entry has counted every error of its socket once,
      with the errors lost between records. */
  lemma SocketConserved(cfg: Config, t: Table, es: seq<Event>, socketid: int)
    requires Good(t) && cfg.sockdbEnabled && forall k :: !Has(t, k)
    ensures
      var (t', k) := (ErrorRun(cfg, t, es), Key(socketid, -1, -1));
      CeCount(t', k) + UcCount(t', k) == SocketErrors(es, socketid)
  {
    var k := Key(socketid, -1, -1);
    RunCounts(cfg, t, es, k);
    SocketShares(cfg, es, socketid);
  }

  // ----- the stored counts

  ghost predicate Exact(md: Memdimm) {
    md.ce.count == md.ce.total % 0x1_0000_0000 && md.uc.count == md.uc.total % 0x1_0000_0000
  }

  ghost predicate AllExact(t: Table)
    requires Good(t)
  {
    forall k :: Has(t, k) ==> Exact(Get(t, k))
  }

  lemma AccountedExact(tr: Triggers, md: Memdimm, corrErrCnt: u32, uncorrected: bool, t: int)
    requires Exact(md)
    ensures Exact(AccountOver(tr, md, corrErrCnt, t)) && Exact(AccountOne(tr, md, uncorrected, t))
  {
    LowBits(md.ce.total, 1);
    LowBits(md.uc.total, 1);
    if corrErrCnt > 1 {
      LowBits(md.ce.total, corrErrCnt - 1);
    }
  }

  lemma PutExact(t: Table, md: Memdimm)
    requires Good(t) && AllExact(t) && Exact(md)
    ensures Good(Put(t, md)) && AllExact(Put(t, md))
  {
    PutGood(t, md);
    forall k | Has(Put(t, md), k)
      ensures Exact(Get(Put(t, md), k))
    {
      PutIsMapUpdate(t, md, k);
    }
  }

  lemma EnsuredExact(t: Table, k: Key, now: int)
    requires Good(t) && AllExact(t)
    ensures Exact(Ensured(t, k, now))
  {
  }

  lemma DimmStepExact(cfg: Config, t: Table, e: Event)
    requires Good(t) && AllExact(t)
    ensures AllExact(DimmStep(cfg, t, e))
  {
    var md := Ensured(t, DimmKey(e), e.now);
    EnsuredExact(t, DimmKey(e), e.now);
    AccountedExact(cfg.dimms, md, 0, e.uncorrected, e.time);
    PutExact(t, AccountOne(cfg.dimms, md, e.uncorrected, e.time));
  }

  lemma SocketStepExact(cfg: Config, t: Table, e: Event)
    requires Good(t) && AllExact(t)
    ensures AllExact(SocketStep(cfg, t, e))
  {
    var md := Ensured(t, SocketKey(e), e.now);
    EnsuredExact(t, SocketKey(e), e.now);
    AccountedExact(cfg.sockets, md, e.corrErrCnt, e.uncorrected, e.time);
    var over := AccountOver(cfg.sockets, md, e.corrErrCnt, e.time);
    AccountedExact(cfg.sockets, over, 0, e.uncorrected, e.time);
    PutExact(t, AccountOne(cfg.sockets, over, e.uncorrected, e.time));
  }

  lemma {:induction false} RunExact(cfg: Config, t: Table, es: seq<Event>)
    requires Good(t) && AllExact(t)
    ensures AllExact(ErrorRun(cfg, t, es))
    decreases |es|
  {
    if |es| != 0 {
      var (front, e) := (es[..|es| - 1], es[|es| - 1]);
      RunExact(cfg, t, front);
      var s := ErrorRun(cfg, t, front);
      DimmStepExact(cfg, s, e);
      SocketStepExact(cfg, DimmStep(cfg, s, e), e);
    }
  }

  /** From an empty table on, the unsigned counts of every entry are the low 32 bits of the
      sums of the shares of the errors. */
  lemma StoredCounts(cfg: Config, t: Table, es: seq<Event>, k: Key)
    requires Good(t) && forall k :: !Has(t, k)
    ensures
      var t' := ErrorRun(cfg, t, es);
      Has(t', k) ==> && Get(t', k).ce.count == CeShares(cfg, es, k) % 0x1_0000_0000
                     && Get(t', k).uc.count == UcShares(cfg, es, k) % 0x1_0000_0000
  {
    RunExact(cfg, t, es);
    RunCounts(cfg, t, es, k);
  }

  // ----- the counts of one DIMM

  /** How many errors of either kind came from one DIMM. */
  function DimmErrors(es: seq<Event>, socketid: int, channel: int, dimm: int, uncorrected: bool): nat
    decreases |es|
  {
    if |es| == 0 then 0
    else
      var e := es[|es| - 1];
      DimmErrors(es[..|es| - 1], socketid, channel, dimm, uncorrected)
      + if e.hasSocket && e.socketid == socketid && e.channel == channel && e.dimm == dimm
           && e.uncorrected == uncorrected
        then 1 else 0
  }

  lemma {:induction false} DimmShares(cfg: Config, es: seq<Event>, s: int, c: int, d: int)
    requires cfg.memdbEnabled && !(c == -1 && d == -1)
    ensures CeShares(cfg, es, Key(s, c, d)) == DimmErrors(es, s, c, d, false)
    ensures UcShares(cfg, es, Key(s, c, d)) == DimmErrors(es, s, c, d, true)
    decreases |es|
  {
    if |es| != 0 {
      DimmShares(cfg, es[..|es| - 1], s, c, d);
    }
  }

  lemma {:induction false} NoDimmEntry(cfg: Config, t: Table, es: seq<Event>, s: int, c: int, d: int)
    requires Good(t) && !Has(t, Key(s, c, d)) && !(c == -1 && d == -1)
    ensures Has(ErrorRun(cfg, t, es), Key(s, c, d)) <==>
      cfg.memdbEnabled && DimmErrors(es, s, c, d, false) + DimmErrors(es, s, c, d, true) > 0
    decreases |es|
  {
    if |es| != 0 {
      var (front, e) := (es[..|es| - 1], es[|es| - 1]);
      NoDimmEntry(cfg, t, front, s, c, d);
      StepHas(cfg, ErrorRun(cfg, t, front), e, Key(s, c, d));
    }
  }

  lemma StepHas(cfg: Config, t: Table, e: Event, k: Key)
    requires Good(t)
    ensures Has(ErrorStep(cfg, t, e), k) <==>
      || Has(t, k) || (cfg.memdbEnabled && OnDimm(e, k.socketid, k.channel, k.dimm))
      || (e.hasSocket && cfg.sockdbEnabled && k == Key(e.socketid, -1, -1))
  {
    if e.hasSocket {
      if cfg.memdbEnabled && Located(e) {
        PutIsMapUpdate(t, AccountOne(cfg.dimms, Ensured(t, DimmKey(e), e.now), e.uncorrected, e.time), k);
      }
      if cfg.sockdbEnabled {
        var s := DimmStep(cfg, t, e);
        var md := AccountOver(cfg.sockets, Ensured(s, SocketKey(e), e.now), e.corrErrCnt, e.time);
        PutIsMapUpdate(s, AccountOne(cfg.sockets, md, e.uncorrected, e.time), k);
      }
    }
  }

  /** From an empty table on, the entry of a DIMM is there exactly if there was an error on its
      socket, channel and DIMM number, and its counts are the numbers of corrected and
      uncorrected ones; without DIMM tracking it is never there. */
  lemma DimmCountsExactly(cfg: Config, t: Table, es: seq<Event>, s: int, c: int, d: int)
    requires Good(t) && (forall k :: !Has(t, k)) && !(c == -1 && d == -1)
    ensures
      var (t', k) := (ErrorRun(cfg, t, es), Key(s, c, d));
      var (ce, uc) := (DimmErrors(es, s, c, d, false), DimmErrors(es, s, c, d, true));
      && (Has(t', k) <==> cfg.memdbEnabled && ce + uc > 0)
      && (Has(t', k) ==> && Get(t', k).ce.total == ce && Get(t', k).uc.total == uc
                         && Get(t', k).ce.count == ce % 0x1_0000_0000 && Get(t', k).uc.count == uc % 0x1_0000_0000)
  {
    NoDimmEntry(cfg, t, es, s, c, d);
    if cfg.memdbEnabled {
      DimmShares(cfg, es, s, c, d);
      RunCounts(cfg, t, es, Key(s, c, d));
      StoredCounts(cfg, t, es, Key(s, c, d));
    }
  }

  // ----- conservation over the DIMMs of a socket

  /** The errors counted by the DIMM entries of a socket. */
  function DimmSum(c: Chain, socketid: int): nat {
    if |c| == 0 then 0
    else Worth(c[0], socketid) + DimmSum(c[1..], socketid)
  }

  function Worth(md: Memdimm, socketid: int): nat {
    if md.key.socketid == socketid && md.key != Key(socketid, -1, -1) then md.ce.total + md.uc.total else 0
  }

  lemma {:induction false} DimmSumUpdate(c: Chain, i: nat, md: Memdimm, socketid: int)
    requires i < |c|
    ensures DimmSum(c[i := md], socketid) == DimmSum(c, socketid) - Worth(c[i], socketid) + Worth(md, socketid)
  {
    if i == 0 {
      assert c[i := md][1..] == c[1..];
    } else {
      DimmSumUpdate(c[1..], i - 1, md, socketid);
      assert c[i := md][1..] == c[1..][i - 1 := md];
    }
  }

  lemma {:induction false} DimmSumConcat(a: Chain, b: Chain, socketid: int)
    ensures DimmSum(a + b, socketid) == DimmSum(a, socketid) + DimmSum(b, socketid)
  {
    if |a| == 0 {
      assert a + b == b;
    } else {
      assert (a + b)[1..] == a[1..] + b;
      DimmSumConcat(a[1..], b, socketid);
    }
  }

  lemma {:induction false} DimmSumFlatten(chains: seq<Chain>, h: nat, c: Chain, socketid: int)
    requires h < |chains|
    ensures DimmSum(Flatten(chains[h := c]), socketid)
            == DimmSum(Flatten(chains), socketid) - DimmSum(chains[h], socketid) + DimmSum(c, socketid)
  {
    DimmSumConcat(chains[0], Flatten(chains[1..]), socketid);
    DimmSumConcat(chains[h := c][0], Flatten(chains[h := c][1..]), socketid);
    if h == 0 {
      assert chains[h := c][1..] == chains[1..];
    } else {
      assert chains[h := c][1..] == chains[1..][h - 1 := c];
      DimmSumFlatten(chains[1..], h - 1, c, socketid);
    }
  }

  lemma PutDimmSum(t: Table, md: Memdimm, socketid: int)
    requires Good(t)
    ensures DimmSum(Flatten(Put(t, md).chains), socketid)
      + (if Has(t, md.key) then Worth(Get(t, md.key), socketid) else 0)
            == DimmSum(Flatten(t.chains), socketid) + Worth(md, socketid)
  {
    var (h, c) := (t.hash(md.key), ChainOf(t, md.key));
    DimmSumFlatten(t.chains, h, PutIn(c, md), socketid);
    if Has(t, md.key) {
      DimmSumUpdate(c, FindIn(c, md.key), md, socketid);
    } else {
      assert ([md] + c)[1..] == c;
    }
  }

  function OneIfLocated(e: Event, socketid: int): nat {
    if e.hasSocket && e.socketid == socketid && Located(e) then 1 else 0
  }

  lemma AccountedWorth(tr: Triggers, md: Memdimm, uncorrected: bool, t: int)
    ensures
      var md' := AccountOne(tr, md, uncorrected, t);
      md'.key == md.key && md'.ce.total + md'.uc.total == md.ce.total + md.uc.total + 1
  {
  }

  lemma DimmStepSum(cfg: Config, t: Table, e: Event, socketid: int)
    requires Good(t) && cfg.memdbEnabled && e.hasSocket
    ensures DimmSum(Flatten(DimmStep(cfg, t, e).chains), socketid)
            == DimmSum(Flatten(t.chains), socketid) + OneIfLocated(e, socketid)
  {
    if Located(e) {
      var old_ := Ensured(t, DimmKey(e), e.now);
      var md := AccountOne(cfg.dimms, old_, e.uncorrected, e.time);
      PutDimmSum(t, md, socketid);
      AccountedWorth(cfg.dimms, old_, e.uncorrected, e.time);
    }
  }

  lemma SocketStepSum(cfg: Config, t: Table, e: Event, socketid: int)
    requires Good(t)
    ensures DimmSum(Flatten(SocketStep(cfg, t, e).chains), socketid) == DimmSum(Flatten(t.chains), socketid)
  {
    if cfg.sockdbEnabled {
      var md := AccountOver(cfg.sockets, Ensured(t, SocketKey(e), e.now), e.corrErrCnt, e.time);
      PutDimmSum(t, AccountOne(cfg.sockets, md, e.uncorrected, e.time), socketid);
    }
  }

  function LocatedErrors(es: seq<Event>, socketid: int): nat
    decreases |es|
  {
    if |es| == 0 then 0 else LocatedErrors(es[..|es| - 1], socketid) + OneIfLocated(es[|es| - 1], socketid)
  }

  /** The DIMM entries of a socket together have counted its errors with a known location. */
  lemma {:induction false} DimmsConserved(cfg: Config, t: Table, es: seq<Event>, socketid: int)
    requires Good(t) && cfg.memdbEnabled
    ensures DimmSum(Flatten(ErrorRun(cfg, t, es).chains), socketid)
            == DimmSum(Flatten(t.chains), socketid) + LocatedErrors(es, socketid)
    decreases |es|
  {
    if |es| != 0 {
      var (front, e) := (es[..|es| - 1], es[|es| - 1]);
      DimmsConserved(cfg, t, front, socketid);
      var t1 := ErrorRun(cfg, t, front);
      if e.hasSocket {
        DimmStepSum(cfg, t1, e, socketid);
        SocketStepSum(cfg, DimmStep(cfg, t1, e), e, socketid);
      }
    }
  }

  // ----- the table as it is stored

  lemma PutAt(t: Table, k: Key, i: nat, md: Memdimm)
    requires Good(t) && i < |ChainOf(t, k)| && ChainOf(t, k)[i].key == k == md.key
    ensures Has(t, k) && Get(t, k) == ChainOf(t, k)[i]
    ensures Put(t, md) == t.(chains := t.chains[t.hash(k) := ChainOf(t, k)[i := md]])
  {
    assert GoodChain(t, t.hash(k));
    FindUnique(ChainOf(t, k), k, i);
  }

  lemma PutOverNew(t: Table, k: Key, now: int, md: Memdimm)
    requires Good(t) && md.key == k
    ensures
      var t' := if Has(t, k) then t else Put(t, NewEntry(k, now));
      Good(t') && Has(t', k) && Get(t', k) == Ensured(t, k, now) && Put(t', md) == Put(t, md)
  {
    PutIsMapUpdate(t, NewEntry(k, now), k);
    if !Has(t, k) {
      var (h, c) := (t.hash(k), ChainOf(t, k));
      var c1 := [NewEntry(k, now)] + c;
      assert FindIn(c1, k) == 0;
      assert PutIn(c1, md) == [md] + c;
      assert t.chains[h := c1][h := [md] + c] == t.chains[h := [md] + c];
    }
  }

  lemma PutTotal(t: Table, md: Memdimm)
    requires Good(t)
    ensures Total(Put(t, md).chains) == Total(t.chains) + if Has(t, md.key) then 0 else 1
  {
    FlattenUpdate(t.chains, t.hash(md.key), PutIn(ChainOf(t, md.key), md));
  }

  class Database {
    const cfg: Config
    const hash: Key -> nat
    var chains: seq<Chain>      // md_dimms
    var numdimms: nat           // md_numdimms
    ghost var reports: seq<Report>

    constructor (cfg: Config)
      ensures Valid() && this.cfg == cfg && reports == [] && forall k :: !Has(Abs(), k)
      ensures forall k :: hash(k) == DimmHash(k)
    {
      this.cfg := cfg;
      hash := k => DimmHash(k);
      chains := seq(17, i => []);
      numdimms := 0;
      reports := [];
      new;
      EmptyTotal(chains);
    }

    ghost function Abs(): Table
      reads this`chains
    {
      Table(chains, hash)
    }

    ghost predicate Valid()
      reads this`chains, this`numdimms
    {
      Good(Abs()) && numdimms == Total(chains)
    }

    /** get_memdimm: the position of the entry in its chain, or -1 for NULL. */
    method GetMemdimm(k: Key, insert: bool, now: int) returns (h: nat, i: int)
      requires Valid()
      modifies this`chains, this`numdimms
      ensures Valid()
      ensures Abs() == if insert && !Has(old(Abs()), k) then Put(old(Abs()), NewEntry(k, now)) else old(Abs())
      ensures i == -1 <==> !insert && !Has(old(Abs()), k)
      ensures h == hash(k) && i < |chains[h]| && (i == -1 || (i >= 0 && chains[h][i].key == k))
    {
      h := hash(k);
      assert GoodChain(Abs(), h);
      FindInMeaning(chains[h], k);
      var j := 0;
      while j < |chains[h]| && chains[h][j].key != k
        invariant 0 <= j <= FindIn(chains[h], k)
      {
        j := j + 1;
      }
      if j < |chains[h]| || !insert {
        i := if j < |chains[h]| then j else -1;
        return;
      }
      PutGood(Abs(), NewEntry(k, now));
      PutTotal(Abs(), NewEntry(k, now));
      chains := chains[h := [NewEntry(k, now)] + chains[h]];
      numdimms := numdimms + 1;
      i := 0;
    }

    /** Replace the entry at a position by one with the same key. */
    method SetEntry(h: nat, i: nat, md: Memdimm)
      requires Valid() && h == hash(md.key) && i < |chains[h]| && chains[h][i].key == md.key
      modifies this`chains
      ensures Valid() && Abs() == Put(old(Abs()), md)
    {
      PutAt(Abs(), md.key, i, md);
      PutGood(Abs(), md);
      PutTotal(Abs(), md);
      chains := chains[h := chains[h][i := md]];
    }

    /** memory_error */
    method MemoryError(e: Event)
      requires Valid()
      modifies this
      ensures Valid() && Abs() == ErrorStep(cfg, old(Abs()), e)
      ensures reports == old(reports) + ErrorReports(cfg, old(Abs()), e)
    {
      if !e.hasSocket {
        return;
      }
      if cfg.memdbEnabled && (e.channel != -1 || e.dimm != -1) {
        AccountDimm(e);
      }
      if cfg.sockdbEnabled {
        AccountSocket(e);
      }
    }

    /** memdb_trigger */
    method MemdbTrigger(md: Memdimm, uncorrected: bool, lost: bool, inc: u32, time: int)
      modifies this`reports
      ensures reports == old(reports) + [Report(md, uncorrected, lost, inc, time)]
    {
      reports := reports + [Report(md, uncorrected, lost, inc, time)];
    }

    /** account_over */
    method AccountLost(tr: Triggers, md: Memdimm, corrErrCnt: u32, t: int) returns (r: Memdimm)
      modifies this`reports
      ensures r == AccountOver(tr, md, corrErrCnt, t)
      ensures reports == old(reports) + OverReports(tr, md, corrErrCnt, t)
    {
      r := md;
      if corrErrCnt > 0 && corrErrCnt - 1 > 0 {
        var over := AccountedBy(tr.ce, md.ce.bucket, corrErrCnt - 1, t, 1).1;
        r := r.(ce := Bumped(tr.ce, md.ce, corrErrCnt - 1, t));
        if over {
          MemdbTrigger(r, false, true, corrErrCnt - 1, 0);
        }
      }
    }

    /** account_memdb */
    method AccountMemdb(tr: Triggers, md: Memdimm, uncorrected: bool, t: int) returns (r: Memdimm)
      modifies this`reports
      ensures r == AccountOne(tr, md, uncorrected, t)
      ensures reports == old(reports) + OneReports(tr, md, uncorrected, t)
    {
      var over;
      if uncorrected {
        over := AccountedBy(tr.uc, md.uc.bucket, 1, t, 1).1;
        r := md.(uc := Bumped(tr.uc, md.uc, 1, t));
      } else {
        over := AccountedBy(tr.ce, md.ce.bucket, 1, t, 1).1;
        r := md.(ce := Bumped(tr.ce, md.ce, 1, t));
      }
      if over {
        MemdbTrigger(r, uncorrected, false, 1, t);
      }
    }

    method AccountDimm(e: Event)
      requires Valid() && cfg.memdbEnabled && Located(e)
      modifies this
      ensures Valid() && Abs() == DimmStep(cfg, old(Abs()), e)
      ensures reports == old(reports) + DimmReports(cfg, old(Abs()), e)
    {
      ghost var md0 := Ensured(Abs(), DimmKey(e), e.now);
      PutOverNew(Abs(), DimmKey(e), e.now, AccountOne(cfg.dimms, md0, e.uncorrected, e.time));
      var h, i := GetMemdimm(DimmKey(e), true, e.now);
      PutAt(Abs(), DimmKey(e), i, chains[h][i]);
      var md := AccountMemdb(cfg.dimms, chains[h][i], e.uncorrected, e.time);
      SetEntry(h, i, md);
    }

    method AccountSocket(e: Event)
      requires Valid() && cfg.sockdbEnabled
      modifies this
      ensures Valid() && Abs() == SocketStep(cfg, old(Abs()), e)
      ensures reports == old(reports) + SocketReports(cfg, old(Abs()), e)
    {
      ghost var md0 := Ensured(Abs(), SocketKey(e), e.now);
      ghost var md1 := AccountOver(cfg.sockets, md0, e.corrErrCnt, e.time);
      PutOverNew(Abs(), SocketKey(e), e.now, AccountOne(cfg.sockets, md1, e.uncorrected, e.time));
      var h, i := GetMemdimm(SocketKey(e), true, e.now);
      PutAt(Abs(), SocketKey(e), i, chains[h][i]);
      var md := AccountLost(cfg.sockets, chains[h][i], e.corrErrCnt, e.time);
      md := AccountMemdb(cfg.sockets, md, e.uncorrected, e.time);
      SetEntry(h, i, md);
    }

    /** The inner loop of dump_memory_errors: the entries of one chain are stored from k on. */
    static method CopyChain(da: array<Memdimm>, c: Chain, k: nat)
      requires k + |c| <= da.Length
      modifies da
      ensures da[..k + |c|] == old(da[..k]) + c
    {
      for j := 0 to |c|
        invariant da[..k + j] == old(da[..k]) + c[..j]
      {
        da[k + j] := c[j];
        assert da[..k + j + 1] == da[..k + j] + [c[j]];
      }
    }

    /** The collection loop of dump_memory_errors: the array of md_numdimms entries is
        filled with every entry once, chain by chain. */
    method Collect() returns (da: array<Memdimm>)
      requires Valid()
      ensures fresh(da) && da[..] == Flatten(chains)
    {
      da := new Memdimm[numdimms](i => NewEntry(Key(0, 0, 0), 0));
      FlattenLength(chains);
      var k := 0;
      for i := 0 to 17
        invariant 0 <= k <= da.Length && da[..k] + Flatten(chains[i..]) == Flatten(chains)
      {
        FlattenStep(chains, i, da[..k]);
        CopyChain(da, chains[i], k);
        k := k + |chains[i]|;
      }
    }
  }

  /** The entries of all chains together: no key twice, and exactly the keys of the map. */
  lemma {:induction false} FlattenFrom(t: Table, h: nat)
    requires Good(t) && h <= 17
    ensures DistinctKeys(Flatten(t.chains[h..]))
    ensures forall i :: 0 <= i < |Flatten(t.chains[h..])| ==> t.hash(Flatten(t.chains[h..])[i].key) >= h
    decreases 17 - h
  {
    if h < 17 {
      FlattenFrom(t, h + 1);
      FlattenStep(t.chains, h, []);
      assert GoodChain(t, h);
      var (c, rest, all) := (t.chains[h], Flatten(t.chains[h + 1..]), Flatten(t.chains[h..]));
      assert all == c + rest;
      assert forall i :: 0 <= i < |c| ==> t.hash(c[i].key) == h;
      assert forall i :: |c| <= i < |all| ==> all[i] == rest[i - |c|];
    }
  }

  lemma {:induction false} FlattenContains(chains: seq<Chain>, h: nat, i: nat)
    requires h < |chains| && i < |chains[h]|
    ensures chains[h][i] in Flatten(chains)
  {
    if h > 0 {
      FlattenContains(chains[1..], h - 1, i);
    }
  }

  lemma {:induction false} FlattenComesFrom(chains: seq<Chain>, md: Memdimm) returns (h: nat, i: nat)
    requires md in Flatten(chains)
    ensures h < |chains| && i < |chains[h]| && chains[h][i] == md
  {
    if md in chains[0] {
      i :| 0 <= i < |chains[0]| && chains[0][i] == md;
      h := 0;
    } else {
      h, i := FlattenComesFrom(chains[1..], md);
      h := h + 1;
    }
  }

  /** The dump lists every entry of the map once and nothing else. */
  lemma FlattenIsMap(t: Table)
    requires Good(t)
    ensures DistinctKeys(Flatten(t.chains))
    ensures forall k :: Has(t, k) <==> exists md :: md in Flatten(t.chains) && md.key == k
    ensures forall md :: md in Flatten(t.chains) ==> Has(t, md.key) && Get(t, md.key) == md
  {
    FlattenFrom(t, 0);
    assert t.chains[0..] == t.chains;
    forall md | md in Flatten(t.chains)
      ensures Has(t, md.key) && Get(t, md.key) == md
    {
      var h, i := FlattenComesFrom(t.chains, md);
      assert GoodChain(t, h);
      PutAt(t, md.key, i, md);
    }
    forall k | Has(t, k)
      ensures exists md :: md in Flatten(t.chains) && md.key == k
    {
      FlattenContains(t.chains, t.hash(k), FindIn(ChainOf(t, k), k));
      assert Get(t, k) in Flatten(t.chains);
    }
  }

  lemma FlattenStep(chains: seq<Chain>, i: nat, pre: seq<Memdimm>)
    requires i < |chains|
    ensures pre + Flatten(chains[i..]) == (pre + chains[i]) + Flatten(chains[i + 1..])
  {
    assert chains[i..][1..] == chains[i + 1..];
  }

  lemma {:induction false} EmptyTotal(chains: seq<Chain>)
    requires forall i :: 0 <= i < |chains| ==> chains[i] == []
    ensures Total(chains) == 0
  {
    if |chains| != 0 {
      EmptyTotal(chains[1..]);
    }
  }
}
