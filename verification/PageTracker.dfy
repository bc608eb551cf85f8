/** The tracker of page.c as it is stored: counters in clusters of N slots, indexed by a
    red-black tree, with a recency list of clusters. */
module PageTracker {
  import opened RbShape
  import opened Sequences
  import opened RbRepair
  import opened RbTree
  import LinkedList
  import opened LeakyBucket
  import opened PageModel
  import opened Powers
  import opened Wrappers

  type Pages = map<Ptr, Mempage>

  /** Address of the static variable mempage_cluster_lru_list. */
  const LRU_HEAD: Ptr := 8

  /** &cluster->mp[i], with the list head first and 64 bytes per slot */
  function SlotAddr(cluster: Ptr, i: nat): Ptr {
    cluster + 16 + 64 * i
  }

  /** to_cluster */
  function ClusterOf(mp: Ptr): Ptr {
    mp - mp % 4096
  }

  lemma SlotInCluster(c: Ptr, i: nat)
    requires c % 4096 == 0 && i < N
    ensures ClusterOf(SlotAddr(c, i)) == c && SlotAddr(c, i) != NULL
  {
  }

  /** The node of a slot, its first member, is aligned to four bytes, as pages are. */
  lemma SlotAligned(c: Ptr, page: nat, i: nat)
    requires c == 4096 * page
    ensures SlotAddr(c, i) % 4 == 0
  {
    FourTimes(1024 * page + 4 + 16 * i);
  }

  lemma FourTimes(x: nat)
    ensures 4 * x % 4 == 0
  {
  }

  // ----- search order

  /** The nodes of s are sorted by page address. */
  ghost predicate Sorted(pages: Pages, s: seq<Ptr>) {
    && (forall x :: x in s ==> x in pages)
    && forall i, j :: 0 <= i < j < |s| ==> pages[s[i]].addr < pages[s[j]].addr
  }

  ghost predicate AllBelow(pages: Pages, s: seq<Ptr>, addr: int) {
    forall x :: x in s ==> x in pages && pages[x].addr < addr
  }

  ghost predicate AllAbove(pages: Pages, s: seq<Ptr>, addr: int) {
    forall x :: x in s ==> x in pages && pages[x].addr > addr
  }

  lemma SortedAround(pages: Pages, a: seq<Ptr>, x: Ptr, b: seq<Ptr>)
    requires Sorted(pages, a + [x] + b)
    ensures AllBelow(pages, a, pages[x].addr) && AllAbove(pages, b, pages[x].addr)
  {
    var s := a + [x] + b;
    assert s[|a|] == x;
    forall i | 0 <= i < |a| ensures pages[a[i]].addr < pages[x].addr { assert s[i] == a[i]; }
    forall i | 0 <= i < |b| ensures pages[b[i]].addr > pages[x].addr { assert s[|a| + 1 + i] == b[i]; }
  }

  lemma SortedInsert(pages: Pages, a: seq<Ptr>, x: Ptr, b: seq<Ptr>)
    requires Sorted(pages, a + b) && x in pages
    requires AllBelow(pages, a, pages[x].addr) && AllAbove(pages, b, pages[x].addr)
    ensures Sorted(pages, a + [x] + b)
  {
    var (s, r) := (a + b, a + [x] + b);
    forall i, j | 0 <= i < j < |r|
      ensures pages[r[i]].addr < pages[r[j]].addr
    {
      assert i < |a| ==> r[i] == s[i] && r[i] in a;
      assert i > |a| ==> r[i] == s[i - 1];
      assert j < |a| ==> r[j] == s[j];
      assert j > |a| ==> r[j] == s[j - 1] && r[j] == b[j - |a| - 1] && r[j] in b;
    }
  }

  lemma SortedRemove(pages: Pages, a: seq<Ptr>, x: Ptr, b: seq<Ptr>)
    requires Sorted(pages, a + [x] + b)
    ensures Sorted(pages, a + b)
  {
    var (r, s) := (a + [x] + b, a + b);
    forall i, j | 0 <= i < j < |s|
      ensures pages[s[i]].addr < pages[s[j]].addr
    {
      assert s[i] == r[if i < |a| then i else i + 1];
      assert s[j] == r[if j < |a| then j else j + 1];
    }
  }

  lemma SortedWithout(pages: Pages, s: seq<Ptr>, x: Ptr)
    requires Sorted(pages, s) && Distinct(s)
    ensures Sorted(pages, Without(s, x))
  {
    if x in s {
      var k :| 0 <= k < |s| && s[k] == x;
      assert s == s[..k] + [x] + s[k + 1..];
      SplitOut(s, s[..k], x, s[k + 1..]);
      SortedRemove(pages, s[..k], x, s[k + 1..]);
    } else {
      WithoutAbsent(s, x);
    }
  }

  /** Sortedness only reads the addresses of the nodes of s. */
  lemma SortedSame(pages: Pages, pages': Pages, s: seq<Ptr>)
    requires Sorted(pages, s)
    requires forall x :: x in s ==> x in pages' && pages'[x].addr == pages[x].addr
    ensures Sorted(pages', s)
  {
  }

  /** A descent step to the left: the skipped part lies above the key. */
  lemma GoLeft(pages: Pages, p: Path, t: Tree, addr: int)
    requires t.Node? && Sorted(pages, Inorder(Plug(p, t))) && t.id in pages && addr < pages[t.id].addr
    requires AllBelow(pages, Before(p), addr) && AllAbove(pages, After(p), addr)
    ensures AllAbove(pages, After(In(L, t.id, t.color, t.right, p)), addr)
  {
    InorderPlug(p, t);
    Regroup(Before(p), Inorder(t.left), t.id, Inorder(t.right), After(p));
    SortedAround(pages, Before(p) + Inorder(t.left), t.id, Inorder(t.right) + After(p));
    assert forall x :: x in Inorder(t.right) ==> x in Inorder(t.right) + After(p);
  }

  lemma GoRight(pages: Pages, p: Path, t: Tree, addr: int)
    requires t.Node? && Sorted(pages, Inorder(Plug(p, t))) && t.id in pages && addr > pages[t.id].addr
    requires AllBelow(pages, Before(p), addr) && AllAbove(pages, After(p), addr)
    ensures AllBelow(pages, Before(In(R, t.id, t.color, t.left, p)), addr)
  {
    InorderPlug(p, t);
    Regroup(Before(p), Inorder(t.left), t.id, Inorder(t.right), After(p));
    SortedAround(pages, Before(p) + Inorder(t.left), t.id, Inorder(t.right) + After(p));
    assert forall x :: x in Inorder(t.left) ==> x in Before(p) + Inorder(t.left);
  }

  lemma NotBetween(pages: Pages, p: Path, addr: int, x: Ptr)
    requires AllBelow(pages, Before(p), addr) && AllAbove(pages, After(p), addr)
    requires x in Nodes(Plug(p, Leaf))
    ensures x in pages && pages[x].addr != addr
  {
    InorderNodes(Plug(p, Leaf), x);
    InorderPlug(p, Leaf);
  }

  // ----- search depth

  function Blacks(p: Path): nat {
    if p.Top? then 0 else Blacks(p.up) + Weight(p.color)
  }

  /** At least every other node on a path is black. */
  lemma {:induction false} DepthBound(p: Path)
    requires PathNoRedRed(p)
    ensures Depth(p) <= 2 * Blacks(p)
    ensures p.In? && p.color.Black? ==> Depth(p) <= 2 * Blacks(p) - 1
  {
    if p.In? {
      DepthBound(p.up);
    }
  }

  lemma {:induction false} HeightOfPlug(p: Path, t: Tree)
    requires Balanced(t, BlackHeight(t)) && PathBalanced(p, BlackHeight(t))
    ensures BlackHeight(Plug(p, t)) == BlackHeight(t) + Blacks(p)
  {
    if p.In? {
      var u := Join(p.side, t, p.id, p.color, p.sibling);
      BalancedHeight(p.sibling, BlackHeight(t));
      BalancedHeight(u, BlackHeight(t) + Weight(p.color));
      HeightOfPlug(p.up, u);
    }
  }

  /** A search that has visited the whole path has taken at most 2 log2(n + 1) steps. */
  lemma SearchDepth(p: Path, t: Tree)
    requires RedBlack(Plug(p, t))
    ensures Pow2((Depth(p) + 1) / 2) <= Size(Plug(p, t)) + 1
  {
    PlugNoRedRed(p, t);
    BalancedAt(p, t);
    DepthBound(p);
    HeightOfPlug(p, t);
    BalancedHeight(t, BlackHeight(t));
    BlackHeightSize(Plug(p, t), BlackHeight(Plug(p, t)));
    Pow2Monotone((Depth(p) + 1) / 2, BlackHeight(Plug(p, t)));
  }

  // ----- slots in the order in which they were handed out

  function Recs(pages: Pages, order: seq<Ptr>): (r: seq<Mempage>)
    requires forall x :: x in order ==> x in pages
    ensures |r| == |order| && forall i :: 0 <= i < |r| ==> r[i] == pages[order[i]]
  {
    seq(|order|, i requires 0 <= i < |order| => pages[order[i]])
  }

  lemma IndexOfSlot(pages: Pages, order: seq<Ptr>, addr: int, mp: Ptr, i: nat)
    requires forall x :: x in order ==> x in pages
    requires DistinctPages(Recs(pages, order)) && i < |order| && order[i] == mp && pages[mp].addr == addr
    ensures FindPage(Recs(pages, order), addr) == i
  {
    FindPageMeaning(Recs(pages, order), addr);
    assert Recs(pages, order)[i].addr == addr;
  }

  lemma IndexOfNone(pages: Pages, order: seq<Ptr>, addr: int)
    requires forall x :: x in order ==> x in pages && pages[x].addr != addr
    ensures FindPage(Recs(pages, order), addr) == |order|
  {
    var r := Recs(pages, order);
    FindPageMeaning(r, addr);
    assert forall i :: 0 <= i < |r| ==> r[i] == pages[order[i]] && order[i] in order;
  }

  /** Slots are taken cluster by cluster; replacement goes round the first cluster. */
  ghost predicate SlotsGood(max: int, order: seq<Ptr>, clusters: seq<Ptr>, used: map<Ptr, int>, current: Ptr,
                            replaced: nat)
  {
    && (forall c :: c in clusters ==> c != NULL && c % 4096 == 0 && c in used)
    && (forall x :: x in order ==> ClusterOf(x) in clusters)
    && (order == [] <==> clusters == [])
    && (clusters != [] ==> forall i :: 0 <= i < N && i < |order| ==> order[i] == SlotAddr(clusters[0], i))
    && if replaced == 0 then Filling(order, clusters, used, current)
       else |order| == max && clusters != [] && current == clusters[0] && used[current] == (replaced - 1) % 63 + 1
  }

  ghost predicate Filling(order: seq<Ptr>, clusters: seq<Ptr>, used: map<Ptr, int>, current: Ptr) {
    if clusters == [] then current == NULL
    else
      && current == clusters[|clusters| - 1] && current in used && 1 <= used[current] <= N
      && |order| == 63 * (|clusters| - 1) + used[current]
      && forall x :: x in order && ClusterOf(x) == current ==> x < SlotAddr(current, used[current])
  }

  /** Where mempage_replace finds its slot: the clusters are full when replacement starts,
      and from then on it goes round the first cluster. */
  lemma ReplaceSlotGood(max: int, order: seq<Ptr>, clusters: seq<Ptr>, used: map<Ptr, int>, current: Ptr, replaced: nat,
                        used': map<Ptr, int>)
    requires SlotsGood(max, order, clusters, used, current, replaced) && |order| == max > 0 && max % 63 == 0
    requires clusters != [] ==>
               used' == if used[current] == N then used[clusters[0] := 1] else used[current := used[current] + 1]
    ensures clusters != [] && current in used && current in clusters
    ensures used[current] != N ==> current == clusters[0] && used[current] == replaced % 63
    ensures used[current] == N ==> replaced % 63 == 0
    ensures order[replaced % 63] == SlotAddr(clusters[0], replaced % 63)
      && ClusterOf(order[replaced % 63]) == clusters[0]
    ensures SlotsGood(max, order, clusters, used', clusters[0], replaced + 1)
  {
    assert current in clusters && clusters[0] in clusters;
    SlotInCluster(clusters[0], replaced % 63);
  }

  /** A single cluster is listed properly while it has one page; afterwards the list is stuck. */
  ghost predicate ListGood(links: LinkedList.Store, clusters: seq<Ptr>, n: int) {
    && (n == 0 ==> links == map[LRU_HEAD := LinkedList.Links(LRU_HEAD, LRU_HEAD)])
    && (n == 1 && clusters != [] ==>
          && |clusters| == 1 && links.Keys == {LRU_HEAD, clusters[0]}
          && links[LRU_HEAD] == LinkedList.Links(clusters[0], clusters[0])
          && links[clusters[0]] == LinkedList.Links(LRU_HEAD, LRU_HEAD))
    && (n >= 2 && clusters != [] ==> LinkedList.Stuck(links, LRU_HEAD, clusters[0], Elements(clusters)))
  }

  ghost function Elements(s: seq<Ptr>): set<Ptr> {
    set c | c in s
  }

  /** Where mempage_alloc finds the next slot: the cluster lists and the slot's index. */
  ghost predicate NextSlot(clusters: seq<Ptr>, used: map<Ptr, int>, current: Ptr, page: Ptr,
                           clusters': seq<Ptr>, used': map<Ptr, int>, current': Ptr) {
    if current == NULL || (current in used && used[current] == N)
    then clusters' == clusters + [page] && current' == page && used' == used[page := 1]
    else clusters' == clusters && current' == current && current in used && used' == used[current := used[current] + 1]
  }

  /** The cluster of the slot taken after n slots is the newest one, either known or new. */
  ghost predicate NewCluster(n: int, clusters: seq<Ptr>, clusters': seq<Ptr>, page: Ptr, current: Ptr) {
    && n >= 0 && (n == 0 <==> clusters == []) && current in clusters'
    && (forall c :: c in clusters' ==> c % 4096 == 0) && page !in clusters
    && (clusters' != clusters ==> clusters' == clusters + [page] && current == page && n != 1)
  }

  lemma NextSlotGood(max: int, order: seq<Ptr>, clusters: seq<Ptr>, used: map<Ptr, int>, current: Ptr, page: Ptr,
                     clusters': seq<Ptr>, used': map<Ptr, int>, current': Ptr)
    requires SlotsGood(max, order, clusters, used, current, 0)
    requires page != NULL && page % 4096 == 0 && page !in clusters
    requires NextSlot(clusters, used, current, page, clusters', used', current')
    ensures
      var mp := SlotAddr(current', used'[current'] - 1);
      && mp !in order && mp != NULL && ClusterOf(mp) == current'
      && SlotsGood(max, order + [mp], clusters', used', current', 0)
      && NewCluster(|order|, clusters, clusters', page, current')
  {
    var i := used'[current'] - 1;
    var mp := SlotAddr(current', i);
    SlotInCluster(current', i);
    assert clusters != [] ==> current in clusters;
    forall k | 0 <= k < N && k < |order + [mp]|
      ensures (order + [mp])[k] == SlotAddr(clusters'[0], k)
    {
      if k == |order| && clusters != [] {
        assert |clusters| == 1;
      }
    }
  }

  /** The slots handed out are the nodes of the tree. */
  ghost predicate OrderGood(order: seq<Ptr>, nodes: set<Ptr>, slots: set<Ptr>) {
    Distinct(order) && nodes == Elements(order) && nodes <= slots
  }

  lemma OrderExtended(order: seq<Ptr>, nodes: set<Ptr>, slots: set<Ptr>, mp: Ptr)
    requires OrderGood(order, nodes, slots) && mp !in order
    ensures OrderGood(order + [mp], nodes + {mp}, slots + {mp})
  {
  }

  /** At most the counter of slot mp has changed, to v. */
  ghost predicate Only(m: Pages, m': Pages, mp: Ptr, v: Mempage) {
    mp in m && m'.Keys == m.Keys && m'[mp] == v && forall x :: x in m && x != mp ==> m'[x] == m[x]
  }

  /** The fields that mempage_replace resets. */
  function Recycled(mp: Mempage): Mempage {
    mp.(offlined := Online, triggered := false, multiplier := 1, count := 0)
  }

  /** The slots of order hold the same counters. */
  ghost predicate Kept(m: Pages, m': Pages, order: seq<Ptr>) {
    forall x :: x in order ==> x in m && x in m' && m'[x] == m[x]
  }

  lemma SortedKept(pages: Pages, pages': Pages, t: Tree)
    requires Sorted(pages, Inorder(t))
    requires forall x :: x in Nodes(t) && x in pages ==> x in pages' && pages'[x].addr == pages[x].addr
    ensures Sorted(pages', Inorder(t))
  {
    forall x | x in Inorder(t)
      ensures x in pages' && pages'[x].addr == pages[x].addr
    {
      InorderNodes(t, x);
    }
    SortedSame(pages, pages', Inorder(t));
  }

  /** page.c:330 adds the cluster of every new slot to the list, listed or not. */
  lemma ListAfterAlloc(links: LinkedList.Store, links': LinkedList.Store, clusters: seq<Ptr>, clusters': seq<Ptr>,
                       page: Ptr, n: int, current: Ptr)
    requires ListGood(links, clusters, n) && NewCluster(n, clusters, clusters', page, current)
    requires links' == if clusters' == clusters then links else links[page := LinkedList.Links(0, 0)]
    ensures current in links' && LRU_HEAD in links' && links'[LRU_HEAD].next in links'
    ensures ListGood(LinkedList.Added(links', current, LRU_HEAD), clusters', n + 1)
  {
    assert page in clusters' ==> page != LRU_HEAD;
    if n == 1 {
      LinkedList.AddedTwice(links, LRU_HEAD, current);
      assert Elements(clusters) == {current};
    } else if n >= 2 {
      var es := Elements(clusters);
      if clusters' == clusters {
        LinkedList.StuckEntry(links, LRU_HEAD, clusters[0], es, current);
        LinkedList.AddKeepsStuck(links, LRU_HEAD, clusters[0], es, current);
      } else {
        assert Elements(clusters') == es + {page};
        LinkedList.AddNewKeepsStuck(links, links', LRU_HEAD, clusters[0], es, page, LinkedList.Links(0, 0));
      }
    }
  }

  lemma RecsAppended(pages: Pages, pages': Pages, order: seq<Ptr>, mp: Ptr)
    requires Kept(pages, pages', order) && mp in pages'
    ensures Recs(pages', order + [mp]) == Recs(pages, order) + [pages'[mp]]
  {
  }

  lemma RecsUpdated(pages: Pages, pages': Pages, order: seq<Ptr>, i: nat)
    requires Distinct(order) && i < |order| && order[i] in pages'
    requires forall x :: x in order ==> x in pages
    requires forall x :: x in order && x != order[i] ==> x in pages' && pages'[x] == pages[x]
    ensures Recs(pages', order) == Recs(pages, order)[i := pages'[order[i]]]
  {
  }

  /** Reading the counters in tree order lists those handed out, sorted. */
  lemma DumpedIsTracked(pages: Pages, t: Tree, order: seq<Ptr>)
    requires Sorted(pages, Inorder(t)) && OrderGood(order, Nodes(t), pages.Keys)
    ensures
      var out := Recs(pages, Inorder(t));
      && (forall i, j :: 0 <= i < j < |out| ==> out[i].addr < out[j].addr)
      && (forall mp :: mp in out <==> mp in Recs(pages, order))
  {
    forall x ensures x in Inorder(t) <==> x in order {
      InorderNodes(t, x);
    }
    RecsSubset(pages, Inorder(t), order);
    RecsSubset(pages, order, Inorder(t));
    RecsSorted(pages, Inorder(t));
  }

  lemma RecsSorted(pages: Pages, s: seq<Ptr>)
    requires Sorted(pages, s)
    ensures forall i, j :: 0 <= i < j < |s| ==> Recs(pages, s)[i].addr < Recs(pages, s)[j].addr
  {
  }

  lemma RecsSubset(pages: Pages, s: seq<Ptr>, order: seq<Ptr>)
    requires (forall x :: x in s ==> x in order) && forall x :: x in order ==> x in pages
    ensures forall mp :: mp in Recs(pages, s) ==> mp in Recs(pages, order)
  {
    var (a, b) := (Recs(pages, s), Recs(pages, order));
    forall j | 0 <= j < |s| ensures a[j] in b {
      assert s[j] in order;
      var i :| 0 <= i < |order| && order[i] == s[j];
      assert b[i] == a[j];
    }
  }

  /** The pages that mmap will return from the k-th on are different and not clusters yet. */
  ghost predicate Unused(mmaps: seq<Ptr>, k: nat, clusters: seq<Ptr>) {
    && Distinct(mmaps)
    && forall j :: k <= j < |mmaps| ==> mmaps[j] != NULL && mmaps[j] % 4096 == 0 && mmaps[j] !in clusters
  }

  lemma StillUnused(mmaps: seq<Ptr>, k: nat, clusters: seq<Ptr>, clusters': seq<Ptr>)
    requires k < |mmaps| && Unused(mmaps, k, clusters)
    requires clusters' == clusters || clusters' == clusters + [mmaps[k]]
    ensures Unused(mmaps, k + 1, clusters')
  {
  }

  ghost predicate DefinedAt(cfg: Config, s: Tracked, es: seq<Event>, k: int)
    requires 0 <= k < |es|
  {
    ReplacementDefined(cfg, Run(cfg, s, es[..k]), es[k])
  }

  lemma StepIsTouch(cfg: Config, s: Tracked, e: Event, located: Tracked, i: nat, s': Tracked, o: Outcome)
    requires Accepted(cfg, e) && Located(cfg, s, e) == (located, i) && i < |located.recs|
    requires o == Touch(cfg, located.recs[i], e) && s' == located.(recs := located.recs[i := o.page])
    ensures s' == Step(cfg, s, e) && StepOutcome(cfg, s, e) == Some(o)
    ensures StepActions(cfg, s, e) == LocateActions(cfg, s, e) + Actions(cfg, o, e)
  {
  }

  lemma Appended<T>(a: seq<T>, b: seq<T>, c: seq<T>)
    ensures a + b + c == a + (b + c)
  {
  }

  lemma RunOneMore(cfg: Config, s: Tracked, es: seq<Event>, k: nat)
    requires k < |es|
    ensures Run(cfg, s, es[..k + 1]) == Step(cfg, Run(cfg, s, es[..k]), es[k])
    ensures RunOutcomes(cfg, s, es[..k + 1])
      == RunOutcomes(cfg, s, es[..k]) + [StepOutcome(cfg, Run(cfg, s, es[..k]), es[k])]
    ensures RunActions(cfg, s, es[..k + 1])
      == RunActions(cfg, s, es[..k]) + StepActions(cfg, Run(cfg, s, es[..k]), es[k])
  {
    assert es[..k + 1][..k] == es[..k];
  }

  /** The world outside: triggers, reports and the kernel's offline interface. */
  class Outside {
    var done: seq<Action>

    constructor ()
      ensures done == []
    {
      done := [];
    }

    method Emit(a: Action)
      modifies this
      ensures done == old(done) + [a]
    {
      done := done + [a];
    }

    /** do_memory_offline; ok is what the kernel answers. */
    method DoMemoryOffline(addr: int, kind: Mode, ok: bool) returns (r: bool)
      modifies this
      ensures done == old(done) + [Request(addr, kind)] && r == ok
    {
      Emit(Request(addr, kind));
      r := ok;
    }

    /** memory_offline */
    method MemoryOffline(addr: int, mode: Mode, e: Event) returns (ok: bool)
      requires !mode.Off? && !mode.Account?
      modifies this
      ensures ok == PageModel.MemoryOffline(mode, e.softOk, e.hardOk)
      ensures done == old(done) + Requests(mode, addr, e.softOk)
    {
      if mode == SoftThenHard {
        ok := DoMemoryOffline(addr, Soft, e.softOk);
        if !ok {
          ok := DoMemoryOffline(addr, Hard, e.hardOk);
        }
      } else {
        ok := DoMemoryOffline(addr, mode, if mode == Soft then e.softOk else e.hardOk);
      }
    }
  }

  class Tracker {
    const cfg: Config
    const outside: Outside
    const rb: RbRoot
    const lru: LinkedList.ListMemory
    var pages: Pages            // the mempage part of every slot in use
    var used: map<Ptr, int>     // mp_used of every cluster
    var mpCluster: Ptr
    var counters: int           // corr_err_counters
    var replBucket: Bucket      // mp_replacement.bucket
    ghost var clusters: seq<Ptr>
    ghost var order: seq<Ptr>
    ghost var replaced: nat

    constructor (cfg: Config, now: int)
      requires ConfigOk(cfg)
      ensures this.cfg == cfg && Valid() && Abs() == Init(now) && fresh(rb) && fresh(lru) && fresh(outside)
      ensures clusters == [] && outside.done == []
    {
      this.cfg := cfg;
      rb := new RbRoot();
      lru := new LinkedList.ListMemory(LRU_HEAD);
      outside := new Outside();
      pages, used, mpCluster, counters := map[], map[], NULL, 0;
      replBucket := Bucket(0, 0, now);
      clusters, order, replaced := [], [], 0;
    }

    /** The tree is a red-black search tree on page addresses. */
    ghost predicate IndexOk()
      reads this`pages, rb
    {
      rb.Valid() && RedBlack(rb.shape) && Sorted(pages, Inorder(rb.shape))
    }

    /** The tree holds exactly the slots handed out. */
    ghost predicate OrderOk()
      reads this`pages, this`order, this`counters, rb
    {
      OrderGood(order, Nodes(rb.shape), pages.Keys) && |order| == counters
      && (counters <= cfg.maxCounters || counters == 0)
    }

    ghost predicate SlotsOk()
      reads this`order, this`clusters, this`used, this`mpCluster, this`replaced
    {
      SlotsGood(cfg.maxCounters, order, clusters, used, mpCluster, replaced)
    }

    ghost predicate ListOk()
      reads this`clusters, this`counters, lru
    {
      ListGood(lru.links, clusters, counters)
    }

    ghost predicate Stored()
      reads this`pages, this`order, this`counters, this`clusters, this`used, this`mpCluster, this`replaced, rb, lru
    {
      IndexOk() && OrderOk() && SlotsOk() && ListOk()
    }

    ghost function Abs(): Tracked
      requires forall x :: x in order ==> x in pages
      reads this
    {
      Tracked(Recs(pages, order), replaced, replBucket)
    }

    ghost predicate Valid()
      reads this, rb, lru
    {
      && ConfigOk(cfg) && Stored() && BoundedMap(cfg, Abs())
    }

    // ----- search and insertion

    /** mempage_lookup; steps counts the nodes visited. */
    method Lookup(addr: int) returns (n: Ptr, ghost steps: nat)
      requires IndexOk()
      ensures n != NULL ==> n in Nodes(rb.shape) && n in pages && pages[n].addr == addr
      ensures n == NULL ==> forall x :: x in Nodes(rb.shape) ==> x in pages && pages[x].addr != addr
      ensures Pow2((steps + 1) / 2) <= Size(rb.shape) + 1
    {
      n := rb.root;
      steps := 0;
      ghost var p, t := Top, rb.shape;
      while n != NULL
        invariant rb.shape == Plug(p, t) && n == Root(t) && steps == Depth(p)
        invariant AllBelow(pages, Before(p), addr) && AllAbove(pages, After(p), addr)
        decreases t
      {
        rb.View(p, t);
        rb.Look(p, t);
        InorderNodes(rb.shape, n);
        if addr < pages[n].addr {
          GoLeft(pages, p, t, addr);
          n := rb.cells[n].left;
          p, t := In(L, t.id, t.color, t.right, p), t.left;
        } else if addr > pages[n].addr {
          GoRight(pages, p, t, addr);
          n := rb.cells[n].right;
          p, t := In(R, t.id, t.color, t.left, p), t.right;
        } else {
          steps := steps + 1;
          SearchDepth(In(L, t.id, t.color, t.right, p), t.left);
          return;
        }
        steps := steps + 1;
      }
      rb.Look(p, t);
      forall x | x in Nodes(rb.shape)
        ensures x in pages && pages[x].addr != addr
      {
        NotBetween(pages, p, addr, x);
      }
      SearchDepth(p, t);
    }

    /** mempage_insert_lookup: node holds addr and is not in the tree. */
    method InsertLookup(addr: int, node: Ptr) returns (mp: Ptr)
      requires IndexOk() && node != NULL && node in pages && pages[node].addr == addr && node !in Nodes(rb.shape)
      modifies rb
      ensures IndexOk()
      ensures mp != NULL ==>
        mp in old(Nodes(rb.shape)) && mp in pages && pages[mp].addr == addr && rb.shape == old(rb.shape)
      ensures mp == NULL ==> (forall x :: x in old(Nodes(rb.shape)) ==> x in pages && pages[x].addr != addr)
                             && Nodes(rb.shape) == old(Nodes(rb.shape)) + {node}
    {
      var link, parent := AtRoot, NULL;
      mp := rb.root;
      ghost var p, t := Top, rb.shape;
      while mp != NULL
        invariant IndexOk() && unchanged(rb)
        invariant rb.shape == Plug(p, t) && mp == Root(t) && parent == ParentPtr(p) && link == LinkOf(p)
        invariant AllBelow(pages, Before(p), addr) && AllAbove(pages, After(p), addr)
        decreases t
      {
        rb.View(p, t);
        rb.Look(p, t);
        InorderNodes(rb.shape, mp);
        parent := mp;
        if addr < pages[mp].addr {
          GoLeft(pages, p, t, addr);
          link := AtLeft(mp);
          mp := rb.cells[mp].left;
          p, t := In(L, t.id, t.color, t.right, p), t.left;
        } else if addr > pages[mp].addr {
          GoRight(pages, p, t, addr);
          link := AtRight(mp);
          mp := rb.cells[mp].right;
          p, t := In(R, t.id, t.color, t.left, p), t.right;
        } else {
          return;
        }
      }
      rb.Look(p, t);
      forall x | x in Nodes(rb.shape)
        ensures x in pages && pages[x].addr != addr
      {
        NotBetween(pages, p, addr, x);
      }
      rb.LinkAndColor(node, parent, link, p);
      SortedInsert(pages, Before(p), node, After(p));
    }

    // ----- the list of clusters

    /** mempage_cluster_lru_list_update */
    method LruUpdate(cluster: Ptr)
      requires counters > 0 && clusters != [] && cluster in clusters && ListOk()
      modifies lru
      ensures ListOk() && lru.links == LinkedList.Updated(old(lru.links), LRU_HEAD, cluster)
    {
      if cluster == lru.links[LRU_HEAD].next {
        return;
      }
      ghost var m := lru.links;
      LinkedList.StuckEntry(m, LRU_HEAD, clusters[0], Elements(clusters), cluster);
      lru.ListDel(cluster);
      LinkedList.UpdateKeepsStuck(m, lru.links, LRU_HEAD, clusters[0], Elements(clusters), cluster);
      lru.ListAdd(cluster, LRU_HEAD);
    }

    /** From the second tracked page on, the back link of the list head, where replacement
        looks for the least recently used cluster, stays on the first cluster, and all links
        lead to the head or to a cluster. */
    lemma HeadStaysOnFirst()
      requires Valid() && counters >= 2
      ensures clusters != [] && LRU_HEAD in lru.links && lru.links[LRU_HEAD].prev == clusters[0]
      ensures lru.links.Keys == Elements(clusters) + {LRU_HEAD}
      ensures forall x :: x in lru.links ==> lru.links[x].next in lru.links && lru.links[x].prev in lru.links
    {
      forall x | x in Elements(clusters)
        ensures x in lru.links && lru.links[x].next in lru.links && lru.links[x].prev in lru.links
      {
        LinkedList.StuckEntry(lru.links, LRU_HEAD, clusters[0], Elements(clusters), x);
      }
    }

    // ----- the counter of one page

    /** offline_action */
    method OfflinePage(mp: Ptr, e: Event) returns (o: Outcome)
      requires mp in pages
      modifies this`pages, outside
      ensures o == OfflineAction(cfg, old(pages)[mp], e)
      ensures Only(old(pages), pages, mp, o.page)
      ensures outside.done
        == old(outside.done) + if o.attempted then Requests(cfg.mode, o.page.addr, e.softOk) else []
    {
      if cfg.mode == Off || cfg.mode == Account {
        return Outcome(pages[mp], true, false, false);
      }
      var ok := outside.MemoryOffline(pages[mp].addr, cfg.mode, e);
      if !ok {
        pages := pages[mp := pages[mp].(offlined := OfflineFailed)];
        pages := pages[mp := pages[mp].(multiplier := pages[mp].multiplier * BackoffBase(cfg) % 256)];
      } else {
        pages := pages[mp := pages[mp].(offlined := Offline)];
      }
      return Outcome(pages[mp], true, true, !ok);
    }

    /** The reports and triggers of account_page_error around offline_action. */
    method ReportPage(mp: Ptr, e: Event) returns (o: Outcome)
      requires mp in pages
      modifies this`pages, outside
      ensures o == OfflineAction(cfg, old(pages)[mp], e)
      ensures Only(old(pages), pages, mp, o.page)
      ensures outside.done == old(outside.done) + Actions(cfg, o, e)
    {
      var addr := pages[mp].addr;
      outside.Emit(Report(addr));
      if cfg.mode == Soft || cfg.mode == SoftThenHard {
        outside.Emit(PreSoft(addr));
        o := OfflinePage(mp, e);
        outside.Emit(PostSoft(addr));
      } else {
        o := OfflinePage(mp, e);
      }
    }

    /** The end of account_page_error: count the error and act on an overflow. */
    method Charge(mp: Ptr, e: Event) returns (o: Outcome)
      requires mp in pages
      modifies this`pages, outside
      ensures o == Touch(cfg, old(pages)[mp], e)
      ensures Only(old(pages), pages, mp, o.page)
      ensures outside.done == old(outside.done) + Actions(cfg, o, e)
    {
      pages := pages[mp := pages[mp].(count := (pages[mp].count + 1) % 0x1_0000_0000)];
      var (bucket, over) := AccountedBy(cfg.page, pages[mp].bucket, 1, e.time, pages[mp].multiplier);
      pages := pages[mp := pages[mp].(bucket := bucket)];
      o := Outcome(pages[mp], false, false, false);
      if over {
        if (cfg.retry && pages[mp].offlined == Offline) || (!cfg.retry && pages[mp].offlined != Online) {
          return;
        }
        pages := pages[mp := pages[mp].(triggered := true)];
        o := ReportPage(mp, e);
      }
    }

    // ----- new and reused counters

    /** mempage_alloc; page is what mmap returns, used only when a cluster is needed. */
    method Alloc(page: Ptr) returns (mp: Ptr)
      requires ConfigOk(cfg) && OrderOk() && SlotsOk() && replaced == 0 && counters < cfg.maxCounters
      requires page != NULL && page % 4096 == 0 && page !in clusters
      modifies this`used, this`mpCluster, this`clusters, this`pages, lru`links
      ensures mp !in order && mp != NULL && NewCluster(counters, old(clusters), clusters, page, ClusterOf(mp))
      ensures SlotsGood(cfg.maxCounters, order + [mp], clusters, used, mpCluster, 0)
      ensures pages == old(pages)[mp := Mempage(0, Online, false, 0, 0, Bucket(0, 0, 0))]
      ensures lru.links
        == if clusters == old(clusters) then old(lru.links) else old(lru.links)[page := LinkedList.Links(0, 0)]
    {
      if mpCluster == NULL || used[mpCluster] == N {
        mpCluster := page;
        // a page of zeroes
        used := used[mpCluster := 0];
        lru.links := lru.links[mpCluster := LinkedList.Links(0, 0)];
        clusters := clusters + [page];
      }
      mp := SlotAddr(mpCluster, used[mpCluster]);
      pages := pages[mp := Mempage(0, Online, false, 0, 0, Bucket(0, 0, 0))];
      used := used[mpCluster := used[mpCluster] + 1];
      NextSlotGood(cfg.maxCounters, order, old(clusters), old(used), old(mpCluster), page, clusters, used, mpCluster);
    }

    /** mempage_insert of a page that is not in the tree yet. */
    method Insert(addr: int, mp: Ptr)
      requires IndexOk() && mp != NULL && mp in pages && mp !in Nodes(rb.shape)
      requires forall x :: x in Nodes(rb.shape) ==> x in pages && pages[x].addr != addr
      modifies this`pages, rb
      ensures IndexOk() && Nodes(rb.shape) == old(Nodes(rb.shape)) + {mp}
      ensures Only(old(pages), pages, mp, old(pages)[mp].(addr := addr))
    {
      pages := pages[mp := pages[mp].(addr := addr)];
      SortedKept(old(pages), pages, rb.shape);
      var existing := InsertLookup(addr, mp);
    }

    /** mempage_cluster_lru_list_insert; known is the list of clusters before the slot was
        taken and links what the list was then. */
    method LruInsert(cluster: Ptr, ghost links: LinkedList.Store, ghost known: seq<Ptr>, ghost page: Ptr)
      requires ListGood(links, known, counters) && NewCluster(counters, known, clusters, page, cluster)
      requires lru.links == if clusters == known then links else links[page := LinkedList.Links(0, 0)]
      modifies lru
      ensures ListGood(lru.links, clusters, counters + 1)
    {
      ListAfterAlloc(links, lru.links, known, clusters, page, counters, cluster);
      lru.ListAdd(cluster, LRU_HEAD);
    }

    /** bucket_init of a slot's bucket */
    method InitBucket(mp: Ptr, now: int)
      requires mp in pages
      modifies this`pages
      ensures Only(old(pages), pages, mp, old(pages)[mp].(bucket := Bucket(0, 0, now)))
    {
      pages := pages[mp := pages[mp].(bucket := Bucket(0, 0, now))];
    }

    /** mempage_alloc and bucket_init */
    method TakeSlot(now: int, page: Ptr) returns (mp: Ptr)
      requires ConfigOk(cfg) && OrderOk() && SlotsOk() && replaced == 0 && counters < cfg.maxCounters
      requires page != NULL && page % 4096 == 0 && page !in clusters
      modifies this`used, this`mpCluster, this`clusters, this`pages, this`order, lru`links
      ensures SlotsOk() && order == old(order) + [mp] && mp !in old(order) && mp != NULL
      ensures mp in pages && pages[mp] == Mempage(0, Online, false, 0, 0, Bucket(0, 0, now))
      ensures pages.Keys == old(pages.Keys) + {mp} && Kept(old(pages), pages, old(order))
      ensures NewCluster(counters, old(clusters), clusters, page, ClusterOf(mp))
      ensures lru.links
        == if clusters == old(clusters) then old(lru.links) else old(lru.links)[page := LinkedList.Links(0, 0)]
    {
      mp := Alloc(page);
      InitBucket(mp, now);
      order := order + [mp];
    }

    /** A slot is taken, initialized and put into the tree. */
    method NewSlot(addr: int, now: int, page: Ptr) returns (mp: Ptr)
      requires ConfigOk(cfg) && IndexOk() && OrderOk() && SlotsOk() && replaced == 0 && counters < cfg.maxCounters
      requires page != NULL && page % 4096 == 0 && page !in clusters
      requires forall x :: x in Nodes(rb.shape) ==> x in pages && pages[x].addr != addr
      modifies this`used, this`mpCluster, this`clusters, this`pages, this`order, rb, lru`links
      ensures IndexOk() && SlotsOk() && order == old(order) + [mp] && mp !in old(order)
      ensures OrderGood(order, Nodes(rb.shape), pages.Keys)
      ensures mp in pages && pages[mp] == Fresh(addr, now).(multiplier := 0) && Kept(old(pages), pages, old(order))
      ensures NewCluster(counters, old(clusters), clusters, page, ClusterOf(mp))
      ensures lru.links
        == if clusters == old(clusters) then old(lru.links) else old(lru.links)[page := LinkedList.Links(0, 0)]
    {
      mp := TakeSlot(now, page);
      SortedKept(old(pages), pages, rb.shape);
      Insert(addr, mp);
      OrderExtended(old(order), old(Nodes(rb.shape)), old(pages.Keys), mp);
      assert pages.Keys == old(pages.Keys) + {mp};
    }

    /** The second half: the slot's cluster is added to the list and the slot is counted. */
    method CountSlot(mp: Ptr, ghost links: LinkedList.Store, ghost known: seq<Ptr>, ghost page: Ptr)
      requires IndexOk() && mp in pages && OrderGood(order, Nodes(rb.shape), pages.Keys)
      requires |order| == counters + 1 && counters < cfg.maxCounters
      requires ListGood(links, known, counters) && NewCluster(counters, known, clusters, page, ClusterOf(mp))
      requires lru.links == if clusters == known then links else links[page := LinkedList.Links(0, 0)]
      modifies this`pages, this`counters, lru
      ensures IndexOk() && OrderOk() && ListOk()
      ensures Only(old(pages), pages, mp, old(pages)[mp].(multiplier := 1))
    {
      LruInsert(ClusterOf(mp), links, known, page);
      pages := pages[mp := pages[mp].(multiplier := 1)];
      SortedKept(old(pages), pages, rb.shape);
      assert pages.Keys == old(pages.Keys);
      counters := counters + 1;
    }

    /** account_page_error, a new page while counters are left: a counter is handed out. */
    method Track(addr: int, now: int, page: Ptr) returns (mp: Ptr)
      requires ConfigOk(cfg) && Stored() && replaced == 0 && counters < cfg.maxCounters
      requires page != NULL && page % 4096 == 0 && page !in clusters
      requires forall x :: x in Nodes(rb.shape) ==> x in pages && pages[x].addr != addr
      modifies this`used, this`mpCluster, this`clusters, this`pages, this`order, this`counters, rb, lru
      ensures Stored()
      ensures order == old(order) + [mp] && mp !in old(order)
      ensures mp in pages && pages[mp] == Fresh(addr, now) && Kept(old(pages), pages, old(order))
      ensures clusters == old(clusters) || clusters == old(clusters) + [page]
    {
      mp := NewSlot(addr, now, page);
      CountSlot(mp, old(lru.links), old(clusters), page);
    }

    /** mempage_replace, its choice of a slot */
    method NextVictim() returns (mp: Ptr)
      requires ConfigOk(cfg) && |order| == counters == cfg.maxCounters > 0 && SlotsOk() && ListOk()
      modifies this`used, this`mpCluster, this`replaced
      ensures SlotsOk() && replaced == old(replaced) + 1
      ensures clusters != [] && old(replaced) % 63 < |order| && mp == order[old(replaced) % 63]
        && ClusterOf(mp) == clusters[0]
    {
      ghost var used' := if clusters != [] && mpCluster in used && used[mpCluster] == N then used[clusters[0] := 1]
                         else if mpCluster in used then used[mpCluster := used[mpCluster] + 1] else used;
      ReplaceSlotGood(cfg.maxCounters, order, clusters, used, mpCluster, replaced, used');
      if used[mpCluster] == N {
        assert lru.links[LRU_HEAD].prev == clusters[0];
        mpCluster := lru.links[LRU_HEAD].prev;
        used := used[mpCluster := 0];
      }
      mp := SlotAddr(mpCluster, used[mpCluster]);
      used := used[mpCluster := used[mpCluster] + 1];
      assert used == used';
      replaced := replaced + 1;
    }

    /** mempage_replace, the fields it resets */
    method ResetCounter(mp: Ptr)
      requires IndexOk() && mp in pages
      modifies this`pages
      ensures IndexOk() && Only(old(pages), pages, mp, Recycled(old(pages)[mp]))
    {
      pages := pages[mp := pages[mp].(offlined := Online)];
      pages := pages[mp := pages[mp].(triggered := false)];
      pages := pages[mp := pages[mp].(multiplier := 1)];
      pages := pages[mp := pages[mp].(count := 0)];
      SortedKept(old(pages), pages, rb.shape);
    }

    /** mempage_replace */
    method Replace() returns (mp: Ptr)
      requires ConfigOk(cfg) && Stored() && counters == cfg.maxCounters > 0
      modifies this`used, this`mpCluster, this`pages, this`replaced
      ensures SlotsOk() && replaced == old(replaced) + 1
      ensures clusters != [] && old(replaced) % 63 < |order| && mp == order[old(replaced) % 63]
        && ClusterOf(mp) == clusters[0]
      ensures IndexOk() && mp in Nodes(rb.shape)
      ensures mp in old(pages) && Only(old(pages), pages, mp, Recycled(old(pages)[mp]))
    {
      mp := NextVictim();
      assert mp in order;
      ResetCounter(mp);
    }

    /** mempage_rb_tree_update: the slot chosen for replacement is in the tree. */
    method UpdateTree(addr: int, mp: Ptr)
      requires IndexOk() && mp in Nodes(rb.shape) && mp in pages
      requires forall x :: x in Nodes(rb.shape) ==> x in pages && pages[x].addr != addr
      modifies this`pages, rb
      ensures IndexOk() && Nodes(rb.shape) == old(Nodes(rb.shape))
      ensures Only(old(pages), pages, mp, old(pages)[mp].(addr := addr))
    {
      LaidDistinct(rb.cells, rb.shape, NULL);
      LaidKeys(rb.cells, rb.shape, NULL);
      SortedWithout(pages, Inorder(rb.shape), mp);
      rb.Erase(mp);
      Insert(addr, mp);
    }

    /** bucket_init and mempage_rb_tree_update */
    method Rekey(addr: int, now: int, mp: Ptr)
      requires IndexOk() && mp in Nodes(rb.shape) && mp in pages
      requires forall x :: x in Nodes(rb.shape) ==> x in pages && pages[x].addr != addr
      modifies this`pages, rb
      ensures IndexOk() && Nodes(rb.shape) == old(Nodes(rb.shape))
      ensures Only(old(pages), pages, mp, old(pages)[mp].(addr := addr, bucket := Bucket(0, 0, now)))
    {
      InitBucket(mp, now);
      SortedKept(old(pages), pages, rb.shape);
      UpdateTree(addr, mp);
    }

    /** mempage_replace, bucket_init and mempage_rb_tree_update */
    method ReuseSlot(addr: int, now: int) returns (mp: Ptr)
      requires ConfigOk(cfg) && Stored() && counters == cfg.maxCounters > 0
      requires forall x :: x in Nodes(rb.shape) ==> x in pages && pages[x].addr != addr
      modifies this`used, this`mpCluster, this`pages, this`replaced, rb
      ensures IndexOk() && SlotsOk() && Nodes(rb.shape) == old(Nodes(rb.shape)) && replaced == old(replaced) + 1
      ensures old(replaced) % 63 < |order| && mp == order[old(replaced) % 63] && ClusterOf(mp) in clusters
      ensures mp in old(pages) && Only(old(pages), pages, mp, Fresh(addr, now))
    {
      mp := Replace();
      Rekey(addr, now, mp);
    }

    /** account_page_error, a new page when no counters are left: a counter is reused. */
    method Recycle(addr: int, now: int) returns (mp: Ptr)
      requires ConfigOk(cfg) && Stored() && counters == cfg.maxCounters > 0
      requires forall x :: x in Nodes(rb.shape) ==> x in pages && pages[x].addr != addr
      modifies this`used, this`mpCluster, this`pages, this`replaced, rb, lru
      ensures Stored() && replaced == old(replaced) + 1
      ensures old(replaced) % 63 < |order| && mp == order[old(replaced) % 63]
      ensures mp in pages && pages[mp] == Fresh(addr, now)
      ensures forall x :: x in order && x != mp ==> x in old(pages) && x in pages && pages[x] == old(pages)[x]
    {
      mp := ReuseSlot(addr, now);
      LruUpdate(ClusterOf(mp));
    }

    /** A counter for a page that has none, while counters are left. */
    method NewCounter(addr: int, e: Event, page: Ptr) returns (mp: Ptr, ghost i: nat)
      requires ConfigOk(cfg) && Stored() && counters < cfg.maxCounters
      requires page != NULL && page % 4096 == 0 && page !in clusters && addr == PageOf(e.addr)
      requires forall x :: x in Nodes(rb.shape) ==> x in pages && pages[x].addr != addr
      modifies this`used, this`mpCluster, this`clusters, this`pages, this`order, this`counters, rb, lru
      ensures Stored()
      ensures i < |order| && mp == order[i] && (Abs(), i) == Located(cfg, old(Abs()), e)
      ensures clusters == old(clusters) || clusters == old(clusters) + [page]
    {
      i := |order|;
      IndexOfNone(pages, order, addr);
      mp := Track(addr, e.now, page);
      RecsAppended(old(pages), pages, old(order), mp);
      LocatedNew(cfg, old(Abs()), e, Abs());
    }

    /** The reporting of replacements in account_page_error. */
    method CountReplacement(t: int)
      modifies this`replBucket, outside
      ensures replBucket == CountedReplacement(cfg, old(replBucket), t)
      ensures outside.done == old(outside.done) + ReplacementReports(cfg, old(replBucket), t)
    {
      var (bucket, over) := AccountedBy(cfg.replacement, replBucket, 1, t, 1);
      replBucket := bucket;
      if over {
        outside.Emit(ReportReplacements);
      }
    }

    method RecycleOne(addr: int, now: int) returns (mp: Ptr, ghost i: nat)
      requires ConfigOk(cfg) && Stored() && counters == cfg.maxCounters > 0
      requires forall x :: x in Nodes(rb.shape) ==> x in pages && pages[x].addr != addr
      modifies this`used, this`mpCluster, this`pages, this`replaced, rb, lru
      ensures Stored() && replaced == old(replaced) + 1
      ensures i == old(replaced) % 63 < |order| && mp == order[i]
      ensures Recs(pages, order) == old(Recs(pages, order))[i := Fresh(addr, now)]
    {
      i := replaced % 63;
      mp := Recycle(addr, now);
      RecsUpdated(old(pages), pages, order, i);
    }

    /** A counter for a page that has none, when no counters are left. */
    method ReusedCounter(addr: int, e: Event) returns (mp: Ptr, ghost i: nat)
      requires ConfigOk(cfg) && Stored() && counters == cfg.maxCounters > 0
      requires forall x :: x in Nodes(rb.shape) ==> x in pages && pages[x].addr != addr
      modifies this`used, this`mpCluster, this`pages, this`replaced, this`replBucket, rb, lru, outside
      ensures Stored() && replaced == old(replaced) + 1
      ensures i == old(replaced) % 63 < |order| && mp == order[i]
      ensures Recs(pages, order) == old(Recs(pages, order))[i := Fresh(addr, e.now)]
      ensures replBucket == CountedReplacement(cfg, old(replBucket), e.time)
      ensures outside.done == old(outside.done) + ReplacementReports(cfg, old(replBucket), e.time)
    {
      mp, i := RecycleOne(addr, e.now);
      CountReplacement(e.time);
    }

    /** A new page when no counters are left, with the report of the replacement. */
    method Reuse(addr: int, e: Event) returns (mp: Ptr, ghost i: nat)
      requires Valid() && counters == cfg.maxCounters > 0 && addr == PageOf(e.addr)
      requires forall x :: x in Nodes(rb.shape) ==> x in pages && pages[x].addr != addr
      modifies this`used, this`mpCluster, this`pages, this`replaced, this`replBucket, rb, lru, outside
      ensures Stored()
      ensures i < |order| && mp == order[i] && (Abs(), i) == Located(cfg, old(Abs()), e)
      ensures outside.done == old(outside.done) + LocateActions(cfg, old(Abs()), e)
    {
      IndexOfNone(pages, order, addr);
      mp, i := ReusedCounter(addr, e);
      LocatedReused(cfg, old(Abs()), e, Abs());
    }

    /** A page that has a counter. */
    method Known(addr: int, e: Event, mp: Ptr) returns (ghost i: nat)
      requires Valid() && mp in order && mp in pages && pages[mp].addr == addr == PageOf(e.addr)
      modifies lru
      ensures ListOk() && i < |order| && mp == order[i] && (Abs(), i) == Located(cfg, Abs(), e)
    {
      i :| 0 <= i < |order| && order[i] == mp;
      IndexOfSlot(pages, order, addr, mp, i);
      LruUpdate(ClusterOf(mp));
    }

    /** When there is no room for a new page, the map is full and not empty. */
    lemma NoRoom(e: Event)
      requires Valid() && Accepted(cfg, e) && ReplacementDefined(cfg, Abs(), e) && counters >= cfg.maxCounters
      requires forall x :: x in Nodes(rb.shape) ==> x in pages && pages[x].addr != PageOf(e.addr)
      ensures counters == cfg.maxCounters > 0
    {
      IndexOfNone(pages, order, PageOf(e.addr));
    }

    /** A page that has no counter yet. */
    method Create(addr: int, e: Event, page: Ptr) returns (mp: Ptr, ghost i: nat)
      requires Valid() && Accepted(cfg, e) && ReplacementDefined(cfg, Abs(), e) && addr == PageOf(e.addr)
      requires page != NULL && page % 4096 == 0 && page !in clusters
      requires forall x :: x in Nodes(rb.shape) ==> x in pages && pages[x].addr != addr
      modifies this, rb, lru, outside
      ensures Stored() && i < |order| && mp == order[i] && (Abs(), i) == Located(cfg, old(Abs()), e)
      ensures outside.done == old(outside.done) + LocateActions(cfg, old(Abs()), e)
      ensures clusters == old(clusters) || clusters == old(clusters) + [page]
    {
      if counters < cfg.maxCounters {
        mp, i := NewCounter(addr, e, page);
      } else {
        NoRoom(e);
        mp, i := Reuse(addr, e);
      }
    }

    /** The first half of account_page_error: the counter for the page of e. */
    method FindCounter(addr: int, e: Event, page: Ptr) returns (mp: Ptr, ghost i: nat)
      requires Valid() && Accepted(cfg, e) && ReplacementDefined(cfg, Abs(), e) && addr == PageOf(e.addr)
      requires page != NULL && page % 4096 == 0 && page !in clusters
      modifies this, rb, lru, outside
      ensures Stored() && i < |order| && mp == order[i] && (Abs(), i) == Located(cfg, old(Abs()), e)
      ensures outside.done == old(outside.done) + LocateActions(cfg, old(Abs()), e)
      ensures clusters == old(clusters) || clusters == old(clusters) + [page]
    {
      ghost var steps;
      mp, steps := Lookup(addr);
      if mp == NULL {
        mp, i := Create(addr, e, page);
      } else {
        i := Known(addr, e, mp);
      }
    }

    /** The second half: charge the counter. */
    method CountError(mp: Ptr, e: Event, ghost i: nat) returns (o: Outcome)
      requires ConfigOk(cfg) && IndexOk() && OrderOk() && i < |order| && mp == order[i]
      modifies this`pages, outside
      ensures IndexOk() && OrderOk() && o == Touch(cfg, old(Abs()).recs[i], e)
      ensures Abs() == old(Abs()).(recs := old(Abs()).recs[i := o.page])
      ensures outside.done == old(outside.done) + Actions(cfg, o, e)
    {
      o := Charge(mp, e);
      TouchKeepsAddr(cfg, old(pages)[mp], e);
      SortedKept(old(pages), pages, rb.shape);
      RecsUpdated(old(pages), pages, order, i);
    }

    /** The second half, in terms of the state s and the actions done before the first. */
    method FinishError(mp: Ptr, e: Event, ghost i: nat, ghost s: Tracked, ghost done: seq<Action>) returns (o: Outcome)
      requires ConfigOk(cfg) && Stored() && Accepted(cfg, e) && i < |order| && mp == order[i]
      requires (Abs(), i) == Located(cfg, s, e) && outside.done == done + LocateActions(cfg, s, e)
      modifies this`pages, outside
      ensures Stored() && Abs() == Step(cfg, s, e) && StepOutcome(cfg, s, e) == Some(o)
      ensures outside.done == done + StepActions(cfg, s, e)
    {
      ghost var located := Abs();
      o := CountError(mp, e, i);
      StepIsTouch(cfg, s, e, located, i, Abs(), o);
      Appended(done, LocateActions(cfg, s, e), Actions(cfg, o, e));
    }

    /** What account_page_error does with an error it accepts. */
    method AccountAccepted(e: Event, page: Ptr) returns (o: Outcome)
      requires Valid() && Accepted(cfg, e) && ReplacementDefined(cfg, Abs(), e)
      requires page != NULL && page % 4096 == 0 && page !in clusters
      modifies this, rb, lru, outside
      ensures Stored() && Abs() == Step(cfg, old(Abs()), e) && StepOutcome(cfg, old(Abs()), e) == Some(o)
      ensures outside.done == old(outside.done) + StepActions(cfg, old(Abs()), e)
      ensures clusters == old(clusters) || clusters == old(clusters) + [page]
    {
      ghost var i;
      var mp;
      mp, i := FindCounter(PageOf(e.addr), e, page);
      o := FinishError(mp, e, i, old(Abs()), old(outside.done));
    }

    /** account_page_error, with the outcome of an accepted error. Its caller never comes
        here with nothing to replace, unless the maximum is not positive (see
        ReplacementAlwaysDefined). */
    method AccountPageError(e: Event, page: Ptr) returns (o: Option<Outcome>)
      requires Valid() && ReplacementDefined(cfg, Abs(), e)
      requires page != NULL && page % 4096 == 0 && page !in clusters
      modifies this, rb, lru, outside
      ensures Valid() && Abs() == Step(cfg, old(Abs()), e) && o == StepOutcome(cfg, old(Abs()), e)
      ensures outside.done == old(outside.done) + StepActions(cfg, old(Abs()), e)
      ensures clusters == old(clusters) || clusters == old(clusters) + [page]
    {
      if cfg.mode == Off {
        return None;
      }
      if !e.addrValid || e.uncorrected {
        return None;
      }
      if cfg.sandyBridgeEp && e.bank == 1 && e.cpu == 0 {
        return None;
      }
      StepBounded(cfg, Abs(), e);
      var outcome := AccountAccepted(e, page);
      return Some(outcome);
    }

    /** dump_page_errors: every tracked page once, in ascending order. */
    method DumpPages() returns (out: seq<Mempage>)
      requires Valid()
      ensures forall i, j :: 0 <= i < j < |out| ==> out[i].addr < out[j].addr
      ensures forall mp :: mp in out <==> mp in Abs().recs
    {
      DumpedIsTracked(pages, rb.shape, order);
      var visited := rb.Walk();
      out := Recs(pages, visited);
    }

    /** Any sequence of errors, with the pages mmap would return: the stored tracker goes
        through the states of the simple one, with the same outcomes and the same effects
        outside, and never gives a cluster up. */
    method AccountAll(es: seq<Event>, mmaps: seq<Ptr>) returns (outcomes: seq<Option<Outcome>>)
      requires Valid() && |mmaps| == |es| && Unused(mmaps, 0, clusters)
      requires forall k :: 0 <= k < |es| ==> DefinedAt(cfg, Abs(), es, k)
      modifies this, rb, lru, outside
      ensures Valid() && Abs() == Run(cfg, old(Abs()), es) && outcomes == RunOutcomes(cfg, old(Abs()), es)
      ensures outside.done == old(outside.done) + RunActions(cfg, old(Abs()), es)
      ensures old(clusters) <= clusters
    {
      outcomes := [];
      ghost var s0 := Abs();
      for k := 0 to |es|
        invariant Valid() && Abs() == Run(cfg, s0, es[..k]) && outcomes == RunOutcomes(cfg, s0, es[..k])
        invariant outside.done == old(outside.done) + RunActions(cfg, s0, es[..k])
        invariant Unused(mmaps, k, clusters) && old(clusters) <= clusters
      {
        RunOneMore(cfg, s0, es, k);
        assert DefinedAt(cfg, s0, es, k);
        ghost var (known, before) := (clusters, Abs());
        var o := AccountPageError(es[k], mmaps[k]);
        outcomes := outcomes + [o];
        StillUnused(mmaps, k, known, clusters);
        Appended(old(outside.done), RunActions(cfg, s0, es[..k]), StepActions(cfg, before, es[k]));
      }
      assert es[..|es|] == es;
    }
  }
}
