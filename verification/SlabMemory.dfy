/** How a cache lies in memory: slab headers linked from the cache, and free lists threaded through
    the free objects. */
module SlabMemory {
  import opened SlabSpec

  /** slab_t. */
  datatype Slab = Slab(next: nat, bufctlCount: nat, bufctlAddr: nat, freelistHead: nat, freelist: nat)

  /** The address of slab i, or NULL. */
  function Addr(slabs: seq<SlabView>, i: nat): (n: nat)
  {
    if i < |slabs| then HeaderOf(slabs[i].page) else 0
  }

  /** The list s is chained from head through the next pointers. */
  ghost predicate FreeChain(next: map<nat, nat>, head: nat, s: seq<nat>)
  {
    && head == At(s, 0)
    && forall k: nat :: k < |s| ==> s[k] != 0 && s[k] in next && next[s[k]] == At(s, k + 1)
  }

  ghost predicate RepSlab(slabAt: map<nat, Slab>, next: map<nat, nat>, slabs: seq<SlabView>, i: nat)
    requires i < |slabs|
  {
    var a := Addr(slabs, i);
    && a in slabAt
    && slabAt[a].next == Addr(slabs, i + 1)
    && slabAt[a].bufctlCount == |slabs[i].free|
    && slabAt[a].bufctlAddr == slabs[i].page
    && FreeChain(next, slabAt[a].freelistHead, slabs[i].free)
  }

  /** The slabs are linked in order from head, each with its counter and its free list. */
  ghost predicate RepList(slabAt: map<nat, Slab>, next: map<nat, nat>, head: nat, slabs: seq<SlabView>)
  {
    && head == Addr(slabs, 0)
    && (forall i: nat :: i < |slabs| ==> RepSlab(slabAt, next, slabs, i))
    && (forall i: nat, j: nat :: i < j < |slabs| ==> slabs[i].page != slabs[j].page)
  }

  lemma PopRep(slabAt: map<nat, Slab>, next: map<nat, nat>, head: nat, pool: Pool, i: nat, slabAt': map<nat, Slab>)
    requires RepList(slabAt, next, head, pool.slabs) && i < |pool.slabs| && pool.slabs[i].free != []
    requires var a := Addr(pool.slabs, i);
             && a in slabAt && slabAt[a].freelistHead in next && slabAt[a].bufctlCount > 0
             && slabAt' == slabAt[a := slabAt[a].(freelistHead := next[slabAt[a].freelistHead], bufctlCount := slabAt[a].bufctlCount - 1)]
    ensures RepList(slabAt', next, head, Pop(pool, i).slabs)
  {
    var q := Pop(pool, i).slabs;
    forall j: nat | j < |q| ensures RepSlab(slabAt', next, q, j) {
      assert RepSlab(slabAt, next, pool.slabs, j);
      if j == i {
        assert forall k: nat :: k < |q[i].free| ==> q[i].free[k] == pool.slabs[i].free[k + 1];
      } else {
        assert Addr(q, j) != Addr(q, i);
      }
    }
  }

  lemma PushRep(slabAt: map<nat, Slab>, next: map<nat, nat>, head: nat, pool: Pool, i: nat, x: nat,
                slabAt': map<nat, Slab>, next': map<nat, nat>)
    requires RepList(slabAt, next, head, pool.slabs) && i < |pool.slabs| && x != 0
    requires forall j: nat, k: nat :: j < |pool.slabs| && k < |pool.slabs[j].free| ==> Entry(pool.slabs, j, k) != x
    requires var a := Addr(pool.slabs, i);
             && a in slabAt && next' == next[x := slabAt[a].freelistHead]
             && slabAt' == slabAt[a := slabAt[a].(freelistHead := x, bufctlCount := slabAt[a].bufctlCount + 1)]
    ensures RepList(slabAt', next', head, Push(pool, i, x).slabs)
  {
    hide FreeChain;
    var q := Push(pool, i, x).slabs;
    forall j: nat | j < |q| ensures RepSlab(slabAt', next', q, j) {
      assert RepSlab(slabAt, next, pool.slabs, j);
      forall k: nat | k < |pool.slabs[j].free| ensures pool.slabs[j].free[k] != x {
        assert Entry(pool.slabs, j, k) != x;
      }
      if j == i {
        PushedChain(next, next', slabAt[Addr(pool.slabs, i)].freelistHead, pool.slabs[i].free, x);
      } else {
        assert Addr(q, j) != Addr(q, i);
        OtherChain(next, next', slabAt[Addr(pool.slabs, j)].freelistHead, pool.slabs[j].free, x);
      }
    }
  }

  lemma PushedChain(next: map<nat, nat>, next': map<nat, nat>, head: nat, free: seq<nat>, x: nat)
    requires FreeChain(next, head, free) && x != 0 && next' == next[x := head]
    requires forall k: nat :: k < |free| ==> free[k] != x
    ensures FreeChain(next', x, [x] + free)
  {
    var list := [x] + free;
    forall k: nat | k < |list| ensures list[k] != 0 && list[k] in next' && next'[list[k]] == At(list, k + 1) {
      if k > 0 { assert list[k] == free[k - 1] && At(list, k + 1) == At(free, k); }
    }
  }

  lemma OtherChain(next: map<nat, nat>, next': map<nat, nat>, head: nat, free: seq<nat>, x: nat)
    requires FreeChain(next, head, free) && x in next' && next' == next[x := next'[x]]
    requires forall k: nat :: k < |free| ==> free[k] != x
    ensures FreeChain(next', head, free)
  {
  }

  /** Linking a header for a new page after the first `keep` slabs; the others are cut off. */
  lemma LinkRep(slabAt: map<nat, Slab>, next: map<nat, nat>, head: nat, slabs: seq<SlabView>, keep: nat, s: SlabView,
                slabAt': map<nat, Slab>, next': map<nat, nat>, head': nat)
    requires RepList(slabAt, next, head, slabs) && keep <= |slabs| && (keep == 0 ==> slabs == [])
    requires forall i: nat :: i < |slabs| ==> slabs[i].page != s.page
    requires var a := HeaderOf(s.page);
             && a in slabAt' && slabAt'[a].next == 0 && slabAt'[a].bufctlCount == |s.free| && slabAt'[a].bufctlAddr == s.page
             && FreeChain(next', slabAt'[a].freelistHead, s.free)
    requires forall i: nat :: i < keep ==>
               var b := Addr(slabs, i);
               && b in slabAt && b in slabAt'
               && slabAt'[b] == if i == keep - 1 then slabAt[b].(next := HeaderOf(s.page)) else slabAt[b]
    requires forall i: nat, k: nat :: i < |slabs| && k < |slabs[i].free|
               ==> Entry(slabs, i, k) in next' && Entry(slabs, i, k) in next && next'[Entry(slabs, i, k)] == next[Entry(slabs, i, k)]
    requires head' == if keep == 0 then HeaderOf(s.page) else head
    ensures RepList(slabAt', next', head', slabs[..keep] + [s])
  {
    var q := slabs[..keep] + [s];
    forall i: nat | i < |q| ensures RepSlab(slabAt', next', q, i) {
      if i < keep {
        assert RepSlab(slabAt, next, slabs, i) && q[i] == slabs[i];
        assert Addr(q, i) == Addr(slabs, i);
        forall k: nat | k < |slabs[i].free| ensures slabs[i].free[k] in next' && next'[slabs[i].free[k]] == next[slabs[i].free[k]] {
          assert Entry(slabs, i, k) in next';
        }
      }
    }
  }

  /** What the cursor reads at slab i. */
  lemma AtSlab(slabAt: map<nat, Slab>, next: map<nat, nat>, head: nat, slabs: seq<SlabView>, i: nat)
    requires RepList(slabAt, next, head, slabs) && i < |slabs|
    ensures var a := Addr(slabs, i);
            && a in slabAt && a != 0 && slabAt[a].next == Addr(slabs, i + 1)
            && slabAt[a].bufctlCount == |slabs[i].free| && slabAt[a].bufctlAddr == slabs[i].page
            && slabAt[a].freelistHead == At(slabs[i].free, 0)
            && (slabs[i].free != [] ==> slabAt[a].freelistHead != 0 && slabAt[a].freelistHead in next)
  {
    assert RepSlab(slabAt, next, slabs, i);
  }

  /** The first slab is cut off; a write to a header outside the rest does not matter. */
  lemma CutHead(slabAt: map<nat, Slab>, next: map<nat, nat>, head: nat, t: seq<SlabView>, p: nat, slabAt': map<nat, Slab>)
    requires RepList(slabAt, next, head, t) && t != []
    requires p in slabAt && (forall i: nat :: 0 < i < |t| ==> Addr(t, i) != p)
    requires slabAt' == slabAt[p := slabAt[p].(next := Addr(t, 1))]
    ensures RepList(slabAt', next, Addr(t, 1), t[1..])
  {
    var r := t[1..];
    forall i: nat | i < |r| ensures RepSlab(slabAt', next, r, i) {
      assert RepSlab(slabAt, next, t, i + 1);
      assert Addr(r, i) == Addr(t, i + 1) && Addr(r, i + 1) == Addr(t, i + 2);
    }
  }

  /** The slab after the first k is unlinked through its predecessor. */
  lemma Unlink(slabAt: map<nat, Slab>, next: map<nat, nat>, head: nat, t: seq<SlabView>, k: nat, slabAt': map<nat, Slab>)
    requires RepList(slabAt, next, head, t) && 0 < k < |t|
    requires Addr(t, k - 1) in slabAt && slabAt' == slabAt[Addr(t, k - 1) := slabAt[Addr(t, k - 1)].(next := Addr(t, k + 1))]
    ensures RepList(slabAt', next, head, t[..k] + t[k + 1..])
  {
    var r := t[..k] + t[k + 1..];
    forall i: nat | i < |r| ensures RepSlab(slabAt', next, r, i) {
      var j := if i < k then i else i + 1;
      assert RepSlab(slabAt, next, t, j);
      assert r[i] == t[j] && (i != k - 1 ==> Addr(r, i + 1) == Addr(t, j + 1));
      assert Addr(r, i) == Addr(t, j);
    }
  }
}
