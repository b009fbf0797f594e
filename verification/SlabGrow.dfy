/** What slab_cache_grow really does to a cache that already has slabs. */
module SlabGrow {
  import opened PmmSpec
  import opened SlabSpec

  /** Growth keeps the first `keep` slabs, puts `count` slabs on fresh pages after them, and lowers
      the maximum of the whole cache once per slab that drops an object. */
  lemma {:induction false} GrownSlabs(pool: Pool, keep: nat, pmm: State, count: nat, flags: Flags, pages: set<nat>)
    requires Wf(pmm) && keep <= |pool.slabs| && count > 0 && GrowLoop(pool, keep, pmm, count, flags).2
    requires forall g :: g in pages ==> TakenPage(pmm, g)
    ensures var q := GrowLoop(pool, keep, pmm, count, flags).0;
            && |q.slabs| == keep + count && q.slabs[..keep] == pool.slabs[..keep]
            && (forall i :: keep <= i < |q.slabs| ==> q.slabs[i].page !in pages)
            && q.max == if !flags.noAlign then pool.max else if count <= pool.max then pool.max - count else 0
    decreases count
  {
    hide Objects, FirstHit;
    AllocOnePage(pmm);
    var (pmm1, page) := PmmSpec.Alloc(pmm, 1);
    FreshPage(pmm, pmm1, page, pages);
    var added := AddSlab(pool, keep, page, flags);
    assert added.slabs[..keep] == pool.slabs[..keep];
    if count > 1 {
      hide Wf, TakenPage;
      GrownSlabs(added, keep + 1, pmm1, count - 1, flags, pages);
      var q := GrowLoop(added, keep + 1, pmm1, count - 1, flags).0;
      assert q.slabs[..keep] == q.slabs[..keep + 1][..keep] == added.slabs[..keep + 1][..keep];
      assert q.slabs[keep] == q.slabs[..keep + 1][keep] == added.slabs[keep];
    }
  }

  /** The cursor starts at the head, so a successful growth keeps every slab linked if and only if
      the cache had at most one. */
  lemma GrowKeepsAllIff(pool: Pool, pmm: State, live: set<nat>, pages: set<nat>, count: nat, flags: Flags)
    requires PoolInv(pool, pmm, live, pages) && count > 0 && Grow(pool, pmm, count, flags).2
    ensures var q := Grow(pool, pmm, count, flags).0;
            (forall i :: 0 <= i < |pool.slabs| ==> pool.slabs[i] in q.slabs) <==> |pool.slabs| <= 1
  {
    var keep := if pool.slabs == [] then 0 else 1;
    GrownSlabs(pool, keep, pmm, count, flags, pages);
    hide GrowLoop;
    var q := Grow(pool, pmm, count, flags).0;
    if |pool.slabs| <= 1 {
      assert pool.slabs[..keep] == pool.slabs;
      forall i | 0 <= i < |pool.slabs| ensures pool.slabs[i] in q.slabs { assert q.slabs[i] == q.slabs[..keep][i]; }
    } else {
      assert q.slabs[0] == q.slabs[..1][0] == pool.slabs[0];
      assert pool.slabs[0].page != pool.slabs[1].page && pool.slabs[1].page in pages;
      assert pool.slabs[1] !in q.slabs;
    }
  }
}
