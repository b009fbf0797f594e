/** The page allocator as a function on bit sequences: what one call does, and what holds over
    every run of calls. */
module PmmSpec {

  const PAGE_SIZE: nat := 4096

  /** bits[p] is true when page p is used; `pages` is PAGE_TO_BIT(highest_page_top). */
  datatype State = State(bits: seq<bool>, pages: nat, used: nat)

  ghost function FreePages(s: State): (free: set<nat>)
    ensures forall p: nat :: p in free <==> p < s.pages && p < |s.bits| && !s.bits[p]
  {
    set p: nat | p < s.pages && p < |s.bits| && !s.bits[p]
  }

  /** The allocator's invariant: the bitmap covers every page, page 0 is reserved, and the used
      counter is large enough that the zero test of pmm_alloc never fires. */
  ghost predicate Wf(s: State)
  {
    && 0 < s.pages <= |s.bits|
    && s.bits[0]
    && s.used + |FreePages(s)| > s.pages
  }

  function Mark(bits: seq<bool>, index: nat, n: nat, v: bool): (r: seq<bool>)
    ensures |r| == |bits|
  {
    seq(|bits|, j requires 0 <= j < |bits| => if index <= j < index + n then v else bits[j])
  }

  /** The inner loop of the scan at bit b, as written: the i-th of n tests reads bit
      b + PAGE_TO_BIT(i), that is b + i / 4096. */
  predicate ScanHit(bits: seq<bool>, b: nat, n: nat)
  {
    n > 0 && b + (n - 1) / PAGE_SIZE < |bits| && forall j :: b <= j <= b + (n - 1) / PAGE_SIZE ==> !bits[j]
  }

  /** The first bit from `from` on at which the scan succeeds, or s.pages. */
  function FirstHit(bits: seq<bool>, pages: nat, n: nat, from: nat): (r: nat)
    decreases pages - from
  {
    if from >= pages then pages
    else if ScanHit(bits, from, n) then from
    else FirstHit(bits, pages, n, from + 1)
  }

  lemma {:induction false} FirstHitIsLeast(bits: seq<bool>, pages: nat, n: nat, from: nat)
    requires from <= pages
    ensures var r := FirstHit(bits, pages, n, from);
            && from <= r <= pages
            && (r < pages ==> ScanHit(bits, r, n))
            && (forall b :: from <= b < r ==> !ScanHit(bits, b, n))
    decreases pages - from
  {
    if from < pages && !ScanHit(bits, from, n) { FirstHitIsLeast(bits, pages, n, from + 1); }
  }

  /** One more test of the inner loop. */
  lemma ScanStep(bits: seq<bool>, b: nat, i: nat, n: nat)
    requires i < n && (i > 0 ==> ScanHit(bits, b, i)) && b + i / PAGE_SIZE < |bits|
    ensures !bits[b + i / PAGE_SIZE] ==> ScanHit(bits, b, i + 1)
    ensures bits[b + i / PAGE_SIZE] ==> !ScanHit(bits, b, n)
  {
    var k := i / PAGE_SIZE;
    assert k <= (n - 1) / PAGE_SIZE;
    if !bits[b + k] && i > 0 {
      var k' := (i - 1) / PAGE_SIZE;
      assert k' <= k <= k' + 1;
    }
  }

  /** pmm_alloc: the new state, and the returned address (0 is NULL). */
  function Alloc(s: State, n: nat): (r: (State, nat))
  {
    if s.used == 0 then (s, 0)
    else
      var b := FirstHit(s.bits, s.pages, n, 0);
      if b >= s.pages || b == 0 then (s, 0)
      else (State(Mark(s.bits, b, n, true), s.pages, s.used + n), b * PAGE_SIZE)
  }

  /** pmm_free; the counter is a size_t, so callers must not free more than is used. */
  function Free(s: State, index: nat, n: nat): (r: State)
    requires n <= s.used
  {
    State(Mark(s.bits, index, n, false), s.pages, s.used - n)
  }

  // ---------------------------------------------------------------- one page

  ghost predicate IsLeast(m: nat, free: set<nat>)
  {
    m in free && forall p :: p in free ==> m <= p
  }

  ghost predicate ClaimedPage(s: State, t: State, ptr: nat)
    requires s.pages <= |s.bits|
  {
    var p := ptr / PAGE_SIZE;
    && ptr == p * PAGE_SIZE && p > 0
    && IsLeast(p, FreePages(s))
    && t.bits == s.bits[p := true]
    && FreePages(t) == FreePages(s) - {p}
  }

  /** A one-page request takes the least free page and nothing else, and fails only when no page
      is free. */
  lemma AllocOnePage(s: State)
    requires Wf(s)
    ensures var (t, ptr) := Alloc(s, 1);
            && Wf(t) && t.pages == s.pages && |t.bits| == |s.bits|
            && (ptr == 0 <==> FreePages(s) == {})
            && (ptr == 0 ==> t == s)
            && (ptr != 0 ==> ClaimedPage(s, t, ptr))
            && t.used + |FreePages(t)| == s.used + |FreePages(s)|
  {
    FreeCountBound(s);
    var b := FirstHit(s.bits, s.pages, 1, 0);
    FirstIsLeastFree(s);
    if b < s.pages {
      MarkOne(s, b);
    }
  }

  lemma FirstIsLeastFree(s: State)
    requires Wf(s)
    ensures var b := FirstHit(s.bits, s.pages, 1, 0);
            && b > 0
            && (b < s.pages ==> IsLeast(b, FreePages(s)))
            && (b >= s.pages ==> FreePages(s) == {})
  {
    FirstHitIsLeast(s.bits, s.pages, 1, 0);
    forall p: nat | p < s.pages ensures ScanHit(s.bits, p, 1) == !s.bits[p] { }
  }

  lemma MarkOne(s: State, p: nat)
    requires p in FreePages(s) && p > 0
    ensures Mark(s.bits, p, 1, true) == s.bits[p := true]
    ensures FreePages(State(Mark(s.bits, p, 1, true), s.pages, s.used + 1)) == FreePages(s) - {p}
  {
  }

  lemma FreeCountBound(s: State)
    ensures |FreePages(s)| <= s.pages
  {
    RangeSize(0, s.pages);
    SubsetSize(FreePages(s), Range(0, s.pages));
  }

  function Range(lo: nat, n: nat): (r: set<nat>)
    ensures forall p: nat :: p in r <==> lo <= p < lo + n
  {
    if n == 0 then {} else Range(lo, n - 1) + {lo + n - 1}
  }

  lemma {:induction false} RangeSize(lo: nat, n: nat)
    ensures |Range(lo, n)| == n
  {
    if n > 0 {
      RangeSize(lo, n - 1);
    }
  }

  lemma {:induction false} SubsetSize<T>(a: set<T>, b: set<T>)
    requires a <= b
    ensures |a| <= |b|
    decreases |a|
  {
    if a != {} {
      var x :| x in a;
      SubsetSize(a - {x}, b - {x});
    }
  }

  // ---------------------------------------------------------------- many pages, as written

  /** The bit that the j-th of the inner tests reads from bit b on. */
  function TestedBit(b: nat, j: nat): (p: nat)
  {
    b + j / 4096
  }

  /** All n tests from bit b on find a free page. */
  predicate Passes(bits: seq<bool>, b: nat, n: nat)
  {
    forall j: nat :: j < n ==> TestedBit(b, j) < |bits| && !bits[TestedBit(b, j)]
  }

  lemma HitIsPass(bits: seq<bool>, b: nat, n: nat)
    ensures ScanHit(bits, b, n) <==> n > 0 && Passes(bits, b, n)
  {
    hide Passes;
    if n > 0 && Passes(bits, b, n) {
      var last := (n - 1) / 4096;
      FirstTestOf(b, last, n - 1);
      PassAt(bits, b, n, 4096 * last);
      forall q | b <= q <= b + (n - 1) / PAGE_SIZE ensures q < |bits| && !bits[q] {
        FirstTestOf(b, q - b, n - 1);
        PassAt(bits, b, n, 4096 * (q - b));
      }
    }
    if ScanHit(bits, b, n) {
      forall j: nat | j < n ensures TestedBit(b, j) < |bits| && !bits[TestedBit(b, j)] {
        LastTestOf(b, j, n - 1);
        HitAt(bits, b, n, TestedBit(b, j));
      }
      PassesAll(bits, b, n);
    }
  }

  lemma PassesAll(bits: seq<bool>, b: nat, n: nat)
    requires forall j: nat :: j < n ==> TestedBit(b, j) < |bits| && !bits[TestedBit(b, j)]
    ensures Passes(bits, b, n)
  {
    hide TestedBit;
  }

  lemma HitAt(bits: seq<bool>, b: nat, n: nat, q: nat)
    requires ScanHit(bits, b, n) && b <= q <= b + (n - 1) / PAGE_SIZE
    ensures q < |bits| && !bits[q]
  {
  }

  lemma PassAt(bits: seq<bool>, b: nat, n: nat, j: nat)
    requires Passes(bits, b, n) && j < n
    ensures TestedBit(b, j) < |bits| && !bits[TestedBit(b, j)]
  {
    hide TestedBit;
  }

  lemma FirstTestOf(b: nat, k: nat, m: nat)
    requires k <= m / 4096
    ensures 4096 * k <= m && TestedBit(b, 4096 * k) == b + k
  {
  }

  lemma LastTestOf(b: nat, j: nat, m: nat)
    requires j <= m
    ensures b <= TestedBit(b, j) <= b + m / 4096
  {
  }

  /** What a request for n pages does: nothing, when the counter is zero or no bit passes all tests, or bit 0 does
      (its address is NULL); otherwise the pages from the first such bit on are used and counted,
      whether they were free or not. */
  lemma AllocClaims(s: State, n: nat)
    ensures var (t, ptr) := Alloc(s, n);
            if ptr == 0 then t == s && (s.used == 0 || n == 0 || Passes(s.bits, 0, n) || forall c: nat :: c < s.pages ==> !Passes(s.bits, c, n))
            else
              var b := ptr / 4096;
              && ptr == 4096 * b && 0 < b < s.pages && n > 0 && s.used > 0
              && Passes(s.bits, b, n) && (forall c: nat :: c < b ==> !Passes(s.bits, c, n))
              && t.pages == s.pages && t.used == s.used + n && |t.bits| == |s.bits|
              && (forall p: nat :: p < |s.bits| ==> t.bits[p] == (s.bits[p] || b <= p < b + n))
  {
    FirstHitIsLeast(s.bits, s.pages, n, 0);
    hide ScanHit, Passes, FirstHit;
    forall c: nat ensures ScanHit(s.bits, c, n) <==> n > 0 && Passes(s.bits, c, n) { HitIsPass(s.bits, c, n); }
  }

  /** Every successful n-page request claims only pages that were free, whatever the bitmap. */
  ghost predicate AlwaysClaimsFreePages(n: nat)
  {
    forall bits: seq<bool>, pages: nat | pages + n <= |bits| + 1 ::
      var b := FirstHit(bits, pages, n, 0);
      b < pages ==> forall p :: b <= p < b + n ==> p < |bits| && !bits[p]
  }

  /** The scan of pmm.c is sound exactly for requests of at most one page: its inner loop divides
      the page offset by the page size, so only every 4096th page of the range has its own test. */
  lemma ScanSoundIffSinglePage(n: nat)
    ensures AlwaysClaimsFreePages(n) <==> n <= 1
  {
    if n <= 1 {
      forall bits: seq<bool>, pages: nat | pages + n <= |bits| + 1
        ensures var b := FirstHit(bits, pages, n, 0);
                b < pages ==> forall p :: b <= p < b + n ==> p < |bits| && !bits[p]
      {
        FirstHitIsLeast(bits, pages, n, 0);
      }
    } else {
      var k := (n - 1) / PAGE_SIZE + 1;
      var bits := [true] + seq(k, _ => false) + seq(n, _ => true);
      assert pagesFit: 2 + n <= |bits| + 1;
      FirstHitIsLeast(bits, 2, n, 0);
      assert !ScanHit(bits, 0, n) by { assert bits[0]; }
      assert ScanHit(bits, 1, n);
      assert FirstHit(bits, 2, n, 0) == 1;
      assert bits[k + 1] && 1 <= k + 1 < 1 + n;
    }
  }

  // ---------------------------------------------------------------- runs

  datatype Op = Claim | Release(index: nat, n: nat)

  /** Pages claimed and not yet released after a run that starts in s. */
  ghost function Owned(s: State, ops: seq<Op>): (found: set<nat>)
    decreases |ops|, 1
  {
    if ops == [] then {}
    else
      var before := ops[..|ops| - 1];
      match ops[|ops| - 1]
      case Claim =>
        var ptr := Alloc(Exec(s, before), 1).1;
        if ptr == 0 then Owned(s, before) else Owned(s, before) + {ptr / PAGE_SIZE}
      case Release(i, n) => Owned(s, before) - Range(i, n)
  }

  /** The state after a run. A release of pages that the caller does not own is not a call the
      allocator supports; it leaves the model's state unchanged and is ruled out by ValidRun. */
  ghost function Exec(s: State, ops: seq<Op>): (r: State)
    decreases |ops|, 0
  {
    if ops == [] then s
    else
      var t := Exec(s, ops[..|ops| - 1]);
      match ops[|ops| - 1]
      case Claim => Alloc(t, 1).0
      case Release(i, n) => if n <= t.used then Free(t, i, n) else t
  }

  /** Callers release only pages they own. */
  ghost predicate ValidRun(s: State, ops: seq<Op>)
    decreases |ops|
  {
    ops == [] ||
    (var before := ops[..|ops| - 1];
     && ValidRun(s, before)
     && (ops[|ops| - 1].Release? ==> Range(ops[|ops| - 1].index, ops[|ops| - 1].n) <= Owned(s, before)))
  }

  /** What relates the state t of a run to its start s and the owned pages. */
  ghost predicate RunInv(s: State, t: State, owned: set<nat>)
  {
    && Wf(t) && t.pages == s.pages && |t.bits| == |s.bits|
    && owned <= FreePages(s)
    && FreePages(t) == FreePages(s) - owned
    && (forall p: nat :: p < |s.bits| ==> t.bits[p] == (s.bits[p] || p in owned))
    && t.used + |FreePages(t)| == s.used + |FreePages(s)|
  }

  /** Safety of every run: the invariant holds, a used bit is either an initially used page or an
      owned one (never both), and used_pages_count plus the number of free pages never changes. */
  lemma {:induction false} RunSafety(s: State, ops: seq<Op>)
    requires Wf(s) && ValidRun(s, ops)
    ensures RunInv(s, Exec(s, ops), Owned(s, ops))
    decreases |ops|
  {
    if ops != [] {
      var before := ops[..|ops| - 1];
      RunSafety(s, before);
      match ops[|ops| - 1]
      case Claim => ClaimStep(s, Exec(s, before), Owned(s, before));
      case Release(i, n) => ReleaseOwned(s, Exec(s, before), Owned(s, before), i, n);
    }
  }

  lemma ClaimStep(s: State, t: State, owned: set<nat>)
    requires RunInv(s, t, owned)
    ensures var (u, ptr) := Alloc(t, 1);
            RunInv(s, u, if ptr == 0 then owned else owned + {ptr / PAGE_SIZE})
  {
    AllocOnePage(t);
    var (u, ptr) := Alloc(t, 1);
    if ptr != 0 {
      assert ptr / PAGE_SIZE in FreePages(t);
    }
  }

  lemma ReleaseOwned(s: State, t: State, owned: set<nat>, i: nat, n: nat)
    requires RunInv(s, t, owned) && Range(i, n) <= owned
    requires Wf(s)
    ensures n <= t.used && RunInv(s, Free(t, i, n), owned - Range(i, n))
  {
    if n > 0 {
      assert i in Range(i, n) && i + n - 1 in Range(i, n);
    }
    ReleaseStep(t, i, n);
    var u, left := Free(t, i, n), owned - Range(i, n);
    assert FreePages(u) == FreePages(s) - left by {
      SetDifference(FreePages(s), owned, Range(i, n));
    }
    forall p: nat | p < |s.bits| ensures u.bits[p] == (s.bits[p] || p in left) {
      assert i <= p < i + n <==> p in Range(i, n);
    }
  }

  /** Releasing n used pages below the top makes exactly these free and keeps the balance. */
  lemma ReleaseStep(t: State, i: nat, n: nat)
    requires Wf(t)
    requires n > 0 ==> 0 < i && i + n <= t.pages
    requires Range(i, n) !! FreePages(t)
    ensures n <= t.used
    ensures var u := Free(t, i, n);
            && Wf(u)
            && FreePages(u) == FreePages(t) + Range(i, n)
            && u.used + |FreePages(u)| == t.used + |FreePages(t)|
  {
    var all := FreePages(t) + Range(i, n);
    assert |all| == |FreePages(t)| + n by { RangeSize(i, n); }
    assert |all| <= t.pages by {
      RangeSize(0, t.pages);
      SubsetSize(all, Range(0, t.pages));
    }
    FreeMany(t, i, n);
  }

  lemma SetDifference<T>(a: set<T>, b: set<T>, c: set<T>)
    requires c <= b <= a
    ensures a - b + c == a - (b - c)
  {
  }

  lemma FreeMany(t: State, i: nat, n: nat)
    requires (n > 0 ==> i + n <= t.pages) && t.pages <= |t.bits| && n <= t.used
    ensures FreePages(Free(t, i, n)) == FreePages(t) + Range(i, n)
  {
  }

  /** No page is handed out while somebody owns it: in every state of every run, a successful
      claim returns a page outside the owned set. */
  lemma ClaimIsFresh(s: State, ops: seq<Op>)
    requires Wf(s) && ValidRun(s, ops)
    ensures var (t, ptr) := Alloc(Exec(s, ops), 1);
            ptr != 0 ==> ptr / PAGE_SIZE !in Owned(s, ops) && ptr / PAGE_SIZE in FreePages(s)
  {
    RunSafety(s, ops);
    AllocOnePage(Exec(s, ops));
  }

  /** A run that has released everything it claimed restores every bit and the counter. */
  lemma ReleasedRunRestores(s: State, ops: seq<Op>)
    requires Wf(s) && ValidRun(s, ops) && Owned(s, ops) == {}
    ensures Exec(s, ops) == s
  {
    RunSafety(s, ops);
    assert Exec(s, ops).bits == s.bits;
    assert FreePages(Exec(s, ops)) == FreePages(s);
  }
}
