/** The page allocator with the scan repaired: `all_bits_i + page_count_i` is tested, and the whole
    range lies below the top. For one page this is the scan as written. */
module PmmRanges {
  import opened PmmSpec

  predicate RangeFree(bits: seq<bool>, pages: nat, b: nat, n: nat)
  {
    n > 0 && b + n <= pages && forall j :: b <= j < b + n ==> j < |bits| && !bits[j]
  }

  function FirstRange(bits: seq<bool>, pages: nat, n: nat, from: nat): (v: nat)
    decreases pages - from
  {
    if from >= pages then pages
    else if RangeFree(bits, pages, from, n) then from
    else FirstRange(bits, pages, n, from + 1)
  }

  lemma {:induction false} FirstRangeIsLeast(bits: seq<bool>, pages: nat, n: nat, from: nat)
    requires from <= pages
    ensures var r := FirstRange(bits, pages, n, from);
            && from <= r <= pages
            && (r < pages ==> RangeFree(bits, pages, r, n))
            && (forall b :: from <= b < r ==> !RangeFree(bits, pages, b, n))
    decreases pages - from
  {
    if from < pages && !RangeFree(bits, pages, from, n) { FirstRangeIsLeast(bits, pages, n, from + 1); }
  }

  function AllocRange(s: State, n: nat): (r: (State, nat))
  {
    if s.used == 0 then (s, 0)
    else
      var b := FirstRange(s.bits, s.pages, n, 0);
      if b >= s.pages || b == 0 then (s, 0)
      else (State(Mark(s.bits, b, n, true), s.pages, s.used + n), b * PAGE_SIZE)
  }

  /** ptr is the base of n pages that were free in s and are used in t, which differs in nothing else. */
  ghost predicate ClaimedRange(s: State, t: State, ptr: nat, n: nat)
  {
    var b := ptr / PAGE_SIZE;
    && ptr == b * PAGE_SIZE && b > 0 && n > 0
    && Range(b, n) <= FreePages(s)
    && t.pages == s.pages && |t.bits| == |s.bits|
    && (forall p: nat :: p < |s.bits| ==> t.bits[p] == (s.bits[p] || p in Range(b, n)))
    && FreePages(t) == FreePages(s) - Range(b, n)
  }

  /** A request takes the least range of n free pages and nothing else, and fails only when there is
      no such range. */
  lemma AllocRangeClaims(s: State, n: nat)
    requires Wf(s)
    ensures var (t, ptr) := AllocRange(s, n);
            && Wf(t)
            && (ptr == 0 ==> t == s && forall b :: 0 <= b < s.pages ==> !RangeFree(s.bits, s.pages, b, n))
            && (ptr != 0 ==> ClaimedRange(s, t, ptr, n) && forall b :: 0 <= b < ptr / PAGE_SIZE ==> !RangeFree(s.bits, s.pages, b, n))
            && t.used + |FreePages(t)| == s.used + |FreePages(s)|
  {
    FirstRangeIsLeast(s.bits, s.pages, n, 0);
    FreeCountBound(s);
    var b := FirstRange(s.bits, s.pages, n, 0);
    assert !RangeFree(s.bits, s.pages, 0, n) by { if n > 0 { assert s.bits[0]; } }
    if b < s.pages {
      MarkedRange(s, b, n);
    }
  }

  /** Claiming a range of free pages. */
  lemma MarkedRange(s: State, b: nat, n: nat)
    requires Wf(s) && 0 < b && 0 < n && Range(b, n) <= FreePages(s)
    ensures var t := State(Mark(s.bits, b, n, true), s.pages, s.used + n);
            Wf(t) && ClaimedRange(s, t, b * PAGE_SIZE, n) && t.used + |FreePages(t)| == s.used + |FreePages(s)|
  {
    var t := State(Mark(s.bits, b, n, true), s.pages, s.used + n);
    var r := Range(b, n);
    MarkedFree(s, b, n);
    hide Range, Mark, FreePages;
    RangeSize(b, n);
    SizeOfDifference(FreePages(s), r);
    assert b * PAGE_SIZE / PAGE_SIZE == b;
  }

  lemma MarkedFree(s: State, b: nat, n: nat)
    requires s.pages <= |s.bits|
    ensures var t := State(Mark(s.bits, b, n, true), s.pages, s.used + n);
            && FreePages(t) == FreePages(s) - Range(b, n)
            && (forall p: nat :: p < |s.bits| ==> t.bits[p] == (s.bits[p] || p in Range(b, n)))
  {
    hide Range;
  }

  lemma SizeOfDifference<T>(a: set<T>, b: set<T>)
    requires b <= a
    ensures |a - b| == |a| - |b|
  {
    assert a - b + b == a;
  }

  /** For one page the repaired scan is the scan as written. */
  lemma {:induction false} SinglePageAgrees(s: State)
    requires s.pages <= |s.bits|
    ensures AllocRange(s, 1) == PmmSpec.Alloc(s, 1)
  {
    FirstAgrees(s, 0);
  }

  lemma {:induction false} FirstAgrees(s: State, from: nat)
    requires from <= s.pages <= |s.bits|
    ensures FirstRange(s.bits, s.pages, 1, from) == FirstHit(s.bits, s.pages, 1, from)
    decreases s.pages - from
  {
    if from < s.pages {
      assert RangeFree(s.bits, s.pages, from, 1) == !s.bits[from] == ScanHit(s.bits, from, 1);
      FirstAgrees(s, from + 1);
    }
  }

  // ---------------------------------------------------------------- runs

  datatype RangeOp = ClaimRange(count: nat) | ReleaseRange(index: nat, n: nat)

  /** Pages claimed and not yet released. */
  ghost function OwnedAfter(s: State, ops: seq<RangeOp>): (found: set<nat>)
    decreases |ops|, 1
  {
    if ops == [] then {}
    else
      var before := ops[..|ops| - 1];
      match ops[|ops| - 1]
      case ClaimRange(n) =>
        var ptr := AllocRange(StateAfter(s, before), n).1;
        if ptr == 0 then OwnedAfter(s, before) else OwnedAfter(s, before) + Range(ptr / PAGE_SIZE, n)
      case ReleaseRange(i, n) => OwnedAfter(s, before) - Range(i, n)
  }

  ghost function StateAfter(s: State, ops: seq<RangeOp>): (r: State)
    decreases |ops|, 0
  {
    if ops == [] then s
    else
      var t := StateAfter(s, ops[..|ops| - 1]);
      match ops[|ops| - 1]
      case ClaimRange(n) => AllocRange(t, n).0
      case ReleaseRange(i, n) => if n <= t.used then Free(t, i, n) else t
  }

  ghost predicate ValidRangeRun(s: State, ops: seq<RangeOp>)
    decreases |ops|
  {
    ops == [] ||
    (var before := ops[..|ops| - 1];
     && ValidRangeRun(s, before)
     && (ops[|ops| - 1].ReleaseRange? ==> Range(ops[|ops| - 1].index, ops[|ops| - 1].n) <= OwnedAfter(s, before)))
  }

  /** Every run of range requests keeps the allocator's invariant and its balance, and a bit is set
      exactly when it was set at the start or its page is owned. */
  lemma {:induction false} RangeRunSafety(s: State, ops: seq<RangeOp>)
    requires Wf(s) && ValidRangeRun(s, ops)
    ensures RunInv(s, StateAfter(s, ops), OwnedAfter(s, ops))
    decreases |ops|
  {
    if ops != [] {
      var before := ops[..|ops| - 1];
      RangeRunSafety(s, before);
      match ops[|ops| - 1]
      case ClaimRange(n) => ClaimRangeStep(s, StateAfter(s, before), OwnedAfter(s, before), n);
      case ReleaseRange(i, n) => ReleaseOwned(s, StateAfter(s, before), OwnedAfter(s, before), i, n);
    }
  }

  lemma ClaimRangeStep(s: State, t: State, owned: set<nat>, n: nat)
    requires RunInv(s, t, owned)
    ensures var (u, ptr) := AllocRange(t, n);
            RunInv(s, u, if ptr == 0 then owned else owned + Range(ptr / PAGE_SIZE, n))
  {
    hide AllocRange, Range, Wf, FreePages;
    AllocRangeClaims(t, n);
    var (u, ptr) := AllocRange(t, n);
    if ptr != 0 {
      var r := Range(ptr / PAGE_SIZE, n);
      DifferenceTwice(FreePages(s), owned, r);
      forall p: nat | p < |s.bits| ensures u.bits[p] == (s.bits[p] || p in owned + r) {
        assert t.bits[p] == (s.bits[p] || p in owned);
      }
    }
  }

  lemma DifferenceTwice<T>(a: set<T>, b: set<T>, c: set<T>)
    requires b <= a && c <= a - b
    ensures a - b - c == a - (b + c) && b + c <= a
  {
  }

  /** A run that has released everything restores every bit and the counter. */
  lemma ReleasedRangesRestore(s: State, ops: seq<RangeOp>)
    requires Wf(s) && ValidRangeRun(s, ops) && OwnedAfter(s, ops) == {}
    ensures StateAfter(s, ops) == s
  {
    RangeRunSafety(s, ops);
    assert StateAfter(s, ops).bits == s.bits;
    assert FreePages(StateAfter(s, ops)) == FreePages(s);
  }
}
