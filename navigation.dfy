/**
 * The integer arithmetic of the viewer's orchestrator: the protocol id search, wrap-around
 * navigation, tile pages, index clamping and the neighbour lists it prefetches.
 */
module Navigation {
  import opened Rects

  // ------------------------------------------------------------ protocol id

  /** Each colour byte of the id must be at least this, so the id never renders as near black. */
  const MIN_COMPONENT: bv32 := 16
  const MUL: bv32 := 0x9E37_79B1
  const MAX_ATTEMPTS: nat := 10000
  /** The id used when no candidate qualifies; each of its colour bytes is exactly the minimum. */
  const FALLBACK_ID: bv32 := 0x1010_1010

  /** The candidate id derived from `idx`: a wrapping multiply, then a rotation by 8 bits. */
  function Candidate(idx: bv32): bv32 {
    (idx * MUL).RotateLeft(8)
  }

  /** The id's bytes at bits 16-23, 8-15 and 0-7 are each at least `MIN_COMPONENT`. */
  predicate GoodId(id: bv32) {
    (id >> 16) & 0xff >= MIN_COMPONENT && (id >> 8) & 0xff >= MIN_COMPONENT && id & 0xff >= MIN_COMPONENT
  }

  /** The id the search settles on with `attempts` candidates left, starting at `idx`. */
  function SearchFrom(idx: bv32, attempts: nat): bv32
    decreases attempts
  {
    if attempts == 0 then FALLBACK_ID
    else if GoodId(Candidate(idx)) then Candidate(idx)
    else SearchFrom(idx + 1, attempts - 1)
  }

  /** Whatever the starting point, the search yields an id with the minimum bytes, hence a non-zero one. */
  lemma {:induction false} SearchFindsGoodId(idx: bv32, attempts: nat)
    ensures GoodId(SearchFrom(idx, attempts))
    ensures SearchFrom(idx, attempts) != 0
    decreases attempts
  {
    if attempts > 0 && !GoodId(Candidate(idx)) {
      SearchFindsGoodId(idx + 1, attempts - 1);
    }
  }

  /** The search returns the first qualifying candidate: one found at the start is taken. */
  lemma SearchTakesFirst(idx: bv32, attempts: nat)
    requires attempts > 0 && GoodId(Candidate(idx))
    ensures SearchFrom(idx, attempts) == Candidate(idx)
  {
  }

  /**
   * `generate_kgp_id`, starting from the process id: try up to `MAX_ATTEMPTS` consecutive
   * (wrapping) indices and keep the first candidate whose colour bytes all qualify.
   */
  method GenerateKgpId(pid: bv32) returns (id: bv32)
    ensures id == SearchFrom(pid, MAX_ATTEMPTS) && GoodId(id)
  {
    SearchFindsGoodId(pid, MAX_ATTEMPTS);
    var idx := pid;
    var k := 0;
    while k < MAX_ATTEMPTS
      invariant 0 <= k <= MAX_ATTEMPTS
      invariant SearchFrom(idx, MAX_ATTEMPTS - k) == SearchFrom(pid, MAX_ATTEMPTS)
    {
      var candidate := Candidate(idx);
      if GoodId(candidate) {
        return candidate;
      }
      idx := idx + 1;
      k := k + 1;
    }
    id := FALLBACK_ID;
  }

  // ------------------------------------------------------------ wrap-around arithmetic

  /** Adding a multiple of `n` does not change the remainder. */
  lemma ModShift(y: int, q: int, n: int)
    requires 0 < n
    ensures (q * n + y) % n == y % n
  {
    assert q * n + y == (q + y / n) * n + y % n;
    DivModUnique(q * n + y, n, q + y / n, y % n);
  }

  /** Reducing before adding gives the same remainder as adding first. */
  lemma ModAddLeft(x: int, b: int, n: int)
    requires 0 < n
    ensures (x % n + b) % n == (x + b) % n
  {
    ModShift(x % n + b, x / n, n);
  }

  /** `move_by`'s index: `index + delta` wrapped into `[0, len)` by the Euclidean remainder. */
  function MoveBy(index: nat, delta: int, len: nat): (r: nat)
    requires 0 < len
    ensures r < len
  {
    (index + delta) % len
  }

  /** Moves compose: moving by `a` and then by `b` is moving by `a + b`. */
  lemma MoveByCompose(index: nat, a: int, b: int, len: nat)
    requires 0 < len
    ensures MoveBy(MoveBy(index, a, len), b, len) == MoveBy(index, a + b, len)
  {
    ModAddLeft(index + a, b, len);
  }

  /** Moving back undoes a move, from any index in range. */
  lemma MoveByInverse(index: nat, delta: int, len: nat)
    requires index < len
    ensures MoveBy(MoveBy(index, delta, len), -delta, len) == index
  {
    MoveByCompose(index, delta, -delta, len);
    DivModUnique(index, len, 0, index);
  }

  /** The list wraps: forward from the last index is the first, back from the first is the last. */
  lemma MoveByWraps(len: nat)
    requires 0 < len
    ensures MoveBy(len - 1, 1, len) == 0 && MoveBy(0, -1, len) == len - 1
  {
    DivModUnique(len, len, 1, 0);
    DivModUnique(-1, len, -1, len - 1);
  }

  /** A move that stays inside the list is plain addition. */
  lemma MoveByInside(index: nat, delta: int, len: nat)
    requires 0 <= index + delta < len
    ensures MoveBy(index, delta, len) == index + delta
  {
    DivModUnique(index + delta, len, 0, index + delta);
  }

  /** `i32::saturating_mul`. */
  function SatMulI32(a: int, b: int): int {
    if a * b > 0x7FFF_FFFF then 0x7FFF_FFFF else if a * b < -0x8000_0000 then -0x8000_0000 else a * b
  }

  // ------------------------------------------------------------ tile pages

  /** The page an index is on, `tiles_per_page` indices to a page. */
  function PageOf(index: nat, tiles_per_page: nat): nat
    requires 0 < tiles_per_page
  {
    index / tiles_per_page
  }

  /** The last page of a list of `len` indices. */
  function MaxPage(len: nat, tiles_per_page: nat): nat
    requires 0 < len && 0 < tiles_per_page
  {
    (len - 1) / tiles_per_page
  }

  function ClampInt(x: int, lo: int, hi: int): int
    requires lo <= hi
  {
    if x < lo then lo else if x > hi then hi else x
  }

  /** The page `move_tile_page` moves to: `delta` pages on, clamped to the existing pages. */
  function TargetPage(cursor: nat, delta: int, len: nat, tiles_per_page: nat): (p: nat)
    requires 0 < len && 0 < tiles_per_page
    ensures p <= MaxPage(len, tiles_per_page)
  {
    ClampInt(PageOf(cursor, tiles_per_page) + delta, 0, MaxPage(len, tiles_per_page))
  }

  /**
   * The first index of any existing page is in the list and starts that page: a page move
   * always lands the cursor on a real image, at the top-left tile.
   */
  lemma PageStartInList(page: nat, len: nat, tiles_per_page: nat)
    requires 0 < len && 0 < tiles_per_page && page <= MaxPage(len, tiles_per_page)
    ensures page * tiles_per_page < len
    ensures PageOf(page * tiles_per_page, tiles_per_page) == page && (page * tiles_per_page) % tiles_per_page == 0
  {
    MulMonotone(page, MaxPage(len, tiles_per_page), tiles_per_page);
    DivModUnique(page * tiles_per_page, tiles_per_page, page, 0);
  }

  /** Page moves compose within the existing pages and stop at the ends. */
  lemma TargetPageBounds(cursor: nat, delta: int, len: nat, tiles_per_page: nat)
    requires 0 < len && 0 < tiles_per_page
    ensures delta >= 0 ==> TargetPage(cursor, delta, len, tiles_per_page) >= PageOf(cursor, tiles_per_page) ||
                           TargetPage(cursor, delta, len, tiles_per_page) == MaxPage(len, tiles_per_page)
    ensures PageOf(cursor, tiles_per_page) + delta <= 0 ==> TargetPage(cursor, delta, len, tiles_per_page) == 0
    ensures PageOf(cursor, tiles_per_page) + delta >= MaxPage(len, tiles_per_page) ==>
      TargetPage(cursor, delta, len, tiles_per_page) == MaxPage(len, tiles_per_page)
  {
  }

  /** `index.min(len.saturating_sub(1))`: the index, or the last one if it is past the end. */
  function ClampIndex(index: nat, len: nat): (r: nat)
    ensures len > 0 ==> r < len
    ensures index < len ==> r == index
    ensures len > 0 && index >= len ==> r == len - 1
  {
    var last := if len >= 1 then len - 1 else 0;
    if index < last then index else last
  }

  // ------------------------------------------------------------ prefetch lists

  /** usize arithmetic wraps modulo 2^64 in a build without overflow checks. */
  const USIZE_MODULUS: int := 0x1_0000_0000_0000_0000

  /**
   * The neighbour indices `prefetch_adjacent_single` lists, AS WRITTEN: for each `i` in
   * `1..=count`, the index `i` ahead and the index computed as `(current + len - i) % len`
   * in usize arithmetic, which wraps below zero once `i > current + len` (a build with
   * overflow checks stops there instead).
   */
  function PrefetchIndicesAsWritten(current: nat, len: nat, count: nat): (r: seq<nat>)
    requires 0 < len
    ensures |r| == 2 * count
  {
    if count == 0 then []
    else PrefetchIndicesAsWritten(current, len, count - 1) +
         [(current + count) % len, ((current + len - count) % USIZE_MODULUS) % len]
  }

  /** The neighbour indices, as intended: `i` ahead and `i` behind, both wrapping around the list. */
  function PrefetchIndices(current: nat, len: nat, count: nat): (r: seq<nat>)
    requires 0 < len
    ensures |r| == 2 * count
  {
    if count == 0 then []
    else PrefetchIndices(current, len, count - 1) + [MoveBy(current, count, len), MoveBy(current, -(count as int), len)]
  }

  /** The intended list alternates next and previous neighbours at growing distance, all in the list. */
  lemma {:induction false} PrefetchIndicesAlternate(current: nat, len: nat, count: nat)
    requires 0 < len
    ensures forall j :: 0 <= j < |PrefetchIndices(current, len, count)| ==> PrefetchIndices(current, len, count)[j] < len
    ensures forall i :: 1 <= i <= count ==>
      PrefetchIndices(current, len, count)[2 * i - 2] == MoveBy(current, i, len) &&
      PrefetchIndices(current, len, count)[2 * i - 1] == MoveBy(current, -i, len)
  {
    if count > 0 {
      PrefetchIndicesAlternate(current, len, count - 1);
      var prev := PrefetchIndices(current, len, count - 1);
      assert PrefetchIndices(current, len, count) == prev + [MoveBy(current, count, len), MoveBy(current, -(count as int), len)];
    }
  }

  /** `x` is the index `i` steps ahead of `current` or `i` steps behind it, around a list of `len`. */
  predicate Neighbour(x: nat, current: nat, len: nat, i: nat)
    requires 0 < len
  {
    x == MoveBy(current, i, len) || x == MoveBy(current, -(i as int), len)
  }

  /** Every listed index is a neighbour at most `count` steps ahead or behind. */
  lemma {:induction false} PrefetchIndicesNeighbours(current: nat, len: nat, count: nat)
    requires 0 < len
    ensures forall x | x in PrefetchIndices(current, len, count) ::
      x < len && exists i :: 1 <= i <= count && Neighbour(x, current, len, i)
  {
    if count > 0 {
      PrefetchIndicesNeighbours(current, len, count - 1);
      assert Neighbour(MoveBy(current, count, len), current, len, count);
      assert Neighbour(MoveBy(current, -(count as int), len), current, len, count);
    }
  }

  /** Every neighbour at most `count` steps ahead or behind is listed. */
  lemma PrefetchIndicesComplete(current: nat, len: nat, count: nat)
    requires 0 < len
    ensures forall x: nat, i: nat | 1 <= i <= count && Neighbour(x, current, len, i) :: x in PrefetchIndices(current, len, count)
  {
    PrefetchIndicesAlternate(current, len, count);
    forall x: nat, i: nat | 1 <= i <= count && Neighbour(x, current, len, i)
      ensures x in PrefetchIndices(current, len, count)
    {
      assert PrefetchIndices(current, len, count)[2 * i - 2] == MoveBy(current, i, len);
      assert PrefetchIndices(current, len, count)[2 * i - 1] == MoveBy(current, -(i as int), len);
    }
  }

  /** While no subtraction wraps, the code as written lists exactly the intended indices. */
  lemma {:induction false} PrefetchAsWrittenAgrees(current: nat, len: nat, count: nat)
    requires current < len && current + len < USIZE_MODULUS && count <= current + len
    ensures PrefetchIndicesAsWritten(current, len, count) == PrefetchIndices(current, len, count)
  {
    if count > 0 {
      PrefetchAsWrittenAgrees(current, len, count - 1);
      BehindNoWrap(current, len, count);
    }
  }

  /** A longer list starts with the shorter one, in both definitions. */
  lemma {:induction false} PrefetchIndicesGrow(current: nat, len: nat, k: nat, n: nat)
    requires 0 < len && k <= n
    ensures forall y | y in PrefetchIndices(current, len, k) :: y in PrefetchIndices(current, len, n)
    ensures forall y | y in PrefetchIndicesAsWritten(current, len, k) :: y in PrefetchIndicesAsWritten(current, len, n)
    decreases n
  {
    if k < n {
      PrefetchIndicesGrow(current, len, k, n - 1);
    }
  }

  /** Walking `len` steps ahead visits every index of the list, the current one last. */
  lemma PrefetchIndicesCover(current: nat, len: nat)
    requires current < len
    ensures forall x | 0 <= x < len :: x in PrefetchIndices(current, len, len)
  {
    PrefetchIndicesAlternate(current, len, len);
    forall x | 0 <= x < len
      ensures x in PrefetchIndices(current, len, len)
    {
      var i := if x > current then x - current else x - current + len;
      DivModUnique(current + i, len, if x > current then 0 else 1, x);
      assert PrefetchIndices(current, len, len)[2 * i - 2] == x;
    }
  }

  /** One step behind, without wrap-around, agrees between the two definitions. */
  lemma BehindNoWrap(current: nat, len: nat, i: nat)
    requires current < len && current + len < USIZE_MODULUS && i <= current + len
    ensures ((current + len - i) % USIZE_MODULUS) % len == MoveBy(current, -(i as int), len)
  {
    var d := current + len - i;
    DivModUnique(d, USIZE_MODULUS, 0, d);
    ModShift(current - i, 1, len);
  }

  /**
   * Three images, the first one shown, and the default prefetch count of 5: the fourth
   * step behind wraps in usize arithmetic and lists the current image instead of the last one.
   */
  lemma PrefetchUnderflowExample()
    ensures PrefetchIndices(0, 3, 5)[7] == 2
    ensures PrefetchIndicesAsWritten(0, 3, 5)[7] == 0
  {
    PrefetchIndicesAlternate(0, 3, 5);
    DivModUnique(-4, 3, -2, 2);
    DivModUnique(USIZE_MODULUS - 1, 3, (USIZE_MODULUS - 1) / 3, 0);
    assert PrefetchIndicesAsWritten(0, 3, 5)[7] == ((0 + 3 - 4) % USIZE_MODULUS) % 3;
    DivModUnique(-1, USIZE_MODULUS, -1, USIZE_MODULUS - 1);
  }

  /**
   * The pages `prefetch_adjacent_tile` lists: for each `i` in `1..=count`, the page `i`
   * ahead when it exists and the page `i` behind when it exists (no wrap-around).
   */
  function PrefetchPages(current: nat, total: nat, count: nat): seq<nat> {
    if count == 0 then []
    else PrefetchPages(current, total, count - 1) +
         (if current + count < total then [current + count] else []) +
         (if current >= count then [current - count] else [])
  }

  /** Every listed page exists, none is the current page, and each lies within `count` pages of it. */
  lemma {:induction false} PrefetchPagesInRange(current: nat, total: nat, count: nat)
    ensures forall p :: p in PrefetchPages(current, total, count) ==>
      p < total || p < current
    ensures forall p :: p in PrefetchPages(current, total, count) ==>
      p != current && (p <= current + count && current <= p + count)
    ensures current < total ==> forall p :: p in PrefetchPages(current, total, count) ==> p < total
  {
    if count > 0 {
      PrefetchPagesInRange(current, total, count - 1);
    }
  }
}
