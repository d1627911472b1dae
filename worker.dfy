/**
 * The image worker: its thumbnail cache, the "keep only the latest request" rule, the
 * integer geometry of the tile grid, and the points where work is abandoned for a newer
 * request. Decoding, resizing and pixel copying belong to an image library and are
 * represented by their results.
 */
module Worker {
  import opened Bytes
  import opened Seqs
  import opened Rects
  import opened Fit
  import opened Lru

  // ------------------------------------------------------------ thumbnail cache

  /** A thumbnail is cached under its path and the inner tile size it was made for. */
  type ThumbnailKey = (string, nat, nat)

  /** A scaled thumbnail; only its size matters to the layout (its pixels are not modelled). */
  datatype Thumb = Thumb(width: nat, height: nat)

  /** The worker's thumbnail cache, updated in place. */
  class ThumbnailCache {
    var cache: map<ThumbnailKey, Thumb>
    var order: seq<ThumbnailKey>
    var capacity: nat

    ghost predicate Valid()
      reads this
    {
      LruValid(cache, order, capacity)
    }

    constructor (capacity: nat)
      ensures Valid() && cache == map[] && order == [] && this.capacity == capacity
    {
      cache, order := map[], [];
      this.capacity := capacity;
    }

    /** A hit returns the stored thumbnail and makes its key the most recent; a miss changes nothing. */
    method Get(key: ThumbnailKey) returns (r: Option<Thumb>)
      requires Valid()
      modifies this
      ensures Valid() && cache == old(cache) && capacity == old(capacity)
      ensures key in old(cache) ==> r == Some(old(cache)[key]) && order == Touch(old(order), key)
      ensures key !in old(cache) ==> r.None? && order == old(order)
    {
      if key in cache {
        TouchValid(cache, order, capacity, key);
        // A hit becomes the newest entry of the recency order.
        order := Without(order, key);
        order := order + [key];
        r := Some(cache[key]);
      } else {
        r := None;
      }
    }

    method Insert(key: ThumbnailKey, img: Thumb)
      requires Valid()
      modifies this
      ensures Valid() && capacity == old(capacity)
      ensures (cache, order) == Inserted(old(cache), old(order), capacity, key, img)
    {
      InsertedValid(cache, order, capacity, key, img);
      if key in cache {
        order := Without(order, key);
      } else if |cache| >= capacity {
        // Full: the front of the recency order makes room.
        if order != [] {
          var oldest := order[0];
          order := order[1..];
          cache := cache - {oldest};
        }
      }
      order := order + [key];
      cache := cache[key := img];
    }
  }

  // ------------------------------------------------------------ requests

  /**
   * A render request: the file, the pixel box to fit it in, the modes, the protocol id,
   * and for tile mode the paths shown, the grid and the terminal cell size in pixels.
   */
  datatype ImageRequest = ImageRequest(path: string, target: (u32, u32), fit_mode: FitMode, kgp_id: u32,
                                       is_tmux: bool, view_mode: ViewMode, tile_paths: Option<seq<string>>,
                                       tile_grid: Option<(nat, nat)>, cell_size: Option<(u16, u16)>)

  /** What a finished request reports back (the encoded chunks are described elsewhere). */
  datatype ImageResult = ImageResult(path: string, target: (u32, u32), fit_mode: FitMode,
                                     original_size: (u32, u32), actual_size: (u32, u32))

  /** The request that survives draining: the last one queued, or `current` if none was. */
  function Latest(current: ImageRequest, queued: seq<ImageRequest>): ImageRequest {
    if queued == [] then current else queued[|queued| - 1]
  }

  /** `drain_to_latest`: take every queued request, keeping only the last. */
  method DrainToLatest(queued: seq<ImageRequest>, current: ImageRequest) returns (latest: ImageRequest)
    ensures latest == Latest(current, queued)
  {
    latest := current;
    var i := 0;
    while i < |queued|
      invariant 0 <= i <= |queued|
      invariant latest == Latest(current, queued[..i])
    {
      latest := queued[i];
      i := i + 1;
    }
    assert queued[..|queued|] == queued;
  }

  /**
   * Draining forgets everything before the last request: whatever came earlier, and
   * whichever request was current, the same request survives.
   */
  lemma LatestForgetsEarlier(c1: ImageRequest, c2: ImageRequest, earlier: seq<ImageRequest>, later: seq<ImageRequest>)
    requires later != []
    ensures Latest(c1, earlier + later) == Latest(c2, later) == later[|later| - 1]
  {
  }

  /**
   * The request the worker loop works on next: a pending (abandoned-for) request, or the
   * first one received, drained to the latest.
   */
  method NextRequest(pending: Option<ImageRequest>, queued: seq<ImageRequest>) returns (req: ImageRequest)
    requires pending.Some? || queued != []
    ensures queued != [] ==> req == queued[|queued| - 1]
    ensures queued == [] ==> req == pending.value
  {
    var rest := queued;
    if pending.Some? {
      req := pending.value;
    } else {
      req := queued[0];
      rest := queued[1..];
    }
    req := DrainToLatest(rest, req);
  }

  // ------------------------------------------------------------ single-image requests

  /** The size of a decoded original (its pixels are not modelled). */
  datatype Decoded = Decoded(width: u32, height: u32)

  /**
   * `compute_target`: in `Normal` mode an original that fits the box keeps its size; every
   * other case scales by a floating-point factor, whose result is given as `scaled`.
   */
  function ComputeTarget(orig: (u32, u32), max: (u32, u32), fit_mode: FitMode, scaled: (u32, u32)): (r: (u32, u32))
    ensures fit_mode == Normal && orig.0 <= max.0 && orig.1 <= max.1 ==> r == orig
    ensures fit_mode == Fit || orig.0 > max.0 || orig.1 > max.1 ==> r == scaled
  {
    match fit_mode
    case Normal => if orig.0 > max.0 || orig.1 > max.1 then scaled else orig
    case Fit => scaled
  }

  /** How a request ends: a result is sent, the work is dropped for a newer request, or nothing happens. */
  datatype Outcome = Sent(result: ImageResult) | Abandoned(pending: ImageRequest) | NoResult

  /**
   * `process_single_request`. The decoded original comes from the one-entry cache when it
   * holds the same path, and otherwise from `from_disk` (what decoding the file gives);
   * `after_decode` and `after_resize` are the requests queued when the worker looks for
   * newer work after decoding and after resizing; `resized_size` is the resize's result.
   */
  method ProcessSingle(req: ImageRequest, cache: Option<(string, Decoded)>, from_disk: Option<Decoded>,
                       after_decode: seq<ImageRequest>, after_resize: seq<ImageRequest>, resized_size: (u32, u32))
    returns (outcome: Outcome, cache': Option<(string, Decoded)>)
    ensures cache.Some? && cache.value.0 == req.path ==> cache' == cache
    ensures !(cache.Some? && cache.value.0 == req.path) ==>
      if from_disk.Some? then cache' == Some((req.path, from_disk.value)) else cache' == cache && outcome.NoResult?
    ensures cache'.Some? && cache'.value.0 == req.path ==>
      if after_decode != [] then outcome == Abandoned(after_decode[|after_decode| - 1])
      else if after_resize != [] then outcome == Abandoned(after_resize[|after_resize| - 1])
      else outcome == Sent(ImageResult(req.path, req.target, req.fit_mode,
                                       (cache'.value.1.width, cache'.value.1.height), resized_size))
  {
    cache' := cache;
    var decoded: Decoded;
    if cache.Some? && cache.value.0 == req.path {
      decoded := cache.value.1;
    } else {
      if from_disk.None? {
        return NoResult, cache';
      }
      decoded := from_disk.value;
      cache' := Some((req.path, decoded));
    }
    // A request queued while decoding supersedes this one.
    if after_decode != [] {
      var newer := DrainToLatest(after_decode[1..], after_decode[0]);
      return Abandoned(newer), cache';
    }
    // Check again after resizing.
    if after_resize != [] {
      var newer := DrainToLatest(after_resize[1..], after_resize[0]);
      return Abandoned(newer), cache';
    }
    outcome := Sent(ImageResult(req.path, req.target, req.fit_mode, (decoded.width, decoded.height), resized_size));
  }

  // ------------------------------------------------------------ tile compositing

  /** `saturating_sub`. */
  function SatSub(a: nat, b: nat): (r: nat)
    ensures r <= a
    ensures b <= a ==> r + b == a
    ensures a <= b ==> r == 0
  {
    if a >= b then a - b else 0
  }

  /** The terminal cell size in pixels; 8 x 16 when the terminal did not report one. */
  function CellPixels(cell_size: Option<(u16, u16)>): (nat, nat) {
    if cell_size.Some? then (cell_size.value.0, cell_size.value.1) else (8, 16)
  }

  /**
   * The layout a composite is computed from: the grid, the canvas in pixels and the cell size
   * in pixels. Tile boundaries fall on whole cells, and each thumbnail keeps one cell of
   * padding on every side (room for the cursor border).
   */
  datatype Geometry = Geometry(cols: nat, rows: nat, canvas_w: nat, canvas_h: nat, cell_w: nat, cell_h: nat)
  {
    predicate Ok() {
      0 < cell_w && 0 < cell_h
    }

    /** The canvas width in whole cells. */
    function WCells(): nat
      requires Ok()
    {
      canvas_w / cell_w
    }

    function HCells(): nat
      requires Ok()
    {
      canvas_h / cell_h
    }

    /** How many paths are laid out: at most one page of the grid. */
    function Count(paths: seq<string>): nat {
      if |paths| < cols * rows then |paths| else cols * rows
    }
  }

  /** A grid position: its index and path, its tile's pixel box, and the inner box left by the padding. */
  datatype TileSlot = TileSlot(index: nat, path: string, tile_x: nat, tile_y: nat, tile_w: nat, tile_h: nat,
                               inner_w: nat, inner_h: nat)

  /** A length in cells, in pixels. */
  function Pixels(cells: nat, cell: nat): nat {
    MulNonneg(cells, cell);
    cells * cell
  }

  lemma PixelsSub(a: nat, b: nat, cell: nat)
    requires b <= a
    ensures Pixels(a - b, cell) == Pixels(a, cell) - Pixels(b, cell)
  {
    assert (a - b) * cell == a * cell - b * cell;
  }

  /**
   * Tile `i` of `n` along an extent of `cells` whole cells, in pixels: its start and its
   * length. It starts at the `i`-th cell boundary and ends at the next one.
   */
  function Band(i: nat, n: nat, cells: nat, cell: nat): (r: (nat, nat))
    requires i < n
    ensures r.0 == Pixels(TileEdge(i, n, cells), cell)
    ensures r.0 + r.1 == Pixels(TileEdge(i + 1, n, cells), cell) <= Pixels(cells, cell)
  {
    TileEdgeMonotone(i, i + 1, n, cells);
    var x0, x1 := TileEdge(i, n, cells), TileEdge(i + 1, n, cells);
    assert x0 * cell + (x1 - x0) * cell == x1 * cell;
    MulMonotone(x1, cells, cell);
    (Pixels(x0, cell), Pixels(x1 - x0, cell))
  }

  /** Tile `i` of the grid, row-major: column `i % cols`, row `i / cols`. */
  function SlotOf(g: Geometry, path: string, i: nat): TileSlot
    requires g.Ok() && i < g.cols * g.rows
  {
    var cell := GridCell(i, g.cols, g.rows);
    var horiz := Band(cell.0, g.cols, g.WCells(), g.cell_w);
    var vert := Band(cell.1, g.rows, g.HCells(), g.cell_h);
    TileSlot(i, path, horiz.0, vert.0, horiz.1, vert.1, SatSub(horiz.1, g.cell_w * 2), SatSub(vert.1, g.cell_h * 2))
  }

  /** A tile whose inner box has no width or height gets no thumbnail. */
  predicate Shown(s: TileSlot) {
    s.inner_w > 0 && s.inner_h > 0
  }

  /** The shown tiles among the first `k` paths, in order. */
  function SlotsUpTo(g: Geometry, paths: seq<string>, k: nat): seq<TileSlot>
    requires g.Ok() && k <= |paths| && k <= g.cols * g.rows
  {
    if k == 0 then []
    else
      var s := SlotOf(g, paths[k - 1], k - 1);
      SlotsUpTo(g, paths, k - 1) + (if Shown(s) then [s] else [])
  }

  /** The tiles a composite shows: one per path of the page, skipping those with an empty inner box. */
  function Layout(g: Geometry, paths: seq<string>): seq<TileSlot>
    requires g.Ok()
  {
    SlotsUpTo(g, paths, g.Count(paths))
  }

  /**
   * The laid-out tiles are exactly the shown tiles of the first `k` grid positions, each
   * with its own path, in increasing index order.
   */
  lemma {:induction false} SlotsUpToExact(g: Geometry, paths: seq<string>, k: nat)
    requires g.Ok() && k <= |paths| && k <= g.cols * g.rows
    ensures forall j :: 0 <= j < |SlotsUpTo(g, paths, k)| ==>
      var s := SlotsUpTo(g, paths, k)[j];
      s.index < k && Shown(s) && s == SlotOf(g, paths[s.index], s.index)
    ensures forall i, j :: 0 <= i < j < |SlotsUpTo(g, paths, k)| ==>
      SlotsUpTo(g, paths, k)[i].index < SlotsUpTo(g, paths, k)[j].index
    ensures forall i :: 0 <= i < k ==> (SlotOf(g, paths[i], i) in SlotsUpTo(g, paths, k) <==> Shown(SlotOf(g, paths[i], i)))
  {
    if k > 0 {
      SlotsUpToExact(g, paths, k - 1);
      var prev := SlotsUpTo(g, paths, k - 1);
      var s := SlotOf(g, paths[k - 1], k - 1);
      var r := SlotsUpTo(g, paths, k);
      assert r == prev + (if Shown(s) then [s] else []);
      forall i | 0 <= i < k
        ensures SlotOf(g, paths[i], i) in r <==> Shown(SlotOf(g, paths[i], i))
      {
        if i < k - 1 {
          // A slot records its index, so it cannot be the newly added one.
          assert SlotOf(g, paths[i], i).index == i != s.index;
        }
      }
    }
  }

  /** The pixel box of a tile lies inside the canvas, and a shown tile's inner box is its box less the padding. */
  predicate InCanvas(g: Geometry, s: TileSlot) {
    s.tile_x + s.tile_w <= g.canvas_w && s.tile_y + s.tile_h <= g.canvas_h &&
    (Shown(s) ==> s.inner_w + 2 * g.cell_w == s.tile_w && s.inner_h + 2 * g.cell_h == s.tile_h)
  }

  /** The whole cells of an extent take no more pixels than the extent. */
  lemma WholeCells(extent: nat, cell: nat)
    requires 0 < cell
    ensures Pixels(extent / cell, cell) <= extent
  {
  }

  /** Every tile of the grid lies on the canvas. */
  lemma SlotInCanvas(g: Geometry, path: string, i: nat)
    requires g.Ok() && i < g.cols * g.rows
    ensures InCanvas(g, SlotOf(g, path, i))
  {
    WholeCells(g.canvas_w, g.cell_w);
    WholeCells(g.canvas_h, g.cell_h);
  }

  /** Every laid-out tile is shown and lies on the canvas. */
  lemma LayoutInCanvas(g: Geometry, paths: seq<string>)
    requires g.Ok()
    ensures forall s :: s in Layout(g, paths) ==> Shown(s) && InCanvas(g, s)
  {
    SlotsUpToExact(g, paths, g.Count(paths));
    forall s | s in Layout(g, paths) ensures Shown(s) && InCanvas(g, s) {
      SlotInCanvas(g, paths[s.index], s.index);
    }
  }

  /**
   * The tiles of a row partition the canvas width in cells, and the tiles of a column its
   * height: the first starts at 0, each next one starts where the previous one ends, and
   * the last ends at the canvas's last whole cell.
   */
  lemma TilesPartitionCanvas(g: Geometry, p: string, q: string, i: nat)
    requires g.Ok() && i < g.cols * g.rows
    ensures i % g.cols == 0 ==> SlotOf(g, p, i).tile_x == 0
    ensures i / g.cols == 0 ==> SlotOf(g, p, i).tile_y == 0
    ensures i % g.cols == g.cols - 1 ==> SlotOf(g, p, i).tile_x + SlotOf(g, p, i).tile_w == Pixels(g.WCells(), g.cell_w)
    ensures i / g.cols == g.rows - 1 ==> SlotOf(g, p, i).tile_y + SlotOf(g, p, i).tile_h == Pixels(g.HCells(), g.cell_h)
    ensures i % g.cols < g.cols - 1 ==>
      i + 1 < g.cols * g.rows && SlotOf(g, q, i + 1).tile_x == SlotOf(g, p, i).tile_x + SlotOf(g, p, i).tile_w &&
      SlotOf(g, q, i + 1).tile_y == SlotOf(g, p, i).tile_y
    ensures i + g.cols < g.cols * g.rows ==>
      SlotOf(g, q, i + g.cols).tile_y == SlotOf(g, p, i).tile_y + SlotOf(g, p, i).tile_h &&
      SlotOf(g, q, i + g.cols).tile_x == SlotOf(g, p, i).tile_x
  {
    GridNonEmpty(i, g.cols, g.rows);
    if i % g.cols < g.cols - 1 {
      NextInRow(i, g.cols, g.rows);
    }
    if i + g.cols < g.cols * g.rows {
      NextInColumn(i, g.cols, g.rows);
    }
  }

  /** Where a thumbnail lands on the canvas. */
  datatype Placement = Placement(x: nat, y: nat, thumb: Thumb)

  /** A thumbnail sits inside the padding, centred in the space it leaves of the inner box. */
  function PlaceOf(g: Geometry, s: TileSlot, t: Thumb): Placement {
    Placement(s.tile_x + g.cell_w + SatSub(s.inner_w, t.width) / 2,
              s.tile_y + g.cell_h + SatSub(s.inner_h, t.height) / 2, t)
  }

  /** The cache key of a tile: its path and its inner size. */
  function Key(s: TileSlot): ThumbnailKey {
    (s.path, s.inner_w, s.inner_h)
  }

  /** A thumbnail no larger than the inner box it was made for. */
  predicate FitsKey(k: ThumbnailKey, t: Thumb) {
    t.width <= k.1 && t.height <= k.2
  }

  /** Every stored thumbnail fits the inner box of its key. */
  ghost predicate AllFit(m: map<ThumbnailKey, Thumb>) {
    forall k :: k in m ==> FitsKey(k, m[k])
  }

  /** A placement that lies entirely on the canvas. */
  predicate OnCanvas(g: Geometry, p: Placement) {
    p.x + p.thumb.width <= g.canvas_w && p.y + p.thumb.height <= g.canvas_h
  }

  /**
   * A thumbnail that fits its tile's inner box lands inside that box, with the leftover
   * space split evenly (the far margin exceeds the near one by at most one pixel); on a
   * tile inside the canvas it therefore lies on the canvas.
   */
  lemma PlaceCentred(g: Geometry, s: TileSlot, t: Thumb)
    requires Shown(s) && InCanvas(g, s) && FitsKey(Key(s), t)
    ensures var p := PlaceOf(g, s, t);
      var left := p.x - (s.tile_x + g.cell_w);
      var right := (s.tile_x + g.cell_w + s.inner_w) - (p.x + t.width);
      s.tile_x + g.cell_w <= p.x && p.x + t.width <= s.tile_x + g.cell_w + s.inner_w &&
      left <= right <= left + 1
    ensures var p := PlaceOf(g, s, t);
      var top := p.y - (s.tile_y + g.cell_h);
      var bottom := (s.tile_y + g.cell_h + s.inner_h) - (p.y + t.height);
      s.tile_y + g.cell_h <= p.y && p.y + t.height <= s.tile_y + g.cell_h + s.inner_h &&
      top <= bottom <= top + 1
    ensures OnCanvas(g, PlaceOf(g, s, t))
  {
  }

  /** The placements of the tiles found in the cache, in layout order. */
  function Hits(g: Geometry, slots: seq<TileSlot>, cache: map<ThumbnailKey, Thumb>): seq<Placement> {
    if slots == [] then []
    else
      var s := slots[|slots| - 1];
      Hits(g, slots[..|slots| - 1], cache) + (if Key(s) in cache then [PlaceOf(g, s, cache[Key(s)])] else [])
  }

  /** The tiles not found in the cache, in layout order. */
  function Misses(slots: seq<TileSlot>, cache: map<ThumbnailKey, Thumb>): seq<TileSlot> {
    if slots == [] then []
    else
      var s := slots[|slots| - 1];
      Misses(slots[..|slots| - 1], cache) + (if Key(s) in cache then [] else [s])
  }

  /** The recency list after looking up every tile in turn. */
  function TouchAll(order: seq<ThumbnailKey>, slots: seq<TileSlot>, cache: map<ThumbnailKey, Thumb>): seq<ThumbnailKey> {
    if slots == [] then order
    else
      var s := slots[|slots| - 1];
      var o := TouchAll(order, slots[..|slots| - 1], cache);
      if Key(s) in cache then Touch(o, Key(s)) else o
  }

  /** Every tile is a hit or a miss: misses are tiles whose key the cache lacks, and every hit is placed. */
  lemma {:induction false} HitsAndMisses(g: Geometry, slots: seq<TileSlot>, cache: map<ThumbnailKey, Thumb>)
    ensures |Hits(g, slots, cache)| + |Misses(slots, cache)| == |slots|
    ensures forall m :: m in Misses(slots, cache) ==> m in slots && Key(m) !in cache
    ensures (forall s :: s in slots ==> Shown(s) && InCanvas(g, s)) && AllFit(cache) ==>
      forall p :: p in Hits(g, slots, cache) ==> OnCanvas(g, p)
  {
    if slots != [] {
      var init, s := slots[..|slots| - 1], slots[|slots| - 1];
      assert forall x :: x in init ==> x in slots;
      HitsAndMisses(g, init, cache);
      if (forall x :: x in slots ==> Shown(x) && InCanvas(g, x)) && AllFit(cache) && Key(s) in cache {
        PlaceCentred(g, s, cache[Key(s)]);
      }
    }
  }

  /** Looking up every tile keeps the cache valid. */
  lemma {:induction false} TouchAllValid(cache: map<ThumbnailKey, Thumb>, order: seq<ThumbnailKey>, capacity: nat,
                                         slots: seq<TileSlot>)
    requires LruValid(cache, order, capacity)
    ensures LruValid(cache, TouchAll(order, slots, cache), capacity)
  {
    if slots != [] {
      var s := slots[|slots| - 1];
      TouchAllValid(cache, order, capacity, slots[..|slots| - 1]);
      if Key(s) in cache {
        TouchValid(cache, TouchAll(order, slots[..|slots| - 1], cache), capacity, Key(s));
      }
    }
  }

  /**
   * The thumbnails made for the missed tiles, in order: `resized` holds what decoding a
   * path and scaling it into an inner box gives, and lacks the keys whose file fails to decode.
   */
  function Made(misses: seq<TileSlot>, resized: map<ThumbnailKey, Thumb>): seq<(TileSlot, Thumb)> {
    if misses == [] then []
    else
      var s := misses[|misses| - 1];
      Made(misses[..|misses| - 1], resized) + (if Key(s) in resized then [(s, resized[Key(s)])] else [])
  }

  /** The placements of the newly made thumbnails. */
  function NewPlacements(g: Geometry, made: seq<(TileSlot, Thumb)>): seq<Placement> {
    if made == [] then [] else NewPlacements(g, made[..|made| - 1]) + [PlaceOf(g, made[|made| - 1].0, made[|made| - 1].1)]
  }

  /** The cache after inserting every made thumbnail in turn. */
  function InsertAll(cache: map<ThumbnailKey, Thumb>, order: seq<ThumbnailKey>, capacity: nat,
                     made: seq<(TileSlot, Thumb)>): (map<ThumbnailKey, Thumb>, seq<ThumbnailKey>)
  {
    if made == [] then (cache, order)
    else
      var r := InsertAll(cache, order, capacity, made[..|made| - 1]);
      Inserted(r.0, r.1, capacity, Key(made[|made| - 1].0), made[|made| - 1].1)
  }

  /** Every made thumbnail belongs to a missed tile whose file decoded, and is what resizing gave. */
  lemma {:induction false} MadeFromMisses(misses: seq<TileSlot>, resized: map<ThumbnailKey, Thumb>)
    ensures forall e :: e in Made(misses, resized) ==> e.0 in misses && Key(e.0) in resized && e.1 == resized[Key(e.0)]
    ensures forall s :: s in misses && Key(s) in resized ==> (s, resized[Key(s)]) in Made(misses, resized)
  {
    if misses != [] {
      var init := misses[..|misses| - 1];
      assert forall x :: x in init ==> x in misses;
      assert forall x :: x in misses ==> x in init || x == misses[|misses| - 1];
      MadeFromMisses(init, resized);
    }
  }

  /** Placements of thumbnails that fit their tiles lie on the canvas. */
  lemma {:induction false} NewPlacementsOnCanvas(g: Geometry, made: seq<(TileSlot, Thumb)>)
    requires forall e :: e in made ==> Shown(e.0) && InCanvas(g, e.0) && FitsKey(Key(e.0), e.1)
    ensures |NewPlacements(g, made)| == |made|
    ensures forall p :: p in NewPlacements(g, made) ==> OnCanvas(g, p)
  {
    if made != [] {
      var e := made[|made| - 1];
      assert e in made;
      assert forall x :: x in made[..|made| - 1] ==> x in made;
      NewPlacementsOnCanvas(g, made[..|made| - 1]);
      PlaceCentred(g, e.0, e.1);
    }
  }

  /** Inserting the made thumbnails keeps the cache valid. */
  lemma {:induction false} InsertAllValid(cache: map<ThumbnailKey, Thumb>, order: seq<ThumbnailKey>, capacity: nat,
                                          made: seq<(TileSlot, Thumb)>)
    requires LruValid(cache, order, capacity)
    ensures LruValid(InsertAll(cache, order, capacity, made).0, InsertAll(cache, order, capacity, made).1, capacity)
  {
    if made != [] {
      var e := made[|made| - 1];
      InsertAllValid(cache, order, capacity, made[..|made| - 1]);
      var r := InsertAll(cache, order, capacity, made[..|made| - 1]);
      InsertedValid(r.0, r.1, capacity, Key(e.0), e.1);
    }
  }

  /** Inserting a thumbnail that fits its key keeps every stored thumbnail within its key's inner box. */
  lemma InsertedFits(cache: map<ThumbnailKey, Thumb>, order: seq<ThumbnailKey>, capacity: nat,
                     key: ThumbnailKey, img: Thumb)
    requires AllFit(cache) && FitsKey(key, img)
    ensures AllFit(Inserted(cache, order, capacity, key, img).0)
  {
    var c := Inserted(cache, order, capacity, key, img).0;
    assert forall k :: k in c ==> k == key || (k in cache && c[k] == cache[k]);
  }

  /** The thumbnails stay within their keys' inner boxes when the inserted ones do. */
  lemma {:induction false} InsertAllFits(cache: map<ThumbnailKey, Thumb>, order: seq<ThumbnailKey>, capacity: nat,
                                         made: seq<(TileSlot, Thumb)>)
    requires AllFit(cache) && forall e :: e in made ==> FitsKey(Key(e.0), e.1)
    ensures AllFit(InsertAll(cache, order, capacity, made).0)
  {
    if made != [] {
      var e := made[|made| - 1];
      assert e in made;
      assert forall x :: x in made[..|made| - 1] ==> x in made;
      InsertAllFits(cache, order, capacity, made[..|made| - 1]);
      var r := InsertAll(cache, order, capacity, made[..|made| - 1]);
      InsertedFits(r.0, r.1, capacity, Key(e.0), e.1);
    }
  }

  /** The placements copied onto the canvas: those lying entirely on it, in order. */
  function Copied(g: Geometry, ps: seq<Placement>): seq<Placement> {
    if ps == [] then []
    else Copied(g, ps[..|ps| - 1]) + (if OnCanvas(g, ps[|ps| - 1]) then [ps[|ps| - 1]] else [])
  }

  /** Only placements lying on the canvas are copied. */
  lemma {:induction false} CopiedOnCanvas(g: Geometry, ps: seq<Placement>)
    ensures forall p :: p in Copied(g, ps) ==> p in ps && OnCanvas(g, p)
  {
    if ps != [] {
      var init := ps[..|ps| - 1];
      assert forall x :: x in init ==> x in ps;
      CopiedOnCanvas(g, init);
    }
  }

  /** Placements that all lie on the canvas are all copied, in order. */
  lemma {:induction false} CopiedAll(g: Geometry, ps: seq<Placement>)
    requires forall p :: p in ps ==> OnCanvas(g, p)
    ensures Copied(g, ps) == ps
  {
    if ps != [] {
      var init := ps[..|ps| - 1];
      assert forall x :: x in init ==> x in ps;
      assert ps[|ps| - 1] in ps;
      CopiedAll(g, init);
      assert init + [ps[|ps| - 1]] == ps;
    }
  }

  /**
   * The copy guard never drops a thumbnail while every cached and every newly made
   * thumbnail fits the inner box it was made for: each lands inside its tile, hence on the canvas.
   */
  lemma AllThumbnailsCopied(g: Geometry, paths: seq<string>, cache: map<ThumbnailKey, Thumb>,
                            resized: map<ThumbnailKey, Thumb>)
    requires g.Ok() && AllFit(cache) && AllFit(resized)
    ensures var slots := Layout(g, paths);
      var ps := Hits(g, slots, cache) + NewPlacements(g, Made(Misses(slots, cache), resized));
      Copied(g, ps) == ps
  {
    var slots := Layout(g, paths);
    var made := Made(Misses(slots, cache), resized);
    LayoutInCanvas(g, paths);
    HitsAndMisses(g, slots, cache);
    MadeFromMisses(Misses(slots, cache), resized);
    NewPlacementsOnCanvas(g, made);
    CopiedAll(g, Hits(g, slots, cache) + NewPlacements(g, made));
  }

  /**
   * The layout loop of `composite_tile_images`: walk the first page of paths, skip tiles
   * with an empty inner box, and look each tile up in the thumbnail cache; hits are placed
   * at once, misses are collected for decoding.
   */
  method LayoutTiles(cache: ThumbnailCache, g: Geometry, paths: seq<string>) returns (hits: seq<Placement>, misses: seq<TileSlot>)
    requires cache.Valid() && g.Ok()
    modifies cache
    ensures cache.Valid() && cache.cache == old(cache.cache) && cache.capacity == old(cache.capacity)
    ensures cache.order == TouchAll(old(cache.order), Layout(g, paths), old(cache.cache))
    ensures hits == Hits(g, Layout(g, paths), old(cache.cache))
    ensures misses == Misses(Layout(g, paths), old(cache.cache))
  {
    var n := g.Count(paths);
    ghost var c0, o0 := cache.cache, cache.order;
    hits, misses := [], [];
    var i := 0;
    while i < n
      invariant 0 <= i <= n
      invariant cache.Valid() && cache.cache == c0 && cache.capacity == old(cache.capacity)
      invariant cache.order == TouchAll(o0, SlotsUpTo(g, paths, i), c0)
      invariant hits == Hits(g, SlotsUpTo(g, paths, i), c0)
      invariant misses == Misses(SlotsUpTo(g, paths, i), c0)
    {
      var s := SlotOf(g, paths[i], i);
      ghost var prev := SlotsUpTo(g, paths, i);
      if Shown(s) {
        assert SlotsUpTo(g, paths, i + 1) == prev + [s];
        LookupStep(g, prev, s, o0, c0);
        var thumb := cache.Get(Key(s));
        if thumb.Some? {
          hits := hits + [PlaceOf(g, s, thumb.value)];
        } else {
          misses := misses + [s];
        }
      } else {
        assert SlotsUpTo(g, paths, i + 1) == prev;
      }
      i := i + 1;
    }
  }

  /** Looking up one more tile extends the hits, the misses and the recency list by that tile alone. */
  lemma LookupStep(g: Geometry, prev: seq<TileSlot>, s: TileSlot, order: seq<ThumbnailKey>, cache: map<ThumbnailKey, Thumb>)
    ensures Key(s) in cache ==>
      Hits(g, prev + [s], cache) == Hits(g, prev, cache) + [PlaceOf(g, s, cache[Key(s)])] &&
      Misses(prev + [s], cache) == Misses(prev, cache) &&
      TouchAll(order, prev + [s], cache) == Touch(TouchAll(order, prev, cache), Key(s))
    ensures Key(s) !in cache ==>
      Hits(g, prev + [s], cache) == Hits(g, prev, cache) &&
      Misses(prev + [s], cache) == Misses(prev, cache) + [s] &&
      TouchAll(order, prev + [s], cache) == TouchAll(order, prev, cache)
  {
    assert (prev + [s])[..|prev|] == prev;
  }

  /** Store each made thumbnail in the cache, in order, and place it. */
  method InsertNew(cache: ThumbnailCache, g: Geometry, made: seq<(TileSlot, Thumb)>) returns (placed: seq<Placement>)
    requires cache.Valid()
    modifies cache
    ensures cache.Valid() && cache.capacity == old(cache.capacity)
    ensures (cache.cache, cache.order) == InsertAll(old(cache.cache), old(cache.order), cache.capacity, made)
    ensures placed == NewPlacements(g, made)
  {
    placed := [];
    var i := 0;
    while i < |made|
      invariant 0 <= i <= |made|
      invariant cache.Valid() && cache.capacity == old(cache.capacity)
      invariant (cache.cache, cache.order) == InsertAll(old(cache.cache), old(cache.order), cache.capacity, made[..i])
      invariant placed == NewPlacements(g, made[..i])
    {
      assert made[..i + 1][..i] == made[..i];
      var (s, thumb) := made[i];
      cache.Insert(Key(s), thumb);
      placed := placed + [PlaceOf(g, s, thumb)];
      i := i + 1;
    }
    assert made[..|made|] == made;
  }

  /** The copy loop: a placement is drawn only when the whole thumbnail lies on the canvas. */
  method CopyToCanvas(g: Geometry, placements: seq<Placement>) returns (drawn: seq<Placement>)
    ensures drawn == Copied(g, placements)
  {
    drawn := [];
    var i := 0;
    while i < |placements|
      invariant 0 <= i <= |placements|
      invariant drawn == Copied(g, placements[..i])
    {
      assert placements[..i + 1][..i] == placements[..i];
      var p := placements[i];
      if p.x + p.thumb.width <= g.canvas_w && p.y + p.thumb.height <= g.canvas_h {
        drawn := drawn + [p];
      }
      i := i + 1;
    }
    assert placements[..|placements|] == placements;
  }

  /** The geometry of a composite: the canvas is the request's target box. */
  function GeometryFor(grid: (nat, nat), canvas: (u32, u32), cell_size: Option<(u16, u16)>): Geometry {
    var cell := CellPixels(cell_size);
    Geometry(grid.0, grid.1, canvas.0, canvas.1, cell.0, cell.1)
  }

  /**
   * `composite_tile_images`: lay the page out, reuse cached thumbnails, make the missing
   * ones (`resized`, see `Made`), cache them, and copy every placement that lies on the
   * canvas. The result is the list of copies, in drawing order, and the canvas size.
   */
  method CompositeTiles(cache: ThumbnailCache, paths: seq<string>, grid: (nat, nat), canvas: (u32, u32),
                        cell_size: Option<(u16, u16)>, resized: map<ThumbnailKey, Thumb>)
    returns (drawn: seq<Placement>, actual_size: (u32, u32))
    requires cache.Valid() && GeometryFor(grid, canvas, cell_size).Ok()
    modifies cache
    ensures cache.Valid() && cache.capacity == old(cache.capacity) && actual_size == canvas
    ensures var g := GeometryFor(grid, canvas, cell_size);
      var slots := Layout(g, paths);
      var made := Made(Misses(slots, old(cache.cache)), resized);
      drawn == Copied(g, Hits(g, slots, old(cache.cache)) + NewPlacements(g, made)) &&
      (cache.cache, cache.order) ==
        InsertAll(old(cache.cache), TouchAll(old(cache.order), slots, old(cache.cache)), cache.capacity, made)
  {
    var g := GeometryFor(grid, canvas, cell_size);
    var hits, misses := LayoutTiles(cache, g, paths);
    // Decoding and resizing the misses runs in parallel and keeps their order.
    var made := Made(misses, resized);
    var placed := InsertNew(cache, g, made);
    drawn := CopyToCanvas(g, hits + placed);
    actual_size := canvas;
  }

  /**
   * `process_tile_request`: a request without tile paths or a grid gives nothing; otherwise
   * the page is composited, and the result is dropped for the latest of the requests
   * queued meanwhile (`after_composite`) or sent with the canvas as both sizes.
   */
  method ProcessTile(cache: ThumbnailCache, req: ImageRequest, resized: map<ThumbnailKey, Thumb>,
                     after_composite: seq<ImageRequest>)
    returns (outcome: Outcome, drawn: seq<Placement>)
    requires cache.Valid()
    requires req.tile_paths.Some? && req.tile_grid.Some? ==> GeometryFor(req.tile_grid.value, req.target, req.cell_size).Ok()
    modifies cache
    ensures cache.Valid() && cache.capacity == old(cache.capacity)
    ensures req.tile_paths.None? || req.tile_grid.None? ==>
      outcome.NoResult? && drawn == [] && cache.cache == old(cache.cache) && cache.order == old(cache.order)
    ensures req.tile_paths.Some? && req.tile_grid.Some? ==>
      if after_composite != [] then outcome == Abandoned(after_composite[|after_composite| - 1])
      else outcome == Sent(ImageResult(req.path, req.target, req.fit_mode, req.target, req.target))
  {
    drawn := [];
    if req.tile_paths.None? || req.tile_grid.None? {
      return NoResult, drawn;
    }
    var actual_size;
    drawn, actual_size := CompositeTiles(cache, req.tile_paths.value, req.tile_grid.value, req.target, req.cell_size, resized);
    if after_composite != [] {
      var newer := DrainToLatest(after_composite[1..], after_composite[0]);
      return Abandoned(newer), drawn;
    }
    outcome := Sent(ImageResult(req.path, req.target, req.fit_mode, actual_size, actual_size));
  }
}

/** The tile cursor the output writer draws and the tile the worker composites agree. */
module TileOverlay {
  import opened Rects
  import W = Worker
  import S = Writer

  /**
   * Over an image area as many cells wide and high as the canvas holds whole cells, the
   * cursor box of a grid index covers, in cells, exactly the pixels of that index's tile.
   */
  lemma CursorFramesTile(g: W.Geometry, path: string, idx: nat, area: Rect)
    requires g.Ok() && Fits(area) && idx < g.cols * g.rows
    requires area.width == g.WCells() && area.height == g.HCells()
    requires g.cell_w < 0x1_0000 && g.cell_h < 0x1_0000
    ensures var b := S.TileCursorBox((g.cols, g.rows), idx, area, (g.cell_w, g.cell_h));
      var s := W.SlotOf(g, path, idx);
      b.Some? &&
      s.tile_x == W.Pixels(b.value.x - area.x, g.cell_w) && s.tile_w == W.Pixels(b.value.x_end - b.value.x, g.cell_w) &&
      s.tile_y == W.Pixels(b.value.y - area.y, g.cell_h) && s.tile_h == W.Pixels(b.value.y_end - b.value.y, g.cell_h)
  {
    var cell := GridCell(idx, g.cols, g.rows);
    var x0, x1 := TileEdge(cell.0, g.cols, area.width), TileEdge(cell.0 + 1, g.cols, area.width);
    var y0, y1 := TileEdge(cell.1, g.rows, area.height), TileEdge(cell.1 + 1, g.rows, area.height);
    TileEdgeMonotone(cell.0, cell.0 + 1, g.cols, area.width);
    TileEdgeMonotone(cell.1, cell.1 + 1, g.rows, area.height);
    W.PixelsSub(x1, x0, g.cell_w);
    W.PixelsSub(y1, y0, g.cell_h);
  }
}
