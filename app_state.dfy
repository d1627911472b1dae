/**
 * The orchestrator's state as a value, and each of its operations as a function from the
 * state before to the state after. Requests to the output writer, the image worker and the
 * prefetch worker are appended to one log per channel; what those threads send back is
 * passed in as a sequence of replies.
 */
module AppState {
  import opened Bytes
  import opened Seqs
  import opened Rects
  import opened Fit
  import opened Lru
  import opened Navigation
  import W = Writer
  import Worker

  /** A rendered image is cached under its path, the pixel box it was fitted to and the fit mode. */
  type CacheKey = (string, (u32, u32), FitMode)

  datatype Rendered = Rendered(original_size: (u32, u32), actual_size: (u32, u32), encoded_chunks: seq<seq<byte>>)

  /** A finished render as a worker reports it: the result and its encoded protocol chunks. */
  datatype Delivery = Delivery(result: Worker.ImageResult, encoded_chunks: seq<seq<byte>>)

  /** What the last prefetch was issued for; an identical signature means there is nothing new to fetch. */
  datatype Signature = Signature(view_mode: ViewMode, fit_mode: FitMode, target: (u32, u32), prefetch_count: nat,
                                 anchor: nat, grid: Option<(nat, nat)>)

  /** A batch for the prefetch worker, tagged with the prefetch worker's epoch at submission. */
  datatype PrefetchBatch = PrefetchBatch(paths: seq<string>, target: (u32, u32), fit_mode: FitMode, epoch: nat,
                                         kgp_id: u32, is_tmux: bool)

  /**
   * The orchestrator's fields. `last_area` and `last_kgp_id` are what the protocol state
   * records; `prefetch_epoch` counts the cancellations sent to the prefetch worker; the
   * three `to_` fields are everything sent so far on each channel.
   */
  datatype State = State(
    images: seq<string>,
    current_index: nat,
    fit_mode: FitMode,
    view_mode: ViewMode,
    tile_cursor: nat,
    prev_tile_cursor: Option<nat>,
    last_area: Option<Rect>,
    last_kgp_id: Option<u32>,
    pending_request: Option<CacheKey>,
    cache: map<CacheKey, Rendered>,
    order: seq<CacheKey>,
    limit: nat,
    kgp_id: u32,
    in_flight: bool,
    pending_display: Option<Rect>,
    epoch: nat,
    clear_after_nav: bool,
    is_tmux: bool,
    prefetch_count: nat,
    last_signature: Option<Signature>,
    prefetch_epoch: nat,
    to_writer: seq<W.WriterRequest>,
    to_worker: seq<Worker.ImageRequest>,
    to_prefetch: seq<PrefetchBatch>)

  /** An index into a list of `len` images: in range, or 0 for an empty list. */
  predicate InList(i: nat, len: nat) {
    if len == 0 then i == 0 else i < len
  }

  /**
   * The orchestrator's invariant: both positions index the list, the render cache is a
   * bounded LRU whose map and recency list agree, a transmit is in flight exactly while a
   * display is pending, the epoch stays within `u64`, and every area it knows of and every
   * request it has sent to the writer lies within the terminal's coordinate range.
   */
  ghost predicate Inv(s: State) {
    InList(s.current_index, |s.images|) && InList(s.tile_cursor, |s.images|)
    && LruValid(s.cache, s.order, s.limit)
    && (s.in_flight <==> s.pending_display.Some?)
    && s.epoch <= U64_MAX
    && W.FitsOpt(s.last_area) && W.FitsOpt(s.pending_display)
    && W.AllWellFormed(s.to_writer)
  }

  /** The state `App::new` builds; its only message clears whatever images a previous run left. */
  function Initial(images: seq<string>, limit: nat, prefetch_count: nat, kgp_id: u32, is_tmux: bool): State {
    State(images, 0, Normal, DefaultViewMode(), 0, None, None, None, None, map[], [], limit, kgp_id,
          false, None, 0, false, is_tmux, prefetch_count, None, 0, [W.ClearAll(None, is_tmux)], [], [])
  }

  lemma InitialInv(images: seq<string>, limit: nat, prefetch_count: nat, kgp_id: u32, is_tmux: bool)
    ensures Inv(Initial(images, limit, prefetch_count, kgp_id, is_tmux))
    ensures Initial(images, limit, prefetch_count, kgp_id, is_tmux).to_writer == [W.ClearAll(None, is_tmux)]
  {
  }

  /** `invalidate_render`: forget the pending request and the prefetch, and cancel the prefetch worker. */
  function Invalidated(s: State): State {
    s.(pending_request := None, prefetch_epoch := s.prefetch_epoch + 1, last_signature := None)
  }

  // ------------------------------------------------------------ navigation

  function MoveByState(s: State, delta: int): State {
    if delta == 0 || |s.images| == 0 then s
    else Invalidated(s.(current_index := MoveBy(s.current_index, delta, |s.images|)))
  }

  /**
   * `move_by` does nothing for a zero step or an empty list; otherwise the index moves by
   * `delta` around the list, and moving back by `delta` returns to where it was.
   */
  lemma MoveByStateSpec(s: State, delta: int)
    requires Inv(s)
    ensures Inv(MoveByState(s, delta))
    ensures delta == 0 || |s.images| == 0 ==> MoveByState(s, delta) == s
    ensures delta != 0 && |s.images| > 0 ==>
      MoveByState(s, delta).current_index == MoveBy(s.current_index, delta, |s.images|) &&
      MoveByState(MoveByState(s, delta), -delta).current_index == s.current_index
  {
    if delta != 0 && |s.images| > 0 {
      MoveByInverse(s.current_index, delta, |s.images|);
    }
  }

  function ToggleFitState(s: State): State {
    Invalidated(s.(fit_mode := Next(s.fit_mode)))
  }

  /** Toggling the fit mode flips it, and toggling twice restores it. */
  lemma ToggleFitTwice(s: State)
    requires Inv(s)
    ensures Inv(ToggleFitState(s))
    ensures ToggleFitState(s).fit_mode != s.fit_mode
    ensures ToggleFitState(ToggleFitState(s)).fit_mode == s.fit_mode
  {
    NextInvolution(s.fit_mode);
  }

  function ToggleViewState(s: State): State {
    match s.view_mode
    case Single => Invalidated(s.(view_mode := Tile, tile_cursor := s.current_index))
    case Tile => Invalidated(s.(current_index := s.tile_cursor, view_mode := Single))
  }

  /**
   * Entering tile view puts the cursor on the current image; leaving it makes the cursor's
   * image current. A round trip from single view keeps the current image.
   */
  lemma ToggleViewSpec(s: State)
    requires Inv(s)
    ensures Inv(ToggleViewState(s))
    ensures s.view_mode.Single? ==> ToggleViewState(s).view_mode.Tile? && ToggleViewState(s).tile_cursor == s.current_index
    ensures s.view_mode.Tile? ==> ToggleViewState(s).view_mode.Single? && ToggleViewState(s).current_index == s.tile_cursor
    ensures ToggleViewState(ToggleViewState(s)).view_mode == s.view_mode
    ensures s.view_mode.Single? ==> ToggleViewState(ToggleViewState(s)).current_index == s.current_index
  {
  }

  /** `move_tile_cursor`: the state after, and whether the page changed. */
  function MoveTileCursorState(s: State, delta: int, grid: (nat, nat)): (State, bool) {
    var len := |s.images|;
    var tpp := grid.0 * grid.1;
    if len == 0 || tpp == 0 then (s, false)
    else
      var cursor := MoveBy(s.tile_cursor, delta, len);
      var changed := PageOf(s.tile_cursor, tpp) != PageOf(cursor, tpp);
      var moved := s.(prev_tile_cursor := Some(s.tile_cursor), tile_cursor := cursor);
      (if changed then Invalidated(moved) else moved, changed)
  }

  /**
   * The cursor wraps around the list and remembers where it was; the result says exactly
   * whether it left its page, and only a page change drops the pending render. An empty
   * list or a zero grid changes nothing.
   */
  lemma MoveTileCursorSpec(s: State, delta: int, grid: (nat, nat))
    requires Inv(s)
    ensures var (r, changed) := MoveTileCursorState(s, delta, grid);
      Inv(r) &&
      (|s.images| == 0 || grid.0 * grid.1 == 0 ==> r == s && !changed) &&
      (|s.images| > 0 && grid.0 * grid.1 > 0 ==>
        r.tile_cursor == MoveBy(s.tile_cursor, delta, |s.images|) &&
        r.prev_tile_cursor == Some(s.tile_cursor) &&
        (changed <==> PageOf(s.tile_cursor, grid.0 * grid.1) != PageOf(r.tile_cursor, grid.0 * grid.1)) &&
        (!changed ==> r.pending_request == s.pending_request))
  {
  }

  /** `move_tile_cursor_row`: a step of `delta` rows, the product saturating in `i32`. */
  function MoveTileCursorRowState(s: State, delta: int, grid: (nat, nat)): (State, bool) {
    MoveTileCursorState(s, SatMulI32(delta, grid.0), grid)
  }

  /** A row down from a cursor with an image below it lands on that image, in the same column. */
  lemma RowDownSameColumn(s: State, grid: (nat, nat))
    requires Inv(s) && 0 < grid.0 <= I32_MAX && 0 < grid.1 && s.tile_cursor + grid.0 < |s.images|
    ensures MoveTileCursorRowState(s, 1, grid).0.tile_cursor == s.tile_cursor + grid.0
    ensures MoveTileCursorRowState(s, 1, grid).0.tile_cursor % grid.0 == s.tile_cursor % grid.0
  {
    MoveByInside(s.tile_cursor, grid.0, |s.images|);
    ModShift(s.tile_cursor, 1, grid.0);
  }

  function MoveTilePageState(s: State, delta: int, grid: (nat, nat)): State {
    var len := |s.images|;
    var tpp := grid.0 * grid.1;
    if len == 0 || tpp == 0 then s
    else
      var page := TargetPage(s.tile_cursor, delta, len, tpp);
      if page == PageOf(s.tile_cursor, tpp) then s
      else Invalidated(s.(prev_tile_cursor := Some(s.tile_cursor), tile_cursor := page * tpp))
  }

  /**
   * A page move lands on the first tile of the clamped target page, which holds an image;
   * when the clamped page is the current one nothing changes.
   */
  lemma MoveTilePageSpec(s: State, delta: int, grid: (nat, nat))
    requires Inv(s)
    ensures Inv(MoveTilePageState(s, delta, grid))
    ensures |s.images| > 0 && grid.0 * grid.1 > 0 ==>
      var tpp := grid.0 * grid.1;
      var page := TargetPage(s.tile_cursor, delta, |s.images|, tpp);
      (page == PageOf(s.tile_cursor, tpp) ==> MoveTilePageState(s, delta, grid) == s) &&
      (page != PageOf(s.tile_cursor, tpp) ==>
        var c := MoveTilePageState(s, delta, grid).tile_cursor;
        c < |s.images| && c % tpp == 0 && PageOf(c, tpp) == page)
  {
    if |s.images| > 0 && grid.0 * grid.1 > 0 {
      var tpp := grid.0 * grid.1;
      PageStartInList(TargetPage(s.tile_cursor, delta, |s.images|, tpp), |s.images|, tpp);
    }
  }

  function GoToIndexState(s: State, index: nat): State {
    if |s.images| == 0 then s
    else
      var i := ClampIndex(index, |s.images|);
      Invalidated(s.(current_index := i, tile_cursor := i, prev_tile_cursor := None))
  }

  /** `go_to_index_with_tile` clamps to the last image and puts both positions there. */
  lemma GoToIndexSpec(s: State, index: nat)
    requires Inv(s)
    ensures Inv(GoToIndexState(s, index))
    ensures |s.images| > 0 ==>
      var r := GoToIndexState(s, index);
      r.current_index == r.tile_cursor == (if index < |s.images| then index else |s.images| - 1)
    ensures |s.images| == 0 ==> GoToIndexState(s, index) == s
  {
  }

  function SelectTileState(s: State): State {
    if |s.images| == 0 then s
    else Invalidated(s.(current_index := ClampIndex(s.tile_cursor, |s.images|), view_mode := Single))
  }

  /** `select_tile` shows the cursor's image in single view. */
  lemma SelectTileSpec(s: State)
    requires Inv(s)
    ensures Inv(SelectTileState(s))
    ensures |s.images| > 0 ==> SelectTileState(s).current_index == s.tile_cursor && SelectTileState(s).view_mode.Single?
  {
  }

  // ------------------------------------------------------------ render cache

  function InsertToCache(s: State, key: CacheKey, value: Rendered): State {
    var r := Inserted(s.cache, s.order, s.limit, key, value);
    s.(cache := r.0, order := r.1)
  }

  /**
   * `insert_to_cache` keeps the render cache a bounded LRU, stores the value as the most
   * recent entry, evicts nothing when the key was present and exactly the oldest key when a
   * new key meets a full cache.
   */
  lemma InsertToCacheSpec(s: State, key: CacheKey, value: Rendered)
    requires Inv(s)
    ensures var r := InsertToCache(s, key, value);
      Inv(r) && |r.cache| <= Bound(s.limit) && key in r.cache && r.cache[key] == value &&
      r.order[|r.order| - 1] == key &&
      (key in s.cache ==> r.cache.Keys == s.cache.Keys) &&
      (key !in s.cache && |s.cache| >= s.limit && s.limit > 0 ==> r.cache.Keys == s.cache.Keys - {s.order[0]} + {key})
  {
    InsertedValid(s.cache, s.order, s.limit, key, value);
  }

  function TouchRender(s: State, key: CacheKey): State {
    if s.order != [] && s.order[|s.order| - 1] == key then s
    else if key !in s.cache then s
    else s.(order := Touch(s.order, key))
  }

  /**
   * `touch_render_cache` moves a cached key to the back of the recency list (the early exit
   * for a key already at the back changes nothing it would not) and ignores an absent key.
   */
  lemma TouchRenderSpec(s: State, key: CacheKey)
    requires Inv(s)
    ensures Inv(TouchRender(s, key))
    ensures TouchRender(s, key).cache == s.cache
    ensures key in s.cache ==> TouchRender(s, key).order == Touch(s.order, key)
    ensures key !in s.cache ==> TouchRender(s, key) == s
  {
    if key in s.cache {
      TouchValid(s.cache, s.order, s.limit, key);
      if s.order != [] && s.order[|s.order| - 1] == key {
        TouchLast(s.order, key);
      }
    }
  }

  // ------------------------------------------------------------ epochs and replies

  function CancelState(s: State): State {
    var epoch := if s.epoch < U64_MAX then s.epoch + 1 else s.epoch;
    s.(epoch := epoch, to_writer := s.to_writer + [W.CancelImage(s.pending_display, epoch)],
       clear_after_nav := true, in_flight := false, pending_display := None, last_kgp_id := None)
  }

  /**
   * `cancel_image_output` raises the epoch (saturating at the `u64` maximum), tells the
   * writer to cancel with the pending area and the new epoch, ends any transmit in flight
   * and forgets the displayed id while keeping its area.
   */
  lemma CancelSpec(s: State)
    requires Inv(s)
    ensures var r := CancelState(s);
      Inv(r) && (s.epoch < U64_MAX ==> r.epoch > s.epoch) && !r.in_flight && r.pending_display.None? &&
      r.last_kgp_id.None? && r.last_area == s.last_area && r.clear_after_nav &&
      r.to_writer == s.to_writer + [W.CancelImage(s.pending_display, r.epoch)]
  {
  }

  function ReloadState(s: State): State {
    var c := CancelState(s);
    c.(cache := map[], order := [], pending_request := None, last_area := None, last_kgp_id := None,
       prefetch_epoch := c.prefetch_epoch + 1, last_signature := None)
  }

  /** `reload` cancels, then empties the render cache and forgets everything the terminal showed. */
  lemma ReloadSpec(s: State)
    requires Inv(s)
    ensures Inv(ReloadState(s))
    ensures ReloadState(s).cache == map[] && ReloadState(s).last_area.None? && ReloadState(s).pending_request.None?
    ensures ReloadState(s).epoch == CancelState(s).epoch
  {
  }

  function ClearKgpOverlayState(s: State): State {
    match s.last_area
    case None => s
    case Some(_) => s.(to_writer := s.to_writer + [W.ClearAll(s.last_area, s.is_tmux)])
  }

  function HandleResizeState(s: State): State {
    var c := ClearKgpOverlayState(s);
    c.(cache := map[], order := [], pending_request := None, last_area := None, last_kgp_id := None,
       prefetch_epoch := c.prefetch_epoch + 1, last_signature := None)
  }

  /** `handle_resize` clears the last placement from the terminal and empties the render cache. */
  lemma HandleResizeSpec(s: State)
    requires Inv(s)
    ensures Inv(HandleResizeState(s))
    ensures HandleResizeState(s).cache == map[] && HandleResizeState(s).last_area.None?
    ensures s.last_area.Some? ==> HandleResizeState(s).to_writer == s.to_writer + [W.ClearAll(s.last_area, s.is_tmux)]
    ensures s.last_area.None? ==> HandleResizeState(s).to_writer == s.to_writer
  {
  }

  /** One writer reply: ignored unless it carries the current epoch; then the pending display becomes the last one. */
  function AcceptWriterResult(s: State, res: W.WriterResult): State {
    if res.epoch != s.epoch then s
    else
      var done := s.(in_flight := false);
      match done.pending_display
      case None => done
      case Some(area) => done.(pending_display := None, last_area := Some(area), last_kgp_id := Some(s.kgp_id))
  }

  /** `poll_writer` over the replies received, oldest first. */
  function PollWriterState(s: State, results: seq<W.WriterResult>): State {
    if results == [] then s
    else AcceptWriterResult(PollWriterState(s, results[..|results| - 1]), results[|results| - 1])
  }

  /** A reply for the current epoch completes the pending display under the process's id. */
  lemma AcceptWriterResultSpec(s: State, res: W.WriterResult)
    requires Inv(s)
    ensures Inv(AcceptWriterResult(s, res))
    ensures res.epoch != s.epoch ==> AcceptWriterResult(s, res) == s
    ensures res.epoch == s.epoch && s.pending_display.Some? ==>
      var r := AcceptWriterResult(s, res);
      !r.in_flight && r.pending_display.None? && r.last_area == s.pending_display && r.last_kgp_id == Some(s.kgp_id)
  {
  }

  /** Polling keeps the invariant and never changes the epoch. */
  lemma {:induction false} PollWriterInv(s: State, results: seq<W.WriterResult>)
    requires Inv(s)
    ensures Inv(PollWriterState(s, results)) && PollWriterState(s, results).epoch == s.epoch
    ensures PollWriterState(s, results).to_writer == s.to_writer
  {
    if results != [] {
      PollWriterInv(s, results[..|results| - 1]);
      AcceptWriterResultSpec(PollWriterState(s, results[..|results| - 1]), results[|results| - 1]);
    }
  }

  /** Replies from any other epoch leave the state exactly as it was. */
  lemma {:induction false} StaleResultsIgnored(s: State, results: seq<W.WriterResult>)
    requires forall i :: 0 <= i < |results| ==> results[i].epoch != s.epoch
    ensures PollWriterState(s, results) == s
  {
    if results != [] {
      StaleResultsIgnored(s, results[..|results| - 1]);
    }
  }

  /** After a cancel, replies to anything sent before it (whose epochs are at most the old one) are ignored. */
  lemma CancelOutdatesReplies(s: State, results: seq<W.WriterResult>)
    requires Inv(s) && s.epoch < U64_MAX
    requires forall i :: 0 <= i < |results| ==> results[i].epoch <= s.epoch
    ensures PollWriterState(CancelState(s), results) == CancelState(s)
  {
    StaleResultsIgnored(CancelState(s), results);
  }

  function KeyOf(r: Worker.ImageResult): CacheKey {
    (r.path, r.target, r.fit_mode)
  }

  function RenderedOf(d: Delivery): Rendered {
    Rendered(d.result.original_size, d.result.actual_size, d.encoded_chunks)
  }

  /** A main worker result: it settles a matching pending request and is cached. */
  function AcceptMain(s: State, d: Delivery): State {
    var key := KeyOf(d.result);
    var settled := if s.pending_request == Some(key) then s.(pending_request := None) else s;
    InsertToCache(settled, key, RenderedOf(d))
  }

  /** A prefetch result: cached only when the key is absent, so a main result is never replaced. */
  function AcceptPrefetched(s: State, d: Delivery): State {
    if KeyOf(d.result) in s.cache then s else InsertToCache(s, KeyOf(d.result), RenderedOf(d))
  }

  function AcceptAllMain(s: State, ds: seq<Delivery>): State {
    if ds == [] then s else AcceptMain(AcceptAllMain(s, ds[..|ds| - 1]), ds[|ds| - 1])
  }

  function AcceptAllPrefetched(s: State, ds: seq<Delivery>): State {
    if ds == [] then s else AcceptPrefetched(AcceptAllPrefetched(s, ds[..|ds| - 1]), ds[|ds| - 1])
  }

  /** `poll_worker`: every main result first, then every prefetch result. */
  function PollWorkerState(s: State, main: seq<Delivery>, prefetched: seq<Delivery>): State {
    AcceptAllPrefetched(AcceptAllMain(s, main), prefetched)
  }

  /** A main result is cached as the most recent entry and clears the request it answers. */
  lemma AcceptMainSpec(s: State, d: Delivery)
    requires Inv(s)
    ensures var r := AcceptMain(s, d);
      Inv(r) && KeyOf(d.result) in r.cache && r.cache[KeyOf(d.result)] == RenderedOf(d) &&
      r.order[|r.order| - 1] == KeyOf(d.result) &&
      r.pending_request == (if s.pending_request == Some(KeyOf(d.result)) then None else s.pending_request)
  {
    var settled := if s.pending_request == Some(KeyOf(d.result)) then s.(pending_request := None) else s;
    InsertToCacheSpec(settled, KeyOf(d.result), RenderedOf(d));
  }

  /** A prefetch result never replaces an entry already cached, and fills an absent one. */
  lemma AcceptPrefetchedSpec(s: State, d: Delivery)
    requires Inv(s)
    ensures var r := AcceptPrefetched(s, d);
      Inv(r) && KeyOf(d.result) in r.cache &&
      (KeyOf(d.result) in s.cache ==> r == s) &&
      (KeyOf(d.result) !in s.cache ==> r.cache[KeyOf(d.result)] == RenderedOf(d))
  {
    if KeyOf(d.result) !in s.cache {
      InsertToCacheSpec(s, KeyOf(d.result), RenderedOf(d));
    }
  }

  lemma {:induction false} AcceptAllMainInv(s: State, ds: seq<Delivery>)
    requires Inv(s)
    ensures Inv(AcceptAllMain(s, ds)) && AcceptAllMain(s, ds).limit == s.limit
    ensures AcceptAllMain(s, ds).to_writer == s.to_writer && AcceptAllMain(s, ds).epoch == s.epoch
  {
    if ds != [] {
      AcceptAllMainInv(s, ds[..|ds| - 1]);
      AcceptMainSpec(AcceptAllMain(s, ds[..|ds| - 1]), ds[|ds| - 1]);
    }
  }

  /** Polling the workers keeps the render cache a bounded LRU in step with its recency list. */
  lemma {:induction false} PollWorkerInv(s: State, main: seq<Delivery>, prefetched: seq<Delivery>)
    requires Inv(s)
    ensures Inv(PollWorkerState(s, main, prefetched))
    ensures |PollWorkerState(s, main, prefetched).cache| <= Bound(s.limit)
    ensures PollWorkerState(s, main, prefetched).to_writer == s.to_writer
    ensures PollWorkerState(s, main, prefetched).epoch == s.epoch
  {
    AcceptAllMainInv(s, main);
    var m := AcceptAllMain(s, main);
    AcceptAllPrefetchedInv(m, prefetched);
    var r := AcceptAllPrefetched(m, prefetched);
    LruSize(r.cache, r.order, r.limit);
  }

  lemma {:induction false} AcceptAllPrefetchedInv(s: State, ds: seq<Delivery>)
    requires Inv(s)
    ensures Inv(AcceptAllPrefetched(s, ds)) && AcceptAllPrefetched(s, ds).limit == s.limit
    ensures AcceptAllPrefetched(s, ds).to_writer == s.to_writer && AcceptAllPrefetched(s, ds).epoch == s.epoch
  {
    if ds != [] {
      AcceptAllPrefetchedInv(s, ds[..|ds| - 1]);
      AcceptPrefetchedSpec(AcceptAllPrefetched(s, ds[..|ds| - 1]), ds[|ds| - 1]);
    }
  }

  // ------------------------------------------------------------ rendering

  /** A `u16` times a `u16` always fits a `u32`. */
  lemma ProductFitsU32(a: u16, b: u16)
    ensures a * b <= U32_MAX
  {
    MulMonotone(a, U16_MAX, b);
    MulMonotone(b, U16_MAX, U16_MAX);
  }

  /** The pixel box of the image area: its size in cells times the cell size. */
  function Target(area: Rect, cell: (u16, u16)): (r: (u32, u32)) {
    ProductFitsU32(area.width, cell.0);
    ProductFitsU32(area.height, cell.1);
    (area.width * cell.0, area.height * cell.1)
  }

  /** `div_ceil`: the least number of `b`-sized pieces that cover `a`. */
  function DivCeil(a: nat, b: nat): nat
    requires 0 < b
  {
    (a + b - 1) / b
  }

  /** `DivCeil(a, b)` pieces of size `b` cover `a`, and one piece fewer would not. */
  lemma DivCeilCovers(a: nat, b: nat)
    requires 0 < b
    ensures var r := DivCeil(a, b); a <= r * b && (r == 0 || (r - 1) * b < a)
  {
    var r := DivCeil(a, b);
    assert a + b - 1 == r * b + (a + b - 1) % b;
  }

  /** The cells an image of `px` pixels spans at `cell` pixels per cell, at most `max`. */
  function CellsOf(px: nat, cell: nat, max: u16): (r: u16)
    requires 0 < cell
    ensures r <= max && (r == max || px <= r * cell)
    ensures r < max ==> r == DivCeil(px, cell)
  {
    var c := DivCeil(px, cell);
    DivCeilCovers(px, cell);
    if c < max then c else max
  }

  /** Where a single image is placed: its size in cells, centred in the image area. */
  function SingleArea(area: Rect, actual: (u32, u32), cell: (u16, u16)): (r: Rect)
    requires 0 < cell.0 && 0 < cell.1 && Fits(area)
    ensures Fits(r) && Inside(r, area)
    ensures r.width == CellsOf(actual.0, cell.0, area.width) && r.height == CellsOf(actual.1, cell.1, area.height)
    ensures r.x - area.x <= area.Right() - r.Right() <= r.x - area.x + 1
    ensures r.y - area.y <= area.Bottom() - r.Bottom() <= r.y - area.y + 1
  {
    var w := CellsOf(actual.0, cell.0, area.width);
    var h := CellsOf(actual.1, cell.1, area.height);
    Rect(area.x + (area.width - w) / 2, area.y + (area.height - h) / 2, w, h)
  }

  /** Where a tile page is placed: its size in cells, at the top-left corner of the image area. */
  function TileArea(area: Rect, actual: (u32, u32), cell: (u16, u16)): (r: Rect)
    requires 0 < cell.0 && 0 < cell.1 && Fits(area)
    ensures Fits(r) && Inside(r, area) && r.x == area.x && r.y == area.y
    ensures r.width == CellsOf(actual.0, cell.0, area.width) && r.height == CellsOf(actual.1, cell.1, area.height)
  {
    Rect(area.x, area.y, CellsOf(actual.0, cell.0, area.width), CellsOf(actual.1, cell.1, area.height))
  }

  /** The cache-hit branch shared by both views: touch the entry, then transmit unless shown, pending or busy. */
  function ShowCached(s: State, key: CacheKey, area: Rect): State
    requires key in s.cache
  {
    ShowRendered(TouchRender(s, key), s.cache[key].encoded_chunks, area)
  }

  /** The transmit decision of a cache hit, once the key has been touched. */
  function ShowRendered(t: State, encoded_chunks: seq<seq<byte>>, area: Rect): State {
    if t.last_area == Some(area) && t.last_kgp_id == Some(t.kgp_id) then t
    else if t.pending_display == Some(area) then t
    else if t.in_flight then t
    else
      var cleared := if t.clear_after_nav then [W.ClearAll(None, t.is_tmux)] else [];
      t.(in_flight := true, clear_after_nav := false, pending_display := Some(area),
         to_writer := t.to_writer + cleared +
           [W.ImageTransmit(encoded_chunks, area, t.kgp_id, t.last_area, t.epoch, t.is_tmux)])
  }

  /** A cache hit keeps the invariant, moves the key to the back and leaves the worker alone. */
  lemma ShowCachedInv(s: State, key: CacheKey, area: Rect)
    requires Inv(s) && key in s.cache && Fits(area)
    ensures var r := ShowCached(s, key, area);
      Inv(r) && r.cache == s.cache && r.order == Touch(s.order, key) && r.epoch == s.epoch &&
      r.to_worker == s.to_worker && r.last_area == s.last_area
  {
    TouchRenderSpec(s, key);
  }

  /**
   * A cache hit transmits at most once at a time: while a transmit is in flight, or when
   * the area already shows this process's image, nothing is sent. Otherwise it sends one
   * `ImageTransmit` of the cached chunks under the current epoch, preceded by a full clear
   * exactly when a navigation asked for one, and marks the transmit in flight.
   */
  lemma ShowCachedSends(s: State, key: CacheKey, area: Rect)
    requires key in s.cache
    ensures var r := ShowCached(s, key, area);
      (s.in_flight ==> r.to_writer == s.to_writer) &&
      (s.last_area == Some(area) && s.last_kgp_id == Some(s.kgp_id) ==> r.to_writer == s.to_writer) &&
      (r.to_writer != s.to_writer ==>
        !s.in_flight && r.in_flight && r.pending_display == Some(area) && !r.clear_after_nav &&
        r.to_writer == s.to_writer + (if s.clear_after_nav then [W.ClearAll(None, s.is_tmux)] else []) +
          [W.ImageTransmit(s.cache[key].encoded_chunks, area, s.kgp_id, s.last_area, s.epoch, s.is_tmux)])
  {
  }

  /** The cache-miss branch: ask the worker, unless the same key is already pending. */
  function RequestRender(s: State, key: CacheKey, req: Worker.ImageRequest): State {
    if s.pending_request == Some(key) then s
    else s.(to_worker := s.to_worker + [req], pending_request := Some(key))
  }

  lemma RequestRenderInv(s: State, key: CacheKey, req: Worker.ImageRequest)
    requires Inv(s)
    ensures Inv(RequestRender(s, key, req)) && RequestRender(s, key, req).to_writer == s.to_writer
  {
  }

  /** A key is requested from the worker once: asking again while it is pending sends nothing. */
  lemma RequestRenderOnce(s: State, key: CacheKey, req: Worker.ImageRequest)
    ensures RequestRender(s, key, req).pending_request == Some(key)
    ensures RequestRender(RequestRender(s, key, req), key, req) == RequestRender(s, key, req)
    ensures s.pending_request != Some(key) ==> RequestRender(s, key, req).to_worker == s.to_worker + [req]
  {
  }

  /** The synthetic cache path of the tile page starting at `start`. */
  function TilePageKey(start: nat): string {
    "__tile_page_" + DecimalText(start)
  }

  /** Different pages never share a cache entry. */
  lemma TilePageKeyInjective(a: nat, b: nat)
    requires TilePageKey(a) == TilePageKey(b)
    ensures a == b
  {
    assert DecimalText(a) == TilePageKey(a)[12..];
    DecimalTextInjective(a, b);
  }

  /** `skip(start).take(n)`: the paths on the page starting at `start`. */
  function PagePaths(images: seq<string>, start: nat, n: nat): (r: seq<string>)
    ensures |r| <= n
  {
    if start >= |images| then []
    else images[start..if start + n <= |images| then start + n else |images|]
  }

  /** The page holding the cursor lists the cursor's image at the cursor's position on the page. */
  lemma CursorOnItsPage(images: seq<string>, cursor: nat, tpp: nat)
    requires cursor < |images| && 0 < tpp
    ensures var paths := PagePaths(images, PageOf(cursor, tpp) * tpp, tpp);
      cursor % tpp < |paths| && paths[cursor % tpp] == images[cursor]
  {
    var start := PageOf(cursor, tpp) * tpp;
    assert cursor == start + cursor % tpp;
  }

  function PrepareSingleState(s: State, area: Rect, cell: (u16, u16)): State
    requires Fits(area)
  {
    if s.current_index >= |s.images| then s
    else if cell.0 == 0 || cell.1 == 0 || area.width == 0 || area.height == 0 then s
    else
      var target := Target(area, cell);
      var key := (s.images[s.current_index], target, s.fit_mode);
      if key in s.cache then ShowCached(s, key, SingleArea(area, s.cache[key].actual_size, cell))
      else RequestRender(s, key, Worker.ImageRequest(key.0, target, s.fit_mode, s.kgp_id, s.is_tmux, Single, None, None, None))
  }

  /**
   * `prepare_single_render` keeps the invariant and never starts a second transmit while
   * one is in flight; what it asks of the worker is the current image at the area's pixel size.
   */
  lemma PrepareSingleSpec(s: State, area: Rect, cell: (u16, u16))
    requires Inv(s) && Fits(area)
    ensures var r := PrepareSingleState(s, area, cell);
      Inv(r) && (s.in_flight ==> r.to_writer == s.to_writer) &&
      (r.to_worker != s.to_worker ==>
        0 < cell.0 && 0 < cell.1 && s.current_index < |s.images| &&
        r.to_worker == s.to_worker + [Worker.ImageRequest(s.images[s.current_index], Target(area, cell), s.fit_mode,
                                                          s.kgp_id, s.is_tmux, Single, None, None, None)])
  {
    if s.current_index < |s.images| && cell.0 > 0 && cell.1 > 0 && area.width > 0 && area.height > 0 {
      var key := (s.images[s.current_index], Target(area, cell), s.fit_mode);
      if key in s.cache {
        ShowCachedInv(s, key, SingleArea(area, s.cache[key].actual_size, cell));
        ShowCachedSends(s, key, SingleArea(area, s.cache[key].actual_size, cell));
      } else {
        RequestRenderInv(s, key, Worker.ImageRequest(key.0, Target(area, cell), s.fit_mode, s.kgp_id, s.is_tmux, Single, None, None, None));
      }
    }
  }

  function PrepareTileState(s: State, area: Rect, cell: (u16, u16), grid: (nat, nat)): State
    requires Fits(area) && 0 < grid.0 && 0 < grid.1
  {
    if cell.0 == 0 || cell.1 == 0 || area.width == 0 || area.height == 0 then s
    else
      var target := Target(area, cell);
      var tpp := grid.0 * grid.1;
      var start := PageOf(s.tile_cursor, tpp) * tpp;
      var paths := PagePaths(s.images, start, tpp);
      if paths == [] then s
      else
        var key := (TilePageKey(start), target, s.fit_mode);
        if key in s.cache then ShowCached(s, key, TileArea(area, s.cache[key].actual_size, cell))
        else RequestRender(s, key, Worker.ImageRequest(key.0, target, s.fit_mode, s.kgp_id, s.is_tmux, Tile,
                                                       Some(paths), Some(grid), Some(cell)))
  }

  /**
   * `prepare_tile_render` keeps the invariant and never starts a second transmit while one
   * is in flight; a composite it asks for is the cursor's page, which holds the cursor's image.
   */
  lemma PrepareTileSpec(s: State, area: Rect, cell: (u16, u16), grid: (nat, nat))
    requires Inv(s) && Fits(area) && 0 < grid.0 && 0 < grid.1
    ensures var r := PrepareTileState(s, area, cell, grid);
      Inv(r) && (s.in_flight ==> r.to_writer == s.to_writer) &&
      (r.to_worker != s.to_worker ==>
        var req := r.to_worker[|r.to_worker| - 1];
        var tpp := grid.0 * grid.1;
        r.to_worker == s.to_worker + [req] && req.view_mode.Tile? &&
        req.path == TilePageKey(PageOf(s.tile_cursor, tpp) * tpp) &&
        req.tile_paths == Some(PagePaths(s.images, PageOf(s.tile_cursor, tpp) * tpp, tpp)) &&
        s.tile_cursor % tpp < |req.tile_paths.value| &&
        req.tile_paths.value[s.tile_cursor % tpp] == s.images[s.tile_cursor])
  {
    var tpp := grid.0 * grid.1;
    MulNonneg(grid.0, grid.1);
    assert tpp > 0;
    if cell.0 > 0 && cell.1 > 0 && area.width > 0 && area.height > 0 {
      var start := PageOf(s.tile_cursor, tpp) * tpp;
      var paths := PagePaths(s.images, start, tpp);
      if paths != [] {
        assert |s.images| > 0;
        CursorOnItsPage(s.images, s.tile_cursor, tpp);
        var key := (TilePageKey(start), Target(area, cell), s.fit_mode);
        if key in s.cache {
          ShowCachedInv(s, key, TileArea(area, s.cache[key].actual_size, cell));
          ShowCachedSends(s, key, TileArea(area, s.cache[key].actual_size, cell));
        } else {
          RequestRenderInv(s, key, Worker.ImageRequest(key.0, Target(area, cell), s.fit_mode, s.kgp_id, s.is_tmux, Tile,
                                                       Some(paths), Some(grid), Some(cell)));
        }
      }
    }
  }

  /** `prepare_render_request`: nothing while navigation holds transmission back. */
  function PrepareRenderState(s: State, area: Rect, cell: (u16, u16), grid: (nat, nat), allow: bool): State
    requires Fits(area) && 0 < grid.0 && 0 < grid.1
  {
    if !allow then s
    else match s.view_mode
      case Single => PrepareSingleState(s, area, cell)
      case Tile => PrepareTileState(s, area, cell, grid)
  }

  function DrawTileCursorState(s: State, area: Rect, grid: (nat, nat), cell: (u16, u16)): State {
    var tpp := grid.0 * grid.1;
    if tpp == 0 then s
    else
      var prev := match s.prev_tile_cursor case None => None case Some(p) => Some(p % tpp);
      s.(to_writer := s.to_writer + [W.TileCursor(grid, s.tile_cursor % tpp, area, prev, cell)])
  }

  /** `draw_tile_cursor` names the cursor's (and the previous cursor's) position within its page. */
  lemma DrawTileCursorSpec(s: State, area: Rect, grid: (nat, nat), cell: (u16, u16))
    requires Inv(s) && Fits(area)
    ensures Inv(DrawTileCursorState(s, area, grid, cell))
    ensures grid.0 * grid.1 > 0 ==>
      var r := DrawTileCursorState(s, area, grid, cell);
      |r.to_writer| == |s.to_writer| + 1 && r.to_writer[|s.to_writer|].TileCursor? &&
      r.to_writer[|s.to_writer|].cursor_idx < grid.0 * grid.1 &&
      (s.prev_tile_cursor.Some? ==> r.to_writer[|s.to_writer|].prev_cursor_idx.Some? &&
                                    r.to_writer[|s.to_writer|].prev_cursor_idx.value < grid.0 * grid.1)
  {
  }

  function CopyPathState(s: State): (State, bool) {
    if s.current_index < |s.images| then
      (s.(to_writer := s.to_writer + [W.CopyToClipboard(Utf8Text(s.images[s.current_index]), s.is_tmux)]), true)
    else (s, false)
  }

  /**
   * `copy_path_to_clipboard` sends the current path's UTF-8 bytes. Paths are Unicode text
   * here, so the only failure left is an empty list.
   */
  lemma CopyPathSpec(s: State)
    requires Inv(s)
    ensures Inv(CopyPathState(s).0)
    ensures CopyPathState(s).1 <==> |s.images| > 0
    ensures CopyPathState(s).1 ==>
      CopyPathState(s).0.to_writer == s.to_writer + [W.CopyToClipboard(Utf8Text(s.images[s.current_index]), s.is_tmux)]
  {
  }

  /**
   * The render-cache key of what the view shows: the current image in single view, the
   * cursor's page in tile view; none past the end of the list or for an empty grid.
   */
  function ShownKey(s: State, area: Rect, cell: (u16, u16), grid: (nat, nat)): Option<CacheKey>
    requires Fits(area)
  {
    var target := Target(area, cell);
    var tpp := grid.0 * grid.1;
    match s.view_mode
    case Single => if s.current_index < |s.images| then Some((s.images[s.current_index], target, s.fit_mode)) else None
    case Tile => if tpp == 0 then None else Some((TilePageKey(PageOf(s.tile_cursor, tpp) * tpp), target, s.fit_mode))
  }

  /** `status_indicator`: whether the current image or page is fully shown, and how. */
  function StatusIndicatorOf(s: State, area: Rect, cell: (u16, u16), grid: (nat, nat), allow: bool): W.StatusIndicator
    requires Fits(area)
  {
    if !allow || s.pending_display.Some? || s.in_flight then W.Busy
    else if cell.0 == 0 || cell.1 == 0 || area.width == 0 || area.height == 0 then W.Busy
    else
      var key := ShownKey(s, area, cell, grid);
      if key.None? || key.value !in s.cache then W.Busy
      else if s.last_area != Some(SingleArea(area, s.cache[key.value].actual_size, cell)) || s.last_kgp_id != Some(s.kgp_id) then W.Busy
      else match s.view_mode
        case Single => if s.fit_mode == Fit then W.Fit else W.Ready
        case Tile => W.Tile
  }

  /**
   * The indicator is anything but `Busy` exactly when output is allowed, nothing is pending
   * or in flight, the shown image or page is rendered at this size and mode, and the terminal
   * shows that render, centred in the area, under this process's id; the indicator then names
   * the view and fit mode.
   */
  lemma StatusIndicatorSpec(s: State, area: Rect, cell: (u16, u16), grid: (nat, nat), allow: bool)
    requires Fits(area)
    ensures var r := StatusIndicatorOf(s, area, cell, grid, allow);
      var key := ShownKey(s, area, cell, grid);
      (!r.Busy? <==> allow && !s.in_flight && s.pending_display.None? &&
                     cell.0 > 0 && cell.1 > 0 && area.width > 0 && area.height > 0 &&
                     key.Some? && key.value in s.cache && s.last_kgp_id == Some(s.kgp_id) &&
                     s.last_area == Some(SingleArea(area, s.cache[key.value].actual_size, cell))) &&
      (!r.Busy? ==> s.last_area.Some? && Inside(s.last_area.value, area)) &&
      (r.Tile? <==> !r.Busy? && s.view_mode.Tile?) &&
      (r.Fit? <==> !r.Busy? && s.view_mode.Single? && s.fit_mode == Fit) &&
      (r.Ready? <==> !r.Busy? && s.view_mode.Single? && s.fit_mode != Fit)
  {
  }

  // ------------------------------------------------------------ prefetch

  /** The paths at `idxs` whose render is not cached, in order. */
  function UncachedPaths(images: seq<string>, idxs: seq<nat>, target: (u32, u32), fit_mode: FitMode,
                         cache: map<CacheKey, Rendered>): seq<string>
    requires forall j | 0 <= j < |idxs| :: idxs[j] < |images|
  {
    if idxs == [] then []
    else
      var x := idxs[|idxs| - 1];
      var prev := UncachedPaths(images, idxs[..|idxs| - 1], target, fit_mode, cache);
      if (images[x], target, fit_mode) in cache then prev else prev + [images[x]]
  }

  /** Every path kept is the path of one of `idxs` and is not cached; there are at most as many as indices. */
  lemma {:induction false} UncachedPathsSpec(images: seq<string>, idxs: seq<nat>, target: (u32, u32), fit_mode: FitMode,
                                             cache: map<CacheKey, Rendered>)
    requires forall j | 0 <= j < |idxs| :: idxs[j] < |images|
    ensures var r := UncachedPaths(images, idxs, target, fit_mode, cache);
      |r| <= |idxs| &&
      forall k | 0 <= k < |r| :: (r[k], target, fit_mode) !in cache && exists j :: 0 <= j < |idxs| && r[k] == images[idxs[j]]
  {
    if idxs != [] {
      var init := idxs[..|idxs| - 1];
      UncachedPathsSpec(images, init, target, fit_mode, cache);
      var prev := UncachedPaths(images, init, target, fit_mode, cache);
      forall k | 0 <= k < |prev|
        ensures exists j :: 0 <= j < |idxs| && prev[k] == images[idxs[j]]
      {
        var j :| 0 <= j < |init| && prev[k] == images[init[j]];
        assert idxs[j] == init[j];
      }
    }
  }

  /** Conversely, the path of every listed index whose render is not cached is kept. */
  lemma {:induction false} UncachedPathsComplete(images: seq<string>, idxs: seq<nat>, target: (u32, u32), fit_mode: FitMode,
                                                 cache: map<CacheKey, Rendered>)
    requires forall j | 0 <= j < |idxs| :: idxs[j] < |images|
    ensures forall j | 0 <= j < |idxs| && (images[idxs[j]], target, fit_mode) !in cache ::
      images[idxs[j]] in UncachedPaths(images, idxs, target, fit_mode, cache)
  {
    if idxs != [] {
      var init := idxs[..|idxs| - 1];
      UncachedPathsComplete(images, init, target, fit_mode, cache);
      forall j | 0 <= j < |idxs| && (images[idxs[j]], target, fit_mode) !in cache
        ensures images[idxs[j]] in UncachedPaths(images, idxs, target, fit_mode, cache)
      {
        if j < |init| {
          assert idxs[j] == init[j];
        }
      }
    }
  }

  /** Appending an index appends its path exactly when its render is not cached. */
  lemma UncachedPathsSnoc(images: seq<string>, idxs: seq<nat>, x: nat, target: (u32, u32), fit_mode: FitMode,
                          cache: map<CacheKey, Rendered>)
    requires forall j | 0 <= j < |idxs| :: idxs[j] < |images|
    requires x < |images|
    ensures UncachedPaths(images, idxs + [x], target, fit_mode, cache)
         == UncachedPaths(images, idxs, target, fit_mode, cache) + (if (images[x], target, fit_mode) in cache then [] else [images[x]])
  {
    assert (idxs + [x])[..|idxs|] == idxs;
  }

  /**
   * Once duplicates are dropped, the list as written (app.rs:843, wrapping in usize) and the
   * intended list agree: past `current + len` steps every index has already been listed, so
   * whatever the wrapped subtraction yields is skipped as seen.
   */
  lemma {:induction false} DedupAgrees(current: nat, len: nat, count: nat)
    requires current < len && current + len < USIZE_MODULUS
    ensures FirstOccurrences(PrefetchIndicesAsWritten(current, len, count)) == FirstOccurrences(PrefetchIndices(current, len, count))
  {
    var m := current + len;
    if count <= m {
      PrefetchAsWrittenAgrees(current, len, count);
    } else {
      DedupAgrees(current, len, count - 1);
      var a := PrefetchIndicesAsWritten(current, len, count - 1);
      var c := PrefetchIndices(current, len, count - 1);
      PrefetchAsWrittenAgrees(current, len, m);
      PrefetchIndicesCover(current, len);
      PrefetchIndicesGrow(current, len, len, m);
      PrefetchIndicesGrow(current, len, m, count - 1);
      var tailA := PrefetchIndicesAsWritten(current, len, count)[2 * count - 2..];
      var tailC := PrefetchIndices(current, len, count)[2 * count - 2..];
      assert PrefetchIndicesAsWritten(current, len, count) == a + tailA;
      assert PrefetchIndices(current, len, count) == c + tailC;
      FirstOccurrencesOfSeen<nat>(a, tailA);
      FirstOccurrencesOfSeen<nat>(c, tailC);
    }
  }

  /**
   * The prefetch indices, each listed once, first occurrence first: exactly the neighbours
   * up to `count` steps ahead and behind, and, for an index in the list, the list the
   * code's seen-set walk leaves of its usize arithmetic.
   */
  function NeighbourIndices(current: nat, len: nat, count: nat): (r: seq<nat>)
    requires 0 < len
    ensures NoDuplicates(r)
    ensures forall j | 0 <= j < |r| :: r[j] < len && exists i :: 1 <= i <= count && Neighbour(r[j], current, len, i)
    ensures forall x: nat, i: nat | 1 <= i <= count && Neighbour(x, current, len, i) :: x in r
    ensures current < len && current + len < USIZE_MODULUS ==>
      r == FirstOccurrences(PrefetchIndicesAsWritten(current, len, count))
  {
    var all: seq<nat> := PrefetchIndices(current, len, count);
    PrefetchIndicesNeighbours(current, len, count);
    PrefetchIndicesComplete(current, len, count);
    FirstOccurrencesProps<nat>(all);
    var r: seq<nat> := FirstOccurrences<nat>(all);
    forall j | 0 <= j < |r|
      ensures r[j] < len && exists i :: 1 <= i <= count && Neighbour(r[j], current, len, i)
    {
      assert r[j] in all;
    }
    if current < len && current + len < USIZE_MODULUS then
      DedupAgrees(current, len, count);
      r
    else r
  }

  /** The batch `prefetch_adjacent_single` submits, if any. */
  function SingleBatch(s: State, area: Rect, cell: (u16, u16)): Option<PrefetchBatch> {
    var len := |s.images|;
    if cell.0 == 0 || cell.1 == 0 || area.width == 0 || area.height == 0 || len <= 1 then None
    else
      var target := Target(area, cell);
      if s.last_signature == Some(Signature(Single, s.fit_mode, target, s.prefetch_count, s.current_index, None)) then None
      else
        var paths := UncachedPaths(s.images, NeighbourIndices(s.current_index, len, s.prefetch_count), target, s.fit_mode, s.cache);
        if paths == [] then None
        else Some(PrefetchBatch(paths, target, s.fit_mode, s.prefetch_epoch, s.kgp_id, s.is_tmux))
  }

  function PrefetchSingleState(s: State, area: Rect, cell: (u16, u16)): State {
    match SingleBatch(s, area, cell)
    case None => s
    case Some(b) =>
      s.(to_prefetch := s.to_prefetch + [b],
         last_signature := Some(Signature(Single, s.fit_mode, b.target, s.prefetch_count, s.current_index, None)))
  }

  /**
   * Single-view prefetch sends at most one batch and touches nothing but the prefetch
   * channel and the signature; calling it again straight away does nothing.
   */
  lemma PrefetchSingleInv(s: State, area: Rect, cell: (u16, u16))
    requires Inv(s)
    ensures var r := PrefetchSingleState(s, area, cell);
      Inv(r) && r.to_writer == s.to_writer && r.to_worker == s.to_worker && r.cache == s.cache &&
      PrefetchSingleState(r, area, cell) == r &&
      (r.to_prefetch == s.to_prefetch || |r.to_prefetch| == |s.to_prefetch| + 1)
  {
  }

  /**
   * A single-view prefetch batch lists images at most `prefetch_count` steps either side of
   * the current one (wrapping around) whose render at this size and mode is not cached.
   */
  lemma SingleBatchSpec(s: State, area: Rect, cell: (u16, u16), b: PrefetchBatch)
    requires SingleBatch(s, area, cell) == Some(b)
    ensures |s.images| > 1 && b.epoch == s.prefetch_epoch && b.paths != [] && b.target == Target(area, cell)
    ensures forall k | 0 <= k < |b.paths| ::
      (b.paths[k], b.target, s.fit_mode) !in s.cache &&
      exists x: nat, i: nat :: 1 <= i <= s.prefetch_count && x < |s.images| && s.images[x] == b.paths[k] &&
                               Neighbour(x, s.current_index, |s.images|, i)
    ensures forall x: nat, i: nat | 1 <= i <= s.prefetch_count && x < |s.images| && Neighbour(x, s.current_index, |s.images|, i) &&
                                    (s.images[x], b.target, s.fit_mode) !in s.cache :: s.images[x] in b.paths
  {
    var idxs := NeighbourIndices(s.current_index, |s.images|, s.prefetch_count);
    assert b.paths == UncachedPaths(s.images, idxs, b.target, s.fit_mode, s.cache);
    UncachedPathsSpec(s.images, idxs, b.target, s.fit_mode, s.cache);
    NeighbourCovered(s.images, s.current_index, s.prefetch_count, b.target, s.fit_mode, s.cache);
  }

  /**
   * When the guards pass but no batch is sent, every neighbour within `prefetch_count`
   * steps is already cached at this size and mode.
   */
  lemma SingleBatchNone(s: State, area: Rect, cell: (u16, u16))
    requires cell.0 > 0 && cell.1 > 0 && area.width > 0 && area.height > 0 && |s.images| > 1
    requires s.last_signature != Some(Signature(Single, s.fit_mode, Target(area, cell), s.prefetch_count, s.current_index, None))
    requires SingleBatch(s, area, cell).None?
    ensures forall x: nat, i: nat | 1 <= i <= s.prefetch_count && x < |s.images| && Neighbour(x, s.current_index, |s.images|, i) ::
      (s.images[x], Target(area, cell), s.fit_mode) in s.cache
  {
    NeighbourCovered(s.images, s.current_index, s.prefetch_count, Target(area, cell), s.fit_mode, s.cache);
  }

  /** The path of each neighbour not cached is among the batch's paths. */
  lemma NeighbourCovered(images: seq<string>, current: nat, count: nat, target: (u32, u32), fit_mode: FitMode,
                         cache: map<CacheKey, Rendered>)
    requires 0 < |images|
    ensures forall x: nat, i: nat | 1 <= i <= count && x < |images| && Neighbour(x, current, |images|, i) &&
                                    (images[x], target, fit_mode) !in cache ::
      images[x] in UncachedPaths(images, NeighbourIndices(current, |images|, count), target, fit_mode, cache)
  {
    var idxs := NeighbourIndices(current, |images|, count);
    UncachedPathsComplete(images, idxs, target, fit_mode, cache);
    forall x: nat, i: nat | 1 <= i <= count && x < |images| && Neighbour(x, current, |images|, i) &&
                            (images[x], target, fit_mode) !in cache
      ensures images[x] in UncachedPaths(images, idxs, target, fit_mode, cache)
    {
      var j :| 0 <= j < |idxs| && idxs[j] == x;
    }
  }

  /** A page the tile prefetch passes over: its render is cached, or it holds no image. */
  predicate PageSkipped(images: seq<string>, p: nat, tpp: nat, target: (u32, u32), fit_mode: FitMode,
                        cache: map<CacheKey, Rendered>) {
    (TilePageKey(p * tpp), target, fit_mode) in cache || PagePaths(images, p * tpp, tpp) == []
  }

  /** The first listed page not yet cached that has images, if any. */
  function FirstUncachedPage(images: seq<string>, pages: seq<nat>, tpp: nat, target: (u32, u32), fit_mode: FitMode,
                             cache: map<CacheKey, Rendered>): (r: Option<nat>)
    ensures r.Some? ==> r.value in pages && (TilePageKey(r.value * tpp), target, fit_mode) !in cache &&
                        PagePaths(images, r.value * tpp, tpp) != []
    ensures r.None? ==> forall p | p in pages :: (TilePageKey(p * tpp), target, fit_mode) in cache ||
                                                PagePaths(images, p * tpp, tpp) == []
  {
    if pages == [] then None
    else
      var p := pages[0];
      if PageSkipped(images, p, tpp, target, fit_mode, cache) then
        FirstUncachedPage(images, pages[1..], tpp, target, fit_mode, cache)
      else Some(p)
  }

  /** The page chosen is the first one in the list that is not passed over. */
  lemma {:induction false} FirstUncachedPageIsFirst(images: seq<string>, pages: seq<nat>, tpp: nat, target: (u32, u32),
                                                    fit_mode: FitMode, cache: map<CacheKey, Rendered>)
    requires FirstUncachedPage(images, pages, tpp, target, fit_mode, cache).Some?
    ensures exists k | 0 <= k < |pages| ::
      pages[k] == FirstUncachedPage(images, pages, tpp, target, fit_mode, cache).value &&
      !PageSkipped(images, pages[k], tpp, target, fit_mode, cache) &&
      forall j | 0 <= j < k :: PageSkipped(images, pages[j], tpp, target, fit_mode, cache)
  {
    var r := FirstUncachedPage(images, pages, tpp, target, fit_mode, cache);
    if PageSkipped(images, pages[0], tpp, target, fit_mode, cache) {
      var rest := pages[1..];
      assert r == FirstUncachedPage(images, rest, tpp, target, fit_mode, cache);
      FirstUncachedPageIsFirst(images, rest, tpp, target, fit_mode, cache);
      var k :| 0 <= k < |rest| && rest[k] == r.value &&
               !PageSkipped(images, rest[k], tpp, target, fit_mode, cache) &&
               forall j | 0 <= j < k :: PageSkipped(images, rest[j], tpp, target, fit_mode, cache);
      SkippedShift(images, pages, k, tpp, target, fit_mode, cache);
    } else {
      assert pages[0] == r.value;
    }
  }

  /** Pages passed over in the tail, after a first page passed over, are passed over one position on. */
  lemma SkippedShift(images: seq<string>, pages: seq<nat>, k: nat, tpp: nat, target: (u32, u32),
                     fit_mode: FitMode, cache: map<CacheKey, Rendered>)
    requires k + 1 < |pages| && PageSkipped(images, pages[0], tpp, target, fit_mode, cache)
    requires forall j | 0 <= j < k :: PageSkipped(images, pages[1..][j], tpp, target, fit_mode, cache)
    ensures pages[k + 1] == pages[1..][k]
    ensures forall j | 0 <= j < k + 1 :: PageSkipped(images, pages[j], tpp, target, fit_mode, cache)
  {
    forall j | 0 < j < k + 1
      ensures PageSkipped(images, pages[j], tpp, target, fit_mode, cache)
    {
      assert pages[j] == pages[1..][j - 1];
    }
  }

  function PrefetchTileState(s: State, area: Rect, cell: (u16, u16), grid: (nat, nat)): State {
    var tpp := grid.0 * grid.1;
    if cell.0 == 0 || cell.1 == 0 || area.width == 0 || area.height == 0 || tpp == 0 then s
    else
      var total := DivCeil(|s.images|, tpp);
      if total <= 1 then s
      else
        var target := Target(area, cell);
        var page := PageOf(s.tile_cursor, tpp);
        var sig := Signature(Tile, s.fit_mode, target, s.prefetch_count, page, Some(grid));
        if s.last_signature == Some(sig) then s
        else
          RequestFirstPage(s, PrefetchPages(page, total, s.prefetch_count), target, grid, cell, sig)
  }

  /** Ask the worker for the first of `pages` that is not cached, and remember `sig` when one is asked for. */
  function RequestFirstPage(s: State, pages: seq<nat>, target: (u32, u32), grid: (nat, nat), cell: (u16, u16),
                            sig: Signature): State {
    var tpp := grid.0 * grid.1;
    match FirstUncachedPage(s.images, pages, tpp, target, s.fit_mode, s.cache)
    case None => s
    case Some(p) =>
      s.(to_worker := s.to_worker + [Worker.ImageRequest(TilePageKey(p * tpp), target, s.fit_mode, s.kgp_id, s.is_tmux,
                                                         Tile, Some(PagePaths(s.images, p * tpp, tpp)), Some(grid), Some(cell))],
         last_signature := Some(sig))
  }

  /**
   * Tile-view prefetch asks the worker for at most one page: the first page in the
   * alternating neighbour list (no wrap-around) that is not cached. It leaves the pending
   * request alone, and calling it again straight away does nothing.
   */
  lemma PrefetchTileSpec(s: State, area: Rect, cell: (u16, u16), grid: (nat, nat))
    requires Inv(s)
    ensures var r := PrefetchTileState(s, area, cell, grid);
      Inv(r) && r.to_writer == s.to_writer && r.to_prefetch == s.to_prefetch && r.cache == s.cache &&
      r.pending_request == s.pending_request && PrefetchTileState(r, area, cell, grid) == r &&
      (r.to_worker == s.to_worker || |r.to_worker| == |s.to_worker| + 1) &&
      (r.to_worker != s.to_worker ==>
        var req := r.to_worker[|s.to_worker|];
        var tpp := grid.0 * grid.1;
        tpp > 0 && req.view_mode.Tile? && req.tile_grid == Some(grid) &&
        exists p :: p in PrefetchPages(PageOf(s.tile_cursor, tpp), DivCeil(|s.images|, tpp), s.prefetch_count) &&
                    req.path == TilePageKey(p * tpp) && (req.path, req.target, s.fit_mode) !in s.cache)
  {
  }

  /** A request made for `pages` names the first of them that is neither cached nor empty. */
  lemma RequestFirstPageFirst(s: State, pages: seq<nat>, target: (u32, u32), grid: (nat, nat), cell: (u16, u16),
                              sig: Signature)
    ensures var r := RequestFirstPage(s, pages, target, grid, cell, sig);
      r.to_worker != s.to_worker ==>
        |r.to_worker| == |s.to_worker| + 1 && r.to_worker[|s.to_worker|].target == target &&
        exists k | 0 <= k < |pages| :: r.to_worker[|s.to_worker|].path == TilePageKey(pages[k] * (grid.0 * grid.1)) &&
          forall j | 0 <= j < k :: PageSkipped(s.images, pages[j], grid.0 * grid.1, target, s.fit_mode, s.cache)
  {
    var tpp := grid.0 * grid.1;
    if FirstUncachedPage(s.images, pages, tpp, target, s.fit_mode, s.cache).Some? {
      FirstUncachedPageIsFirst(s.images, pages, tpp, target, s.fit_mode, s.cache);
    }
  }

  /** Past its guards, tile-view prefetch is a request for the first usable page of the neighbour list. */
  lemma PrefetchTileIsRequest(s: State, area: Rect, cell: (u16, u16), grid: (nat, nat))
    requires cell.0 > 0 && cell.1 > 0 && area.width > 0 && area.height > 0 && grid.0 * grid.1 > 0
    requires DivCeil(|s.images|, grid.0 * grid.1) > 1
    requires s.last_signature != Some(Signature(Tile, s.fit_mode, Target(area, cell), s.prefetch_count,
                                                PageOf(s.tile_cursor, grid.0 * grid.1), Some(grid)))
    ensures PrefetchTileState(s, area, cell, grid) ==
      RequestFirstPage(s, PrefetchPages(PageOf(s.tile_cursor, grid.0 * grid.1), DivCeil(|s.images|, grid.0 * grid.1), s.prefetch_count),
                       Target(area, cell), grid, cell,
                       Signature(Tile, s.fit_mode, Target(area, cell), s.prefetch_count, PageOf(s.tile_cursor, grid.0 * grid.1), Some(grid)))
  {
  }

  /**
   * The page tile-view prefetch asks for is the first page of the alternating neighbour list
   * that is neither cached nor empty: every page listed before it is passed over.
   */
  lemma PrefetchTileFirst(s: State, area: Rect, cell: (u16, u16), grid: (nat, nat))
    ensures var r := PrefetchTileState(s, area, cell, grid);
      r.to_worker != s.to_worker ==>
        var tpp := grid.0 * grid.1;
        var pages := PrefetchPages(PageOf(s.tile_cursor, tpp), DivCeil(|s.images|, tpp), s.prefetch_count);
        |r.to_worker| == |s.to_worker| + 1 && r.to_worker[|s.to_worker|].target == Target(area, cell) &&
        exists k | 0 <= k < |pages| :: r.to_worker[|s.to_worker|].path == TilePageKey(pages[k] * tpp) &&
          forall j | 0 <= j < k :: PageSkipped(s.images, pages[j], tpp, Target(area, cell), s.fit_mode, s.cache)
  {
    var tpp := grid.0 * grid.1;
    if cell.0 > 0 && cell.1 > 0 && area.width > 0 && area.height > 0 && tpp > 0 && DivCeil(|s.images|, tpp) > 1 {
      var page := PageOf(s.tile_cursor, tpp);
      var sig := Signature(Tile, s.fit_mode, Target(area, cell), s.prefetch_count, page, Some(grid));
      if s.last_signature != Some(sig) {
        PrefetchTileIsRequest(s, area, cell, grid);
        RequestFirstPageFirst(s, PrefetchPages(page, DivCeil(|s.images|, tpp), s.prefetch_count), Target(area, cell), grid, cell, sig);
      }
    }
  }

  /** `prefetch_adjacent`: nothing while a render is pending or prefetching is off. */
  function PrefetchAdjacentState(s: State, area: Rect, cell: (u16, u16), grid: (nat, nat)): State {
    if s.pending_request.Some? || s.prefetch_count == 0 then s
    else match s.view_mode
      case Single => PrefetchSingleState(s, area, cell)
      case Tile => PrefetchTileState(s, area, cell, grid)
  }
}
