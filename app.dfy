/**
 * The orchestrator as the object the event loop drives. Each method updates the fields in
 * place and is proved to take the state, seen as a value through `View`, to exactly the
 * state the matching function of `AppState` describes; the properties of those functions
 * are proved there.
 */
module App {
  import opened Bytes
  import opened Seqs
  import opened Rects
  import opened Fit
  import opened Navigation
  import opened AppState
  import W = Writer
  import Worker
  import Kgp

  class App {
    const images: seq<string>
    var current_index: nat
    var fit_mode: FitMode
    var view_mode: ViewMode
    var tile_cursor: nat
    var prev_tile_cursor: Option<nat>
    /** Owned by the object and never shared; `reload` and `handle_resize` reset it in place. */
    const kgp_state: Kgp.KgpState
    var pending_request: Option<CacheKey>
    var render_cache: map<CacheKey, Rendered>
    var render_cache_order: seq<CacheKey>
    const render_cache_limit: nat
    /** Chosen once, when the object is built, and never reassigned. */
    const kgp_id: u32
    var in_flight_transmit: bool
    var pending_display: Option<Rect>
    var render_epoch: nat
    var clear_after_nav: bool
    const is_tmux: bool
    const prefetch_count: nat
    var last_prefetch_signature: Option<Signature>
    /** The prefetch worker's epoch: the number of cancellations sent to it. */
    var prefetch_epoch: nat
    /** Everything sent to the output writer, the image worker and the prefetch worker, oldest first. */
    var to_writer: seq<W.WriterRequest>
    var to_worker: seq<Worker.ImageRequest>
    var to_prefetch: seq<PrefetchBatch>

    function View(): State
      reads this, kgp_state
    {
      State(images, current_index, fit_mode, view_mode, tile_cursor, prev_tile_cursor,
            kgp_state.last_area, kgp_state.last_kgp_id, pending_request, render_cache, render_cache_order,
            render_cache_limit, kgp_id, in_flight_transmit, pending_display, render_epoch, clear_after_nav,
            is_tmux, prefetch_count, last_prefetch_signature, prefetch_epoch, to_writer, to_worker, to_prefetch)
    }

    ghost predicate Valid()
      reads this, kgp_state
    {
      Inv(View())
    }

    /** `App::new`: pick the protocol id from the process id and clear any stale images. */
    constructor (images: seq<string>, render_cache_limit: nat, prefetch_count: nat, is_tmux: bool, pid: bv32)
      ensures View() == Initial(images, render_cache_limit, prefetch_count, SearchFrom(pid, MAX_ATTEMPTS) as int, is_tmux)
      ensures Valid() && GoodId(kgp_id as bv32)
    {
      var id := GenerateKgpId(pid);
      this.images := images;
      this.render_cache_limit := render_cache_limit;
      this.prefetch_count := prefetch_count;
      this.is_tmux := is_tmux;
      kgp_id := id as int;
      current_index := 0;
      fit_mode := Normal;
      view_mode := DefaultViewMode();
      tile_cursor := 0;
      prev_tile_cursor := None;
      kgp_state := new Kgp.KgpState();
      pending_request := None;
      render_cache := map[];
      render_cache_order := [];
      in_flight_transmit := false;
      pending_display := None;
      render_epoch := 0;
      clear_after_nav := false;
      last_prefetch_signature := None;
      prefetch_epoch := 0;
      to_writer := [W.ClearAll(None, is_tmux)];
      to_worker := [];
      to_prefetch := [];
      new;
      InitialInv(images, render_cache_limit, prefetch_count, id as int, is_tmux);
    }

    method InvalidateRender()
      modifies this
      ensures View() == Invalidated(old(View()))
    {
      pending_request := None;
      prefetch_epoch := prefetch_epoch + 1;
      last_prefetch_signature := None;
    }

    method MoveBy(delta: int)
      modifies this
      ensures View() == MoveByState(old(View()), delta)
    {
      if delta == 0 || |images| == 0 {
        return;
      }
      current_index := Navigation.MoveBy(current_index, delta, |images|);
      InvalidateRender();
    }

    method ToggleFitMode()
      modifies this
      ensures View() == ToggleFitState(old(View()))
    {
      fit_mode := Next(fit_mode);
      InvalidateRender();
    }

    method ToggleViewMode()
      modifies this
      ensures View() == ToggleViewState(old(View()))
    {
      match view_mode {
        case Single =>
          view_mode := Tile;
          tile_cursor := current_index;
        case Tile =>
          current_index := tile_cursor;
          view_mode := Single;
      }
      InvalidateRender();
    }

    method MoveTileCursor(delta: int, grid: (nat, nat)) returns (page_changed: bool)
      modifies this
      ensures (View(), page_changed) == MoveTileCursorState(old(View()), delta, grid)
    {
      if |images| == 0 {
        return false;
      }
      var tiles_per_page := grid.0 * grid.1;
      if tiles_per_page == 0 {
        return false;
      }
      var old_page := tile_cursor / tiles_per_page;
      prev_tile_cursor := Some(tile_cursor);
      tile_cursor := Navigation.MoveBy(tile_cursor, delta, |images|);
      var new_page := tile_cursor / tiles_per_page;
      page_changed := old_page != new_page;
      if page_changed {
        InvalidateRender();
      }
    }

    method MoveTileCursorRow(delta: int, grid: (nat, nat)) returns (page_changed: bool)
      modifies this
      ensures (View(), page_changed) == MoveTileCursorRowState(old(View()), delta, grid)
    {
      page_changed := MoveTileCursor(SatMulI32(delta, grid.0), grid);
    }

    method MoveTilePage(delta: int, grid: (nat, nat))
      modifies this
      ensures View() == MoveTilePageState(old(View()), delta, grid)
    {
      var tiles_per_page := grid.0 * grid.1;
      var len := |images|;
      if len == 0 || tiles_per_page == 0 {
        return;
      }
      var current_page := tile_cursor / tiles_per_page;
      var max_page := (len - 1) / tiles_per_page;
      var new_page := ClampInt(current_page + delta, 0, max_page);
      if new_page == current_page {
        return;
      }
      prev_tile_cursor := Some(tile_cursor);
      tile_cursor := new_page * tiles_per_page;
      InvalidateRender();
    }

    method SelectTile()
      modifies this
      ensures View() == SelectTileState(old(View()))
    {
      if |images| == 0 {
        return;
      }
      current_index := ClampIndex(tile_cursor, |images|);
      view_mode := Single;
      InvalidateRender();
    }

    method GoToIndexWithTile(index: nat)
      modifies this
      ensures View() == GoToIndexState(old(View()), index)
    {
      if |images| == 0 {
        return;
      }
      var i := ClampIndex(index, |images|);
      current_index := i;
      tile_cursor := i;
      prev_tile_cursor := None;
      InvalidateRender();
    }

    // ---------------------------------------------------------- render cache

    method InsertToCache(key: CacheKey, value: Rendered)
      modifies this
      ensures View() == AppState.InsertToCache(old(View()), key, value)
    {
      if key in render_cache {
        render_cache_order := Without(render_cache_order, key);
      } else if |render_cache| >= render_cache_limit {
        if render_cache_order != [] {
          var oldest := render_cache_order[0];
          render_cache_order := render_cache_order[1..];
          render_cache := render_cache - {oldest};
        }
      }
      render_cache_order := render_cache_order + [key];
      render_cache := render_cache[key := value];
    }

    method TouchRenderCache(key: CacheKey)
      modifies this
      ensures View() == TouchRender(old(View()), key)
    {
      if render_cache_order != [] && render_cache_order[|render_cache_order| - 1] == key {
        return;
      }
      if key !in render_cache {
        return;
      }
      render_cache_order := Without(render_cache_order, key) + [key];
    }

    // ---------------------------------------------------------- epochs and replies

    method CancelImageOutput()
      modifies this, kgp_state
      ensures View() == CancelState(old(View()))
    {
      ghost var r := CancelState(View());
      if render_epoch < U64_MAX {
        render_epoch := render_epoch + 1;
      }
      var cancel_area := pending_display;
      to_writer := to_writer + [W.CancelImage(cancel_area, render_epoch)];
      clear_after_nav := true;
      in_flight_transmit := false;
      pending_display := None;
      kgp_state.Invalidate();
      assert render_epoch == r.epoch && to_writer == r.to_writer;
    }

    method Reload()
      modifies this, kgp_state
      ensures View() == ReloadState(old(View()))
    {
      CancelImageOutput();
      render_cache := map[];
      render_cache_order := [];
      pending_request := None;
      kgp_state.Reset();
      prefetch_epoch := prefetch_epoch + 1;
      last_prefetch_signature := None;
    }

    method ClearKgpOverlay()
      modifies this
      ensures View() == ClearKgpOverlayState(old(View()))
    {
      var area := kgp_state.last_area;
      if area.None? {
        return;
      }
      to_writer := to_writer + [W.ClearAll(area, is_tmux)];
    }

    method HandleResize()
      modifies this, kgp_state
      ensures View() == HandleResizeState(old(View()))
    {
      ClearKgpOverlay();
      render_cache := map[];
      render_cache_order := [];
      pending_request := None;
      kgp_state.Reset();
      prefetch_epoch := prefetch_epoch + 1;
      last_prefetch_signature := None;
    }

    /** `poll_writer` over the replies that have arrived, oldest first. */
    method PollWriter(results: seq<W.WriterResult>)
      modifies this, kgp_state
      ensures View() == PollWriterState(old(View()), results)
    {
      ghost var s0 := View();
      var i := 0;
      while i < |results|
        invariant 0 <= i <= |results|
        invariant View() == PollWriterState(s0, results[..i])
      {
        var result := results[i];
        if result.epoch == render_epoch {
          if result.kind.TransmitDone? {
            in_flight_transmit := false;
          }
          if pending_display.Some? {
            var area := pending_display.value;
            pending_display := None;
            kgp_state.SetLast(area, kgp_id);
          }
        }
        assert results[..i + 1][..i] == results[..i];
        i := i + 1;
      }
      assert results[..i] == results;
    }

    /** `poll_worker` over the main worker's results, then the prefetch worker's. */
    method PollWorker(main: seq<Delivery>, prefetched: seq<Delivery>)
      modifies this
      ensures View() == PollWorkerState(old(View()), main, prefetched)
    {
      AcceptMainResults(main);
      AcceptPrefetchedResults(prefetched);
    }

    /** The main worker's results: clear the pending request they answer and cache each one. */
    method AcceptMainResults(main: seq<Delivery>)
      modifies this
      ensures View() == AcceptAllMain(old(View()), main)
    {
      ghost var s0 := View();
      var i := 0;
      while i < |main|
        invariant 0 <= i <= |main|
        invariant View() == AcceptAllMain(s0, main[..i])
      {
        AcceptMainResult(main[i]);
        assert main[..i + 1][..i] == main[..i];
        i := i + 1;
      }
      assert main[..i] == main;
    }

    /** One main result: it settles the pending request it answers, and is cached. */
    method AcceptMainResult(d: Delivery)
      modifies this
      ensures View() == AcceptMain(old(View()), d)
    {
      var result := d.result;
      var key := (result.path, result.target, result.fit_mode);
      if pending_request == Some(key) {
        pending_request := None;
      }
      InsertToCache(key, Rendered(result.original_size, result.actual_size, d.encoded_chunks));
    }

    /** The prefetch worker's results: cache each one whose key is not cached yet. */
    method AcceptPrefetchedResults(prefetched: seq<Delivery>)
      modifies this
      ensures View() == AcceptAllPrefetched(old(View()), prefetched)
    {
      ghost var s0 := View();
      var j := 0;
      while j < |prefetched|
        invariant 0 <= j <= |prefetched|
        invariant View() == AcceptAllPrefetched(s0, prefetched[..j])
      {
        AcceptPrefetchedResult(prefetched[j]);
        assert prefetched[..j + 1][..j] == prefetched[..j];
        j := j + 1;
      }
      assert prefetched[..j] == prefetched;
    }

    /** One prefetched result: cached unless its key already is. */
    method AcceptPrefetchedResult(d: Delivery)
      modifies this
      ensures View() == AcceptPrefetched(old(View()), d)
    {
      var result := d.result;
      var key := (result.path, result.target, result.fit_mode);
      if key !in render_cache {
        InsertToCache(key, Rendered(result.original_size, result.actual_size, d.encoded_chunks));
      }
    }

    // ---------------------------------------------------------- rendering

    /** The cache-hit branch of both render preparations. */
    method ShowCached(key: CacheKey, area: Rect)
      requires key in render_cache
      modifies this
      ensures View() == AppState.ShowCached(old(View()), key, area)
    {
      var encoded_chunks := render_cache[key].encoded_chunks;
      TouchRenderCache(key);
      ShowRendered(encoded_chunks, area);
    }

    /** Transmit `encoded_chunks` at `area` unless it is shown, pending, or another transmit is in flight. */
    method ShowRendered(encoded_chunks: seq<seq<byte>>, area: Rect)
      modifies this
      ensures View() == AppState.ShowRendered(old(View()), encoded_chunks, area)
    {
      ghost var r := AppState.ShowRendered(View(), encoded_chunks, area);
      var old_area := kgp_state.last_area;
      if old_area == Some(area) && kgp_state.last_kgp_id == Some(kgp_id) {
        return;
      }
      if pending_display == Some(area) {
        return;
      }
      if in_flight_transmit {
        return;
      }
      in_flight_transmit := true;
      var cleared := [];
      if clear_after_nav {
        cleared := [W.ClearAll(None, is_tmux)];
        clear_after_nav := false;
      }
      to_writer := to_writer + cleared + [W.ImageTransmit(encoded_chunks, area, kgp_id, old_area, render_epoch, is_tmux)];
      pending_display := Some(area);
    }

    /** The cache-miss branch: ask the worker unless the same key is pending. */
    method RequestRender(key: CacheKey, req: Worker.ImageRequest)
      modifies this
      ensures View() == AppState.RequestRender(old(View()), key, req)
    {
      if pending_request != Some(key) {
        to_worker := to_worker + [req];
        pending_request := Some(key);
      }
    }

    method PrepareSingleRender(area: Rect, cell: (u16, u16))
      requires Fits(area)
      modifies this
      ensures View() == PrepareSingleState(old(View()), area, cell)
    {
      if current_index >= |images| {
        return;
      }
      var path := images[current_index];
      if cell.0 == 0 || cell.1 == 0 || area.width == 0 || area.height == 0 {
        return;
      }
      var target := Target(area, cell);
      var key := (path, target, fit_mode);
      if key in render_cache {
        ShowCached(key, SingleArea(area, render_cache[key].actual_size, cell));
        return;
      }
      RequestRender(key, Worker.ImageRequest(path, target, fit_mode, kgp_id, is_tmux, Single, None, None, None));
    }

    method PrepareTileRender(area: Rect, cell: (u16, u16), grid: (nat, nat))
      requires Fits(area) && 0 < grid.0 && 0 < grid.1
      modifies this
      ensures View() == PrepareTileState(old(View()), area, cell, grid)
    {
      if cell.0 == 0 || cell.1 == 0 || area.width == 0 || area.height == 0 {
        return;
      }
      var target := Target(area, cell);
      var tiles_per_page := grid.0 * grid.1;
      var page_start := (tile_cursor / tiles_per_page) * tiles_per_page;
      var tile_paths := PagePaths(images, page_start, tiles_per_page);
      if tile_paths == [] {
        return;
      }
      var key := (TilePageKey(page_start), target, fit_mode);
      if key in render_cache {
        ShowCached(key, TileArea(area, render_cache[key].actual_size, cell));
        return;
      }
      RequestRender(key, Worker.ImageRequest(key.0, target, fit_mode, kgp_id, is_tmux, Tile, Some(tile_paths), Some(grid), Some(cell)));
    }

    method PrepareRenderRequest(area: Rect, cell: (u16, u16), grid: (nat, nat), allow_transmission: bool)
      requires Fits(area) && 0 < grid.0 && 0 < grid.1
      modifies this
      ensures View() == PrepareRenderState(old(View()), area, cell, grid, allow_transmission)
    {
      if !allow_transmission {
        return;
      }
      match view_mode
      case Single => PrepareSingleRender(area, cell);
      case Tile => PrepareTileRender(area, cell, grid);
    }

    method DrawTileCursor(area: Rect, grid: (nat, nat), cell: (u16, u16))
      modifies this
      ensures View() == DrawTileCursorState(old(View()), area, grid, cell)
    {
      var tiles_per_page := grid.0 * grid.1;
      if tiles_per_page == 0 {
        return;
      }
      var prev := match prev_tile_cursor case None => None case Some(p) => Some(p % tiles_per_page);
      to_writer := to_writer + [W.TileCursor(grid, tile_cursor % tiles_per_page, area, prev, cell)];
    }

    method CopyPathToClipboard() returns (copied: bool)
      modifies this
      ensures (View(), copied) == CopyPathState(old(View()))
    {
      if current_index >= |images| {
        return false;
      }
      to_writer := to_writer + [W.CopyToClipboard(Utf8Text(images[current_index]), is_tmux)];
      return true;
    }

    // ---------------------------------------------------------- prefetch

    method PrefetchAdjacent(area: Rect, cell: (u16, u16), grid: (nat, nat))
      modifies this
      ensures View() == PrefetchAdjacentState(old(View()), area, cell, grid)
    {
      if pending_request.Some? || prefetch_count == 0 {
        return;
      }
      match view_mode
      case Single => PrefetchAdjacentSingle(area, cell);
      case Tile => PrefetchAdjacentTile(area, cell, grid);
    }

    method PrefetchAdjacentSingle(area: Rect, cell: (u16, u16))
      modifies this
      ensures View() == PrefetchSingleState(old(View()), area, cell)
    {
      var len := |images|;
      if cell.0 == 0 || cell.1 == 0 || area.width == 0 || area.height == 0 || len <= 1 {
        return;
      }
      var target := Target(area, cell);
      var signature := Signature(Single, fit_mode, target, prefetch_count, current_index, None);
      if last_prefetch_signature == Some(signature) {
        return;
      }
      var indices := NeighbourList(current_index, len, prefetch_count);
      var paths := CollectUncached(images, indices, target, fit_mode, render_cache);
      if paths == [] {
        return;
      }
      to_prefetch := to_prefetch + [PrefetchBatch(paths, target, fit_mode, prefetch_epoch, kgp_id, is_tmux)];
      last_prefetch_signature := Some(signature);
    }

    method PrefetchAdjacentTile(area: Rect, cell: (u16, u16), grid: (nat, nat))
      modifies this
      ensures View() == PrefetchTileState(old(View()), area, cell, grid)
    {
      var tiles_per_page := grid.0 * grid.1;
      if cell.0 == 0 || cell.1 == 0 || area.width == 0 || area.height == 0 || tiles_per_page == 0 {
        return;
      }
      var total_pages := DivCeil(|images|, tiles_per_page);
      if total_pages <= 1 {
        return;
      }
      var target := Target(area, cell);
      var current_page := tile_cursor / tiles_per_page;
      var signature := Signature(Tile, fit_mode, target, prefetch_count, current_page, Some(grid));
      if last_prefetch_signature == Some(signature) {
        return;
      }
      var pages := PageList(current_page, total_pages, prefetch_count);
      RequestFirstPage(pages, target, grid, cell, signature);
    }

    /** The page loop of `prefetch_adjacent_tile`: request the first page that is neither cached nor empty. */
    method RequestFirstPage(pages: seq<nat>, target: (u32, u32), grid: (nat, nat), cell: (u16, u16), signature: Signature)
      modifies this
      ensures View() == AppState.RequestFirstPage(old(View()), pages, target, grid, cell, signature)
    {
      var tiles_per_page := grid.0 * grid.1;
      var found := FindUncachedPage(images, pages, tiles_per_page, target, fit_mode, render_cache);
      if found.None? {
        return;
      }
      var page_start := found.value * tiles_per_page;
      to_worker := to_worker + [Worker.ImageRequest(TilePageKey(page_start), target, fit_mode, kgp_id, is_tmux, Tile,
                                                    Some(PagePaths(images, page_start, tiles_per_page)), Some(grid), Some(cell))];
      last_prefetch_signature := Some(signature);
    }
  }

  /**
   * The push loop of `prefetch_adjacent_single`: `i` ahead, then `i` behind, for `i` in
   * `1..=count`, wrapping around the list; for an index in the list, the seen-set walk that
   * follows keeps exactly what it keeps of the code's usize arithmetic.
   */
  method NeighbourList(current: nat, len: nat, count: nat) returns (indices: seq<nat>)
    requires 0 < len
    ensures indices == PrefetchIndices(current, len, count)
    ensures forall j | 0 <= j < |indices| :: indices[j] < len
    ensures current < len && current + len < USIZE_MODULUS ==>
      FirstOccurrences(indices) == FirstOccurrences(PrefetchIndicesAsWritten(current, len, count))
  {
    indices := [];
    var i := 1;
    while i <= count
      invariant 1 <= i <= count + 1
      invariant indices == PrefetchIndices(current, len, i - 1)
      invariant forall j | 0 <= j < |indices| :: indices[j] < len
    {
      indices := indices + [Navigation.MoveBy(current, i, len), Navigation.MoveBy(current, -i, len)];
      i := i + 1;
    }
    if current < len && current + len < USIZE_MODULUS {
      DedupAgrees(current, len, count);
    }
  }

  /** The push loop of `prefetch_adjacent_tile`: the page `i` ahead and the page `i` behind, when they exist. */
  method PageList(current: nat, total: nat, count: nat) returns (pages: seq<nat>)
    ensures pages == PrefetchPages(current, total, count)
  {
    pages := [];
    var i := 1;
    while i <= count
      invariant 1 <= i <= count + 1
      invariant pages == PrefetchPages(current, total, i - 1)
    {
      if current + i < total {
        pages := pages + [current + i];
      }
      if current >= i {
        pages := pages + [current - i];
      }
      i := i + 1;
    }
  }

  /**
   * The page loop of `prefetch_adjacent_tile`: the first page in `pages` whose render is
   * not cached and which holds at least one image.
   */
  method FindUncachedPage(images: seq<string>, pages: seq<nat>, tpp: nat, target: (u32, u32), fit_mode: FitMode,
                          cache: map<CacheKey, Rendered>) returns (found: Option<nat>)
    ensures found == FirstUncachedPage(images, pages, tpp, target, fit_mode, cache)
  {
    var k := 0;
    while k < |pages|
      invariant 0 <= k <= |pages|
      invariant FirstUncachedPage(images, pages, tpp, target, fit_mode, cache)
             == FirstUncachedPage(images, pages[k..], tpp, target, fit_mode, cache)
    {
      var page_start := pages[k] * tpp;
      assert pages[k..][1..] == pages[k + 1..];
      if (TilePageKey(page_start), target, fit_mode) !in cache && PagePaths(images, page_start, tpp) != [] {
        return Some(pages[k]);
      }
      k := k + 1;
    }
    return None;
  }

  /**
   * The `seen`-set loop of `prefetch_adjacent_single`: walk the indices, skip repeats, and
   * keep the paths whose render is not cached.
   */
  method CollectUncached(images: seq<string>, indices: seq<nat>, target: (u32, u32), fit_mode: FitMode,
                         cache: map<CacheKey, Rendered>) returns (paths: seq<string>)
    requires forall j | 0 <= j < |indices| :: indices[j] < |images|
    ensures forall j | 0 <= j < |FirstOccurrences<nat>(indices)| :: FirstOccurrences<nat>(indices)[j] < |images|
    ensures paths == UncachedPaths(images, FirstOccurrences<nat>(indices), target, fit_mode, cache)
  {
    var seen: set<nat> := {};
    ghost var firsts: seq<nat> := [];
    paths := [];
    var k := 0;
    while k < |indices|
      invariant 0 <= k <= |indices|
      invariant forall x :: x in seen <==> x in indices[..k]
      invariant firsts == FirstOccurrences<nat>(indices[..k])
      invariant forall j | 0 <= j < |firsts| :: firsts[j] < |images|
      invariant paths == UncachedPaths(images, firsts, target, fit_mode, cache)
    {
      var idx := indices[k];
      FirstOccurrencesSnoc(indices, k);
      SeenSnoc(indices, k, seen);
      var inserted := idx !in seen;
      seen := seen + {idx};
      if inserted {
        UncachedPathsSnoc(images, firsts, idx, target, fit_mode, cache);
        firsts := firsts + [idx];
        if (images[idx], target, fit_mode) !in cache {
          paths := paths + [images[idx]];
        }
      }
      k := k + 1;
    }
    assert indices[..k] == indices;
  }
}
