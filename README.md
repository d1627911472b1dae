# svt core, modelled in Dafny

svt is a terminal image viewer. It shows images with the kitty graphics protocol (KGP), in a
single-image view or in a tile grid of thumbnails. This project models the viewer's core and
proves properties of the model:

- **Orchestrator** (`App.App`, over the record `AppState.State`). It holds the image list,
  navigation, the fit and view modes, the tile cursor, the LRU render cache and the epoch that
  outdates image output. Its requests to the output writer, the render worker and the prefetch
  worker are the sequences `to_writer`, `to_worker` and `to_prefetch`.
- **Output writer thread** (`Writer`, with `Writer.WriterState` as the class). It applies requests
  gated by epoch and runs one transmit task at a time, chunk by chunk. It writes the status line
  before the next chunk and reports `TransmitDone` only once the queue is empty. It also covers
  the rectangle algebra of the dirty area (`Rects`), the tile-cursor box, UTF-8 clipping and
  OSC 52 clipboard output.
- **Protocol encoders** (`Kgp`, `Transmit`, `Base64`, `Diacritics`). These are deletion, erasure,
  placement and transmission. Each encoder has a parser, and the model proves that the parser
  reads back what the encoder wrote. A terminal that reassembles a transmission gets the image's
  pixel bytes back.
- **Render worker** (`Worker`). It drains to the latest request, and it abandons a render when a
  newer request is queued. It also computes the tile layout, the thumbnail LRU and the canvas copy
  guard. `TileOverlay` proves that the writer's cursor box frames exactly the worker's tile.
- **Configuration** (`Config`), the **fit mode** (`Fit`), and the **event loop** of `main.rs`
  (`EventLoop`). The event loop covers image collection, the count prefix, the key bindings, the
  navigation latch and the per-frame work.

Channels, clocks and the terminal are parameters:

- a channel is the sequence of messages queued on it;
- the time is a number passed in;
- terminal output is a list of `Output` values, or the bytes of each command.

Integers are unbounded. The source's `u16`, `u32` and `u64` ranges are subset types, or
invariants such as `Fits` and `epoch <= U64_MAX`.

Behaviour of the code a reader may not expect:

- `reload` clears the whole render cache (`src/app.rs:287-289`).
- `poll_worker` caches every finished render with no epoch check, because `ImageResult`
  carries no epoch. A prefetched render never replaces an entry already in the cache
  (`src/app.rs:367-394`).
- The writer's `CancelImage` drops the current task whenever its epoch is at least the
  current one, busy or idle (`src/sender.rs:244-248`). The event loop skips
  `cancel_image_output` while a transmit is in flight (`src/main.rs:357-367`).
- Each colour component of the image id is at least 16 (`src/app.rs:141-154`).
- The epoch saturates at `u64::MAX` (`src/app.rs:550`).
- `worker.rs` calls `encode_chunks` with a fourth argument, the compression level
  (`src/worker.rs:246`, `src/worker.rs:319`), but `kgp.rs` declares three parameters
  (`src/kgp.rs:131`). The model follows `kgp.rs` and transmits uncompressed.
- `app.rs` constructs `ImageWorker::new` with the tile thread count (`src/app.rs:112`), but
  `worker.rs` declares it without arguments (`src/worker.rs:103`). Thread counts are not
  modelled.
- The prefetch worker (`crate::prefetch`) is not part of this model. Its batches
  (`src/app.rs:866`) are recorded in `to_prefetch` with the prefetch epoch they were sent under.

## Model

| member | source | states |
|---|---|---|
| Fit.Next | src/fit.rs:14-19 | toggling the fit mode always changes it |
| Fit.NextInvolution | src/fit.rs:14-19 | toggling twice gives back the original mode |
| Fit.NextBijective | src/fit.rs:14-19 | `next(a) == b` exactly when `a != b`: the toggle is a bijection between the two modes |
| Fit.DefaultViewMode | src/fit.rs:22-27 | the default view is the single-image view |
| Config.LeadingSpace | src/config.rs:59 | the count of leading characters that `trim` removes: all are Unicode white space and the next is not |
| Config.TrimmedEnd | src/config.rs:59 | the end index `trim` keeps: everything after it is white space and the character before it is not |
| Config.Trim | src/config.rs:59 | the trimmed name neither starts nor ends with white space, is no longer than the input, and a name without white space is unchanged |
| Config.AsciiLower | src/config.rs:60 | ASCII upper-case letters map 32 code points down, every other character is unchanged (the folding of `eq_ignore_ascii_case`) |
| Config.ParseFilterType | src/config.rs:58-73 | every accepted spelling (trimmed, any ASCII case, including `catmull-rom` and `lanczos`) yields its filter, and any result other than `Triangle` was spelled as that filter; unknown names fall back to `Triangle` |
| Config.FilterName | src/config.rs:58-73 | each filter has a name that the parser accepts for it |
| Config.ParseFilterName | src/config.rs:58-73 | a filter's name in any ASCII case, padded with white space on both sides, parses back to that filter |
| Config.TrimPadded | src/config.rs:59 | trimming a name padded with white space gives the name back |
| Config.TrimmedEndPadded | src/config.rs:59 | trailing white space after a non-space character is exactly what is trimmed at the end |
| Config.LeadingSpacePadded | src/config.rs:59 | leading white space before a non-space character is exactly what is trimmed at the start |
| Config.Clamp | src/config.rs:148 | `clamp(v, lo, hi)` lies in range, is `v` when `v` is in range and the nearer bound otherwise |
| Config.ClampReal | src/config.rs:150 | the clamped cell aspect ratio lies in `[1.0, 4.0]` and an in-range value is unchanged |
| Config.Min | src/config.rs:147 | `min` is a lower bound of both arguments and equals one of them |
| Config.ClampIdempotent | src/config.rs:142-153 | clamping twice is clamping once |
| Config.Config.constructor | src/config.rs:34-54 | the defaults: latch 150 ms, cache 100, prefetch 5, compression 6, tmux pixel cap 1 500 000, aspect 2.0, filters `triangle` and `nearest`, threads 2 and 4, all flags off; the defaults are already in range |
| Config.Config.ClampValues | src/config.rs:142-153 | each bounded field is clamped to its range (latch ≤ 5000, cache 1..500, compression ≤ 9, aspect 1.0..4.0, threads 1..8), every other field is unchanged, and an in-range configuration is left as it was |
| Config.Config.CompressionLevel | src/config.rs:159-165 | no level exactly when compression is disabled, otherwise the configured level |
| Lru.Bound | src/app.rs:397-423 | the cache's effective bound is its limit, and at least one entry (a zero limit still keeps the newest entry) |
| Lru.LruSize | src/app.rs:397-423 | a valid cache has as many entries as its recency list and never more than its bound |
| Lru.TouchValid | src/app.rs:425-434 | touching a cached key keeps map and recency list in agreement and duplicate-free |
| Lru.TouchLast | src/app.rs:425-434 | touching the most recently used key changes nothing |
| Lru.EvictValid | src/app.rs:410-418 | inserting a new key into a full cache evicts exactly the least recently used key |
| Lru.AddValid | src/app.rs:397-423 | inserting a new key below the limit keeps the cache valid |
| Lru.InsertedValid | src/app.rs:397-423 | after an insert the cache is valid, holds the value under the key, lists the key as most recent, keeps the key set when the key was present, evicts the oldest key when full, and only adds the key otherwise |
| Navigation.SearchFindsGoodId | src/app.rs:140-163 | the id search always ends on a nonzero id whose three colour bytes are each at least 16 (the fallback id included) |
| Navigation.SearchTakesFirst | src/app.rs:140-163 | when the first candidate is acceptable it is the id chosen |
| Navigation.GenerateKgpId | src/app.rs:140-163 | the loop returns the id the search specifies, and that id is acceptable |
| Navigation.MoveBy | src/app.rs:165-172 | the new index wraps around and stays inside the list |
| Navigation.MoveByCompose | src/app.rs:165-172 | moving by `a` then by `b` is moving by `a + b` |
| Navigation.MoveByInverse | src/app.rs:165-172 | moving by `-delta` undoes a move by `delta` |
| Navigation.MoveByWraps | src/app.rs:165-172 | next from the last image is the first, previous from the first is the last |
| Navigation.MoveByInside | src/app.rs:165-172 | a move that stays inside the list is plain addition |
| Navigation.TargetPage | src/app.rs:234-253 | the target page exists (clamped to the last page) |
| Navigation.PageStartInList | src/app.rs:234-253 | the first index of every existing page is in the list and lies on that page |
| Navigation.TargetPageBounds | src/app.rs:234-253 | paging forward never goes back, paging past either end stops at the first or the last page |
| Navigation.ClampIndex | src/app.rs:311-320 | a jump target is kept when in range and becomes the last index when beyond it |
| Navigation.PrefetchIndicesAsWritten | src/app.rs:840-844 | the neighbour list exactly as the code computes it, with `usize` wrap-around: two entries per step |
| Navigation.PrefetchIndices | src/app.rs:840-844 | the intended neighbour list: two entries per step |
| Navigation.PrefetchIndicesAlternate | src/app.rs:840-844 | the list alternates `+i` and `-i` neighbours with wrap-around, all inside the list |
| Navigation.PrefetchIndicesNeighbours | src/app.rs:840-844 | every listed index is a neighbour within `prefetch_count` steps |
| Navigation.PrefetchIndicesComplete | src/app.rs:840-844 | every neighbour within `prefetch_count` steps ahead or behind is listed |
| Navigation.PrefetchIndicesCover | src/app.rs:840-844 | `len` steps ahead visit every index of the list, the current one included |
| Navigation.PrefetchIndicesGrow | src/app.rs:840-844 | a longer list starts with the entries of a shorter one, in the code's list and in the intended one |
| Navigation.PrefetchAsWrittenAgrees | src/app.rs:840-844 | while the count is at most `current + len` the code as written computes the intended list |
| Navigation.BehindNoWrap | src/app.rs:843 | below that bound the code's `(current + len - i) % len` is the backward neighbour |
| Navigation.PrefetchUnderflowExample | src/app.rs:843 | with 3 images, index 0 and count 5 the code's eighth entry is 0 where the backward neighbour at distance 4 is 2 |
| Navigation.PrefetchPagesInRange | src/app.rs:923-932 | every page in the tile prefetch list is an existing page other than the current one, within `prefetch_count` pages of it |
| AppState.InitialInv | src/app.rs:92-135 | the initial state satisfies the orchestrator's invariant and has sent exactly one `ClearAll` to the writer |
| AppState.MoveByStateSpec | src/app.rs:165-172 | a move keeps the invariant, a zero move or an empty list changes nothing, otherwise the index moves with wrap-around and the opposite move returns to it |
| AppState.ToggleFitTwice | src/app.rs:175-178 | toggling fit keeps the invariant, changes the fit mode, and twice gives it back |
| AppState.ToggleViewSpec | src/app.rs:181-196 | entering the tile view puts the cursor on the current image; leaving it makes the cursor's image current; toggling twice returns to the same view and, from the single view, the same image |
| AppState.MoveTileCursorSpec | src/app.rs:200-223 | the cursor moves with wrap-around and remembers its previous cell; the result reports a page change exactly when the cursor's page changed; nothing happens for an empty list or grid |
| AppState.RowDownSameColumn | src/app.rs:227-230 | a row step down moves the cursor one grid width and keeps its column |
| AppState.MoveTilePageSpec | src/app.rs:234-253 | a page move keeps the invariant, does nothing when the page stays, and otherwise puts the cursor on the first tile of the target page |
| AppState.GoToIndexSpec | src/app.rs:311-320 | a jump sets both the current index and the tile cursor to the clamped target |
| AppState.SelectTileSpec | src/app.rs:277-284 | selecting a tile makes its image current and switches to the single view |
| AppState.InsertToCacheSpec | src/app.rs:397-423 | an insert keeps the invariant and the cache bound, stores the value as most recent, and evicts the least recently used key only when a new key meets a full cache |
| AppState.TouchRenderSpec | src/app.rs:425-434 | touching moves a cached key to the most recent position and leaves the entries alone; touching a missing key changes nothing |
| AppState.CancelSpec | src/app.rs:549-563 | a cancel forgets the placed id, keeps the last area, sets the clear-after-navigation flag and sends `CancelImage` for the pending display with the new epoch |
| AppState.ReloadSpec | src/app.rs:287-295 | a reload empties the render cache, forgets the last area and the pending request, and advances the epoch as a cancel does |
| AppState.HandleResizeSpec | src/app.rs:298-308 | a resize empties the render cache and forgets the last area, and clears the old area on the terminal exactly when there was one |
| AppState.AcceptWriterResultSpec | src/app.rs:436-449 | a writer result from another epoch is ignored; one from the current epoch completes the pending display, which becomes the placed area for the current id |
| AppState.PollWriterInv | src/app.rs:436-449 | draining writer results keeps the invariant and the epoch and sends nothing |
| AppState.StaleResultsIgnored | src/app.rs:436-449 | results that all carry another epoch leave the state unchanged |
| AppState.CancelOutdatesReplies | src/app.rs:549-563 | after a cancel, no reply to a request sent before it changes anything |
| AppState.AcceptMainSpec | src/app.rs:377-385 | a render from the main worker is cached as most recent, and clears the pending request exactly when it answers it |
| AppState.AcceptPrefetchedSpec | src/app.rs:386-393 | a prefetched render is cached only when its key is not cached yet, and never replaces an entry |
| AppState.AcceptAllMainInv | src/app.rs:377-385 | accepting any sequence of main results keeps the invariant, the cache limit, the epoch and sends nothing to the writer |
| AppState.AcceptAllPrefetchedInv | src/app.rs:386-393 | the same for prefetched results |
| AppState.PollWorkerInv | src/app.rs:367-395 | polling both workers keeps the invariant and the epoch, sends nothing to the writer, and keeps the cache within its bound |
| AppState.ProductFitsU32 | src/app.rs:594-596 | a cell count times a cell size in pixels fits in `u32` |
| AppState.DivCeilCovers | src/app.rs:608-609 | the rounded-up cell count covers the pixels and is the least count that does |
| AppState.CellsOf | src/app.rs:608-611 | the cell count of an image is the rounded-up count of its pixels, capped by the area |
| AppState.SingleArea | src/app.rs:608-619 | the single-view placement lies inside the image area, is as many cells as the image needs (capped), and is centred with the odd cell on the right or bottom |
| AppState.TileArea | src/app.rs:725-729 | the tile-view placement starts at the area's top-left corner and lies inside it |
| AppState.ShowCachedInv | src/app.rs:599-653 | showing a cached render keeps the invariant, touches the key, keeps the epoch, and sends nothing to the worker |
| AppState.ShowCachedSends | src/app.rs:599-653 | a cached render is sent only when no transmit is in flight and it is not already placed; then a pending clear is sent first and the transmit carries the cached chunks, area, id, old area and current epoch, and becomes the pending display |
| AppState.RequestRenderInv | src/app.rs:655-678 | requesting a render keeps the invariant and sends nothing to the writer |
| AppState.RequestRenderOnce | src/app.rs:655-678 | a request is sent once per key: it becomes the pending request, and repeating it sends nothing more |
| AppState.TilePageKeyInjective | src/app.rs:681-786 | distinct page starts get distinct tile-page cache keys |
| AppState.PagePaths | src/app.rs:681-786 | a page holds at most a grid's worth of paths |
| AppState.CursorOnItsPage | src/app.rs:681-786 | the tile cursor's image lies on the page built for the cursor's page, at its offset within the page |
| AppState.PrepareSingleSpec | src/app.rs:581-679 | the single-view frame keeps the invariant and sends no transmit while one is in flight; a render request, when sent, is for the current image at the area's pixel size |
| AppState.PrepareTileSpec | src/app.rs:681-786 | a tile-view render request, when sent, names the cursor's page: its key is the page start, its paths are the page's images, and the cursor's image is at its offset |
| AppState.DrawTileCursorSpec | src/app.rs:256-274 | drawing the cursor keeps the invariant and, on a non-empty grid, sends exactly one `TileCursor` request whose cursor and previous cursor indices lie in the grid |
| AppState.CopyPathSpec | src/app.rs:987-999 | for paths that are Unicode text, copying succeeds exactly when there are images, and then sends the current path's UTF-8 bytes to the clipboard |
| AppState.StatusIndicatorSpec | src/app.rs:452-532 | the indicator is not `Busy` exactly when output is allowed, nothing is pending or in flight, the cell size and area are non-zero, the shown image or page is cached at this size and mode, and the last placement is that render's centred area under the current id; it is then `Tile` in the tile view, `Fit` in the fitted single view and `Ready` otherwise |
| AppState.UncachedPathsSpec | src/app.rs:846-858 | the prefetch paths are at most as many as the indices, and each is a listed image not yet cached at that size and mode |
| AppState.UncachedPathsSnoc | src/app.rs:846-858 | one more index adds its path exactly when that path is not cached |
| AppState.NeighbourIndices | src/app.rs:840-852 | the deduplicated neighbour indices are distinct and are exactly the indices within `prefetch_count` steps ahead or behind (the current one included when a step wraps all the way round); for a current index in the list they are what the seen-set walk keeps of the code's usize list |
| AppState.DedupAgrees | src/app.rs:840-852 | after the seen-set walk, the code's usize list and the intended neighbour list are the same list, in the same order, whenever `current_index + len` fits in a usize |
| AppState.PrefetchSingleInv | src/app.rs:811-878 | single-view prefetching keeps the invariant, changes neither the cache nor the other channels, sends at most one batch, and repeating it sends nothing (the signature check) |
| AppState.SingleBatchSpec | src/app.rs:811-878 | a batch is sent only for more than one image, carries the prefetch epoch and the target size, lists only uncached images within `prefetch_count` steps, and lists every one of them |
| AppState.SingleBatchNone | src/app.rs:846-862 | when the guards pass and no batch is sent, every image within `prefetch_count` steps is already cached at this size and mode |
| AppState.NeighbourCovered | src/app.rs:846-858 | the path of each neighbour that is not cached is among the paths collected |
| AppState.UncachedPathsComplete | src/app.rs:846-858 | every listed index whose render is not cached has its path kept |
| AppState.FirstUncachedPage | src/app.rs:930-972 | the page found is the first listed page with a non-empty page and no cached render; none is found only when every listed page is cached or empty |
| AppState.PrefetchTileSpec | src/app.rs:881-973 | tile prefetching keeps the invariant, sends at most one tile request and nothing else, is idempotent, and a request names an uncached page from the prefetch page list |
| AppState.FirstUncachedPageIsFirst | src/app.rs:930-949 | the page found is neither cached nor empty, and every page listed before it is cached or empty |
| AppState.RequestFirstPageFirst | src/app.rs:930-972 | a tile request names the first listed page that is neither cached nor empty, at the target size |
| AppState.PrefetchTileIsRequest | src/app.rs:881-929 | past the size, page-count and signature guards, tile prefetching is a request for the first usable page of the neighbour page list |
| AppState.PrefetchTileFirst | src/app.rs:881-973 | the page tile prefetching asks for is the first page of the alternating neighbour page list that is neither cached nor empty |
| App.App.constructor | src/app.rs:92-135 | the new orchestrator is in the initial state with an acceptable id |
| App.App.InvalidateRender | src/app.rs:322-329 | the state after `invalidate_render` is `Invalidated` of the state before |
| App.App.MoveBy | src/app.rs:165-172 | the state after `move_by` is `MoveByState` of the state before (see `AppState.MoveByStateSpec`) |
| App.App.ToggleFitMode | src/app.rs:175-178 | the state after `toggle_fit_mode` is `ToggleFitState` of the state before |
| App.App.ToggleViewMode | src/app.rs:181-196 | the state after `toggle_view_mode` is `ToggleViewState` of the state before |
| App.App.MoveTileCursor | src/app.rs:200-223 | state and page-change flag are those `MoveTileCursorState` specifies |
| App.App.MoveTileCursorRow | src/app.rs:227-230 | state and page-change flag are those `MoveTileCursorRowState` specifies |
| App.App.MoveTilePage | src/app.rs:234-253 | the state after `move_tile_page` is `MoveTilePageState` of the state before |
| App.App.SelectTile | src/app.rs:277-284 | the state after `select_tile` is `SelectTileState` of the state before |
| App.App.GoToIndexWithTile | src/app.rs:311-320 | the state after `go_to_index_with_tile` is `GoToIndexState` of the state before |
| App.App.InsertToCache | src/app.rs:397-423 | the state after `insert_to_cache` is `AppState.InsertToCache` of the state before |
| App.App.TouchRenderCache | src/app.rs:425-434 | the state after `touch_render_cache` is `TouchRender` of the state before |
| App.App.CancelImageOutput | src/app.rs:549-563 | the state after `cancel_image_output` is `CancelState` of the state before |
| App.App.Reload | src/app.rs:287-295 | the state after `reload` is `ReloadState` of the state before |
| App.App.ClearKgpOverlay | src/app.rs:975-984 | the state after `clear_kgp_overlay` is `ClearKgpOverlayState` of the state before |
| App.App.HandleResize | src/app.rs:298-308 | the state after `handle_resize` is `HandleResizeState` of the state before |
| App.App.PollWriter | src/app.rs:436-449 | the state after draining the writer's results is `PollWriterState` of the state before |
| App.App.PollWorker | src/app.rs:367-395 | the state after draining both workers is `PollWorkerState` of the state before |
| App.App.AcceptMainResults | src/app.rs:377-385 | the loop over main results accepts each in order |
| App.App.AcceptMainResult | src/app.rs:377-385 | one main result is accepted as `AcceptMain` specifies |
| App.App.AcceptPrefetchedResults | src/app.rs:386-393 | the loop over prefetched results accepts each in order |
| App.App.AcceptPrefetchedResult | src/app.rs:386-393 | one prefetched result is accepted as `AcceptPrefetched` specifies |
| App.App.ShowCached | src/app.rs:599-653 | the cache-hit branch of a frame is `AppState.ShowCached` |
| App.App.ShowRendered | src/app.rs:620-653 | the send-or-wait decision for a render is `AppState.ShowRendered` |
| App.App.RequestRender | src/app.rs:655-678 | the request path is `AppState.RequestRender` |
| App.App.PrepareSingleRender | src/app.rs:581-679 | the single-view frame is `PrepareSingleState` |
| App.App.PrepareTileRender | src/app.rs:681-786 | the tile-view frame is `PrepareTileState` |
| App.App.PrepareRenderRequest | src/app.rs:568-579 | the frame dispatches on the view mode as `PrepareRenderState` specifies |
| App.App.DrawTileCursor | src/app.rs:256-274 | the state after `draw_tile_cursor` is `DrawTileCursorState` of the state before |
| App.App.CopyPathToClipboard | src/app.rs:987-999 | state and success flag are those `CopyPathState` specifies |
| App.App.PrefetchAdjacent | src/app.rs:794-807 | prefetching dispatches on the view mode |
| App.App.PrefetchAdjacentSingle | src/app.rs:811-878 | single-view prefetching is `PrefetchSingleState` |
| App.App.PrefetchAdjacentTile | src/app.rs:881-973 | tile prefetching is `PrefetchTileState` |
| App.App.RequestFirstPage | src/app.rs:930-972 | the page loop requests the first uncached non-empty page and records the signature only then |
| App.NeighbourList | src/app.rs:840-844 | the loop builds `PrefetchIndices`, all inside the list, whose first occurrences are those of the code's usize list for a current index in the list |
| App.PageList | src/app.rs:923-932 | the loop builds `PrefetchPages` |
| App.FindUncachedPage | src/app.rs:930-949 | the loop finds `FirstUncachedPage` |
| App.CollectUncached | src/app.rs:846-858 | the `seen` loop skips repeated indices and keeps the uncached paths of the first occurrences, in order |
| Bytes.Decimal | src/kgp.rs:117-127 | the decimal rendering of a number is non-empty digits, with a leading zero only for zero |
| Bytes.DecimalRoundTrip | src/kgp.rs:117-127 | reading the digits back gives the number |
| Bytes.DecimalInjective | src/kgp.rs:117-127 | distinct numbers render differently |
| Bytes.SpanDigits | src/kgp.rs:117-127 | the digit run at the start of a byte string ends at the first non-digit |
| Bytes.SpanDigitsOfDigits | src/kgp.rs:117-127 | a rendered number followed by a non-digit is read as exactly that run |
| Bytes.DecimalText | src/app.rs:932 | the decimal text of a number has the same characters as its byte rendering |
| Bytes.DecimalTextInjective | src/app.rs:932 | distinct numbers give distinct texts |
| Bytes.Utf8 | src/kgp.rs:86-103 | a scalar's UTF-8 encoding has the standard length, a lead byte and continuation bytes, and contains ESC only for ESC itself |
| Bytes.Utf8RoundTrip | src/kgp.rs:86-103 | decoding one encoded scalar gives it back |
| Bytes.Utf8LeadWidth | src/kgp.rs:86-103 | the lead byte announces the encoding's length |
| Bytes.DecodeUtf8Scalars | src/kgp.rs:86-103 | decoding an encoded scalar sequence gives it back |
| Bytes.Utf8ScalarsAppend | src/kgp.rs:86-103 | encoding distributes over concatenation |
| Bytes.Utf8Text | src/sender.rs:547-559 | a string's UTF-8 encoding is at least as long as the string |
| Seqs.Without | src/app.rs:425-434 | removing a key from the recency list leaves every other key and only those |
| Seqs.WithoutKeepsDistinct | src/app.rs:425-434 | removal keeps a duplicate-free list duplicate-free and shortens it by one when the key was there |
| Seqs.FirstOccurrencesSnoc | src/main.rs:88-89 | `retain` with a `seen` set keeps an element exactly when it was not seen earlier |
| Seqs.DedupIsFirstOccurrences | src/main.rs:88-89 | a pass that tracks a `seen` set computes the first occurrences |
| Seqs.FirstOccurrencesProps | src/main.rs:88-89 | the first occurrences are duplicate-free and have the same elements as the input |
| Seqs.FirstOccurrencesEmpty | src/main.rs:88-93 | deduplication empties only an empty list |
| Seqs.FirstOccurrencesOfDistinct | src/main.rs:88-89 | a duplicate-free list is unchanged |
| Seqs.DedupIdempotent | src/main.rs:88-89 | deduplicating twice is deduplicating once |
| Seqs.FlattenAppend | src/kgp.rs:142-169 | concatenating the chunks of two runs is concatenating the runs |
| Kgp.DoubleEsc | src/kgp.rs:14-16 | doubling ESC never shortens a byte string |
| Kgp.DoubleEscAppend | src/kgp.rs:14-16 | ESC doubling distributes over concatenation |
| Kgp.DoubleEscNoEsc | src/kgp.rs:14-16 | bytes without ESC pass through tmux escaping unchanged |
| Kgp.DoubleEscApc | src/kgp.rs:14-16 | inside tmux the two ESCs of a graphics command are doubled and nothing else |
| Kgp.CommandFraming | src/kgp.rs:145-149 | a command is a plain APC outside tmux and the tmux passthrough wrapping of that APC inside |
| Kgp.DeleteById | src/kgp.rs:31-41 | the delete command is `q=2,a=d,d=i,i=<id>` framed for the terminal or for tmux |
| Kgp.DeleteByIdNamesId | src/kgp.rs:31-41 | the id read back from a delete command is the id it was built for |
| Kgp.DeleteAll | src/kgp.rs:18-29 | delete-all is the `d=a` command followed by the `d=A` command, each framed |
| Kgp.KgpState.constructor | src/kgp.rs:43-67 | a fresh protocol state knows no area and no id |
| Kgp.KgpState.SetLast | src/kgp.rs:58-61 | both area and id are recorded |
| Kgp.KgpState.Invalidate | src/kgp.rs:64-66 | the id is forgotten and the area kept |
| Kgp.KgpState.Reset | src/kgp.rs:43-67 | both are forgotten |
| Kgp.ErasureOf | src/kgp.rs:111-129 | erasing an empty area writes nothing, otherwise one row per area row |
| Kgp.EraseRows | src/kgp.rs:111-129 | the loop produces exactly those rows |
| Kgp.ParseNumberDecimal | src/kgp.rs:117-127 | a rendered number followed by a non-digit parses back to that number and the rest |
| Kgp.ParamParses | src/kgp.rs:117-127 | a number closed by its final byte parses back |
| Kgp.CursorToParses | src/kgp.rs:117-127 | a cursor move parses back to its row and column |
| Kgp.EraseCharsParses | src/kgp.rs:117-127 | an erase-characters sequence parses back to its count |
| Kgp.ErasureRowParses | src/kgp.rs:111-129 | row `i` of an erasure moves to one-based row `y + i + 1`, column `x + 1`, and blanks the area's width |
| Kgp.EraseRowsExample | src/kgp.rs:111-129 | a 4x2 area at (2, 3) gives `ESC[4;3H` and `ESC[5;3H`, each followed by an erase of four cells |
| Kgp.CellScalars | src/kgp.rs:86-103 | a placeholder cell is four Unicode scalars |
| Kgp.RowScalars | src/kgp.rs:86-103 | a row of `n` cells is `4n` scalars |
| Kgp.RowScalarsCell | src/kgp.rs:86-103 | cell `j` of row `i` is the placeholder and the diacritics for row `i`, column `j` and the id's high byte |
| Kgp.CellsSnoc | src/kgp.rs:86-103 | one more cell appends its four characters' encoding |
| Kgp.IdBytes | src/kgp.rs:75-80 | the id splits into four bytes |
| Kgp.IdBytesRecombine | src/kgp.rs:75-80 | the four bytes recombine to the id |
| Kgp.PlacementOf | src/kgp.rs:69-109 | placing on an empty area writes nothing, otherwise one row per area row |
| Kgp.PlacementOfRow | src/kgp.rs:82-106 | row `i` is the id colour, the move to row `y + i + 1` and column `x + 1`, `width` cells and a reset |
| Kgp.PlaceRows | src/kgp.rs:69-109 | the loop produces exactly those rows |
| Kgp.AppendCells | src/kgp.rs:86-103 | the cell loop appends exactly the row's cells |
| Kgp.ForegroundParses | src/kgp.rs:84 | a foreground colour parses back to its three components |
| Kgp.PlaceRowParses | src/kgp.rs:82-106 | a placement row parses back to its colour, position and cell scalars |
| Kgp.PlacementRowParses | src/kgp.rs:69-109 | row `i` of a placement decodes to the id's colour bytes, the one-based position of that row and the cells marking the id's high byte |
| Base64.Char | src/kgp.rs:140 | every sextet maps to an alphabet character other than the pad |
| Base64.CharValueInverse | src/kgp.rs:140 | the alphabet lookup inverts the alphabet |
| Base64.EncodeGroup | src/kgp.rs:140 | a group of one to three bytes encodes to four alphabet or pad characters |
| Base64.Encode | src/kgp.rs:140 | the encoding is `4 * ceil(n / 3)` characters from the alphabet and pad, and never contains ESC |
| Base64.DecodeEncodeGroup | src/kgp.rs:140 | each group decodes back to its bytes |
| Base64.DecodeEncode | src/kgp.rs:140 | decoding the encoding gives the input back |
| Base64.EncodeInjective | src/kgp.rs:140 | distinct inputs encode differently |
| Base64.EncodeTestVector | src/sender.rs:820-828 | `test` encodes to `dGVzdA==` |
| Transmit.Format | src/kgp.rs:134-138 | the format key is 32 for RGBA and 24 otherwise |
| Transmit.Pieces | src/kgp.rs:142 | each piece of the payload is non-empty and at most 4096 bytes |
| Transmit.PiecesCount | src/kgp.rs:142 | there are `ceil(n / 4096)` pieces, and none for an empty payload |
| Transmit.PieceAt | src/kgp.rs:142 | piece `k` is the payload slice starting at `4096 k` |
| Transmit.PiecesFull | src/kgp.rs:142 | every piece but the last is full |
| Transmit.PiecesRestore | src/kgp.rs:142 | the pieces concatenate to the payload |
| Transmit.PieceWithin | src/kgp.rs:142 | the bytes of a piece come from the payload |
| Transmit.ChunksOf | src/kgp.rs:142-169 | one command per piece |
| Transmit.ChunkAt | src/kgp.rs:151-169 | command `k` frames the control data of chunk `k` (the header on the first only, `m=1` except on the last) and the payload slice `k` |
| Transmit.WriteCommand | src/kgp.rs:145-149 | the buffer written for one chunk is that chunk's framed command |
| Transmit.EncodeChunks | src/kgp.rs:131-172 | `encode_chunks` produces exactly the transmission of the image |
| Transmit.SendPieces | src/kgp.rs:142-169 | the chunk loop produces exactly one framed command per piece |
| Transmit.ApcParses | src/kgp.rs:145-149 | the APC framing parses back to its body |
| Transmit.KeyParamParses | src/kgp.rs:155-156 | each `key=value,` pair parses back |
| Transmit.HeaderParses | src/kgp.rs:155-156 | the first chunk's header parses back to format, width, height and id |
| Transmit.MoreParses | src/kgp.rs:151-169 | the more flag parses back |
| Transmit.HeaderStartsTransmit | src/kgp.rs:155-156 | the header starts with the transmit keys |
| Transmit.FirstControlParses | src/kgp.rs:151-161 | the first chunk reads as the header, the more flag and the piece |
| Transmit.LaterControlParses | src/kgp.rs:163-169 | a later chunk reads as the more flag and the piece only |
| Transmit.TransmissionParses | src/kgp.rs:131-172 | chunk `k` of a transmission reads as the header on chunk 0 only, `more` on all but the last, and piece `k` of the payload |
| Transmit.PayloadsOfParsed | src/kgp.rs:131-172 | reassembling well-read chunks concatenates their payloads |
| Transmit.ReceiveTransmission | src/kgp.rs:131-172 | a terminal that reassembles and decodes the transmission gets the image's pixel bytes back |
| Transmit.TransmissionCount | src/kgp.rs:142 | the transmission has `ceil(len / 4096)` chunks, none exactly for an empty image, all full but the last |
| Transmit.BodyNoEsc | src/kgp.rs:151-169 | no chunk body contains ESC, so the framing is unambiguous |
| Transmit.ControlNoEsc | src/kgp.rs:151-169 | the control data contains no ESC |
| Transmit.TmuxTransmission | src/kgp.rs:145-149 | inside tmux every chunk is the plain chunk wrapped in a passthrough, one for one |
| Writer.Osc52RoundTrip | src/sender.rs:659-667 | the OSC 52 sequence carries the base64 text, which decodes to the copied bytes |
| Writer.Osc52Tmux | src/sender.rs:659-667 | inside tmux the sequence is wrapped in a passthrough |
| Writer.Osc52TestVector | src/sender.rs:820-828 | copying `test` writes `ESC]52;c;dGVzdA==BEL` |
| Writer.Utf8TextAppend | src/sender.rs:547-559 | the UTF-8 length of a string is additive |
| Writer.ByteLenSnoc | src/sender.rs:547-559 | one more character adds its encoded width |
| Writer.ByteLenMonotone | src/sender.rs:547-559 | a longer prefix is never shorter in bytes |
| Writer.ClipUtf8 | src/sender.rs:547-559 | a string that fits is unchanged; otherwise the result is the longest character prefix that fits |
| Writer.ClipLongest | src/sender.rs:547-559 | no longer character prefix fits |
| Writer.ClipUnique | src/sender.rs:547-559 | the clipped result is unique |
| Writer.TileCursorBox | src/sender.rs:443-535 | there is no box exactly when the grid is empty, the index is outside it or the cell size is unknown; otherwise the box lies inside the image area |
| Writer.TileCursorRow | src/sender.rs:443-535 | the boxes of a row tile the image width: the first starts at the left edge, the last ends at the right edge, and neighbours share their boundary |
| Writer.EraseAll | src/sender.rs:319-363 | erasing no rectangles writes nothing |
| Writer.TransmitTaskOrder | src/sender.rs:319-363 | a transmit task's queue is the erase rows, then the delete for the id, then the encoded chunks unchanged, then the placement rows; it reports `TransmitDone` for the id and clears the dirty area exactly when there is one |
| Writer.TransmitQueueClean | src/sender.rs:319-363 | with no old placement and no dirty area nothing is erased first |
| Writer.PushBackAll | src/sender.rs:319-363 | the push loop appends all items in order |
| Writer.PushErasures | src/sender.rs:319-363 | the cleanup loop appends every rectangle's erase rows |
| Writer.TaskTransmit | src/sender.rs:319-363 | `task_transmit` builds exactly that task |
| Writer.Grow | src/sender.rs:244-262 | the dirty area grows to contain the cancelled area and what was dirty before |
| Writer.CancelState | src/sender.rs:244-262 | a cancel keeps the writer's state well formed |
| Writer.Apply | src/sender.rs:222-317 | every request keeps the state well formed, never lowers the epoch and never reports a result |
| Writer.TransmitGating | src/sender.rs:263-285 | a transmit older than the current epoch is ignored; otherwise it raises the epoch and becomes the current task |
| Writer.CancelGating | src/sender.rs:244-262 | a cancel at or above the current epoch adopts it and drops the current task, an older one keeps both; its area always joins the dirty area |
| Writer.ClearAllDrops | src/sender.rs:235-243 | `ClearAll` drops the current task and forgets the dirty area |
| Writer.CancelThenStaleTransmit | src/sender.rs:244-285 | a transmit sent before a cancel never starts after it |
| Writer.TryRecvFrom | src/sender.rs:159-164 | draining the queue keeps the state well formed, consumes only queued requests and never lowers the epoch |
| Writer.Receive | src/sender.rs:152-164 | the same for the blocking receive followed by the drain |
| Writer.Iteration | src/sender.rs:132-220 | one loop iteration consumes only queued requests |
| Writer.TaskStepValid | src/sender.rs:166-218 | the status step and the current task step keep the state well formed, and the current task step keeps the epoch |
| Writer.IterationValid | src/sender.rs:132-220 | a whole iteration keeps the state well formed and never lowers the epoch |
| Writer.StatusBeforeChunk | src/sender.rs:166-203 | a pending status line is written before the next chunk |
| Writer.StaleTaskDiscarded | src/sender.rs:178-181 | a task from another epoch is dropped with nothing written and nothing reported |
| Writer.ChunkFifo | src/sender.rs:195-203 | a task step writes the first queued chunk and removes it, in order |
| Writer.DoneOnlyWhenEmpty | src/sender.rs:204-217 | a result is reported only for a current task, on a terminal only once its queue is empty, and carries the current epoch |
| Writer.TaskRunsToCompletion | src/sender.rs:177-218 | a current task, stepped once per chunk and once more, writes all its chunks in order and then reports its completion once |
| Writer.WriteAll | src/sender.rs:372-381 | the write loop writes the rows' concatenation |
| Writer.ClearAllWrite | src/sender.rs:372-381 | `clear_all` writes exactly the erasure of the area and the delete-all commands |
| Writer.WriterState.constructor | src/sender.rs:136-143 | the writer starts in the initial state |
| Writer.WriterState.ApplyMsg | src/sender.rs:222-317 | applying a request changes the state as `Apply` specifies |
| Writer.WriterState.ApplyClearAll | src/sender.rs:235-243 | the `ClearAll` branch |
| Writer.WriterState.ApplyCancel | src/sender.rs:244-262 | the `CancelImage` branch |
| Writer.WriterState.ApplyTransmit | src/sender.rs:263-285 | the `ImageTransmit` branch |
| Writer.WriterState.ApplyTileCursor | src/sender.rs:293-315 | the `TileCursor` branch |
| Writer.WriterState.RenderPendingStatus | src/sender.rs:166-175 | the status step changes the state as `RenderStatus` specifies |
| Writer.WriterState.StepTask | src/sender.rs:177-218 | the current task step changes the state as `TaskStep` specifies |
| Writer.WriterState.ReceiveQueued | src/sender.rs:159-164 | the drain loop changes the state as `TryRecvFrom` specifies |
| Writer.WriterState.LoopIteration | src/sender.rs:148-218 | one loop iteration changes the state as `Iteration` specifies |
| Rects.DisjointMeansNoCommonCell | src/sender.rs:613-638 | two rectangles are disjoint exactly when no cell lies in both |
| Rects.Intersection | src/sender.rs:613-638 | there is no intersection exactly when the rectangles are disjoint; otherwise it is non-empty, inside both, and holds exactly their common cells |
| Rects.IntersectionIffCommonCell | src/sender.rs:613-638 | an intersection exists exactly when some cell is common |
| Rects.Union | src/sender.rs:640-656 | the union contains both rectangles and is contained in every rectangle that contains both |
| Rects.UnionSelf | src/sender.rs:770-775 | a rectangle united with itself is itself |
| Rects.UnionOfContained | src/sender.rs:777-783 | uniting with a contained rectangle changes nothing |
| Rects.UnionCommutes | src/sender.rs:640-656 | union is commutative |
| Rects.Diff | src/sender.rs:561-611 | the difference is at most four pieces inside the first rectangle, and the whole first rectangle when they are disjoint |
| Rects.RectDiff | src/sender.rs:561-611 | `rect_diff` computes that difference |
| Rects.DiffCovers | src/sender.rs:561-611 | every cell in a piece is in the first rectangle and not in the second |
| Rects.DiffPieceOf | src/sender.rs:561-611 | every cell of the first rectangle outside the second lies in some piece |
| Rects.DiffPiecesDisjoint | src/sender.rs:561-611 | the pieces do not overlap |
| Rects.DiffArea | src/sender.rs:561-611 | the pieces' areas add up to the first rectangle's area minus the overlap |
| Rects.PiecesArea | src/sender.rs:561-611 | the four bands around an inner rectangle have the outer area minus the inner |
| Rects.DiffIdentical | src/sender.rs:720-725 | a rectangle minus itself is nothing |
| Rects.CleanupRects | src/sender.rs:365-370 | without a dirty area there is nothing to clean; otherwise every piece lies inside the dirty area |
| Rects.TileEdge | src/sender.rs:443-535 | tile edges start at 0 and end at the full extent |
| Rects.TileEdgeMonotone | src/sender.rs:443-535 | tile edges never decrease |
| Rects.TileSpan | src/sender.rs:443-535 | a tile's span lies inside the extent |
| Rects.NextInRow | src/app.rs:200-223 | the next index in a row is one column right on the same row |
| Rects.NextInColumn | src/app.rs:227-230 | one grid width further is the same column one row down |
| Rects.GridCell | src/worker.rs:410-412 | a grid index splits into a column and a row inside the grid |
| Worker.ThumbnailCache.constructor | src/worker.rs:35-41 | a new thumbnail cache is empty with the given capacity |
| Worker.ThumbnailCache.Get | src/worker.rs:43-52 | a hit returns the cached thumbnail and makes it most recent; a miss returns nothing and changes nothing |
| Worker.ThumbnailCache.Insert | src/worker.rs:54-65 | an insert follows the LRU insert, keeping the cache valid |
| Worker.DrainToLatest | src/worker.rs:118-126 | draining returns the last queued request, or the current one when none is queued |
| Worker.LatestForgetsEarlier | src/worker.rs:118-126 | whatever came earlier, the latest request wins |
| Worker.NextRequest | src/worker.rs:128-168 | the worker serves the newest queued request, or the one it kept when nothing is queued |
| Worker.ComputeTarget | src/worker.rs:332-362 | an image that fits is kept at its size in normal mode; otherwise the scaled size is used |
| Worker.ProcessSingle | src/worker.rs:170-283 | the decode cache is reused for the same path and refreshed from disk otherwise; a failed decode gives nothing; a newer request after decoding or after resizing abandons the render for the latest one; otherwise the result carries the original and the resized size |
| Worker.SatSub | src/worker.rs:424-425 | saturating subtraction is subtraction when it does not underflow and 0 otherwise |
| Worker.PixelsSub | src/worker.rs:414-421 | cell widths convert to pixels additively |
| Worker.Band | src/worker.rs:414-421 | a tile's pixel band runs from its cell edge to the next one, inside the canvas |
| Worker.SlotsUpToExact | src/worker.rs:410-447 | the layout lists the first page's tiles with a non-empty inner box, in order, without repeats |
| Worker.WholeCells | src/worker.rs:391-392 | whole cells of the canvas fit in the canvas |
| Worker.SlotInCanvas | src/worker.rs:410-429 | every tile lies on the canvas |
| Worker.LayoutInCanvas | src/worker.rs:410-429 | every listed tile is shown and lies on the canvas |
| Worker.TilesPartitionCanvas | src/worker.rs:410-422 | tiles start at the canvas edges, end at the whole-cell extent, and neighbouring tiles share their edge |
| Worker.PlaceCentred | src/worker.rs:432-438 | a fitting thumbnail lands inside its tile's inner box, centred to within one pixel, hence on the canvas |
| Worker.HitsAndMisses | src/worker.rs:430-447 | every tile is either a hit or a miss; misses are uncached tiles; hits of fitting thumbnails are on the canvas |
| Worker.TouchAllValid | src/worker.rs:430-438 | the lookups keep the thumbnail cache valid |
| Worker.MadeFromMisses | src/worker.rs:451-495 | new thumbnails come exactly from the misses that decoded |
| Worker.NewPlacementsOnCanvas | src/worker.rs:483-484 | new thumbnails are placed on the canvas |
| Worker.InsertAllValid | src/worker.rs:498-502 | inserting the new thumbnails keeps the cache valid |
| Worker.InsertedFits | src/worker.rs:498-502 | every cached thumbnail fits the box it was made for, after one insert |
| Worker.InsertAllFits | src/worker.rs:498-502 | and after all inserts |
| Worker.CopiedOnCanvas | src/worker.rs:505-512 | the copy guard copies only placements on the canvas |
| Worker.CopiedAll | src/worker.rs:505-512 | placements all on the canvas are all copied |
| Worker.AllThumbnailsCopied | src/worker.rs:370-516 | the copy guard never drops a thumbnail while every thumbnail fits its box |
| Worker.LayoutTiles | src/worker.rs:410-447 | the layout loop touches the hits and returns exactly the hits' placements and the misses |
| Worker.LookupStep | src/worker.rs:430-447 | one lookup adds a hit or a miss |
| Worker.InsertNew | src/worker.rs:498-502 | the insert loop inserts every new thumbnail and places it |
| Worker.CopyToCanvas | src/worker.rs:505-512 | the copy loop copies exactly the placements on the canvas |
| Worker.CompositeTiles | src/worker.rs:370-516 | compositing draws exactly the copies of the hits and the new thumbnails, updates the cache by the lookups and inserts, and reports the canvas as its size |
| Worker.ProcessTile | src/worker.rs:285-330 | a request without tile paths or a grid gives nothing; otherwise the result is abandoned for the latest newer request, or sent with the canvas size |
| TileOverlay.CursorFramesTile | src/worker.rs:410-422 | the writer's cursor box for a grid index covers, in pixels, exactly the worker's tile for that index |
| EventLoop.LastIndexOf | src/main.rs:50-55 | the last occurrence of a character, or none exactly when it does not occur |
| EventLoop.Lower | src/main.rs:53 | lowering maps each character and keeps the length |
| EventLoop.LastSlash | src/main.rs:50-55 | the last slash of `dir/name` is the one before the name |
| EventLoop.ComponentsUnder | src/main.rs:50-55 | appending a name adds it as the last path component |
| EventLoop.FileNameOf | src/main.rs:50-55 | the file name of `dir/name` is `name` |
| EventLoop.ExtensionOfName | src/main.rs:50-55 | the extension of `stem.ext` is `ext`, in any directory |
| EventLoop.NoExtension | src/main.rs:50-55 | a name without a dot, or a dot-file, has no extension |
| EventLoop.ImageByExtension | src/main.rs:50-55 | a path is an image exactly when it has an extension whose lower-case form is supported |
| EventLoop.IsImageFileByExtension | src/main.rs:48-55 | `stem.ext` is an image exactly when lower-case `ext` is png, jpg, jpeg, gif or webp |
| EventLoop.NotImageWithoutExtension | src/main.rs:50-55 | a name without an extension is never an image |
| EventLoop.LowerIdempotent | src/main.rs:53 | lowering twice is lowering once, and adds no slash or dot |
| EventLoop.ImageIgnoresCase | src/main.rs:50-55 | the image test ignores the extension's case |
| EventLoop.JoinedHolds | src/main.rs:82-87 | the collected list holds exactly the paths each argument produced |
| EventLoop.CollectImages | src/main.rs:57-94 | an argument that fails fails the whole collection at the first failing argument; otherwise the result is the first occurrences of all paths, and an empty result is an error |
| EventLoop.RetainFirst | src/main.rs:88-89 | the `retain` loop keeps exactly the first occurrences |
| EventLoop.CollectedImages | src/main.rs:82-94 | the collected images are distinct and are exactly the paths the arguments produced |
| EventLoop.UseAltScreen | src/main.rs:96-98 | forcing wins; otherwise the alternate screen is used unless disabled or inside tmux |
| EventLoop.CountIsDecimal | src/main.rs:169-180 | the count prefix is the typed decimal number, held at `u32::MAX` |
| EventLoop.RepeatAsWritten | src/main.rs:182 | the factor as written is an `i32`: the count, or 1 for none, below `2^31`, and a negative number congruent to the count modulo `2^32` from there on |
| EventLoop.NegI32 | src/main.rs:203 | `-n` in `i32` without overflow checks: the negation, except that `i32::MIN` stays itself |
| EventLoop.Repeat | src/main.rs:182 | the corrected repeat factor is between 1 and `i32::MAX` |
| EventLoop.RepeatAgrees | src/main.rs:182 | below `2^31` the code as written and the corrected factor agree: the count, or 1 for none |
| EventLoop.RepeatWraps | src/main.rs:182 | a count of `2^31` casts to `-2^31`, so `J` on the first page stays there instead of going to the last page, as the corrected factor does |
| EventLoop.CommandOf | src/main.rs:182-355 | each step moves by the repeat factor or its negation; image steps arise only in single view, cursor, row and page steps and the selection only in tile view; only `q` quits |
| EventLoop.CommandAgrees | src/main.rs:182-355 | below `2^31` the commands as written, with `count.max(1) as i32` and `-n`, are the commands of the corrected factor |
| EventLoop.CommandWraps | src/main.rs:182-282 | at a count of `2^31` the code's `J` in tile view asks for `i32::MIN` pages and its `j` and `k` in single view give the same backward step, where the corrected factor gives `i32::MAX` |
| EventLoop.KeyPress | src/main.rs:169-371 | a count is kept only after a count digit, which leaves the state alone and does not navigate; after a navigation the count is 0 |
| EventLoop.KeyPressSpec | src/main.rs:169-371 | a count digit only extends the count; any other key resets it; a navigation key cancels image output unless a transmit is in flight, and then advances the epoch |
| EventLoop.ApplyInv | src/main.rs:184-355 | every command keeps the orchestrator's invariant |
| EventLoop.KeyPressInv | src/main.rs:169-371 | every key keeps the orchestrator's invariant |
| EventLoop.GotoKeys | src/main.rs:290-309 | `g` goes to the first image or to the count's image, `G` to the last or to the count's image, clamped |
| EventLoop.NextThenPrevious | src/main.rs:187-214 | `j` moves to the next image, and `k` with the same count moves back |
| EventLoop.PollStateSpec | src/main.rs:135-147 | polling keeps the invariant and the epoch, and sends the writer at most a redraw of the tile cursor, only when a transmit has just finished in the tile view |
| EventLoop.FrameSpec | src/main.rs:380-416 | a frame does nothing while the navigation latch holds, keeps the invariant, and sends no transmit while one is in flight |
| EventLoop.Loop.constructor | src/main.rs:116-129 | the loop starts with no count, an expired latch, no quit and nothing transmitting |
| EventLoop.Loop.Poll | src/main.rs:135-147 | polling changes the state as `PollState` specifies and records whether a transmit is in flight |
| EventLoop.Loop.OnResize | src/main.rs:154-161 | a resize changes the orchestrator's state as `HandleResizeState` specifies, which keeps the invariant, empties the render cache and clears the last placement (`AppState.HandleResizeSpec`), and nothing of the loop's own state |
| EventLoop.Loop.OnKey | src/main.rs:169-371 | a key changes the state and the count as `KeyPress` specifies, arms the latch after navigation, and `q` quits |
| EventLoop.Loop.Execute | src/main.rs:184-355 | a command changes the state as `Apply` specifies |
| EventLoop.Loop.AfterKeys | src/main.rs:375-416 | on quit the overlay is cleared; otherwise the frame runs with output allowed once the latch has expired |

## Left out

- Terminal I/O is not modelled: flushing, the `FLUSH_THRESHOLD` byte counting, raw mode, the alternate screen and clearing the screen on resize. Output is a list of `Output` values.
- Threads and channels are not modelled: `TerminalWriter::new`, `send`, `try_recv`, `drop`, `ImageWorker::new`, `request`, `try_recv`, disconnection and shutdown. Each channel is the sequence of messages queued on it.
- The prefetch worker's own threads are not modelled. Its batches are recorded in `to_prefetch`.
- The status bar is not modelled: `render_status`, `status_text`, `send_status` and the temporary status text and redraw logic of `main.rs` are text layout. Only the indicator choice (`AppState.StatusIndicatorSpec`) and the order of status before chunk are modelled.
- The box-drawing bytes of `build_tile_cursor_escape` are not modelled. Only the box geometry is (`Writer.TileCursorBox`).
- `calculate_tile_grid` and `image_area` use floating point and the terminal size, so the grid and the image area are parameters.
- Worker.ProcessSingle / Worker.ProcessTile: `decode_image`, image resizing and the float scaling in `compute_target`, the `tmux_kitty_max_pixels` cap and the thumbnail scale are not modelled. Their results are parameters (`scaled`, `resized_size`, `resized`, `from_disk`).
- AppState.CopyPathSpec / App.App.CopyPathToClipboard: image paths are Unicode strings, so a path that is not valid UTF-8, for which `path.to_str()` fails and copying returns `false` with nothing sent (`src/app.rs:991-993`), is not modelled; the contract promises success for every current image.
- Worker.ComputeTarget: the scaled size is a parameter, so the contract does not state that it fits the bounds, only when it is used.
- `copy_image_to_clipboard` is not modelled: the `Y` key produces the `CopyImage` command, which changes no modelled state. Its PNG encoding is out of scope.
- Configuration loading is not modelled: `Config::load`, `load_from_file`, `apply_env_overrides`, `parse_env` and `config_path` read files and the environment.
- `main`, command-line parsing, `init_terminal`, `restore_terminal`, `is_tmux_env` and `ensure_tmux_allow_passthrough_on` are not modelled. The tmux flag is a parameter.
- Filesystem queries in `collect_images_from_path` (`is_file`, `is_dir`, `read_dir`, `sort`) are not modelled. Each argument's outcome is a parameter: its sorted image paths, or a rejection.
- Event polling, the tick wait and the `break` after a navigation key are not modelled. The caller feeds keys one at a time, and the time is a parameter.
- Navigation.MoveBy: the index arithmetic is unbounded. The `i32` cast of `index + delta` and of the list length does not wrap for lists of `2^31` images or more.
- AppState.MoveByStateSpec: the same, for `move_by`.
- AppState.MoveTileCursorSpec: the same, for `move_tile_cursor`.
- Navigation.TargetPage: `current_page as i32 + delta` is not wrapped. Only the repeat factor's own wrap is modelled (`EventLoop.RepeatWraps`).
- Rects.Union: rectangles whose right or bottom edge exceeds `u16::MAX` are excluded by the `Fits` precondition. The source's `u16` sums would overflow there.
- Rects.Diff: the same `Fits` precondition.
- Kgp.EraseRows: the same `Fits` precondition, for the `u16` row arithmetic.
- Kgp.PlaceRows: the same `Fits` precondition.
- Writer.TileCursorBox: the same `Fits` precondition.
- EventLoop.CommandOf: key commands use the corrected factor `Repeat`; the wrap of `count.max(1) as i32` at `src/main.rs:182` for counts of `2^31` or more is modelled only by `EventLoop.RepeatAsWritten`, `EventLoop.CommandAsWritten` and `EventLoop.RepeatWraps` / `EventLoop.CommandWraps`, which agree with it below `2^31` (`EventLoop.CommandAgrees`).
- EventLoop.NextThenPrevious: proved of the corrected factor, so for every count. The code as written agrees only for counts up to `i32::MAX`; at `2^31` its `j` and `k` both step by `i32::MIN`, and a build with overflow checks stops at `-n`.
- EventLoop.KeyPress: the same, for the commands of every key; `EventLoop.KeyPressSpec`, `EventLoop.KeyPressInv` and `EventLoop.Loop.OnKey` inherit it.
- EventLoop.Lower: lowering covers ASCII letters and the Kelvin sign only, not all of Unicode `to_lowercase`.
- Config.ClampReal: the aspect ratio is a real number. NaN and the other `f64` special values are not modelled.
- Compression: the transmission is modelled uncompressed, following `kgp.rs`. `Config.Config.CompressionLevel` is modelled but never passed on.

## Findings

| source | as written | input that shows it | evidently intended | confidence | as-written member | corrected member |
|---|---|---|---|---|---|---|
| src/app.rs:843 | `(self.current_index + len - i) % len` with `usize` arithmetic | 3 images, current index 0, prefetch count 5: at `i = 4` the subtraction `0 + 3 - 4` underflows and the eighth entry is 0. In a release build the wrap is masked: by then every index has been listed, and the seen-set skips it (`AppState.DedupAgrees`). A build with overflow checks panics whenever `prefetch_count > current_index + len`; with the default 5, that is 2 images, 3 images at index 0 or 1, or 4 images at index 0 | the backward neighbour at distance `i`, i.e. index 2, with no underflow | not executed | Navigation.PrefetchIndicesAsWritten | Navigation.PrefetchIndices |
| src/main.rs:182 | `count.max(1) as i32` | count prefix `2147483648` then `J` on the first page of the tile view: the factor becomes `-2^31` and the cursor stays on the first page | a positive factor held at `i32::MAX`, going to the last page | not executed | EventLoop.RepeatAsWritten | EventLoop.Repeat |
