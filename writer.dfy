/**
 * The terminal output writer: the single owner of stdout. Requests arrive as a sequence of
 * messages; each loop iteration applies what has arrived, renders a pending status row
 * first, and then writes at most one queued chunk of the current image task.
 */
module Writer {
  import opened Bytes
  import opened Seqs
  import Base64
  import opened Rects
  import opened Kgp

  // ------------------------------------------------------------ clipboard (OSC 52)

  /** `]52;c;`, the clipboard-set operation on the clipboard selection `c`. */
  const OSC52_KEY: seq<byte> := Ascii("]52;c;")

  /** `ESC ]52;c;<base64> BEL`, wrapped for tmux as a passthrough with the ESC doubled. */
  function Osc52(data: seq<byte>, is_tmux: bool): seq<byte> {
    var b64 := Base64.Encode(data);
    if is_tmux then TMUX_START + OSC52_KEY + b64 + [BEL] + TMUX_CLOSE
    else [ESC] + OSC52_KEY + b64 + [BEL]
  }

  /** What a terminal reads from an OSC 52 sequence: the base64 text between the key and BEL. */
  function ParseOsc52(s: seq<byte>): Option<seq<byte>> {
    var head := [ESC] + OSC52_KEY;
    if |s| < |head| + 1 || s[..|head|] != head || s[|s| - 1] != BEL then None
    else Some(s[|head|..|s| - 1])
  }

  /** The clipboard data comes back out of the direct sequence. */
  lemma Osc52RoundTrip(data: seq<byte>)
    ensures ParseOsc52(Osc52(data, false)) == Some(Base64.Encode(data))
    ensures Base64.Decode(ParseOsc52(Osc52(data, false)).value) == Some(data)
  {
    var head, b64 := [ESC] + OSC52_KEY, Base64.Encode(data);
    var s := head + b64 + [BEL];
    assert Osc52(data, false) == s;
    assert s[..|head|] == head;
    assert s[|head|..|s| - 1] == b64;
    Base64.DecodeEncode(data);
  }

  /** The tmux form is exactly the tmux passthrough of the direct form. */
  lemma Osc52Tmux(data: seq<byte>)
    ensures Osc52(data, true) == TmuxWrap(Osc52(data, false))
  {
    var b64 := Base64.Encode(data);
    var tail := OSC52_KEY + b64 + [BEL];
    var p, bs := Ascii("Ptmux;"), Ascii("\\");
    assert ESC !in OSC52_KEY;
    assert ESC !in tail;
    DoubleEscNoEsc(tail);
    AppendAssoc([ESC], OSC52_KEY + b64, [BEL]);
    AppendAssoc([ESC], OSC52_KEY, b64);
    assert Osc52(data, false) == [ESC] + tail;
    DoubleEscAppend([ESC], tail);
    assert DoubleEsc([ESC]) == [ESC, ESC];
    var inner := [ESC] + p + DoubleEsc(Osc52(data, false));
    assert inner == [ESC] + p + ([ESC, ESC] + tail);
    AppendAssoc([ESC] + p, [ESC, ESC], tail);
    assert inner == TMUX_START + tail;
    AppendAssoc(TMUX_START + OSC52_KEY, b64, [BEL]);
    AppendAssoc(TMUX_START, OSC52_KEY, b64 + [BEL]);
    AppendAssoc(TMUX_START, OSC52_KEY + b64, [BEL]);
    AppendAssoc(TMUX_START, OSC52_KEY, b64);
    assert Osc52(data, true) == inner + TMUX_CLOSE;
    AppendAssoc(inner, [ESC], bs);
  }

  /** The clipboard test's vector: "test" is sent as `ESC ]52;c;` `dGVzdA==` `BEL`. */
  lemma Osc52TestVector()
    ensures Osc52(Ascii("test"), false) == [ESC] + OSC52_KEY + Ascii("dGVzdA==") + [BEL]
  {
    Base64.EncodeTestVector();
  }

  // ------------------------------------------------------------ status text clipping

  /** The UTF-8 length of a text, the byte length Rust's `str::len` reports. */
  function ByteLen(s: string): nat {
    |Utf8Text(s)|
  }

  lemma {:induction false} Utf8TextAppend(a: string, b: string)
    ensures Utf8Text(a + b) == Utf8Text(a) + Utf8Text(b)
  {
    if a == [] {
      assert a + b == b;
    } else {
      assert (a + b)[0] == a[0] && (a + b)[1..] == a[1..] + b;
      Utf8TextAppend(a[1..], b);
      AppendAssoc(Utf8(a[0] as int), Utf8Text(a[1..]), Utf8Text(b));
    }
  }

  /** Taking one more character adds that character's encoded width. */
  lemma ByteLenSnoc(s: string, k: nat)
    requires k < |s|
    ensures ByteLen(s[..k + 1]) == ByteLen(s[..k]) + |Utf8(s[k] as int)|
  {
    TakeSnoc(s, k);
    Utf8TextAppend(s[..k], [s[k]]);
    assert Utf8Text([s[k]]) == Utf8(s[k] as int) + Utf8Text([]);
  }

  /** Longer prefixes are never shorter in bytes. */
  lemma {:induction false} ByteLenMonotone(s: string, i: nat, j: nat)
    requires i <= j <= |s|
    ensures ByteLen(s[..i]) <= ByteLen(s[..j])
    decreases j - i
  {
    if i < j {
      ByteLenSnoc(s, i);
      ByteLenMonotone(s, i + 1, j);
    }
  }

  /**
   * `r` is a clipping of `s` to `max_bytes`: a whole-character prefix of at most that many
   * bytes, one character short of exceeding them.
   */
  predicate IsClip(s: string, max_bytes: nat, r: string) {
    |r| < |s| && r == s[..|r|] && ByteLen(r) <= max_bytes && ByteLen(s[..|r| + 1]) > max_bytes
  }

  /**
   * `clip_utf8`: the text itself when it fits, otherwise the prefix up to the last
   * character that starts at or before byte `max_bytes`.
   */
  method ClipUtf8(s: string, max_bytes: nat) returns (r: string)
    ensures ByteLen(s) <= max_bytes ==> r == s
    ensures ByteLen(s) > max_bytes ==> IsClip(s, max_bytes, r)
  {
    if ByteLen(s) <= max_bytes {
      return s;
    }
    var end := 0;
    var i := 0;
    var k := 0;
    while k < |s|
      invariant 0 <= end <= k <= |s|
      invariant i == ByteLen(s[..k])
      invariant ByteLen(s[..end]) <= max_bytes
      invariant 0 < k ==> end == k - 1
    {
      if i > max_bytes {
        break;
      }
      end := k;
      ByteLenSnoc(s, k);
      i := i + |Utf8(s[k] as int)|;
      k := k + 1;
    }
    TakeAll(s);
    assert 0 < k by {
      if k == 0 {
        assert s[..0] == [];
      }
    }
    return s[..end];
  }

  /** A clipping is the longest whole-character prefix that fits. */
  lemma ClipLongest(s: string, max_bytes: nat, r: string, j: nat)
    requires IsClip(s, max_bytes, r)
    requires |r| < j <= |s|
    ensures ByteLen(s[..j]) > max_bytes
  {
    ByteLenMonotone(s, |r| + 1, j);
  }

  /** The clipping is unique: any two clippings of the same text agree. */
  lemma ClipUnique(s: string, max_bytes: nat, r1: string, r2: string)
    requires IsClip(s, max_bytes, r1) && IsClip(s, max_bytes, r2)
    ensures r1 == r2
  {
    if |r1| < |r2| {
      ClipLongest(s, max_bytes, r1, |r2|);
      assert false;
    } else if |r2| < |r1| {
      ClipLongest(s, max_bytes, r2, |r1|);
      assert false;
    }
  }

  // ------------------------------------------------------------ tile cursor bounds

  /** Zero-based cell bounds of a tile: columns `x .. x_end`, rows `y .. y_end`. */
  datatype TileBox = TileBox(x: nat, y: nat, x_end: nat, y_end: nat)

  /**
   * The bounds `build_tile_cursor_escape` draws for tile `cursor_idx` of a `cols` x `rows`
   * grid over `image_area`; none (nothing is drawn) for an empty grid, an index past the
   * grid or an unknown cell size.
   */
  function TileCursorBox(grid: (nat, nat), cursor_idx: nat, image_area: Rect, cell_size: (u16, u16)): (r: Option<TileBox>)
    requires Fits(image_area)
    ensures r.None? <==> grid.0 == 0 || grid.1 == 0 || cursor_idx >= grid.0 * grid.1 || cell_size.0 == 0 || cell_size.1 == 0
    ensures r.Some? ==> image_area.x <= r.value.x <= r.value.x_end <= image_area.Right()
    ensures r.Some? ==> image_area.y <= r.value.y <= r.value.y_end <= image_area.Bottom()
  {
    var (cols, rows) := grid;
    if cols == 0 || rows == 0 || cursor_idx >= cols * rows || cell_size.0 == 0 || cell_size.1 == 0 then None
    else
      DivBelow(cursor_idx, cols, rows);
      var (x, x_end) := TileSpan(image_area.x, cursor_idx % cols, cols, image_area.width);
      var (y, y_end) := TileSpan(image_area.y, cursor_idx / cols, rows, image_area.height);
      Some(TileBox(x, y, x_end, y_end))
  }

  /**
   * Neighbouring tiles of a row share their boundary, and the first and last columns touch
   * the image edges: the cursor boxes of a row tile the image width.
   */
  lemma TileCursorRow(grid: (nat, nat), idx: nat, image_area: Rect, cell_size: (u16, u16))
    requires Fits(image_area) && TileCursorBox(grid, idx, image_area, cell_size).Some?
    ensures idx % grid.0 == 0 ==> TileCursorBox(grid, idx, image_area, cell_size).value.x == image_area.x
    ensures idx % grid.0 == grid.0 - 1 ==> TileCursorBox(grid, idx, image_area, cell_size).value.x_end == image_area.Right()
    ensures idx % grid.0 < grid.0 - 1 ==>
      TileCursorBox(grid, idx + 1, image_area, cell_size).Some? &&
      TileCursorBox(grid, idx + 1, image_area, cell_size).value.x == TileCursorBox(grid, idx, image_area, cell_size).value.x_end
  {
    if idx % grid.0 < grid.0 - 1 {
      NextInRow(idx, grid.0, grid.1);
    }
  }

  // ------------------------------------------------------------ image tasks

  datatype WriterResultKind = TransmitDone(kgp_id: u32)

  /** A completion notice, tagged with the epoch of the current task that finished. */
  datatype WriterResult = WriterResult(kind: WriterResultKind, epoch: nat)

  /** Queued output of one image, written one chunk per loop iteration. */
  datatype Task = Task(chunks: seq<seq<byte>>, complete: Option<WriterResultKind>, epoch: nat, clears_dirty: bool)

  predicate FitsOpt(r: Option<Rect>) {
    r.Some? ==> Fits(r.value)
  }

  /** The erase rows of several rectangles, one rectangle after the other. */
  function EraseAll(rs: seq<Rect>): (rows: seq<seq<byte>>)
    ensures rs == [] ==> rows == []
  {
    if rs == [] then [] else EraseAll(rs[..|rs| - 1]) + ErasureOf(rs[|rs| - 1])
  }

  function ErasureOfOpt(r: Option<Rect>): seq<seq<byte>> {
    match r
    case Some(a) => ErasureOf(a)
    case None => []
  }

  /**
   * The chunk queue `task_transmit` builds: erase the old placement, erase what is left
   * of the dirty area outside the new one, delete the id's old image data, transmit, place.
   */
  function TransmitQueue(encoded_chunks: seq<seq<byte>>, area: Rect, kgp_id: u32, old_area: Option<Rect>,
                         dirty_area: Option<Rect>, is_tmux: bool): seq<seq<byte>>
    requires FitsOpt(dirty_area)
  {
    ErasureOfOpt(old_area) + EraseAll(CleanupRects(area, dirty_area)) + [DeleteById(kgp_id, is_tmux)]
      + encoded_chunks + PlacementOf(area, kgp_id)
  }

  function TransmitTask(encoded_chunks: seq<seq<byte>>, area: Rect, kgp_id: u32, old_area: Option<Rect>,
                        dirty_area: Option<Rect>, epoch: nat, is_tmux: bool): Task
    requires FitsOpt(dirty_area)
  {
    Task(TransmitQueue(encoded_chunks, area, kgp_id, old_area, dirty_area, is_tmux),
         Some(TransmitDone(kgp_id)), epoch, dirty_area.Some?)
  }

  /**
   * The order of a transmit task's queue: a run of erase rows, then exactly one delete
   * command naming the id, then the encoded chunks unchanged, then one placement row per
   * row of the area. The transmit task reports `TransmitDone` for the id and clears the dirty area
   * exactly when there was one.
   */
  lemma TransmitTaskOrder(encoded_chunks: seq<seq<byte>>, area: Rect, kgp_id: u32, old_area: Option<Rect>,
                          dirty_area: Option<Rect>, epoch: nat, is_tmux: bool)
    requires FitsOpt(dirty_area)
    ensures var t := TransmitTask(encoded_chunks, area, kgp_id, old_area, dirty_area, epoch, is_tmux);
      var erase := ErasureOfOpt(old_area) + EraseAll(CleanupRects(area, dirty_area));
      var e, n := |erase|, |encoded_chunks|;
      |t.chunks| == e + 1 + n + |PlacementOf(area, kgp_id)| &&
      t.chunks[..e] == erase &&
      t.chunks[e] == DeleteById(kgp_id, is_tmux) &&
      t.chunks[e + 1..e + 1 + n] == encoded_chunks &&
      t.chunks[e + 1 + n..] == PlacementOf(area, kgp_id) &&
      t.complete == Some(TransmitDone(kgp_id)) && t.epoch == epoch &&
      (t.clears_dirty <==> dirty_area.Some?)
  {
    var erase := ErasureOfOpt(old_area) + EraseAll(CleanupRects(area, dirty_area));
    var del := [DeleteById(kgp_id, is_tmux)];
    var place := PlacementOf(area, kgp_id);
    var q := erase + del + encoded_chunks + place;
    assert TransmitQueue(encoded_chunks, area, kgp_id, old_area, dirty_area, is_tmux) == q;
    AppendSlices(erase + del + encoded_chunks, place);
    AppendSlices(erase + del, encoded_chunks);
    AppendSlices(erase, del);
    var e, n := |erase|, |encoded_chunks|;
    assert q[..e] == (erase + del + encoded_chunks)[..e] == (erase + del)[..e];
    assert q[e] == (erase + del)[e] == DeleteById(kgp_id, is_tmux);
    assert q[e + 1..e + 1 + n] == (erase + del + encoded_chunks)[e + 1..];
  }

  /** Without a dirty area and without an old placement, nothing is erased before the delete. */
  lemma TransmitQueueClean(encoded_chunks: seq<seq<byte>>, area: Rect, kgp_id: u32, is_tmux: bool)
    ensures TransmitQueue(encoded_chunks, area, kgp_id, None, None, is_tmux)
      == [DeleteById(kgp_id, is_tmux)] + encoded_chunks + PlacementOf(area, kgp_id)
  {
    assert ErasureOfOpt(None) + EraseAll(CleanupRects(area, None)) == [];
  }

  /** `for x in items { q.push_back(x) }`. */
  method PushBackAll<T>(q: seq<T>, items: seq<T>) returns (r: seq<T>)
    ensures r == q + items
  {
    r := q;
    var j := 0;
    while j < |items|
      invariant 0 <= j <= |items|
      invariant r == q + items[..j]
    {
      TakeSnoc(items, j);
      AppendAssoc(q, items[..j], [items[j]]);
      r := r + [items[j]];
      j := j + 1;
    }
    TakeAll(items);
  }

  /** Push the erase rows of every rectangle in turn. */
  method PushErasures(q: seq<seq<byte>>, rects: seq<Rect>) returns (r: seq<seq<byte>>)
    requires forall i :: 0 <= i < |rects| ==> Fits(rects[i])
    ensures r == q + EraseAll(rects)
  {
    r := q;
    var j := 0;
    while j < |rects|
      invariant 0 <= j <= |rects|
      invariant r == q + EraseAll(rects[..j])
    {
      var rows := EraseRows(rects[j]);
      r := PushBackAll(r, rows);
      assert rects[..j + 1][..j] == rects[..j];
      AppendAssoc(q, EraseAll(rects[..j]), rows);
      j := j + 1;
    }
    TakeAll(rects);
  }

  /** `task_transmit`: the queue built by pushing each part in turn. */
  method TaskTransmit(encoded_chunks: seq<seq<byte>>, area: Rect, kgp_id: u32, old_area: Option<Rect>,
                      dirty_area: Option<Rect>, epoch: nat, is_tmux: bool) returns (task: Task)
    requires Fits(area) && FitsOpt(old_area) && FitsOpt(dirty_area)
    ensures task == TransmitTask(encoded_chunks, area, kgp_id, old_area, dirty_area, epoch, is_tmux)
  {
    var chunks: seq<seq<byte>> := [];
    if old_area.Some? {
      var rows := EraseRows(old_area.value);
      chunks := PushBackAll(chunks, rows);
    }
    assert chunks == ErasureOfOpt(old_area);
    chunks := PushErasures(chunks, CleanupRects(area, dirty_area));
    chunks := chunks + [DeleteById(kgp_id, is_tmux)];
    chunks := PushBackAll(chunks, encoded_chunks);
    var rows := PlaceRows(area, kgp_id);
    chunks := PushBackAll(chunks, rows);
    task := Task(chunks, Some(TransmitDone(kgp_id)), epoch, dirty_area.Some?);
  }

  // ------------------------------------------------------------ requests and state

  datatype StatusIndicator = Busy | Ready | Fit | Tile

  /** The status row's text, the terminal size it is drawn for, and its indicator. */
  datatype StatusLine = StatusLine(text: string, size: (u16, u16), indicator: StatusIndicator)

  datatype WriterRequest =
    | Status(text: string, size: (u16, u16), indicator: StatusIndicator)
    | ImageTransmit(encoded_chunks: seq<seq<byte>>, area: Rect, kgp_id: u32, old_area: Option<Rect>, epoch: nat, is_tmux: bool)
    | ClearAll(clear_area: Option<Rect>, is_tmux: bool)
    | CancelImage(cancel_area: Option<Rect>, epoch: nat)
    | CopyToClipboard(data: seq<byte>, is_tmux: bool)
    | TileCursor(grid: (nat, nat), cursor_idx: nat, image_area: Rect, prev_cursor_idx: Option<nat>, cell_size: (u16, u16))
    | Shutdown

  /** Rectangles in a request lie within the terminal's coordinate range. */
  predicate WellFormed(msg: WriterRequest) {
    match msg
    case ImageTransmit(_, area, _, old_area, _, _) => Fits(area) && FitsOpt(old_area)
    case ClearAll(area, _) => FitsOpt(area)
    case CancelImage(area, _) => FitsOpt(area)
    case TileCursor(_, _, area, _, _) => Fits(area)
    case _ => true
  }

  /**
   * What reaches stdout, write by write: raw bytes, a status row (its colours and icons
   * are not modelled), or a tile cursor border drawn or cleared over the given bounds.
   */
  datatype Output =
    | Write(bytes: seq<byte>)
    | StatusRow(status: StatusLine)
    | CursorBorder(tile: Option<TileBox>, draw: bool)

  /**
   * The writer's state as values, together with everything written to stdout (`out`)
   * and sent back on the result channel (`results`).
   */
  datatype State = State(should_quit: bool, last_status: Option<StatusLine>, status_dirty: bool,
                         current_task: Option<Task>, current_epoch: nat, dirty_area: Option<Rect>,
                         out: seq<Output>, results: seq<WriterResult>)

  const INITIAL: State := State(false, None, false, None, 0, None, [], [])

  /** The dirty area fits the screen, and the current task is never newer than the epoch. */
  predicate Valid(s: State) {
    FitsOpt(s.dirty_area) && (s.current_task.Some? ==> s.current_task.value.epoch <= s.current_epoch)
  }

  function Emit(is_tty: bool, bytes: seq<byte>): seq<Output> {
    if is_tty then [Write(bytes)] else []
  }

  /** `clear_all`: erase the area's rows, delete every image, reset attributes. */
  function ClearAllBytes(area: Option<Rect>, is_tmux: bool): seq<byte> {
    Flatten(ErasureOfOpt(area)) + DeleteAll(is_tmux) + RESET
  }

  /** The dirty area grown by a cancelled area. */
  function Grow(dirty: Option<Rect>, area: Option<Rect>): (r: Option<Rect>)
    requires FitsOpt(dirty) && FitsOpt(area)
    ensures FitsOpt(r)
    ensures area.None? ==> r == dirty
    ensures area.Some? ==> r.Some? && Inside(area.value, r.value)
    ensures dirty.Some? && area.Some? ==> Inside(dirty.value, r.value)
  {
    match area
    case None => dirty
    case Some(a) =>
      match dirty
      case None => Some(a)
      case Some(p) => Some(Union(p, a))
  }

  /** The tile cursor writes: clear the previous border if it moved, then draw the new one. */
  function CursorWrites(grid: (nat, nat), cursor_idx: nat, image_area: Rect, prev_cursor_idx: Option<nat>,
                        cell_size: (u16, u16)): seq<Output>
    requires Fits(image_area)
  {
    (if prev_cursor_idx.Some? && prev_cursor_idx.value != cursor_idx
     then [CursorBorder(TileCursorBox(grid, prev_cursor_idx.value, image_area, cell_size), false)] else [])
    + [CursorBorder(TileCursorBox(grid, cursor_idx, image_area, cell_size), true)]
  }

  function ClearAllState(s: State, area: Option<Rect>, is_tmux: bool, is_tty: bool): State {
    s.(current_task := None, dirty_area := None, out := s.out + Emit(is_tty, ClearAllBytes(area, is_tmux)))
  }

  function CancelState(s: State, area: Option<Rect>, epoch: nat, is_tty: bool): (r: State)
    requires Valid(s) && FitsOpt(area)
    ensures Valid(r)
  {
    var s1 := if epoch >= s.current_epoch then s.(current_epoch := epoch, current_task := None) else s;
    s1.(dirty_area := Grow(s.dirty_area, area), out := s.out + Emit(is_tty, RESET))
  }

  /**
   * `apply_msg`: one request applied to the state. It keeps the state valid and never
   * lowers the epoch.
   */
  function Apply(s: State, msg: WriterRequest, is_tty: bool): (r: State)
    requires Valid(s) && WellFormed(msg)
    ensures Valid(r)
    ensures r.current_epoch >= s.current_epoch
    ensures r.results == s.results
  {
    match msg
    case Shutdown => s.(should_quit := true)
    case Status(text, size, indicator) =>
      s.(last_status := Some(StatusLine(text, size, indicator)), status_dirty := true)
    case ClearAll(area, is_tmux) => ClearAllState(s, area, is_tmux, is_tty)
    case CancelImage(area, epoch) => CancelState(s, area, epoch, is_tty)
    case ImageTransmit(encoded_chunks, area, kgp_id, old_area, epoch, is_tmux) =>
      if epoch < s.current_epoch then s
      else s.(current_epoch := epoch,
              current_task := Some(TransmitTask(encoded_chunks, area, kgp_id, old_area, s.dirty_area, epoch, is_tmux)))
    case CopyToClipboard(data, is_tmux) =>
      s.(out := s.out + Emit(is_tty, Osc52(data, is_tmux)))
    case TileCursor(grid, cursor_idx, image_area, prev_cursor_idx, cell_size) =>
      s.(out := s.out + if is_tty then CursorWrites(grid, cursor_idx, image_area, prev_cursor_idx, cell_size) else [])
  }

  /**
   * Epoch gating of a transmit: an older epoch is dropped without a trace; otherwise its
   * epoch becomes current and its task (built with the dirty area as cleanup) replaces
   * whatever task was running, and nothing else changes.
   */
  lemma TransmitGating(s: State, msg: WriterRequest, is_tty: bool)
    requires Valid(s) && WellFormed(msg) && msg.ImageTransmit?
    ensures msg.epoch < s.current_epoch ==> Apply(s, msg, is_tty) == s
    ensures msg.epoch >= s.current_epoch ==> Apply(s, msg, is_tty) == s.(current_epoch := msg.epoch,
      current_task := Some(TransmitTask(msg.encoded_chunks, msg.area, msg.kgp_id, msg.old_area, s.dirty_area, msg.epoch, msg.is_tmux)))
  {
  }

  /**
   * A cancel at or above the current epoch raises the epoch to it and drops the current task; an
   * older cancel leaves both alone. Either way its area joins the dirty area.
   */
  lemma CancelGating(s: State, msg: WriterRequest, is_tty: bool)
    requires Valid(s) && WellFormed(msg) && msg.CancelImage?
    ensures var r := Apply(s, msg, is_tty);
      (msg.epoch >= s.current_epoch ==> r.current_epoch == msg.epoch && r.current_task.None?) &&
      (msg.epoch < s.current_epoch ==> r.current_epoch == s.current_epoch && r.current_task == s.current_task) &&
      r.dirty_area == Grow(s.dirty_area, msg.cancel_area) &&
      (msg.cancel_area.Some? ==> Inside(msg.cancel_area.value, r.dirty_area.value))
  {
  }

  /** `ClearAll` drops the current task and forgets the dirty area. */
  lemma ClearAllDrops(s: State, msg: WriterRequest, is_tty: bool)
    requires Valid(s) && WellFormed(msg) && msg.ClearAll?
    ensures Apply(s, msg, is_tty).current_task.None? && Apply(s, msg, is_tty).dirty_area.None?
  {
  }

  /**
   * A transmit from before a cancel never starts: once a cancel has raised the epoch, a
   * transmit with an older epoch leaves no task behind.
   */
  lemma CancelThenStaleTransmit(s: State, cancel: WriterRequest, transmit: WriterRequest, is_tty: bool)
    requires Valid(s) && WellFormed(cancel) && WellFormed(transmit)
    requires cancel.CancelImage? && transmit.ImageTransmit?
    requires cancel.epoch >= s.current_epoch && transmit.epoch < cancel.epoch
    ensures Apply(Apply(s, cancel, is_tty), transmit, is_tty).current_task.None?
  {
    CancelGating(s, cancel, is_tty);
    TransmitGating(Apply(s, cancel, is_tty), transmit, is_tty);
  }

  // ------------------------------------------------------------ one loop iteration

  predicate AllWellFormed(msgs: seq<WriterRequest>) {
    forall i | 0 <= i < |msgs| :: WellFormed(msgs[i])
  }

  /** With no task and no pending status the loop blocks until a request arrives. */
  predicate Idle(s: State) {
    s.current_task.None? && !s.status_dirty
  }

  /**
   * The `try_recv` loop over the requests queued from index `from` on: apply them in order
   * until they run out or one of them asks to quit. Returns the state and the number of
   * requests taken.
   */
  function TryRecvFrom(s: State, msgs: seq<WriterRequest>, from: nat, is_tty: bool): (r: (State, nat))
    requires Valid(s) && AllWellFormed(msgs) && from <= |msgs|
    ensures Valid(r.0) && from + r.1 <= |msgs|
    ensures r.0.current_epoch >= s.current_epoch && r.0.results == s.results
    decreases |msgs| - from
  {
    if from == |msgs| then (s, 0)
    else
      var s1 := Apply(s, msgs[from], is_tty);
      if s1.should_quit then (s1, 1)
      else
        var r := TryRecvFrom(s1, msgs, from + 1, is_tty);
        (r.0, r.1 + 1)
  }

  /** Receiving: one blocking receive when idle, then whatever else is queued. */
  function Receive(s: State, msgs: seq<WriterRequest>, is_tty: bool): (r: (State, nat))
    requires Valid(s) && AllWellFormed(msgs) && (Idle(s) ==> msgs != [])
    ensures Valid(r.0) && r.1 <= |msgs|
    ensures r.0.current_epoch >= s.current_epoch && r.0.results == s.results
  {
    if Idle(s) then
      var r := TryRecvFrom(Apply(s, msgs[0], is_tty), msgs, 1, is_tty);
      (r.0, r.1 + 1)
    else TryRecvFrom(s, msgs, 0, is_tty)
  }

  /** A pending status is drawn (on a terminal) and marked clean. */
  function RenderStatus(s: State, is_tty: bool): State {
    if !s.status_dirty then s
    else (if s.last_status.Some? && is_tty then s.(out := s.out + [StatusRow(s.last_status.value)]) else s).(status_dirty := false)
  }

  /** A task that has finished: report it, and forget the dirty area if it cleaned it up. */
  function Finish(s: State, t: Task): State {
    s.(results := s.results + (if t.complete.Some? then [WriterResult(t.complete.value, t.epoch)] else []),
       dirty_area := if t.clears_dirty then None else s.dirty_area,
       current_task := None)
  }

  /**
   * The transmit task half of an iteration: a stale task is dropped unwritten; off a terminal the
   * task completes at once; otherwise the front chunk is written, and an empty queue
   * completes the current task.
   */
  function TaskStep(s: State, is_tty: bool): State {
    match s.current_task
    case None => s
    case Some(t) =>
      if t.epoch != s.current_epoch then s.(current_task := None)
      else if !is_tty then Finish(s, t)
      else if t.chunks == [] then Finish(s, t)
      else
        s.(current_task := Some(t.(chunks := t.chunks[1..])),
           out := s.out + if t.chunks[0] != [] then [Write(t.chunks[0])] else [])
  }

  /** One iteration of `writer_loop` while it has not been asked to quit. */
  function Iteration(s: State, msgs: seq<WriterRequest>, is_tty: bool): (r: (State, nat))
    requires !s.should_quit && Valid(s) && AllWellFormed(msgs) && (Idle(s) ==> msgs != [])
    ensures r.1 <= |msgs|
  {
    var (s1, n) := Receive(s, msgs, is_tty);
    (TaskStep(RenderStatus(s1, is_tty), is_tty), n)
  }

  lemma TaskStepValid(s: State, is_tty: bool)
    requires Valid(s)
    ensures Valid(TaskStep(s, is_tty)) && Valid(RenderStatus(s, is_tty))
    ensures TaskStep(s, is_tty).current_epoch == s.current_epoch
  {
  }

  /** The iteration keeps the state valid and never lowers the epoch. */
  lemma IterationValid(s: State, msgs: seq<WriterRequest>, is_tty: bool)
    requires !s.should_quit && Valid(s) && AllWellFormed(msgs) && (Idle(s) ==> msgs != [])
    ensures Valid(Iteration(s, msgs, is_tty).0)
    ensures Iteration(s, msgs, is_tty).0.current_epoch >= s.current_epoch
  {
    var (s1, n) := Receive(s, msgs, is_tty);
    TaskStepValid(RenderStatus(s1, is_tty), is_tty);
  }

  /**
   * Status before chunk: when a status is pending and the current task has a chunk to write, the
   * iteration writes the status row and then that chunk, in that order.
   */
  lemma StatusBeforeChunk(s: State)
    requires s.status_dirty && s.last_status.Some?
    requires s.current_task.Some? && s.current_task.value.epoch == s.current_epoch
    requires s.current_task.value.chunks != [] && s.current_task.value.chunks[0] != []
    ensures TaskStep(RenderStatus(s, true), true).out
      == s.out + [StatusRow(s.last_status.value), Write(s.current_task.value.chunks[0])]
  {
  }

  /** A task from another epoch is discarded: nothing is written and nothing is reported. */
  lemma StaleTaskDiscarded(s: State, is_tty: bool)
    requires s.current_task.Some? && s.current_task.value.epoch != s.current_epoch
    ensures TaskStep(s, is_tty) == s.(current_task := None)
  {
  }

  /**
   * Chunks leave in FIFO order, one per iteration: the front chunk is the one written and
   * the rest stay queued in order; nothing is reported yet.
   */
  lemma ChunkFifo(s: State)
    requires s.current_task.Some? && s.current_task.value.epoch == s.current_epoch
    requires s.current_task.value.chunks != []
    ensures var t := s.current_task.value; var r := TaskStep(s, true);
      r.current_task == Some(t.(chunks := t.chunks[1..])) && r.results == s.results &&
      r.out == s.out + (if t.chunks[0] != [] then [Write(t.chunks[0])] else [])
  {
  }

  /** `TransmitDone` is sent only off a terminal or once the queue is empty. */
  lemma DoneOnlyWhenEmpty(s: State, is_tty: bool)
    requires TaskStep(s, is_tty).results != s.results
    ensures s.current_task.Some? && s.current_task.value.epoch == s.current_epoch
    ensures is_tty ==> s.current_task.value.chunks == []
    ensures TaskStep(s, is_tty).results == s.results + [WriterResult(s.current_task.value.complete.value, s.current_epoch)]
  {
  }

  /** `n` task steps in a row, with no request arriving in between. */
  function TaskSteps(s: State, n: nat): State
    decreases n
  {
    if n == 0 then s else TaskSteps(TaskStep(s, true), n - 1)
  }

  /** The writes of a queue: every non-empty chunk, in order. */
  function Writes(chunks: seq<seq<byte>>): seq<Output> {
    if chunks == [] then [] else (if chunks[0] != [] then [Write(chunks[0])] else []) + Writes(chunks[1..])
  }

  /**
   * A current task left alone runs to completion: after one step per chunk and one more,
   * every non-empty chunk has been written in queue order and exactly one completion has
   * been reported.
   */
  lemma {:induction false} TaskRunsToCompletion(s: State)
    requires s.current_task.Some? && s.current_task.value.epoch == s.current_epoch
    requires s.current_task.value.complete.Some?
    ensures var t := s.current_task.value; var r := TaskSteps(s, |t.chunks| + 1);
      r.out == s.out + Writes(t.chunks) &&
      r.results == s.results + [WriterResult(t.complete.value, t.epoch)] &&
      r.current_task.None?
    decreases |s.current_task.value.chunks|
  {
    var t := s.current_task.value;
    if t.chunks != [] {
      var s1 := TaskStep(s, true);
      var t1 := t.(chunks := t.chunks[1..]);
      assert s1.current_task == Some(t1);
      TaskRunsToCompletion(s1);
      AppendAssoc(s.out, if t.chunks[0] != [] then [Write(t.chunks[0])] else [], Writes(t.chunks[1..]));
    }
  }

  // ------------------------------------------------------------ the writer thread's state

  /** `for row in rows { out.write_all(row) }` as one byte string. */
  method WriteAll(rows: seq<seq<byte>>) returns (bytes: seq<byte>)
    ensures bytes == Flatten(rows)
  {
    bytes := [];
    var j := 0;
    while j < |rows|
      invariant 0 <= j <= |rows|
      invariant bytes == Flatten(rows[..j])
    {
      TakeSnoc(rows, j);
      FlattenAppend(rows[..j], [rows[j]]);
      assert Flatten([rows[j]]) == rows[j] + Flatten([]);
      bytes := bytes + rows[j];
      j := j + 1;
    }
    TakeAll(rows);
  }

  /** `clear_all`'s writes, one after the other. */
  method ClearAllWrite(area: Option<Rect>, is_tmux: bool) returns (bytes: seq<byte>)
    requires FitsOpt(area)
    ensures bytes == ClearAllBytes(area, is_tmux)
  {
    bytes := [];
    if area.Some? {
      var rows := EraseRows(area.value);
      bytes := WriteAll(rows);
    }
    bytes := bytes + DeleteAll(is_tmux);
    bytes := bytes + RESET;
  }

  class WriterState {
    var should_quit: bool
    var last_status: Option<StatusLine>
    var status_dirty: bool
    var current_task: Option<Task>
    var current_epoch: nat
    var dirty_area: Option<Rect>
    /** Everything written to stdout so far. */
    var out: seq<Output>
    /** Everything sent on the result channel so far. */
    var results: seq<WriterResult>

    function View(): State
      reads this
    {
      State(should_quit, last_status, status_dirty, current_task, current_epoch, dirty_area, out, results)
    }

    constructor ()
      ensures View() == INITIAL
    {
      should_quit, last_status, status_dirty := false, None, false;
      current_task, current_epoch, dirty_area := None, 0, None;
      out, results := [], [];
    }

    /** `apply_msg`, in place. */
    method ApplyMsg(msg: WriterRequest, is_tty: bool)
      requires Valid(View()) && WellFormed(msg)
      modifies this
      ensures View() == Apply(old(View()), msg, is_tty)
    {
      match msg {
        case Shutdown =>
          should_quit := true;
        case Status(text, size, indicator) =>
          last_status := Some(StatusLine(text, size, indicator));
          status_dirty := true;
        case ClearAll(area, is_tmux) =>
          ApplyClearAll(msg, is_tty);
        case CancelImage(area, epoch) =>
          ApplyCancel(msg, is_tty);
        case ImageTransmit(_, _, _, _, _, _) =>
          ApplyTransmit(msg);
        case CopyToClipboard(data, is_tmux) =>
          if is_tty {
            out := out + [Write(Osc52(data, is_tmux))];
          }
        case TileCursor(_, _, _, _, _) =>
          ApplyTileCursor(msg, is_tty);
      }
    }

    method ApplyClearAll(msg: WriterRequest, is_tty: bool)
      requires Valid(View()) && WellFormed(msg) && msg.ClearAll?
      modifies this
      ensures View() == ClearAllState(old(View()), msg.clear_area, msg.is_tmux, is_tty)
    {
      // A full clear abandons the transmit task and forgets the dirty area.
      current_task := None;
      dirty_area := None;
      if is_tty {
        var bytes := ClearAllWrite(msg.clear_area, msg.is_tmux);
        out := out + [Write(bytes)];
      }
    }

    method ApplyCancel(msg: WriterRequest, is_tty: bool)
      requires Valid(View()) && WellFormed(msg) && msg.CancelImage?
      modifies this
      ensures View() == CancelState(old(View()), msg.cancel_area, msg.epoch, is_tty)
    {
      if msg.epoch >= current_epoch {
        current_epoch := msg.epoch;
        current_task := None;
      }
      if msg.cancel_area.Some? {
        var next := if dirty_area.Some? then Union(dirty_area.value, msg.cancel_area.value) else msg.cancel_area.value;
        dirty_area := Some(next);
      }
      // Cancelling only stops further chunks; the next transmit erases the old area.
      if is_tty {
        out := out + [Write(RESET)];
      }
    }

    method ApplyTransmit(msg: WriterRequest)
      requires Valid(View()) && WellFormed(msg) && msg.ImageTransmit?
      modifies this
      ensures forall is_tty :: View() == Apply(old(View()), msg, is_tty)
    {
      if msg.epoch < current_epoch {
        return;
      }
      current_epoch := msg.epoch;
      var cleanup_area := dirty_area;
      var task := TaskTransmit(msg.encoded_chunks, msg.area, msg.kgp_id, msg.old_area, cleanup_area, msg.epoch, msg.is_tmux);
      current_task := Some(task);
    }

    method ApplyTileCursor(msg: WriterRequest, is_tty: bool)
      requires Valid(View()) && WellFormed(msg) && msg.TileCursor?
      modifies this
      ensures View() == Apply(old(View()), msg, is_tty)
    {
      if is_tty {
        // Clear the previous border if the cursor moved, then draw the new one.
        if msg.prev_cursor_idx.Some? && msg.prev_cursor_idx.value != msg.cursor_idx {
          out := out + [CursorBorder(TileCursorBox(msg.grid, msg.prev_cursor_idx.value, msg.image_area, msg.cell_size), false)];
        }
        out := out + [CursorBorder(TileCursorBox(msg.grid, msg.cursor_idx, msg.image_area, msg.cell_size), true)];
      }
    }

    /** The status half of an iteration. */
    method RenderPendingStatus(is_tty: bool)
      modifies this
      ensures View() == RenderStatus(old(View()), is_tty)
    {
      if status_dirty {
        if last_status.Some? && is_tty {
          out := out + [StatusRow(last_status.value)];
        }
        status_dirty := false;
      }
    }

    /** The transmit task half of an iteration: pop and write one chunk, or finish the current task. */
    method StepTask(is_tty: bool)
      modifies this
      ensures View() == TaskStep(old(View()), is_tty)
    {
      if current_task.Some? {
        var task := current_task.value;
        if task.epoch != current_epoch {
          current_task := None;
          return;
        }
        if !is_tty {
          if task.complete.Some? {
            results := results + [WriterResult(task.complete.value, task.epoch)];
          }
          if task.clears_dirty {
            dirty_area := None;
          }
          current_task := None;
          return;
        }
        if task.chunks != [] {
          var chunk := task.chunks[0];
          current_task := Some(task.(chunks := task.chunks[1..]));
          if chunk != [] {
            out := out + [Write(chunk)];
          }
        } else {
          if task.complete.Some? {
            results := results + [WriterResult(task.complete.value, task.epoch)];
          }
          if task.clears_dirty {
            dirty_area := None;
          }
          current_task := None;
        }
      }
    }

    /** The `try_recv` loop from request `from` on: returns how many requests it took. */
    method ReceiveQueued(msgs: seq<WriterRequest>, from: nat, is_tty: bool) returns (n: nat)
      requires Valid(View()) && AllWellFormed(msgs) && from <= |msgs|
      modifies this
      ensures (View(), n) == TryRecvFrom(old(View()), msgs, from, is_tty)
    {
      ghost var s0 := View();
      n := 0;
      while from + n < |msgs|
        invariant from + n <= |msgs| && Valid(View())
        invariant TryRecvFrom(s0, msgs, from, is_tty) == Shift(TryRecvFrom(View(), msgs, from + n, is_tty), n)
      {
        ApplyMsg(msgs[from + n], is_tty);
        n := n + 1;
        if should_quit {
          break;
        }
      }
    }

    /**
     * One iteration of `writer_loop` over the requests that have arrived: returns how many
     * of them it took.
     */
    method LoopIteration(msgs: seq<WriterRequest>, is_tty: bool) returns (consumed: nat)
      requires !should_quit && Valid(View()) && AllWellFormed(msgs) && (Idle(View()) ==> msgs != [])
      modifies this
      ensures (View(), consumed) == Iteration(old(View()), msgs, is_tty)
    {
      ghost var s0 := View();
      if current_task.None? && !status_dirty {
        ApplyMsg(msgs[0], is_tty);
        var n := ReceiveQueued(msgs, 1, is_tty);
        consumed := n + 1;
      } else {
        consumed := ReceiveQueued(msgs, 0, is_tty);
      }
      assert Receive(s0, msgs, is_tty) == (View(), consumed);
      RenderPendingStatus(is_tty);
      StepTask(is_tty);
    }
  }

  function Shift(r: (State, nat), k: nat): (State, nat) {
    (r.0, r.1 + k)
  }
}
