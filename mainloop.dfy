/**
 * The program's entry point and event loop: which paths name images, how the command
 * line's paths become the image list, whether the alternate screen is used, and how one
 * key press, with its vim-style count prefix, drives the orchestrator.
 */
module EventLoop {
  import opened Bytes
  import opened Seqs
  import opened Rects
  import opened Fit
  import opened Navigation
  import opened AppState
  import A = App
  import W = Writer

  // ---------------------------------------------------------- image files

  /** The extensions, in lower case, of the files the viewer opens. */
  const SUPPORTED_EXTENSIONS: seq<string> := ["png", "jpg", "jpeg", "gif", "webp"]

  /** The position of the last `ch` in `s`, if there is one. */
  function LastIndexOf(s: string, ch: char): (r: Option<nat>)
    ensures r.None? <==> ch !in s
    ensures r.Some? ==> r.value < |s| && s[r.value] == ch && ch !in s[r.value + 1..]
  {
    if s == [] then None
    else if s[|s| - 1] == ch then Some(|s| - 1)
    else
      assert s == s[..|s| - 1] + [s[|s| - 1]];
      LastIndexOf(s[..|s| - 1], ch)
  }

  /** A segment between slashes is a component unless it is empty or `.`, which the path parser skips. */
  function Keep(segment: string): seq<string> {
    if segment == "" || segment == "." then [] else [segment]
  }

  /** The components of a Unix path that can name a file, in order. */
  function Components(p: string): seq<string>
    decreases |p|
  {
    match LastIndexOf(p, '/')
    case None => Keep(p)
    case Some(i) => Components(p[..i]) + Keep(p[i + 1..])
  }

  /** `Path::file_name`: the last component, unless there is none or it is `..`. */
  function FileName(p: string): Option<string> {
    var cs := Components(p);
    if cs == [] || cs[|cs| - 1] == ".." then None else Some(cs[|cs| - 1])
  }

  /**
   * `Path::extension`: what follows the last dot of the file name; a name without a dot, or
   * whose only dot is its first character, has none.
   */
  function Extension(p: string): Option<string> {
    match FileName(p)
    case None => None
    case Some(name) =>
      match LastIndexOf(name, '.')
      case None => None
      case Some(i) => if i == 0 then None else Some(name[i + 1..])
  }

  /**
   * `char::to_lowercase` as far as comparing with ASCII words goes: `A`-`Z` and the Kelvin
   * sign lower to ASCII letters; every other character lowers to text that is not ASCII
   * exactly when it is not ASCII itself, so it is kept as it is.
   */
  function LowerChar(c: char): char {
    if 'A' <= c <= 'Z' then (c as int + 32) as char
    else if c == '\U{212A}' then 'k'
    else c
  }

  function Lower(s: string): (r: string)
    ensures |r| == |s| && forall i | 0 <= i < |s| :: r[i] == LowerChar(s[i])
  {
    if s == [] then [] else [LowerChar(s[0])] + Lower(s[1..])
  }

  /** `is_image_file`: the path has an extension that is, ignoring case, a supported one. */
  function IsImageFile(p: string): bool {
    match Extension(p)
    case None => false
    case Some(ext) => Lower(ext) in SUPPORTED_EXTENSIONS
  }

  /** The last slash of `dir/name` is the one before `name`, whatever `dir` holds. */
  lemma LastSlash(dir: string, name: string)
    requires '/' !in name
    ensures LastIndexOf(dir + "/" + name, '/') == Some(|dir|)
  {
    var s := dir + "/" + name;
    assert s[|dir|] == '/';
  }

  /** A path's components are its directory's, followed by the name after the last slash. */
  lemma ComponentsUnder(dir: string, name: string)
    requires '/' !in name
    ensures Components(dir + "/" + name) == Components(dir) + Keep(name)
  {
    var s := dir + "/" + name;
    LastSlash(dir, name);
    assert s[..|dir|] == dir;
    assert s[|dir| + 1..] == name;
  }

  /** A name without a slash is its own file name, in the working directory or under any directory. */
  lemma FileNameOf(dir: string, name: string)
    requires '/' !in name && name != "" && name != "." && name != ".."
    ensures FileName(name) == Some(name)
    ensures FileName(dir + "/" + name) == Some(name)
  {
    ComponentsUnder(dir, name);
  }

  /** The extension of `stem.ext` is `ext`, in the working directory or under any directory. */
  lemma ExtensionOfName(dir: string, stem: string, ext: string)
    requires stem != "" && '/' !in stem && '/' !in ext && '.' !in ext && stem + "." + ext != ".."
    ensures Extension(stem + "." + ext) == Some(ext)
    ensures Extension(dir + "/" + (stem + "." + ext)) == Some(ext)
  {
    var name := stem + "." + ext;
    assert '/' !in name;
    FileNameOf(dir, name);
    LastDot(stem, ext);
  }

  /** The last dot of `stem.ext` is the one before `ext`. */
  lemma LastDot(stem: string, ext: string)
    requires '.' !in ext
    ensures LastIndexOf(stem + "." + ext, '.') == Some(|stem|)
    ensures (stem + "." + ext)[|stem| + 1..] == ext
  {
    var name := stem + "." + ext;
    assert name[|stem|] == '.';
    assert name[|stem| + 1..] == ext;
  }

  /** A name without a dot, or whose only dot leads it, has no extension, wherever it is. */
  lemma NoExtension(dir: string, name: string)
    requires '/' !in name && name != "" && name != "." && name != ".."
    requires '.' !in name || ('.' !in name[1..] && name[0] == '.')
    ensures Extension(name).None? && Extension(dir + "/" + name).None?
  {
    FileNameOf(dir, name);
  }

  /** Whether a path is an image file depends only on its extension. */
  lemma ImageByExtension(p: string, ext: Option<string>)
    requires Extension(p) == ext
    ensures IsImageFile(p) <==> ext.Some? && Lower(ext.value) in SUPPORTED_EXTENSIONS
  {
  }

  /**
   * Only the file name decides: `stem.ext` is an image file exactly when `ext` lowers to a
   * supported extension, in the working directory or under any directory.
   */
  lemma IsImageFileByExtension(dir: string, stem: string, ext: string)
    requires stem != "" && '/' !in stem && '/' !in ext && '.' !in ext
    ensures IsImageFile(stem + "." + ext) <==> Lower(ext) in SUPPORTED_EXTENSIONS
    ensures IsImageFile(dir + "/" + (stem + "." + ext)) <==> Lower(ext) in SUPPORTED_EXTENSIONS
  {
    var name := stem + "." + ext;
    if name == ".." {
      assert ext == "";
      ComponentsUnder(dir, name);
      ImageByExtension(name, None);
      ImageByExtension(dir + "/" + name, None);
    } else {
      ExtensionOfName(dir, stem, ext);
      ImageByExtension(name, Some(ext));
      ImageByExtension(dir + "/" + name, Some(ext));
    }
  }

  /** A name without a dot, or whose only dot leads it, is never an image file, wherever it is. */
  lemma NotImageWithoutExtension(dir: string, name: string)
    requires '/' !in name && name != "" && name != "." && name != ".."
    requires '.' !in name || ('.' !in name[1..] && name[0] == '.')
    ensures !IsImageFile(name) && !IsImageFile(dir + "/" + name)
  {
    NoExtension(dir, name);
    ImageByExtension(name, None);
    ImageByExtension(dir + "/" + name, None);
  }

  /** Lowering twice is lowering once, and it never makes a slash or a dot. */
  lemma LowerIdempotent(s: string)
    ensures Lower(Lower(s)) == Lower(s)
    ensures '/' !in s ==> '/' !in Lower(s)
    ensures '.' !in s ==> '.' !in Lower(s)
  {
    assert forall i | 0 <= i < |s| :: LowerChar(LowerChar(s[i])) == LowerChar(s[i]);
  }

  /** Case does not matter: `stem.EXT` is an image file exactly when `stem.ext` is. */
  lemma ImageIgnoresCase(dir: string, stem: string, ext: string)
    requires stem != "" && '/' !in stem && '/' !in ext && '.' !in ext
    ensures IsImageFile(stem + "." + ext) <==> IsImageFile(stem + "." + Lower(ext))
    ensures IsImageFile(dir + "/" + (stem + "." + ext)) <==> IsImageFile(dir + "/" + (stem + "." + Lower(ext)))
  {
    LowerIdempotent(ext);
    IsImageFileByExtension(dir, stem, ext);
    IsImageFileByExtension(dir, stem, Lower(ext));
  }

  // ---------------------------------------------------------- collecting images

  /**
   * What `collect_images` produces: the image list, or the error for the first path that is
   * neither an image file nor a directory with images in it, or the error for an empty list.
   */
  datatype Collected = Images(paths: seq<string>) | PathRejected(index: nat) | NoImages

  /** The images found under each command-line path, in order, read as if every path were accepted. */
  function Joined(found: seq<Option<seq<string>>>): seq<string> {
    if found == [] then []
    else Joined(found[..|found| - 1]) + (match found[|found| - 1] case None => [] case Some(ps) => ps)
  }

  /** A path is in the joined list exactly when some command-line path yielded it. */
  lemma {:induction false} JoinedHolds(found: seq<Option<seq<string>>>, p: string)
    ensures p in Joined(found) <==> exists i | 0 <= i < |found| :: found[i].Some? && p in found[i].value
  {
    if found != [] {
      var init := found[..|found| - 1];
      JoinedHolds(init, p);
      if p in Joined(found) && p !in Joined(init) {
        assert found[|found| - 1].Some? && p in found[|found| - 1].value;
      }
      if exists i | 0 <= i < |found| :: found[i].Some? && p in found[i].value {
        var i :| 0 <= i < |found| && found[i].Some? && p in found[i].value;
        if i < |found| - 1 {
          assert init[i] == found[i];
        }
      }
    }
  }

  /**
   * `collect_images`: each path's images in turn, the first failing path aborting; then
   * `retain` with a `seen` set keeps each path's first occurrence; an empty result is an
   * error. `found[i]` is what `collect_images_from_path` gave for the `i`-th path.
   */
  method CollectImages(found: seq<Option<seq<string>>>) returns (r: Collected)
    ensures r.PathRejected? <==> exists i | 0 <= i < |found| :: found[i].None?
    ensures r.PathRejected? ==> r.index < |found| && found[r.index].None? &&
                                forall i | 0 <= i < r.index :: found[i].Some?
    ensures r.NoImages? ==> Joined(found) == []
    ensures r.Images? ==> r.paths == FirstOccurrences(Joined(found)) && r.paths != []
    ensures (forall i | 0 <= i < |found| :: found[i].Some?) && Joined(found) != [] ==> r.Images?
  {
    var out: seq<string> := [];
    var i := 0;
    while i < |found|
      invariant 0 <= i <= |found|
      invariant forall j | 0 <= j < i :: found[j].Some?
      invariant out == Joined(found[..i])
    {
      assert found[..i + 1][..i] == found[..i];
      match found[i] {
        case None => return PathRejected(i);
        case Some(ps) => out := out + ps;
      }
      i := i + 1;
    }
    assert found[..i] == found;
    var kept := RetainFirst(out);
    FirstOccurrencesEmpty(out);
    if kept == [] {
      return NoImages;
    }
    return Images(kept);
  }

  /** `out.retain(|p| seen.insert(p.clone()))`: each path's first occurrence, in order. */
  method RetainFirst(out: seq<string>) returns (kept: seq<string>)
    ensures kept == FirstOccurrences(out)
  {
    var seen: set<string> := {};
    kept := [];
    var k := 0;
    while k < |out|
      invariant 0 <= k <= |out|
      invariant forall x :: x in seen <==> x in out[..k]
      invariant kept == FirstOccurrences(out[..k])
    {
      var p := out[k];
      FirstOccurrencesSnoc(out, k);
      SeenSnoc(out, k, seen);
      var inserted := p !in seen;
      seen := seen + {p};
      if inserted {
        kept := kept + [p];
      }
      k := k + 1;
    }
    assert out[..k] == out;
  }

  /**
   * The image list names every image any command-line path yielded, and each only once, in
   * the order of first appearance.
   */
  lemma CollectedImages(found: seq<Option<seq<string>>>)
    ensures NoDuplicates(FirstOccurrences(Joined(found)))
    ensures forall p :: p in FirstOccurrences(Joined(found)) <==>
                        exists i | 0 <= i < |found| :: found[i].Some? && p in found[i].value
  {
    FirstOccurrencesProps(Joined(found));
    forall p {
      JoinedHolds(found, p);
    }
  }

  // ---------------------------------------------------------- terminal

  /** `use_alt_screen`: forced on by configuration, else on unless configured off or inside tmux. */
  function UseAltScreen(force_alt_screen: bool, no_alt_screen: bool, in_tmux: bool): (r: bool)
    ensures force_alt_screen ==> r
    ensures !force_alt_screen && (no_alt_screen || in_tmux) ==> !r
    ensures !force_alt_screen && !no_alt_screen && !in_tmux ==> r
  {
    force_alt_screen || (!no_alt_screen && !in_tmux)
  }

  // ---------------------------------------------------------- count prefix

  /** A digit key extends the count: `1`-`9` always, `0` only once a count has begun. */
  predicate IsCountDigit(c: char, count: nat) {
    '0' <= c <= '9' && (c != '0' || count != 0)
  }

  function DigitValue(c: char): nat
    requires '0' <= c <= '9'
  {
    c as int - '0' as int
  }

  function SaturateU32(x: nat): u32 {
    if x > U32_MAX then U32_MAX else x
  }

  /** `count.saturating_mul(10).saturating_add(d)` on `u32`. */
  function PushDigit(count: u32, d: nat): u32 {
    SaturateU32(SaturateU32(count * 10) + d)
  }

  /** The count after typing `digits` from an empty count. */
  function CountOf(digits: string): u32
    requires forall i | 0 <= i < |digits| :: '0' <= digits[i] <= '9'
  {
    if digits == [] then 0
    else PushDigit(CountOf(digits[..|digits| - 1]), DigitValue(digits[|digits| - 1]))
  }

  /** The number that `digits` spells in decimal. */
  function DecimalValue(digits: string): nat
    requires forall i | 0 <= i < |digits| :: '0' <= digits[i] <= '9'
  {
    if digits == [] then 0
    else DecimalValue(digits[..|digits| - 1]) * 10 + DigitValue(digits[|digits| - 1])
  }

  /** The typed count is the number typed, held at the `u32` maximum once it passes it. */
  lemma {:induction false} CountIsDecimal(digits: string)
    requires forall i | 0 <= i < |digits| :: '0' <= digits[i] <= '9'
    ensures CountOf(digits) == if DecimalValue(digits) > U32_MAX then U32_MAX else DecimalValue(digits)
  {
    if digits != [] {
      var init := digits[..|digits| - 1];
      CountIsDecimal(init);
      var v := DecimalValue(init);
      var d := DigitValue(digits[|digits| - 1]);
      if v > U32_MAX {
        assert v * 10 + d > U32_MAX;
        assert CountOf(init) * 10 > U32_MAX;
      } else if v * 10 > U32_MAX {
        assert v * 10 + d > U32_MAX;
      }
    }
  }

  /** `count.max(1) as i32` as written: the cast keeps the low 32 bits as two's complement. */
  function RepeatAsWritten(count: u32): (n: int)
    ensures I32_MIN <= n <= I32_MAX
    ensures count <= I32_MAX ==> n == (if count == 0 then 1 else count)
    ensures count > I32_MAX ==> n < 0 && n % 0x1_0000_0000 == count
  {
    var m := if count < 1 then 1 else count;
    if m > I32_MAX then m - 0x1_0000_0000 else m
  }

  /** `-n` on an `i32` without overflow checks: `i32::MIN` negates to itself (with them, it stops). */
  function NegI32(n: int): (r: int)
    requires I32_MIN <= n <= I32_MAX
    ensures I32_MIN <= r <= I32_MAX
    ensures n > I32_MIN ==> r + n == 0
    ensures n == I32_MIN ==> r == n
  {
    if n == I32_MIN then I32_MIN else -n
  }

  /** The repeat factor the count is meant to give: at least one, held at `i32::MAX`. */
  function Repeat(count: u32): (n: int)
    ensures 1 <= n <= I32_MAX
  {
    if count == 0 then 1 else if count > I32_MAX then I32_MAX else count
  }

  /** Below `2^31` the cast is exact, so the corrected factor agrees with the code as written. */
  lemma RepeatAgrees(count: u32)
    requires count <= I32_MAX
    ensures RepeatAsWritten(count) == Repeat(count) == (if count == 0 then 1 else count)
  {
  }

  /**
   * From `2^31` on, the factor as written is negative: `2147483648J` in tile view goes to
   * the first page instead of towards the last, and `k` negates `i32::MIN`.
   */
  lemma RepeatWraps(len: nat, tiles_per_page: nat)
    requires 0 < len && 0 < tiles_per_page && MaxPage(len, tiles_per_page) <= I32_MAX
    ensures RepeatAsWritten(0x8000_0000) == -0x8000_0000
    ensures TargetPage(0, RepeatAsWritten(0x8000_0000), len, tiles_per_page) == 0
    ensures TargetPage(0, Repeat(0x8000_0000), len, tiles_per_page) == MaxPage(len, tiles_per_page)
  {
    TargetPageBounds(0, RepeatAsWritten(0x8000_0000), len, tiles_per_page);
    TargetPageBounds(0, Repeat(0x8000_0000), len, tiles_per_page);
  }

  // ---------------------------------------------------------- keys and commands

  datatype Key = Char(c: char) | Enter | Backspace | OtherKey

  /** What a key asks of the orchestrator; the deltas are signed image, row or page steps. */
  datatype Command =
    | Quit
    | Step(delta: int)
    | CursorStep(delta: int)
    | RowStep(delta: int)
    | PageStep(delta: int)
    | Select
    | GoTo(index: nat)
    | ToggleFit
    | Reload
    | ToggleView
    | CopyPath
    | CopyImage
    | NoCommand

  /** The image `g` and `G` go to: the `count`-th (from one), else the first or the last. */
  function GotoTarget(last: bool, count: u32, len: nat): nat {
    if count > 0 then count - 1
    else if last then (if len > 0 then len - 1 else 0)
    else 0
  }

  /**
   * The key bindings, given the forward step `fwd` and the backward step `back`: `j`/space
   * and `k`/backspace step by rows in tile view, `h`/`l` by tiles, `H`/`K`/`J`/`L` by pages;
   * in single view all of them step through the images.
   */
  function Bindings(key: Key, mode: ViewMode, fwd: int, back: int, count: u32, len: nat): Command {
    match key
    case Char(c) =>
      if c == 'q' then Quit
      else if c == 'j' || c == ' ' then (if mode.Single? then Step(fwd) else RowStep(fwd))
      else if c == 'k' then (if mode.Single? then Step(back) else RowStep(back))
      else if c == 'h' then (if mode.Single? then Step(back) else CursorStep(back))
      else if c == 'l' then (if mode.Single? then Step(fwd) else CursorStep(fwd))
      else if c == 'H' || c == 'K' then (if mode.Single? then Step(back) else PageStep(back))
      else if c == 'J' || c == 'L' then (if mode.Single? then Step(fwd) else PageStep(fwd))
      else if c == 'g' then GoTo(GotoTarget(false, count, len))
      else if c == 'G' then GoTo(GotoTarget(true, count, len))
      else if c == 'f' then ToggleFit
      else if c == 'r' then Reload
      else if c == 't' then ToggleView
      else if c == 'y' then CopyPath
      else if c == 'Y' then CopyImage
      else NoCommand
    case Backspace => if mode.Single? then Step(back) else RowStep(back)
    case Enter => if mode.Tile? then Select else NoCommand
    case OtherKey => NoCommand
  }

  /**
   * The command a key gives, with the corrected repeat factor: every step moves `n` or `-n`
   * for `n` the factor, image steps only in single view, cursor, row and page steps and the
   * selection only in tile view, and only `q` quits.
   */
  function CommandOf(key: Key, mode: ViewMode, count: u32, len: nat): (r: Command)
    ensures r.Step? ==> mode.Single? && (r.delta == Repeat(count) || r.delta == -Repeat(count))
    ensures r.CursorStep? || r.RowStep? || r.PageStep? ==>
      mode.Tile? && (r.delta == Repeat(count) || r.delta == -Repeat(count))
    ensures r.Select? ==> mode.Tile? && key.Enter?
    ensures r.Quit? <==> key == Char('q')
  {
    var n := Repeat(count);
    Bindings(key, mode, n, -n, count, len)
  }

  /** The command a key gives as written, with the factor `count.max(1) as i32` and its negation in `i32`. */
  function CommandAsWritten(key: Key, mode: ViewMode, count: u32, len: nat): Command {
    var n := RepeatAsWritten(count);
    Bindings(key, mode, n, NegI32(n), count, len)
  }

  /** Below `2^31` the commands as written are the commands of the corrected factor. */
  lemma CommandAgrees(key: Key, mode: ViewMode, count: u32, len: nat)
    requires count <= I32_MAX
    ensures CommandAsWritten(key, mode, count, len) == CommandOf(key, mode, count, len)
  {
    RepeatAgrees(count);
  }

  /**
   * At a count of `2^31` the commands as written step backwards: `J` in tile view asks for
   * `i32::MIN` pages, and `j` and `k` in single view give the same step.
   */
  lemma CommandWraps(len: nat)
    ensures CommandAsWritten(Char('J'), Tile, 0x8000_0000, len) == PageStep(I32_MIN)
    ensures CommandOf(Char('J'), Tile, 0x8000_0000, len) == PageStep(I32_MAX)
    ensures CommandAsWritten(Char('j'), Single, 0x8000_0000, len) == Step(I32_MIN)
    ensures CommandAsWritten(Char('k'), Single, 0x8000_0000, len) == Step(I32_MIN)
  {
  }

  /**
   * The orchestrator's state after a command, and whether the command navigated: a cursor
   * step that stays on its page only redraws the cursor, and copying only sends to the
   * clipboard.
   */
  function Apply(s: State, cmd: Command, area: Rect, grid: (nat, nat), cell: (u16, u16)): (State, bool) {
    match cmd
    case Step(d) => (MoveByState(s, d), true)
    case CursorStep(d) =>
      var (t, changed) := MoveTileCursorState(s, d, grid);
      if changed then (t, true) else (DrawTileCursorState(t, area, grid, cell), false)
    case RowStep(d) =>
      var (t, changed) := MoveTileCursorRowState(s, d, grid);
      if changed then (t, true) else (DrawTileCursorState(t, area, grid, cell), false)
    case PageStep(d) => (MoveTilePageState(s, d, grid), true)
    case Select => (SelectTileState(s), true)
    case GoTo(i) => (GoToIndexState(s, i), true)
    case ToggleFit => (ToggleFitState(s), true)
    case Reload => (ReloadState(s), true)
    case ToggleView => (ToggleViewState(s), true)
    case CopyPath => (CopyPathState(s).0, false)
    case Quit => (s, false)
    case CopyImage => (s, false)
    case NoCommand => (s, false)
  }

  /** After a navigation the output is cancelled, unless a transmit is in flight and must finish. */
  function AfterNavigation(s: State): State {
    if s.in_flight then s else CancelState(s)
  }

  /** One key press: the state after it, the count after it, and whether it navigated. */
  function KeyPress(s: State, count: u32, key: Key, area: Rect, grid: (nat, nat), cell: (u16, u16)): (r: (State, u32, bool))
    ensures r.1 != 0 ==> key.Char? && IsCountDigit(key.c, count) && r.0 == s && !r.2
    ensures r.2 ==> r.1 == 0 && !(key.Char? && IsCountDigit(key.c, count))
  {
    if key.Char? && IsCountDigit(key.c, count) then (s, PushDigit(count, DigitValue(key.c)), false)
    else
      var (t, nav) := Apply(s, CommandOf(key, s.view_mode, count, |s.images|), area, grid, cell);
      (if nav then AfterNavigation(t) else t, 0, nav)
  }

  /**
   * A digit extends the count and changes nothing else; any other key clears the count;
   * a navigation never cancels a transmit in flight, and otherwise sends exactly one
   * cancellation, with a raised epoch, after the command's own messages.
   */
  lemma KeyPressSpec(s: State, count: u32, key: Key, area: Rect, grid: (nat, nat), cell: (u16, u16))
    requires Inv(s)
    ensures var (r, c, nav) := KeyPress(s, count, key, area, grid, cell);
      (key.Char? && IsCountDigit(key.c, count) ==> r == s && c == PushDigit(count, DigitValue(key.c)) && !nav) &&
      (!(key.Char? && IsCountDigit(key.c, count)) ==> c == 0) &&
      (nav ==> var (t, _) := Apply(s, CommandOf(key, s.view_mode, count, |s.images|), area, grid, cell);
                (t.in_flight ==> r == t) &&
                (!t.in_flight ==> r.to_writer == t.to_writer + [W.CancelImage(t.pending_display, r.epoch)] &&
                                  !r.in_flight && (t.epoch < U64_MAX ==> r.epoch == t.epoch + 1)))
  {
    if !(key.Char? && IsCountDigit(key.c, count)) {
      var (t, nav) := Apply(s, CommandOf(key, s.view_mode, count, |s.images|), area, grid, cell);
      if nav && !t.in_flight {
        assert KeyPress(s, count, key, area, grid, cell).0 == CancelState(t);
      }
    }
  }

  /** Every command keeps the orchestrator's invariant. */
  lemma ApplyInv(s: State, cmd: Command, area: Rect, grid: (nat, nat), cell: (u16, u16))
    requires Inv(s) && Fits(area)
    ensures Inv(Apply(s, cmd, area, grid, cell).0)
  {
    match cmd
    case Step(d) => MoveByStateSpec(s, d);
    case CursorStep(d) =>
      MoveTileCursorSpec(s, d, grid);
      DrawTileCursorSpec(MoveTileCursorState(s, d, grid).0, area, grid, cell);
    case RowStep(d) =>
      MoveTileCursorSpec(s, SatMulI32(d, grid.0), grid);
      DrawTileCursorSpec(MoveTileCursorRowState(s, d, grid).0, area, grid, cell);
    case PageStep(d) => MoveTilePageSpec(s, d, grid);
    case Select => SelectTileSpec(s);
    case GoTo(i) => GoToIndexSpec(s, i);
    case ToggleFit => ToggleFitTwice(s);
    case Reload => ReloadSpec(s);
    case ToggleView => ToggleViewSpec(s);
    case CopyPath => CopyPathSpec(s);
    case Quit =>
    case CopyImage =>
    case NoCommand =>
  }

  /** Every key press keeps the orchestrator's invariant. */
  lemma KeyPressInv(s: State, count: u32, key: Key, area: Rect, grid: (nat, nat), cell: (u16, u16))
    requires Inv(s) && Fits(area)
    ensures Inv(KeyPress(s, count, key, area, grid, cell).0)
  {
    if !(key.Char? && IsCountDigit(key.c, count)) {
      var cmd := CommandOf(key, s.view_mode, count, |s.images|);
      ApplyInv(s, cmd, area, grid, cell);
      var t := Apply(s, cmd, area, grid, cell).0;
      if !t.in_flight {
        CancelSpec(t);
      }
    }
  }

  /**
   * `g` and `G`: with a count of `N` both go to the `N`-th image (the last if there are
   * fewer); without one `g` goes to the first image and `G` to the last, in either view.
   */
  lemma GotoKeys(s: State, count: u32, area: Rect, grid: (nat, nat), cell: (u16, u16))
    requires Inv(s) && 0 < |s.images|
    ensures var r := KeyPress(s, count, Char('g'), area, grid, cell).0;
      r.current_index == r.tile_cursor == (if count == 0 then 0 else if count - 1 < |s.images| then count - 1 else |s.images| - 1)
    ensures var r := KeyPress(s, count, Char('G'), area, grid, cell).0;
      r.current_index == r.tile_cursor == (if count == 0 || count - 1 >= |s.images| then |s.images| - 1 else count - 1)
  {
    GoToIndexSpec(s, GotoTarget(false, count, |s.images|));
    GoToIndexSpec(s, GotoTarget(true, count, |s.images|));
  }

  /**
   * In single view, `N j` followed by `N k` comes back to the image it started from, and
   * both count as navigation.
   */
  lemma NextThenPrevious(s: State, count: u32, area: Rect, grid: (nat, nat), cell: (u16, u16))
    requires Inv(s) && 0 < |s.images| && s.view_mode.Single?
    ensures var (r1, c1, nav1) := KeyPress(s, 0, Char('j'), area, grid, cell);
      nav1 && c1 == 0 && r1.current_index == MoveBy(s.current_index, 1, |s.images|)
    ensures var r1 := KeyPress(s, count, Char('j'), area, grid, cell).0;
      var r2 := KeyPress(r1, count, Char('k'), area, grid, cell).0;
      r2.current_index == s.current_index && r2.view_mode.Single?
  {
    var n := Repeat(count);
    MoveByStateSpec(s, 1);
    MoveByStateSpec(s, n);
    var t := MoveByState(s, n);
    var r1 := AfterNavigation(t);
    assert r1.current_index == t.current_index && r1.images == s.images && r1.view_mode.Single?;
    MoveByInverse(s.current_index, n, |s.images|);
  }

  // ---------------------------------------------------------- start of an iteration

  /**
   * The start of a loop iteration: worker results, then writer replies; in tile view the cursor
   * is drawn again once a transmit that was running at the previous check has finished.
   */
  function PollState(s: State, was_transmitting: bool, main: seq<Delivery>, prefetched: seq<Delivery>,
                     results: seq<W.WriterResult>, area: Rect, grid: (nat, nat), cell: (u16, u16)): State
  {
    var t := PollWriterState(PollWorkerState(s, main, prefetched), results);
    if was_transmitting && !t.in_flight && t.view_mode.Tile? then DrawTileCursorState(t, area, grid, cell) else t
  }

  /**
   * Polling keeps the invariant and the epoch, and the only request it sends the writer is the
   * cursor redraw after a finished transmit in tile view.
   */
  lemma PollStateSpec(s: State, was_transmitting: bool, main: seq<Delivery>, prefetched: seq<Delivery>,
                      results: seq<W.WriterResult>, area: Rect, grid: (nat, nat), cell: (u16, u16))
    requires Inv(s) && Fits(area)
    ensures var r := PollState(s, was_transmitting, main, prefetched, results, area, grid, cell);
      Inv(r) && r.epoch == s.epoch &&
      (r.to_writer == s.to_writer ||
       (was_transmitting && !r.in_flight && r.view_mode.Tile? &&
        |r.to_writer| == |s.to_writer| + 1 && r.to_writer[|s.to_writer|].TileCursor?))
    ensures !was_transmitting ==> PollState(s, was_transmitting, main, prefetched, results, area, grid, cell).to_writer == s.to_writer
  {
    PollWorkerInv(s, main, prefetched);
    var w := PollWorkerState(s, main, prefetched);
    PollWriterInv(w, results);
    var t := PollWriterState(w, results);
    DrawTileCursorSpec(t, area, grid, cell);
  }

  // ---------------------------------------------------------- one loop iteration

  /**
   * The rest of a loop iteration: the status indicator is read first; the render request is
   * prepared; and once the display has settled with nothing in flight, neighbours are prefetched.
   */
  function FrameState(s: State, area: Rect, cell: (u16, u16), grid: (nat, nat), allow: bool): State
    requires Fits(area) && 0 < grid.0 && 0 < grid.1
  {
    var indicator := StatusIndicatorOf(s, area, cell, grid, allow);
    var t := PrepareRenderState(s, area, cell, grid, allow);
    if allow && (indicator.Ready? || indicator.Fit? || indicator.Tile?) then PrefetchAdjacentState(t, area, cell, grid)
    else t
  }

  /**
   * While the navigation latch holds transmission back nothing at all is sent; otherwise the
   * invariant is kept and a transmit in flight is never joined by a second one.
   */
  lemma FrameSpec(s: State, area: Rect, cell: (u16, u16), grid: (nat, nat), allow: bool)
    requires Inv(s) && Fits(area) && 0 < grid.0 && 0 < grid.1
    ensures !allow ==> FrameState(s, area, cell, grid, allow) == s
    ensures Inv(FrameState(s, area, cell, grid, allow))
    ensures s.in_flight ==> FrameState(s, area, cell, grid, allow).to_writer == s.to_writer
  {
    if allow {
      var t := PrepareRenderState(s, area, cell, grid, allow);
      match s.view_mode {
        case Single => PrepareSingleSpec(s, area, cell);
        case Tile => PrepareTileSpec(s, area, cell, grid);
      }
      if t.pending_request.None? && t.prefetch_count != 0 {
        match t.view_mode {
          case Single => PrefetchSingleInv(t, area, cell);
          case Tile => PrefetchTileSpec(t, area, cell, grid);
        }
      }
    }
  }

  /**
   * The loop's own state around the orchestrator. Time is a caller-supplied clock in
   * milliseconds; terminal events arrive as the keys passed in.
   */
  class Loop {
    const app: A.App
    /** The count prefix typed so far. */
    var count: u32
    /** Until when transmission waits after the last navigation. */
    var nav_until: int
    /** Whether a transmit was in flight at the previous poll. */
    var was_transmitting: bool
    /** `App::should_quit`, which only the loop sets. */
    var should_quit: bool

    /** The loop starts with no count, no quit, nothing in flight and a latch that ended a second ago. */
    constructor (app: A.App, now: int)
      ensures this.app == app && count == 0 && nav_until == now - 1000 && !should_quit && !was_transmitting
    {
      this.app := app;
      count := 0;
      nav_until := now - 1000;
      should_quit := false;
      was_transmitting := false;
    }

    /** The start of an iteration, with the results and replies that have arrived since the last one. */
    method Poll(main: seq<Delivery>, prefetched: seq<Delivery>, results: seq<W.WriterResult>,
                area: Rect, grid: (nat, nat), cell: (u16, u16))
      modifies this, app, app.kgp_state
      ensures app.View() == PollState(old(app.View()), old(was_transmitting), main, prefetched, results, area, grid, cell)
      ensures was_transmitting == (PollWorkerState(old(app.View()), main, prefetched).in_flight || app.View().in_flight)
    {
      app.PollWorker(main, prefetched);
      var transmitting_before := app.in_flight_transmit;
      app.PollWriter(results);
      var transmitting_after := app.in_flight_transmit;
      if was_transmitting && !transmitting_after && app.view_mode.Tile? {
        app.DrawTileCursor(area, grid, cell);
      }
      was_transmitting := transmitting_before || transmitting_after;
    }

    /**
     * A terminal resize: the orchestrator drops its renders and its placement, as
     * `HandleResizeState` specifies, and the loop's count, latch and flags are left alone.
     */
    method OnResize()
      modifies app, app.kgp_state
      ensures app.View() == HandleResizeState(old(app.View()))
    {
      app.HandleResize();
    }

    /** One key press, with the navigation latch of `nav_latch` milliseconds restarted on navigation. */
    method OnKey(key: Key, area: Rect, grid: (nat, nat), cell: (u16, u16), now: int, nav_latch: nat) returns (did_nav: bool)
      modifies this, app, app.kgp_state
      ensures (app.View(), count, did_nav) == KeyPress(old(app.View()), old(count), key, area, grid, cell)
      ensures nav_until == if did_nav then now + nav_latch else old(nav_until)
      ensures should_quit == (old(should_quit) || key == Char('q'))
    {
      if key.Char? && IsCountDigit(key.c, count) {
        count := PushDigit(count, DigitValue(key.c));
        return false;
      }
      var cmd := CommandOf(key, app.view_mode, count, |app.images|);
      if cmd.Quit? {
        should_quit := true;
      }
      did_nav := Execute(cmd, area, grid, cell);
      if did_nav {
        if !app.in_flight_transmit {
          app.CancelImageOutput();
        }
        nav_until := now + nav_latch;
        count := 0;
        return;
      }
      if count != 0 {
        count := 0;
      }
    }

    /** The command a key selected, run on the orchestrator. */
    method Execute(cmd: Command, area: Rect, grid: (nat, nat), cell: (u16, u16)) returns (did_nav: bool)
      modifies app, app.kgp_state
      ensures (app.View(), did_nav) == Apply(old(app.View()), cmd, area, grid, cell)
    {
      match cmd {
        case Step(d) =>
          app.MoveBy(d);
          did_nav := true;
        case CursorStep(d) =>
          did_nav := app.MoveTileCursor(d, grid);
          if !did_nav {
            app.DrawTileCursor(area, grid, cell);
          }
        case RowStep(d) =>
          did_nav := app.MoveTileCursorRow(d, grid);
          if !did_nav {
            app.DrawTileCursor(area, grid, cell);
          }
        case PageStep(d) =>
          app.MoveTilePage(d, grid);
          did_nav := true;
        case Select =>
          app.SelectTile();
          did_nav := true;
        case GoTo(i) =>
          app.GoToIndexWithTile(i);
          did_nav := true;
        case ToggleFit =>
          app.ToggleFitMode();
          did_nav := true;
        case Reload =>
          app.Reload();
          did_nav := true;
        case ToggleView =>
          app.ToggleViewMode();
          did_nav := true;
        case CopyPath =>
          var _ := app.CopyPathToClipboard();
          did_nav := false;
        case Quit =>
          did_nav := false;
        case CopyImage =>
          did_nav := false;
        case NoCommand =>
          did_nav := false;
      }
    }

    /**
     * After the keys: on quit the overlay is cleared and the loop ends; otherwise the render
     * request and the prefetch go out, transmission allowed once the latch has run out.
     */
    method AfterKeys(area: Rect, cell: (u16, u16), grid: (nat, nat), now: int) returns (quit: bool)
      requires Fits(area) && 0 < grid.0 && 0 < grid.1
      modifies app
      ensures quit == should_quit
      ensures app.View() == if quit then ClearKgpOverlayState(old(app.View()))
                            else FrameState(old(app.View()), area, cell, grid, now >= nav_until)
    {
      if should_quit {
        app.ClearKgpOverlay();
        return true;
      }
      var allow_transmission := now >= nav_until;
      var indicator := StatusIndicatorOf(app.View(), area, cell, grid, allow_transmission);
      app.PrepareRenderRequest(area, cell, grid, allow_transmission);
      if allow_transmission && (indicator.Ready? || indicator.Fit? || indicator.Tile?) {
        app.PrefetchAdjacent(area, cell, grid);
      }
      return false;
    }
  }
}
