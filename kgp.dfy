/**
 * The kitty graphics protocol encoder: delete commands, chunked transmission of base64
 * pixel data, Unicode-placeholder placement rows and plain cursor/erase rows, each framed
 * for a direct terminal or for tmux passthrough.
 */
module Kgp {
  import opened Bytes
  import Base64
  import opened Rects
  import opened Diacritics
  import opened Seqs

  // ------------------------------------------------------------ framing

  /** Opens a tmux passthrough and starts the inner command's doubled ESC. */
  const TMUX_START: seq<byte> := [ESC] + Ascii("Ptmux;") + [ESC, ESC]
  const TMUX_ESCAPE: seq<byte> := [ESC, ESC]
  const TMUX_CLOSE: seq<byte> := [ESC] + Ascii("\\")

  /** The three framing strings a command is written with: start, string-terminator escape, close. */
  datatype Framing = Framing(start: seq<byte>, escape: seq<byte>, close: seq<byte>)

  function FramingFor(is_tmux: bool): Framing {
    if is_tmux then Framing(TMUX_START, TMUX_ESCAPE, TMUX_CLOSE)
    else Framing([ESC], [ESC], [])
  }

  /** A graphics command written the way the encoder writes it: `{start}_G<body>{escape}\{close}`. */
  function Command(body: seq<byte>, is_tmux: bool): seq<byte> {
    var f := FramingFor(is_tmux);
    f.start + Ascii("_G") + body + f.escape + Ascii("\\") + f.close
  }

  /** An application program command of the graphics protocol: `ESC _ G <body> ESC \`. */
  function Apc(body: seq<byte>): seq<byte> {
    [ESC] + Ascii("_G") + body + [ESC] + Ascii("\\")
  }

  /** Every ESC doubled, as tmux requires inside a passthrough. */
  function DoubleEsc(s: seq<byte>): (r: seq<byte>)
    ensures |r| >= |s|
  {
    if s == [] then [] else (if s[0] == ESC then [ESC, ESC] else [s[0]]) + DoubleEsc(s[1..])
  }

  /** tmux passthrough: `ESC P tmux; <s with each ESC doubled> ESC \`. */
  function TmuxWrap(s: seq<byte>): seq<byte> {
    [ESC] + Ascii("Ptmux;") + DoubleEsc(s) + [ESC] + Ascii("\\")
  }

  lemma {:induction false} DoubleEscAppend(a: seq<byte>, b: seq<byte>)
    ensures DoubleEsc(a + b) == DoubleEsc(a) + DoubleEsc(b)
  {
    if a == [] {
      assert a + b == b;
    } else {
      assert (a + b)[0] == a[0] && (a + b)[1..] == a[1..] + b;
      DoubleEscAppend(a[1..], b);
    }
  }

  lemma {:induction false} DoubleEscNoEsc(s: seq<byte>)
    requires ESC !in s
    ensures DoubleEsc(s) == s
  {
    if s != [] {
      assert ESC !in s[1..];
      DoubleEscNoEsc(s[1..]);
    }
  }

  lemma DoubleEscApc(body: seq<byte>)
    requires ESC !in body
    ensures DoubleEsc(Apc(body)) == [ESC, ESC] + Ascii("_G") + body + [ESC, ESC] + Ascii("\\")
  {
    var g, bs := Ascii("_G"), Ascii("\\");
    var p1, p2, p3 := [ESC] + g, [ESC] + g + body, [ESC] + g + body + [ESC];
    assert Apc(body) == p3 + bs;
    DoubleEscAppend(p3, bs);
    DoubleEscAppend(p2, [ESC]);
    DoubleEscAppend(p1, body);
    DoubleEscAppend([ESC], g);
    assert DoubleEsc([ESC]) == [ESC, ESC];
    DoubleEscNoEsc(g);
    DoubleEscNoEsc(bs);
    DoubleEscNoEsc(body);
    assert DoubleEsc(p1) == [ESC, ESC] + g;
    assert DoubleEsc(p2) == [ESC, ESC] + g + body;
    assert DoubleEsc(p3) == [ESC, ESC] + g + body + [ESC, ESC];
  }

  /**
   * The encoder's framing strings produce the protocol's command directly, and the tmux
   * framing produces exactly the passthrough of that command.
   */
  lemma CommandFraming(body: seq<byte>)
    requires ESC !in body
    ensures Command(body, false) == Apc(body)
    ensures Command(body, true) == TmuxWrap(Apc(body))
  {
    DoubleEscApc(body);
    var g, bs := Ascii("_G"), Ascii("\\");
    calc {
      TmuxWrap(Apc(body));
      [ESC] + Ascii("Ptmux;") + ([ESC, ESC] + g + body + [ESC, ESC] + bs) + [ESC] + bs;
      { assert [ESC] + Ascii("Ptmux;") + [ESC, ESC] == TMUX_START; }
      TMUX_START + g + body + TMUX_ESCAPE + bs + TMUX_CLOSE;
    }
  }

  // ------------------------------------------------------------ delete commands

  /** Deletes the image with the given id, and its placements (`a=d,d=i`). */
  function DeleteById(id: u32, is_tmux: bool): (r: seq<byte>)
    ensures !is_tmux ==> r == Apc(Ascii("q=2,a=d,d=i,i=") + Decimal(id))
    ensures is_tmux ==> r == TmuxWrap(Apc(Ascii("q=2,a=d,d=i,i=") + Decimal(id)))
  {
    var body := Ascii("q=2,a=d,d=i,i=") + Decimal(id);
    CommandFraming(body);
    Command(body, is_tmux)
  }

  /** The image id a `d=i` delete command names, if `cmd` is one. */
  function DeletedImageId(cmd: seq<byte>): Option<nat> {
    var prefix := Ascii("q=2,a=d,d=i,i=");
    if |cmd| < 5 + |prefix| || cmd[..3] != [ESC] + Ascii("_G") || cmd[|cmd| - 2..] != [ESC] + Ascii("\\") then None
    else
      var body := cmd[3..|cmd| - 2];
      var digits := body[|prefix|..];
      if body[..|prefix|] == prefix && AllDigits(digits) then Some(DigitsValue(digits)) else None
  }

  /** The id written into a delete command is the id read back from it. */
  lemma DeleteByIdNamesId(id: u32)
    ensures DeletedImageId(DeleteById(id, false)) == Some(id)
  {
    var prefix := Ascii("q=2,a=d,d=i,i=");
    var body := prefix + Decimal(id);
    var cmd := Apc(body);
    assert cmd == ([ESC] + Ascii("_G")) + body + ([ESC] + Ascii("\\"));
    assert cmd[..3] == [ESC] + Ascii("_G");
    assert cmd[|cmd| - 2..] == [ESC] + Ascii("\\");
    assert cmd[3..|cmd| - 2] == body;
    assert body[..|prefix|] == prefix && body[|prefix|..] == Decimal(id);
    DecimalRoundTrip(id);
  }

  /**
   * Deletes every image: first all visible placements (`d=a`), then all placements
   * including those off screen (`d=A`), each framed like a single command.
   */
  function DeleteAll(is_tmux: bool): (r: seq<byte>)
    ensures !is_tmux ==> r == Apc(Ascii("q=2,a=d,d=a")) + Apc(Ascii("q=2,a=d,d=A"))
    ensures is_tmux ==> r == TmuxWrap(Apc(Ascii("q=2,a=d,d=a"))) + TmuxWrap(Apc(Ascii("q=2,a=d,d=A")))
  {
    var visible, all := Ascii("q=2,a=d,d=a"), Ascii("q=2,a=d,d=A");
    CommandFraming(visible);
    CommandFraming(all);
    Command(visible, is_tmux) + Command(all, is_tmux)
  }

  // ------------------------------------------------------------ last placement

  /** What the terminal last showed: the area and the id it was transmitted under. */
  class KgpState {
    var last_area: Option<Rect>
    var last_kgp_id: Option<u32>

    constructor ()
      ensures last_area.None? && last_kgp_id.None?
    {
      last_area := None;
      last_kgp_id := None;
    }

    method SetLast(area: Rect, kgp_id: u32)
      modifies this
      ensures last_area == Some(area) && last_kgp_id == Some(kgp_id)
    {
      last_area := Some(area);
      last_kgp_id := Some(kgp_id);
    }

    /** Forgets the id but keeps the area, so the next display still erases it. */
    method Invalidate()
      modifies this
      ensures last_kgp_id.None? && last_area == old(last_area)
    {
      last_kgp_id := None;
    }

    /** Overwrites the state with `KgpState::default()`: nothing is known to be shown. */
    method Reset()
      modifies this
      ensures last_area.None? && last_kgp_id.None?
    {
      last_area := None;
      last_kgp_id := None;
    }
  }

  // ------------------------------------------------------------ cursor and erase rows

  /** Control sequence introducer, `ESC [`. */
  const CSI: seq<byte> := [ESC, '[' as byte]

  /** A numeric parameter of a control sequence, closed by the byte `c`. */
  function Param(n: nat, c: byte): seq<byte> {
    Decimal(n) + [c]
  }

  /** CSI cursor position: `ESC [ <row> ; <col> H`, both one-based. */
  function CursorTo(row: nat, col: nat): seq<byte> {
    CSI + Param(row, ';' as byte) + Param(col, 'H' as byte)
  }

  /** CSI erase characters: `ESC [ <n> X`. */
  function EraseChars(n: nat): seq<byte> {
    CSI + Param(n, 'X' as byte)
  }

  /** One erase row: move to one-based (`row`, `col`), then blank `width` cells. */
  function EraseRow(row: nat, col: nat, width: nat): seq<byte> {
    CursorTo(row, col) + EraseChars(width)
  }

  /** The rows `erase_rows` produces: none for an empty area, otherwise one per row. */
  function ErasureOf(area: Rect): (rows: seq<seq<byte>>)
    ensures area.IsEmpty() ==> rows == []
    ensures !area.IsEmpty() ==> |rows| == area.height
  {
    if area.IsEmpty() then [] else seq(area.height, i requires 0 <= i < area.height => EraseRow(area.y + i + 1, area.x + 1, area.width))
  }

  method EraseRows(area: Rect) returns (rows: seq<seq<byte>>)
    requires Fits(area)
    ensures rows == ErasureOf(area)
  {
    if area.width == 0 || area.height == 0 {
      return [];
    }
    rows := [];
    var y := 0;
    while y < area.height
      invariant 0 <= y <= area.height
      invariant rows == ErasureOf(area)[..y]
    {
      var row: nat, col: nat := area.y + y + 1, area.x + 1;
      var buf := CursorTo(row, col);
      buf := buf + EraseChars(area.width);
      assert buf == EraseRow(row, col, area.width) == ErasureOf(area)[y];
      rows := rows + [buf];
      y := y + 1;
    }
  }

  /** The decimal number at the front of `s`, and what follows it. */
  function ParseNumber(s: seq<byte>): Option<(nat, seq<byte>)> {
    var k := SpanDigits(s);
    if k == 0 then None else Some((DigitsValue(s[..k]), s[k..]))
  }

  /** A decimal number at the front of `s` closed by the byte `c`, and what follows `c`. */
  function ParseParam(s: seq<byte>, c: byte): Option<(nat, seq<byte>)> {
    match ParseNumber(s)
    case None => None
    case Some((n, t)) => if t != [] && t[0] == c then Some((n, t[1..])) else None
  }

  lemma ParseNumberDecimal(n: nat, rest: seq<byte>)
    requires rest == [] || !IsDigit(rest[0])
    ensures ParseNumber(Decimal(n) + rest) == Some((n, rest))
  {
    var d := Decimal(n);
    SpanDigitsOfDigits(d, rest);
    AppendSlices(d, rest);
    DecimalRoundTrip(n);
  }

  lemma ParamParses(n: nat, c: byte, rest: seq<byte>)
    requires !IsDigit(c)
    ensures ParseParam(Param(n, c) + rest, c) == Some((n, rest))
  {
    AppendAssoc(Decimal(n), [c], rest);
    ParseNumberDecimal(n, [c] + rest);
    AppendSlices([c], rest);
  }

  /** Reads a cursor-position sequence from the front of `s`. */
  function ParseCursorTo(s: seq<byte>): Option<(nat, nat, seq<byte>)> {
    if |s| < 2 || s[..2] != CSI then None
    else match ParseParam(s[2..], ';' as byte)
      case None => None
      case Some((row, t)) =>
        match ParseParam(t, 'H' as byte)
        case None => None
        case Some((col, u)) => Some((row, col, u))
  }

  /** Reads an erase-characters sequence from the front of `s`. */
  function ParseEraseChars(s: seq<byte>): Option<(nat, seq<byte>)> {
    if |s| < 2 || s[..2] != CSI then None else ParseParam(s[2..], 'X' as byte)
  }

  lemma CursorToParses(row: nat, col: nat, rest: seq<byte>)
    ensures ParseCursorTo(CursorTo(row, col) + rest) == Some((row, col, rest))
  {
    var p1, p2 := Param(row, ';' as byte), Param(col, 'H' as byte);
    AppendAssoc(CSI + p1, p2, rest);
    AppendAssoc(CSI, p1, p2 + rest);
    AppendSlices(CSI, p1 + (p2 + rest));
    ParamParses(row, ';' as byte, p2 + rest);
    ParamParses(col, 'H' as byte, rest);
  }

  lemma EraseCharsParses(n: nat, rest: seq<byte>)
    ensures ParseEraseChars(EraseChars(n) + rest) == Some((n, rest))
  {
    var p := Param(n, 'X' as byte);
    AppendAssoc(CSI, p, rest);
    AppendSlices(CSI, p + rest);
    ParamParses(n, 'X' as byte, rest);
  }

  /**
   * Row `i` of an erase moves to one-based row `y+i+1`, column `x+1`, and then blanks
   * `width` cells, with nothing after.
   */
  lemma ErasureRowParses(area: Rect, i: nat)
    requires i < |ErasureOf(area)|
    ensures ParseCursorTo(ErasureOf(area)[i]) == Some(((area.y + i + 1) as nat, (area.x + 1) as nat, EraseChars(area.width)))
  {
    var row: nat, col: nat, width: nat := area.y + i + 1, area.x + 1, area.width;
    assert ErasureOf(area)[i] == EraseRow(row, col, width);
    CursorToParses(row, col, EraseChars(width));
  }

  /** The erase rows of the area `Rect(2, 3, 4, 2)` start with `ESC[4;3H` and `ESC[5;3H`. */
  lemma EraseRowsExample()
    ensures |ErasureOf(Rect(2, 3, 4, 2))| == 2
    ensures ErasureOf(Rect(2, 3, 4, 2))[0] == [ESC] + Ascii("[4;3H") + EraseChars(4)
    ensures ErasureOf(Rect(2, 3, 4, 2))[1] == [ESC] + Ascii("[5;3H") + EraseChars(4)
  {
    assert Decimal(3) == ['3' as byte] && Decimal(4) == ['4' as byte] && Decimal(5) == ['5' as byte];
    assert ErasureOf(Rect(2, 3, 4, 2))[0] == EraseRow(4, 3, 4);
    assert ErasureOf(Rect(2, 3, 4, 2))[1] == EraseRow(5, 3, 4);
    assert CursorTo(4, 3) == [ESC] + Ascii("[4;3H");
    assert CursorTo(5, 3) == [ESC] + Ascii("[5;3H");
  }

  // ------------------------------------------------------------ placement rows

  /** The placeholder character U+10EEEE that stands for one cell of an image. */
  const PLACEHOLDER: nat := 0x10_EEEE

  /** The four scalar values of one placeholder cell: U+10EEEE, then row, column and id-byte marks. */
  function CellScalars(row: nat, col: nat, extra: nat): (r: seq<nat>)
    ensures forall i | 0 <= i < |r| :: IsScalar(r[i])
  {
    [PLACEHOLDER, Diacritic(row), Diacritic(col), Diacritic(extra)]
  }

  /** The scalar values of the first `n` cells of row `row`. */
  function RowScalars(row: nat, n: nat, extra: nat): (r: seq<nat>)
    ensures |r| == 4 * n
    ensures forall i | 0 <= i < |r| :: IsScalar(r[i])
  {
    if n == 0 then [] else RowScalars(row, n - 1, extra) + CellScalars(row, n - 1, extra)
  }

  /** Cell `j` of a row is the placeholder followed by the row's, the column's and the id byte's marks. */
  lemma {:induction false} RowScalarsCell(row: nat, n: nat, extra: nat, j: nat)
    requires j < n
    ensures RowScalars(row, n, extra)[4 * j..4 * j + 4] == [PLACEHOLDER, Diacritic(row), Diacritic(j), Diacritic(extra)]
  {
    var prefix := RowScalars(row, n - 1, extra);
    if j < n - 1 {
      RowScalarsCell(row, n - 1, extra, j);
      assert (prefix + CellScalars(row, n - 1, extra))[4 * j..4 * j + 4] == prefix[4 * j..4 * j + 4];
    } else {
      assert (prefix + CellScalars(row, n - 1, extra))[4 * j..4 * j + 4] == CellScalars(row, n - 1, extra);
    }
  }

  /** The UTF-8 bytes of the first `n` cells of row `row`. */
  function Cells(row: nat, n: nat, extra: nat): seq<byte> {
    Utf8Scalars(RowScalars(row, n, extra))
  }

  /** One more cell appends the encoding of its four characters. */
  lemma CellsSnoc(row: nat, n: nat, extra: nat)
    ensures Cells(row, n + 1, extra) == Cells(row, n, extra) + Utf8Scalars(CellScalars(row, n, extra))
  {
    Utf8ScalarsAppend(RowScalars(row, n, extra), CellScalars(row, n, extra));
  }

  /** The id split into its top byte and the three colour bytes, most significant first. */
  function IdBytes(id: u32): (r: (nat, nat, nat, nat))
    ensures r.0 < 256 && r.1 < 256 && r.2 < 256 && r.3 < 256
  {
    var q1 := id / 0x100;
    var q2 := q1 / 0x100;
    (q2 / 0x100, q2 % 0x100, q1 % 0x100, id % 0x100)
  }

  /** The four bytes put back together, most significant first, give the id again. */
  lemma IdBytesRecombine(id: u32)
    ensures var (extra, r, g, b) := IdBytes(id);
      extra * 0x100_0000 + r * 0x1_0000 + g * 0x100 + b == id
  {
    var q1 := id / 0x100;
    var q2 := q1 / 0x100;
    assert id == q1 * 0x100 + id % 0x100;
    assert q1 == q2 * 0x100 + q1 % 0x100;
    assert q2 == (q2 / 0x100) * 0x100 + q2 % 0x100;
  }

  /** SGR 24-bit foreground colour: `ESC [ 38 ; 2 ; r ; g ; b m`. */
  function Foreground(r: nat, g: nat, b: nat): seq<byte> {
    SGR_FG + Param(r, ';' as byte) + Param(g, ';' as byte) + Param(b, 'm' as byte)
  }

  /** `ESC [ 38 ; 2 ;`, the introducer of a 24-bit foreground colour. */
  const SGR_FG: seq<byte> := CSI + ['3' as byte, '8' as byte, ';' as byte, '2' as byte, ';' as byte]

  /** `ESC [ 0 m`, back to the default colours. */
  const RESET: seq<byte> := CSI + ['0' as byte, 'm' as byte]

  /**
   * Image row `i` of a placement: the colour (`r`, `g`, `b`), the cursor move to one-based
   * (`row`, `col`), `width` cells carrying the mark of `extra`, a reset.
   */
  function PlaceRow(r: nat, g: nat, b: nat, extra: nat, i: nat, row: nat, col: nat, width: nat): seq<byte> {
    Foreground(r, g, b) + CursorTo(row, col) + Cells(i, width, extra) + RESET
  }

  /** The rows `place_rows` produces: none for an empty area, otherwise one per row. */
  function PlacementOf(area: Rect, id: u32): (rows: seq<seq<byte>>)
    ensures area.IsEmpty() ==> rows == []
    ensures !area.IsEmpty() ==> |rows| == area.height
  {
    var (extra, r, g, b) := IdBytes(id);
    if area.IsEmpty() then []
    else seq(area.height, i requires 0 <= i < area.height => PlaceRow(r, g, b, extra, i, area.y + i + 1, area.x + 1, area.width))
  }

  /** Row `i` of the placement of `id`, with its one-based position given as `row` and `col`. */
  lemma PlacementOfRow(area: Rect, id: u32, i: nat, row: nat, col: nat)
    requires i < |PlacementOf(area, id)| && row == area.y + i + 1 && col == area.x + 1
    ensures var (extra, r, g, b) := IdBytes(id);
      PlacementOf(area, id)[i] == PlaceRow(r, g, b, extra, i, row, col, area.width)
  {
  }

  method PlaceRows(area: Rect, id: u32) returns (rows: seq<seq<byte>>)
    requires Fits(area)
    ensures rows == PlacementOf(area, id)
  {
    if area.width == 0 || area.height == 0 {
      return [];
    }
    var (id_extra, r, g, b) := IdBytes(id);
    rows := [];
    var y := 0;
    while y < area.height
      invariant 0 <= y <= area.height
      invariant rows == PlacementOf(area, id)[..y]
    {
      var row: nat, col: nat := area.y + y + 1, area.x + 1;
      var head := Foreground(r, g, b);
      head := head + CursorTo(row, col);
      var buf := AppendCells(head, y, area.width, id_extra);
      buf := buf + RESET;
      PlacementOfRow(area, id, y, row, col);
      rows := rows + [buf];
      y := y + 1;
    }
  }

  /** The inner loop of `place_rows`: `width` cells of row `row` after `head`. */
  method AppendCells(head: seq<byte>, row: nat, width: nat, extra: nat) returns (buf: seq<byte>)
    ensures buf == head + Cells(row, width, extra)
  {
    buf := head;
    var x := 0;
    while x < width
      invariant 0 <= x <= width
      invariant buf == head + Cells(row, x, extra)
    {
      var cell := Utf8Scalars(CellScalars(row, x, extra));
      CellsSnoc(row, x, extra);
      AppendAssoc(head, Cells(row, x, extra), cell);
      buf := buf + cell;
      x := x + 1;
    }
  }

  /** What a terminal reads from a placement row. */
  datatype Placement = Placement(r: nat, g: nat, b: nat, row: nat, col: nat, text: seq<nat>)

  /** Reads the colour sequence at the front of `s`. */
  function ParseForeground(s: seq<byte>): Option<(nat, nat, nat, seq<byte>)> {
    if |s| < |SGR_FG| || s[..|SGR_FG|] != SGR_FG then None
    else match ParseParam(s[|SGR_FG|..], ';' as byte)
      case None => None
      case Some((r, s1)) =>
        match ParseParam(s1, ';' as byte)
        case None => None
        case Some((g, s2)) =>
          match ParseParam(s2, 'm' as byte)
          case None => None
          case Some((b, s3)) => Some((r, g, b, s3))
  }

  lemma ForegroundParses(r: nat, g: nat, b: nat, rest: seq<byte>)
    ensures ParseForeground(Foreground(r, g, b) + rest) == Some((r, g, b, rest))
  {
    var p1, p2, p3 := Param(r, ';' as byte), Param(g, ';' as byte), Param(b, 'm' as byte);
    AppendAssoc(SGR_FG + p1 + p2, p3, rest);
    AppendAssoc(SGR_FG + p1, p2, p3 + rest);
    AppendAssoc(SGR_FG, p1, p2 + (p3 + rest));
    AppendSlices(SGR_FG, p1 + (p2 + (p3 + rest)));
    ParamParses(r, ';' as byte, p2 + (p3 + rest));
    ParamParses(g, ';' as byte, p3 + rest);
    ParamParses(b, 'm' as byte, rest);
  }

  /** Reads a placement row: colour, cursor move, cell text, and the closing reset. */
  function ParsePlaceRow(s: seq<byte>): Option<Placement> {
    match ParseForeground(s)
    case None => None
    case Some((r, g, b, s1)) =>
      match ParseCursorTo(s1)
      case None => None
      case Some((row, col, s2)) =>
        if |s2| < |RESET| || s2[|s2| - |RESET|..] != RESET then None
        else match DecodeUtf8(s2[..|s2| - |RESET|])
          case None => None
          case Some(text) => Some(Placement(r, g, b, row, col, text))
  }

  /** `ParsePlaceRow` from the results of its three steps. */
  lemma ParsePlaceRowSteps(s: seq<byte>, r: nat, g: nat, b: nat, s1: seq<byte>, row: nat, col: nat, cells: seq<byte>, text: seq<nat>)
    requires ParseForeground(s) == Some((r, g, b, s1))
    requires ParseCursorTo(s1) == Some((row, col, cells + RESET))
    requires DecodeUtf8(cells) == Some(text)
    ensures ParsePlaceRow(s) == Some(Placement(r, g, b, row, col, text))
  {
    AppendSlices(cells, RESET);
  }

  /** What a terminal reads from one placement row. */
  lemma PlaceRowParses(r: nat, g: nat, b: nat, extra: nat, i: nat, row: nat, col: nat, width: nat)
    ensures ParsePlaceRow(PlaceRow(r, g, b, extra, i, row, col, width))
      == Some(Placement(r, g, b, row, col, RowScalars(i, width, extra)))
  {
    var s := PlaceRow(r, g, b, extra, i, row, col, width);
    var cells := Cells(i, width, extra);
    var s1 := CursorTo(row, col) + (cells + RESET);
    assert ParseForeground(s) == Some((r, g, b, s1)) by {
      AppendAssoc(Foreground(r, g, b) + CursorTo(row, col), cells, RESET);
      AppendAssoc(Foreground(r, g, b), CursorTo(row, col), cells + RESET);
      ForegroundParses(r, g, b, s1);
    }
    CursorToParses(row, col, cells + RESET);
    DecodeUtf8Scalars(RowScalars(i, width, extra));
    ParsePlaceRowSteps(s, r, g, b, s1, row, col, cells, RowScalars(i, width, extra));
  }

  /**
   * A terminal reading row `i` of a placement gets the id's low three bytes as the colour,
   * the one-based position of the row's first cell, and `width` placeholder cells marked
   * with the row, their column and the id's top byte.
   */
  lemma PlacementRowParses(area: Rect, id: u32, i: nat)
    requires i < |PlacementOf(area, id)|
    ensures var (extra, r, g, b) := IdBytes(id);
      ParsePlaceRow(PlacementOf(area, id)[i])
        == Some(Placement(r, g, b, (area.y + i + 1) as nat, (area.x + 1) as nat, RowScalars(i, area.width, extra)))
  {
    var (extra, r, g, b) := IdBytes(id);
    var row: nat, col: nat, width: nat := area.y + i + 1, area.x + 1, area.width;
    assert PlacementOf(area, id)[i] == PlaceRow(r, g, b, extra, i, row, col, width);
    PlaceRowParses(r, g, b, extra, i, row, col, width);
  }
}
