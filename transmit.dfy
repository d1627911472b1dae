/**
 * Chunked transmission of an image in the kitty graphics protocol: the raw pixels are
 * base64-encoded and cut into 4096-byte pieces, each sent as one graphics command whose
 * control data says whether more pieces follow; only the first carries the image header.
 */
module Transmit {
  import opened Bytes
  import opened Seqs
  import Base64
  import opened Kgp

  /** The pixel buffer of a decoded image. Any other layout is converted to RGB8 before encoding. */
  datatype Pixels = Rgb8(raw: seq<byte>) | Rgba8(raw: seq<byte>) | Other(as_rgb8: seq<byte>)

  datatype Image = Image(width: u32, height: u32, pixels: Pixels)

  /** The bytes sent for the pixels: the buffer itself, or its RGB8 conversion. */
  function RawBytes(p: Pixels): seq<byte> {
    match p
    case Rgb8(raw) => raw
    case Rgba8(raw) => raw
    case Other(rgb) => rgb
  }

  /** The protocol's `f=` value: 32 for RGBA, 24 for RGB. */
  function Format(p: Pixels): (f: nat)
    ensures f == 24 || f == 32
    ensures f == 32 <==> p.Rgba8?
  {
    if p.Rgba8? then 32 else 24
  }

  /** The base64 text of the image's pixels. */
  function Payload(img: Image): seq<byte> {
    Base64.Encode(RawBytes(img.pixels))
  }

  // ------------------------------------------------------------ pieces

  /** Most base64 bytes one command carries. */
  const CHUNK: nat := 4096

  /** Consecutive pieces of `CHUNK` bytes, the last one possibly shorter. */
  function Pieces(b: seq<byte>): (ps: seq<seq<byte>>)
    ensures forall k | 0 <= k < |ps| :: 0 < |ps[k]| <= CHUNK
    decreases |b|
  {
    if b == [] then [] else if |b| <= CHUNK then [b] else [b[..CHUNK]] + Pieces(b[CHUNK..])
  }

  /** Where piece `k` of a text of length `len` ends. */
  function PieceEnd(len: nat, k: nat): nat {
    if (k + 1) * CHUNK < len then (k + 1) * CHUNK else len
  }

  /** There are ⌈|b| / CHUNK⌉ pieces; none exactly when `b` is empty. */
  lemma {:induction false} PiecesCount(b: seq<byte>)
    ensures |Pieces(b)| == (|b| + CHUNK - 1) / CHUNK
    ensures Pieces(b) == [] <==> b == []
  {
    if |b| > CHUNK {
      PiecesCount(b[CHUNK..]);
    }
  }

  /** Piece `k` is the slice starting at `k * CHUNK`. */
  lemma {:induction false} PieceAt(b: seq<byte>, k: nat)
    requires k < |Pieces(b)|
    ensures k * CHUNK < PieceEnd(|b|, k)
    ensures Pieces(b)[k] == b[k * CHUNK..PieceEnd(|b|, k)]
  {
    if |b| > CHUNK && k > 0 {
      var rest := b[CHUNK..];
      assert Pieces(b)[k] == Pieces(rest)[k - 1];
      PieceAt(rest, k - 1);
      var lo, hi := (k - 1) * CHUNK, PieceEnd(|rest|, k - 1);
      assert lo + CHUNK == k * CHUNK && hi + CHUNK == PieceEnd(|b|, k) by {
        assert k * CHUNK == (k - 1) * CHUNK + CHUNK;
        assert (k + 1) * CHUNK == k * CHUNK + CHUNK;
      }
      SliceOfSuffix(b, CHUNK, lo, hi);
    }
  }

  lemma SliceOfSuffix(b: seq<byte>, d: nat, lo: nat, hi: nat)
    requires d <= |b| && lo <= hi <= |b| - d
    ensures b[d..][lo..hi] == b[d + lo..d + hi]
  {
  }

  /** Every piece but the last is full. */
  lemma {:induction false} PiecesFull(b: seq<byte>, k: nat)
    requires k + 1 < |Pieces(b)|
    ensures |Pieces(b)[k]| == CHUNK
  {
    if k > 0 {
      assert Pieces(b)[k] == Pieces(b[CHUNK..])[k - 1];
      PiecesFull(b[CHUNK..], k - 1);
    }
  }

  /** Putting the pieces back together gives the text again. */
  lemma {:induction false} PiecesRestore(b: seq<byte>)
    ensures Flatten(Pieces(b)) == b
  {
    if |b| > CHUNK {
      var ps := Pieces(b);
      assert ps[0] == b[..CHUNK] && ps[1..] == Pieces(b[CHUNK..]);
      PiecesRestore(b[CHUNK..]);
      assert b[..CHUNK] + b[CHUNK..] == b;
    } else if b != [] {
      assert Pieces(b)[1..] == [];
      AppendNil(b);
    }
  }

  /** A piece holds only bytes of the text. */
  lemma PieceWithin(b: seq<byte>, k: nat, x: byte)
    requires k < |Pieces(b)|
    requires x in Pieces(b)[k]
    ensures x in b
  {
    PieceAt(b, k);
  }

  // ------------------------------------------------------------ control data

  /** `q=2,a=T,C=1,U=1,f=`: quiet, transmit and display, cursor kept, virtual placement. */
  const TRANSMIT: seq<byte> := Ascii("q=2,a=T,C=1,U=1,f=")
  const KEY_S: seq<byte> := ['s' as byte, '=' as byte]
  const KEY_V: seq<byte> := ['v' as byte, '=' as byte]
  const KEY_I: seq<byte> := ['i' as byte, '=' as byte]
  const KEY_M: seq<byte> := ['m' as byte, '=' as byte]

  /** A key (with its `=`) and a number closed by `,`. */
  function KeyParam(key: seq<byte>, n: nat): seq<byte> {
    key + Param(n, ',' as byte)
  }

  /** The first chunk's keys: `q=2,a=T,C=1,U=1,f=<format>,s=<w>,v=<h>,i=<id>,`. */
  function Header(format: nat, w: nat, h: nat, id: nat): seq<byte> {
    KeyParam(TRANSMIT, format) + KeyParam(KEY_S, w) + KeyParam(KEY_V, h) + KeyParam(KEY_I, id)
  }

  /** `m=1;` when more chunks follow, `m=0;` on the last one. */
  function MoreFlag(more: bool): seq<byte> {
    KEY_M + [if more then '1' as byte else '0' as byte, ';' as byte]
  }

  /** The control data of chunk `k` out of `n`: the header goes on the first one only. */
  function Control(header: seq<byte>, k: nat, n: nat): seq<byte> {
    if k == 0 then header + MoreFlag(k + 1 < n) else MoreFlag(k + 1 < n)
  }

  /** One command per piece of the base64 text `b64`, each with its control data. */
  function ChunksOf(header: seq<byte>, b64: seq<byte>, is_tmux: bool): (chunks: seq<seq<byte>>)
    ensures |chunks| == |Pieces(b64)|
  {
    var ps := Pieces(b64);
    seq(|ps|, k requires 0 <= k < |ps| => Command(Control(header, k, |ps|) + ps[k], is_tmux))
  }

  /** The commands `encode_chunks` produces for an image. */
  function TransmissionOf(img: Image, id: u32, is_tmux: bool): seq<seq<byte>> {
    ChunksOf(Header(Format(img.pixels), img.width, img.height, id), Payload(img), is_tmux)
  }

  /** Chunk `k` of the commands, with piece `k` written as a slice of `b64`. */
  lemma ChunkAt(header: seq<byte>, b64: seq<byte>, is_tmux: bool, n: nat, k: nat)
    requires n == |Pieces(b64)| && k < n
    ensures k * CHUNK < PieceEnd(|b64|, k) <= |b64|
    ensures ChunksOf(header, b64, is_tmux)[k] == Command(Control(header, k, n) + b64[k * CHUNK..PieceEnd(|b64|, k)], is_tmux)
  {
    PieceAt(b64, k);
  }

  /** Writes one command the way the encoder does: start, control data, piece, terminator. */
  method WriteCommand(f: Framing, ctl: seq<byte>, piece: seq<byte>, ghost is_tmux: bool) returns (buf: seq<byte>)
    requires f == FramingFor(is_tmux)
    ensures buf == Command(ctl + piece, is_tmux)
  {
    buf := f.start + Ascii("_G") + ctl;
    buf := buf + piece;
    buf := buf + f.escape + Ascii("\\") + f.close;
    AppendAssoc(f.start + Ascii("_G"), ctl, piece);
  }

  method EncodeChunks(img: Image, id: u32, is_tmux: bool) returns (chunks: seq<seq<byte>>)
    ensures chunks == TransmissionOf(img, id, is_tmux)
  {
    var raw, format;
    match img.pixels {
      case Rgb8(v) => raw, format := v, 24;
      case Rgba8(v) => raw, format := v, 32;
      case Other(v) => raw, format := v, 24;
    }
    assert raw == RawBytes(img.pixels) && format == Format(img.pixels);
    var b64 := Base64.Encode(raw);
    var header := Header(format, img.width, img.height, id);
    chunks := SendPieces(FramingFor(is_tmux), header, b64, is_tmux);
  }

  /**
   * The peeking loop of `encode_chunks`: the first piece with the header, then the rest,
   * each flagged with whether another piece follows.
   */
  method SendPieces(f: Framing, header: seq<byte>, b64: seq<byte>, ghost is_tmux: bool) returns (chunks: seq<seq<byte>>)
    requires f == FramingFor(is_tmux)
    ensures chunks == ChunksOf(header, b64, is_tmux)
  {
    var n := (|b64| + CHUNK - 1) / CHUNK;
    PiecesCount(b64);
    ghost var all := ChunksOf(header, b64, is_tmux);
    chunks := [];
    var k := 0;
    if k < n {
      ChunkAt(header, b64, is_tmux, n, 0);
      var buf := WriteCommand(f, header + MoreFlag(1 < n), b64[..PieceEnd(|b64|, 0)], is_tmux);
      TakeSnoc(all, 0);
      chunks := [buf];
      k := 1;
    }
    while k < n
      invariant k <= n && (k == 0 ==> n == 0)
      invariant chunks == all[..k]
    {
      ChunkAt(header, b64, is_tmux, n, k);
      var buf := WriteCommand(f, MoreFlag(k + 1 < n), b64[k * CHUNK..PieceEnd(|b64|, k)], is_tmux);
      TakeSnoc(all, k);
      chunks := chunks + [buf];
      k := k + 1;
    }
    TakeAll(all);
  }

  // ------------------------------------------------------------ what the terminal reads

  /** The key-value pairs of one chunk: the header values if present, the more flag, the payload. */
  datatype ChunkFields = ChunkFields(header: Option<(nat, nat, nat, nat)>, more: bool, payload: seq<byte>)

  const APC_OPEN: seq<byte> := [ESC, '_' as byte, 'G' as byte]
  const ST: seq<byte> := [ESC, '\\' as byte]

  /** The body of a graphics command `ESC _ G <body> ESC \`. */
  function ParseApc(cmd: seq<byte>): Option<seq<byte>> {
    if |cmd| < |APC_OPEN| + |ST| || cmd[..|APC_OPEN|] != APC_OPEN || cmd[|cmd| - |ST|..] != ST then None
    else Some(cmd[|APC_OPEN|..|cmd| - |ST|])
  }

  /** Reads `key` followed by a number closed by `,`. */
  function ParseKeyParam(s: seq<byte>, key: seq<byte>): Option<(nat, seq<byte>)> {
    if |s| < |key| || s[..|key|] != key then None else ParseParam(s[|key|..], ',' as byte)
  }

  /** Reads the first chunk's keys. */
  function ParseHeader(s: seq<byte>): Option<(nat, nat, nat, nat, seq<byte>)> {
    match ParseKeyParam(s, TRANSMIT)
    case None => None
    case Some((format, s1)) =>
      match ParseKeyParam(s1, KEY_S)
      case None => None
      case Some((w, s2)) =>
        match ParseKeyParam(s2, KEY_V)
        case None => None
        case Some((h, s3)) =>
          match ParseKeyParam(s3, KEY_I)
          case None => None
          case Some((id, s4)) => Some((format, w, h, id, s4))
  }

  /** Reads `m=1;` or `m=0;`. */
  function ParseMore(s: seq<byte>): Option<(bool, seq<byte>)> {
    if |s| < 4 || s[..2] != KEY_M || s[3] != ';' as byte then None
    else if s[2] == '1' as byte then Some((true, s[4..]))
    else if s[2] == '0' as byte then Some((false, s[4..]))
    else None
  }

  /** Reads a chunk's body: the header when it starts with the transmit keys, the more flag, the payload. */
  function ParseChunkBody(s: seq<byte>): Option<ChunkFields> {
    if |s| >= |TRANSMIT| && s[..|TRANSMIT|] == TRANSMIT then
      match ParseHeader(s)
      case None => None
      case Some((format, w, h, id, t)) =>
        match ParseMore(t)
        case None => None
        case Some((more, payload)) => Some(ChunkFields(Some((format, w, h, id)), more, payload))
    else
      match ParseMore(s)
      case None => None
      case Some((more, payload)) => Some(ChunkFields(None, more, payload))
  }

  /** Reads one graphics command of a transmission. */
  function ParseChunk(cmd: seq<byte>): Option<ChunkFields> {
    match ParseApc(cmd)
    case None => None
    case Some(body) => ParseChunkBody(body)
  }

  lemma ApcParses(body: seq<byte>)
    ensures ParseApc(Apc(body)) == Some(body)
  {
    var g, bs := Ascii("_G"), Ascii("\\");
    assert [ESC] + g == APC_OPEN && [ESC] + bs == ST;
    AppendAssoc(APC_OPEN + body, [ESC], bs);
    AppendSlices(APC_OPEN + body, ST);
    AppendSlices(APC_OPEN, body);
  }

  lemma KeyParamParses(key: seq<byte>, n: nat, rest: seq<byte>)
    ensures ParseKeyParam(KeyParam(key, n) + rest, key) == Some((n, rest))
  {
    var p := Param(n, ',' as byte);
    AppendAssoc(key, p, rest);
    AppendSlices(key, p + rest);
    ParamParses(n, ',' as byte, rest);
  }

  lemma HeaderParses(format: nat, w: nat, h: nat, id: nat, rest: seq<byte>)
    ensures ParseHeader(Header(format, w, h, id) + rest) == Some((format, w, h, id, rest))
  {
    var p1, p2, p3, p4 := KeyParam(TRANSMIT, format), KeyParam(KEY_S, w), KeyParam(KEY_V, h), KeyParam(KEY_I, id);
    AppendAssoc(p1 + p2 + p3, p4, rest);
    AppendAssoc(p1 + p2, p3, p4 + rest);
    AppendAssoc(p1, p2, p3 + (p4 + rest));
    KeyParamParses(TRANSMIT, format, p2 + (p3 + (p4 + rest)));
    KeyParamParses(KEY_S, w, p3 + (p4 + rest));
    KeyParamParses(KEY_V, h, p4 + rest);
    KeyParamParses(KEY_I, id, rest);
  }

  lemma MoreParses(more: bool, rest: seq<byte>)
    ensures ParseMore(MoreFlag(more) + rest) == Some((more, rest))
  {
    AppendSlices(MoreFlag(more), rest);
  }

  /** The header starts with the transmit keys. */
  lemma HeaderStartsTransmit(format: nat, w: nat, h: nat, id: nat, rest: seq<byte>)
    ensures |Header(format, w, h, id) + rest| >= |TRANSMIT|
    ensures (Header(format, w, h, id) + rest)[..|TRANSMIT|] == TRANSMIT
  {
    var p1, p2, p3, p4 := KeyParam(TRANSMIT, format), KeyParam(KEY_S, w), KeyParam(KEY_V, h), KeyParam(KEY_I, id);
    AppendAssoc(p1 + p2 + p3, p4, rest);
    AppendAssoc(p1 + p2, p3, p4 + rest);
    AppendAssoc(p1, p2, p3 + (p4 + rest));
    var tail := Param(format, ',' as byte) + (p2 + (p3 + (p4 + rest)));
    AppendAssoc(TRANSMIT, Param(format, ',' as byte), p2 + (p3 + (p4 + rest)));
    AppendSlices(TRANSMIT, tail);
  }

  /** The first chunk's control data reads back as the header values and the more flag. */
  lemma FirstControlParses(format: nat, w: nat, h: nat, id: nat, n: nat, piece: seq<byte>)
    ensures ParseChunkBody(Control(Header(format, w, h, id), 0, n) + piece)
      == Some(ChunkFields(Some((format, w, h, id)), 1 < n, piece))
  {
    var header, flag := Header(format, w, h, id), MoreFlag(1 < n);
    AppendAssoc(header, flag, piece);
    HeaderStartsTransmit(format, w, h, id, flag + piece);
    HeaderParses(format, w, h, id, flag + piece);
    MoreParses(1 < n, piece);
  }

  /** A later chunk's control data reads back as no header and the more flag. */
  lemma LaterControlParses(k: nat, n: nat, header: seq<byte>, piece: seq<byte>)
    requires k > 0
    ensures ParseChunkBody(Control(header, k, n) + piece) == Some(ChunkFields(None, k + 1 < n, piece))
  {
    MoreParses(k + 1 < n, piece);
    assert (MoreFlag(k + 1 < n) + piece)[0] != TRANSMIT[0];
  }

  /**
   * A terminal reading chunk `k` of a direct transmission gets the format, size and id on
   * the first chunk only, the more flag set on every chunk but the last, and piece `k` of
   * the base64 payload.
   */
  lemma TransmissionParses(img: Image, id: u32, k: nat)
    requires k < |TransmissionOf(img, id, false)|
    ensures var ps := Pieces(Payload(img));
      ParseChunk(TransmissionOf(img, id, false)[k])
        == Some(ChunkFields(if k == 0 then Some((Format(img.pixels), img.width as nat, img.height as nat, id as nat)) else None,
                            k + 1 < |ps|, ps[k]))
  {
    var ps := Pieces(Payload(img));
    var format, w, h, n: nat := Format(img.pixels), img.width, img.height, |ps|;
    var body := Control(Header(format, w, h, id), k, n) + ps[k];
    assert TransmissionOf(img, id, false)[k] == Command(body, false);
    assert Command(body, false) == Apc(body) by {
      AppendNil(Apc(body));
    }
    ApcParses(body);
    if k == 0 {
      FirstControlParses(format, w, h, id, n, ps[k]);
    } else {
      LaterControlParses(k, n, Header(format, w, h, id), ps[k]);
    }
  }

  /** The payloads of a run of commands, concatenated, if every one of them reads as a chunk. */
  function PayloadsOf(chunks: seq<seq<byte>>): Option<seq<byte>> {
    if chunks == [] then Some([])
    else match ParseChunk(chunks[0])
      case None => None
      case Some(fields) =>
        match PayloadsOf(chunks[1..])
        case None => None
        case Some(rest) => Some(fields.payload + rest)
  }

  /** The pixel bytes a terminal reassembles from a transmission. */
  function Receive(chunks: seq<seq<byte>>): Option<seq<byte>> {
    match PayloadsOf(chunks)
    case None => None
    case Some(b64) => Base64.Decode(b64)
  }

  /** Commands that each read as a chunk give the concatenation of their payloads. */
  lemma {:induction false} PayloadsOfParsed(chunks: seq<seq<byte>>, ps: seq<seq<byte>>)
    requires |chunks| == |ps|
    requires forall k | 0 <= k < |chunks| :: ParseChunk(chunks[k]).Some? && ParseChunk(chunks[k]).value.payload == ps[k]
    ensures PayloadsOf(chunks) == Some(Flatten(ps))
  {
    if chunks != [] {
      assert forall k | 0 <= k < |chunks[1..]| :: chunks[1..][k] == chunks[k + 1] && ps[1..][k] == ps[k + 1];
      PayloadsOfParsed(chunks[1..], ps[1..]);
    }
  }

  /** A terminal that reads every chunk and decodes the joined payloads gets the image's pixel bytes back. */
  lemma ReceiveTransmission(img: Image, id: u32)
    ensures Receive(TransmissionOf(img, id, false)) == Some(RawBytes(img.pixels))
  {
    var chunks, ps := TransmissionOf(img, id, false), Pieces(Payload(img));
    forall k | 0 <= k < |chunks|
      ensures ParseChunk(chunks[k]).Some? && ParseChunk(chunks[k]).value.payload == ps[k]
    {
      TransmissionParses(img, id, k);
    }
    PayloadsOfParsed(chunks, ps);
    PiecesRestore(Payload(img));
    Base64.DecodeEncode(RawBytes(img.pixels));
  }

  /**
   * The number of commands is ⌈|payload| / 4096⌉, so an image with no pixel bytes sends
   * nothing, and every command but the last carries a full 4096-byte piece.
   */
  lemma TransmissionCount(img: Image, id: u32, is_tmux: bool)
    ensures |TransmissionOf(img, id, is_tmux)| == (|Payload(img)| + CHUNK - 1) / CHUNK
    ensures TransmissionOf(img, id, is_tmux) == [] <==> RawBytes(img.pixels) == []
    ensures forall k | 0 <= k < |TransmissionOf(img, id, is_tmux)| - 1 :: |Pieces(Payload(img))[k]| == CHUNK
  {
    PiecesCount(Payload(img));
    forall k | 0 <= k < |TransmissionOf(img, id, is_tmux)| - 1 ensures |Pieces(Payload(img))[k]| == CHUNK {
      PiecesFull(Payload(img), k);
    }
  }

  /** No ESC appears in a chunk's body, so tmux can carry it. */
  lemma BodyNoEsc(img: Image, id: u32, k: nat)
    requires k < |Pieces(Payload(img))|
    ensures var ps := Pieces(Payload(img));
      ESC !in Control(Header(Format(img.pixels), img.width, img.height, id), k, |ps|) + ps[k]
  {
    var ps := Pieces(Payload(img));
    if ESC in ps[k] {
      PieceWithin(Payload(img), k, ESC);
    }
    ControlNoEsc(Format(img.pixels), img.width, img.height, id, k, |ps|);
  }

  /** The control data is printable ASCII: keys, digits and separators. */
  lemma ControlNoEsc(format: nat, w: nat, h: nat, id: nat, k: nat, n: nat)
    ensures ESC !in Control(Header(format, w, h, id), k, n)
  {
    var p1, p2, p3, p4 := KeyParam(TRANSMIT, format), KeyParam(KEY_S, w), KeyParam(KEY_V, h), KeyParam(KEY_I, id);
    assert ESC !in p1 && ESC !in p2 && ESC !in p3 && ESC !in p4;
    assert ESC !in MoreFlag(k + 1 < n);
  }

  /** Under tmux each chunk is the direct chunk wrapped in a passthrough, ESCs doubled. */
  lemma TmuxTransmission(img: Image, id: u32, k: nat)
    requires k < |TransmissionOf(img, id, true)|
    ensures |TransmissionOf(img, id, false)| == |TransmissionOf(img, id, true)|
    ensures TransmissionOf(img, id, true)[k] == TmuxWrap(TransmissionOf(img, id, false)[k])
  {
    var ps := Pieces(Payload(img));
    var body := Control(Header(Format(img.pixels), img.width, img.height, id), k, |ps|) + ps[k];
    BodyNoEsc(img, id, k);
    CommandFraming(body);
  }
}
