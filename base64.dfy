/**
 * Standard base64 with padding (section 4 of RFC 4648), the encoding the graphics
 * payload and the clipboard sequence carry.
 */
module Base64 {
  import opened Bytes

  type sextet = n: int | 0 <= n < 64

  /** The RFC 4648 alphabet: A-Z, a-z, 0-9, '+', '/'. */
  function Char(v: sextet): (r: byte)
    ensures IsB64Char(r) && r != '=' as int
  {
    if v < 26 then 'A' as int + v
    else if v < 52 then 'a' as int + (v - 26)
    else if v < 62 then '0' as int + (v - 52)
    else if v == 62 then '+' as int
    else '/' as int
  }

  predicate IsB64Char(b: byte) {
    ('A' as int <= b <= 'Z' as int) || ('a' as int <= b <= 'z' as int)
    || ('0' as int <= b <= '9' as int) || b == '+' as int || b == '/' as int
  }

  function CharValue(b: byte): sextet
    requires IsB64Char(b)
  {
    if 'A' as int <= b <= 'Z' as int then b - 'A' as int
    else if 'a' as int <= b <= 'z' as int then b - 'a' as int + 26
    else if '0' as int <= b <= '9' as int then b - '0' as int + 52
    else if b == '+' as int then 62
    else 63
  }

  lemma CharValueInverse(v: sextet)
    ensures CharValue(Char(v)) == v
  {
  }

  predicate IsEncodedByte(b: byte) {
    IsB64Char(b) || b == '=' as int
  }

  /** Encodes one group of three bytes, or the final group of one or two bytes with '=' padding. */
  function EncodeGroup(g: seq<byte>): (r: seq<byte>)
    requires 1 <= |g| <= 3
    ensures |r| == 4
    ensures forall i | 0 <= i < 4 :: IsEncodedByte(r[i])
  {
    var b0, b1, b2 := g[0], if |g| > 1 then g[1] else 0, if |g| > 2 then g[2] else 0;
    [Char(b0 / 4), Char((b0 % 4) * 16 + b1 / 16),
     if |g| > 1 then Char((b1 % 16) * 4 + b2 / 64) else '=' as int,
     if |g| > 2 then Char(b2 % 64) else '=' as int]
  }

  /** `STANDARD.encode_to_string`: padded, no line breaks. */
  function Encode(s: seq<byte>): (r: seq<byte>)
    ensures |r| == 4 * ((|s| + 2) / 3)
    ensures forall i | 0 <= i < |r| :: IsEncodedByte(r[i])
    ensures ESC !in r
  {
    if s == [] then []
    else if |s| <= 3 then
      EncodedNoEsc(EncodeGroup(s));
      EncodeGroup(s)
    else
      var head, tail := EncodeGroup(s[..3]), Encode(s[3..]);
      assert (|s| + 2) / 3 == (|s| - 3 + 2) / 3 + 1;
      EncodedAppend(head, tail);
      head + tail
  }

  lemma EncodedAppend(a: seq<byte>, b: seq<byte>)
    requires forall i | 0 <= i < |a| :: IsEncodedByte(a[i])
    requires forall i | 0 <= i < |b| :: IsEncodedByte(b[i])
    ensures forall i | 0 <= i < |a + b| :: IsEncodedByte((a + b)[i])
    ensures ESC !in a + b
  {
    assert forall i | 0 <= i < |a + b| :: (a + b)[i] == if i < |a| then a[i] else b[i - |a|];
    EncodedNoEsc(a + b);
  }

  lemma EncodedNoEsc(r: seq<byte>)
    requires forall i | 0 <= i < |r| :: IsEncodedByte(r[i])
    ensures ESC !in r
  {
  }

  /** Decodes one four-byte group back to its one to three data bytes. */
  function DecodeGroup(q: seq<byte>): Option<seq<byte>>
    requires |q| == 4
  {
    if !(IsB64Char(q[0]) && IsB64Char(q[1])) then None
    else
      var v0, v1 := CharValue(q[0]), CharValue(q[1]);
      var b0 := v0 * 4 + v1 / 16;
      if q[2] == '=' as int && q[3] == '=' as int then Some([b0])
      else if !IsB64Char(q[2]) then None
      else
        var v2 := CharValue(q[2]);
        var b1 := (v1 % 16) * 16 + v2 / 4;
        if q[3] == '=' as int then Some([b0, b1])
        else if !IsB64Char(q[3]) then None
        else Some([b0, b1, (v2 % 4) * 64 + CharValue(q[3])])
  }

  function Decode(e: seq<byte>): Option<seq<byte>> {
    if e == [] then Some([])
    else if |e| < 4 then None
    else match DecodeGroup(e[..4]) {
      case None => None
      case Some(g) =>
        match Decode(e[4..]) {
          case None => None
          case Some(rest) => Some(g + rest)
        }
    }
  }

  lemma DecodeEncodeGroup3(b0: byte, b1: byte, b2: byte)
    ensures DecodeGroup(EncodeGroup([b0, b1, b2])) == Some([b0, b1, b2])
  {
    var v0, v1, v2, v3 := b0 / 4, (b0 % 4) * 16 + b1 / 16, (b1 % 16) * 4 + b2 / 64, b2 % 64;
    var q := EncodeGroup([b0, b1, b2]);
    assert q == [Char(v0), Char(v1), Char(v2), Char(v3)];
    CharValueInverse(v0);
    CharValueInverse(v1);
    CharValueInverse(v2);
    CharValueInverse(v3);
    assert v0 * 4 + v1 / 16 == b0;
    assert (v1 % 16) * 16 + v2 / 4 == b1;
    assert (v2 % 4) * 64 + v3 == b2;
  }

  lemma DecodeEncodeGroup2(b0: byte, b1: byte)
    ensures DecodeGroup(EncodeGroup([b0, b1])) == Some([b0, b1])
  {
    CharValueInverse(b0 / 4);
    CharValueInverse((b0 % 4) * 16 + b1 / 16);
    CharValueInverse((b1 % 16) * 4);
  }

  lemma DecodeEncodeGroup1(b0: byte)
    ensures DecodeGroup(EncodeGroup([b0])) == Some([b0])
  {
    CharValueInverse(b0 / 4);
    CharValueInverse((b0 % 4) * 16);
  }

  lemma DecodeEncodeGroup(g: seq<byte>)
    requires 1 <= |g| <= 3
    ensures DecodeGroup(EncodeGroup(g)) == Some(g)
  {
    if |g| == 1 {
      assert g == [g[0]];
      DecodeEncodeGroup1(g[0]);
    } else if |g| == 2 {
      assert g == [g[0], g[1]];
      DecodeEncodeGroup2(g[0], g[1]);
    } else {
      assert g == [g[0], g[1], g[2]];
      DecodeEncodeGroup3(g[0], g[1], g[2]);
    }
  }

  /** Decoding undoes encoding: every payload comes back from its base64 text. */
  lemma {:induction false} DecodeEncode(s: seq<byte>)
    ensures Decode(Encode(s)) == Some(s)
  {
    if s == [] {
    } else if |s| <= 3 {
      DecodeEncodeGroup(s);
      assert EncodeGroup(s)[..4] == EncodeGroup(s);
      assert EncodeGroup(s)[4..] == [];
      assert s + [] == s;
    } else {
      var head := EncodeGroup(s[..3]);
      var e := head + Encode(s[3..]);
      assert e[..4] == head && e[4..] == Encode(s[3..]);
      DecodeEncodeGroup(s[..3]);
      DecodeEncode(s[3..]);
      assert s[..3] + s[3..] == s;
    }
  }

  /** Encoding is injective, a consequence of the round trip. */
  lemma EncodeInjective(a: seq<byte>, b: seq<byte>)
    requires Encode(a) == Encode(b)
    ensures a == b
  {
    DecodeEncode(a);
    DecodeEncode(b);
  }

  /** The RFC 4648 style test vector the clipboard test relies on: "test" encodes to "dGVzdA==". */
  lemma EncodeTestVector()
    ensures Encode(Ascii("test")) == Ascii("dGVzdA==")
  {
    assert Ascii("test") == [116, 101, 115, 116];
    assert Ascii("dGVzdA==") == [100, 71, 86, 122, 100, 65, 61, 61];
    EncodeTestBytes();
  }

  lemma EncodeTestBytes()
    ensures Encode([116, 101, 115, 116]) == [100, 71, 86, 122, 100, 65, 61, 61]
  {
    var t: seq<byte> := [116, 101, 115, 116];
    assert t[..3] == [116, 101, 115] && t[3..] == [116];
    EncodeTestGroups();
  }

  /** The two groups of "test": "tes" and the padded "t". */
  lemma EncodeTestGroups()
    ensures EncodeGroup([116, 101, 115]) == [100, 71, 86, 122]
    ensures EncodeGroup([116]) == [100, 65, 61, 61]
  {
    assert Char(29) == 100 && Char(6) == 71 && Char(21) == 86 && Char(51) == 122 && Char(0) == 65;
  }
}
