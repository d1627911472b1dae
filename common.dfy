/**
 * Byte strings as the terminal sees them: bytes, integer widths, ASCII literals,
 * the decimal rendering Rust's `{}` gives an unsigned integer, and UTF-8.
 */
module Bytes {
  import opened Seqs

  type byte = b: int | 0 <= b < 0x100
  type u16 = n: int | 0 <= n < 0x1_0000
  type u32 = n: int | 0 <= n < 0x1_0000_0000

  const U16_MAX: int := 0xFFFF
  const U32_MAX: int := 0xFFFF_FFFF
  const I32_MIN: int := -0x8000_0000
  const I32_MAX: int := 0x7FFF_FFFF
  const U64_MAX: int := 0xFFFF_FFFF_FFFF_FFFF

  datatype Option<T> = None | Some(value: T)

  const ESC: byte := 0x1B
  const BEL: byte := 0x07

  /** Printable ASCII, the only text the emitted control strings spell out. */
  predicate IsPrintable(s: string) {
    forall i | 0 <= i < |s| :: 0x20 <= s[i] as int < 0x7F
  }

  /** The bytes of a printable ASCII literal. */
  function Ascii(s: string): (r: seq<byte>)
    requires IsPrintable(s)
    ensures |r| == |s|
    ensures forall i | 0 <= i < |s| :: r[i] == s[i] as int
    ensures ESC !in r
  {
    seq(|s|, i requires 0 <= i < |s| => s[i] as int)
  }

  predicate IsDigit(b: int) {
    '0' as int <= b <= '9' as int
  }

  predicate AllDigits(s: seq<byte>) {
    forall i | 0 <= i < |s| :: IsDigit(s[i])
  }

  /** `format!("{}", n)` for an unsigned integer: shortest decimal, no sign. */
  function Decimal(n: nat): (r: seq<byte>)
    ensures 1 <= |r| && AllDigits(r)
    ensures r[0] == '0' as int <==> n == 0
    ensures ESC !in r
  {
    if n < 10 then [n + '0' as int] else Decimal(n / 10) + [n % 10 + '0' as int]
  }

  /** The value of a string of decimal digits (the reading direction of `Decimal`). */
  function DigitsValue(s: seq<byte>): nat
    requires AllDigits(s)
  {
    if s == [] then 0 else DigitsValue(s[..|s| - 1]) * 10 + (s[|s| - 1] - '0' as int)
  }

  lemma {:induction false} DecimalRoundTrip(n: nat)
    ensures DigitsValue(Decimal(n)) == n
  {
    if n >= 10 {
      var d := Decimal(n / 10);
      assert Decimal(n) == d + [n % 10 + '0' as int];
      assert (d + [n % 10 + '0' as int])[..|d|] == d;
      DecimalRoundTrip(n / 10);
    }
  }

  lemma DecimalInjective(a: nat, b: nat)
    requires Decimal(a) == Decimal(b)
    ensures a == b
  {
    DecimalRoundTrip(a);
    DecimalRoundTrip(b);
  }

  /** Length of the longest all-digit prefix of `s`. */
  function SpanDigits(s: seq<byte>): (r: nat)
    ensures r <= |s| && AllDigits(s[..r])
    ensures r < |s| ==> !IsDigit(s[r])
  {
    if s == [] || !IsDigit(s[0]) then 0
    else
      var k := SpanDigits(s[1..]);
      assert s[..k + 1] == [s[0]] + s[1..][..k];
      k + 1
  }

  lemma {:induction false} SpanDigitsOfDigits(d: seq<byte>, rest: seq<byte>)
    requires AllDigits(d)
    requires rest == [] || !IsDigit(rest[0])
    ensures SpanDigits(d + rest) == |d|
  {
    if d != [] {
      assert (d + rest)[1..] == d[1..] + rest;
      SpanDigitsOfDigits(d[1..], rest);
    }
  }

  /** `format!("{}", n)` as text rather than bytes. */
  function DecimalText(n: nat): (r: string)
    ensures |r| == |Decimal(n)|
    ensures forall i | 0 <= i < |r| :: r[i] as int == Decimal(n)[i]
  {
    var d := Decimal(n);
    seq(|d|, i requires 0 <= i < |d| => d[i] as char)
  }

  lemma DecimalTextInjective(a: nat, b: nat)
    requires DecimalText(a) == DecimalText(b)
    ensures a == b
  {
    var da, db := Decimal(a), Decimal(b);
    assert |da| == |db|;
    forall i | 0 <= i < |da| ensures da[i] == db[i] {
      assert DecimalText(a)[i] == DecimalText(b)[i];
    }
    assert da == db;
    DecimalInjective(a, b);
  }

  // ---------------------------------------------------------------- UTF-8

  predicate IsContinuation(b: byte) {
    0x80 <= b < 0xC0
  }

  /** The UTF-8 encoding of one Unicode scalar value, as Rust writes a `char`. */
  function Utf8(c: nat): (r: seq<byte>)
    requires c < 0x11_0000
    ensures |r| == (if c < 0x80 then 1 else if c < 0x800 then 2 else if c < 0x1_0000 then 3 else 4)
    ensures !IsContinuation(r[0])
    ensures forall i | 1 <= i < |r| :: IsContinuation(r[i])
    ensures ESC in r <==> c == ESC as int
  {
    // Six payload bits per continuation byte, the least significant last.
    var q1 := c / 0x40;
    var q2 := q1 / 0x40;
    var q3 := q2 / 0x40;
    if c < 0x80 then [c]
    else if c < 0x800 then [0xC0 + q1, 0x80 + c % 0x40]
    else if c < 0x1_0000 then [0xE0 + q2, 0x80 + q1 % 0x40, 0x80 + c % 0x40]
    else [0xF0 + q3, 0x80 + q2 % 0x40, 0x80 + q1 % 0x40, 0x80 + c % 0x40]
  }

  /** Decodes the scalar value whose encoding is exactly `s` (the decoder's view of `Utf8`). */
  function Utf8Scalar(s: seq<byte>): Option<nat> {
    if |s| == 0 then None
    else
      var b0: int := s[0];
      if |s| == 1 && b0 < 0x80 then Some(b0)
      else if |s| == 2 && 0xC0 <= b0 < 0xE0 && IsContinuation(s[1]) then
        Some((b0 - 0xC0) * 0x40 + (s[1] as int - 0x80))
      else if |s| == 3 && 0xE0 <= b0 < 0xF0 && IsContinuation(s[1]) && IsContinuation(s[2]) then
        Some(((b0 - 0xE0) * 0x40 + (s[1] as int - 0x80)) * 0x40 + (s[2] as int - 0x80))
      else if |s| == 4 && 0xF0 <= b0 < 0xF8 && IsContinuation(s[1]) && IsContinuation(s[2]) && IsContinuation(s[3]) then
        Some((((b0 - 0xF0) * 0x40 + (s[1] as int - 0x80)) * 0x40 + (s[2] as int - 0x80)) * 0x40 + (s[3] as int - 0x80))
      else None
  }

  lemma Utf8RoundTrip(c: nat)
    requires c < 0x11_0000
    ensures Utf8Scalar(Utf8(c)) == Some(c)
  {
    if c >= 0x1_0000 {
      Utf8RoundTrip4(c);
    } else if c >= 0x800 {
      Utf8RoundTrip3(c);
    }
  }

  lemma Utf8RoundTrip4(c: nat)
    requires 0x1_0000 <= c < 0x11_0000
    ensures Utf8Scalar(Utf8(c)) == Some(c)
  {
    var q1 := c / 0x40;
    var q2 := q1 / 0x40;
    var q3 := q2 / 0x40;
    assert Utf8(c) == [0xF0 + q3, 0x80 + q2 % 0x40, 0x80 + q1 % 0x40, 0x80 + c % 0x40];
    assert q2 == q3 * 0x40 + q2 % 0x40;
    assert q1 == q2 * 0x40 + q1 % 0x40;
  }

  lemma Utf8RoundTrip3(c: nat)
    requires 0x800 <= c < 0x1_0000
    ensures Utf8Scalar(Utf8(c)) == Some(c)
  {
    var q1 := c / 0x40;
    var q2 := q1 / 0x40;
    assert Utf8(c) == [0xE0 + q2, 0x80 + q1 % 0x40, 0x80 + c % 0x40];
    assert q1 == q2 * 0x40 + q1 % 0x40;
  }

  predicate IsScalar(c: nat) {
    c < 0x11_0000
  }

  /** UTF-8 of a sequence of scalar values, one after the other. */
  function Utf8Scalars(cs: seq<nat>): (r: seq<byte>)
    requires forall i | 0 <= i < |cs| :: IsScalar(cs[i])
    ensures |cs| <= |r|
  {
    if cs == [] then [] else assert IsScalar(cs[0]); Utf8(cs[0]) + Utf8Scalars(cs[1..])
  }

  /** The length of the encoding a lead byte announces; 0 for a byte no encoding starts with. */
  function Utf8Width(lead: byte): nat {
    if lead < 0x80 then 1
    else if 0xC0 <= lead < 0xE0 then 2
    else if 0xE0 <= lead < 0xF0 then 3
    else if 0xF0 <= lead < 0xF8 then 4
    else 0
  }

  /** Reads a byte string as a sequence of scalar values, as a terminal does. */
  function DecodeUtf8(s: seq<byte>): Option<seq<nat>>
    decreases |s|
  {
    if s == [] then Some([])
    else
      var w := Utf8Width(s[0]);
      if w == 0 || |s| < w then None
      else match Utf8Scalar(s[..w])
        case None => None
        case Some(c) =>
          match DecodeUtf8(s[w..])
          case None => None
          case Some(cs) => Some([c] + cs)
  }

  lemma Utf8LeadWidth(c: nat)
    requires IsScalar(c)
    ensures Utf8Width(Utf8(c)[0]) == |Utf8(c)|
  {
  }

  /** A terminal reading the encoding of `cs` gets `cs` back. */
  lemma {:induction false} DecodeUtf8Scalars(cs: seq<nat>)
    requires forall i | 0 <= i < |cs| :: IsScalar(cs[i])
    ensures DecodeUtf8(Utf8Scalars(cs)) == Some(cs)
  {
    if cs != [] {
      var e, rest := Utf8(cs[0]), Utf8Scalars(cs[1..]);
      var s := e + rest;
      assert Utf8Scalars(cs) == s;
      Utf8LeadWidth(cs[0]);
      assert Utf8Width(s[0]) == |e|;
      AppendSlices(e, rest);
      Utf8RoundTrip(cs[0]);
      DecodeUtf8Scalars(cs[1..]);
      assert DecodeUtf8(s) == Some([cs[0]] + cs[1..]);
      assert [cs[0]] + cs[1..] == cs;
    }
  }

  lemma {:induction false} Utf8ScalarsAppend(a: seq<nat>, b: seq<nat>)
    requires forall i | 0 <= i < |a| :: IsScalar(a[i])
    requires forall i | 0 <= i < |b| :: IsScalar(b[i])
    ensures Utf8Scalars(a + b) == Utf8Scalars(a) + Utf8Scalars(b)
  {
    if a == [] {
      assert a + b == b;
    } else {
      assert (a + b)[0] == a[0] && (a + b)[1..] == a[1..] + b;
      Utf8ScalarsAppend(a[1..], b);
    }
  }

  /** UTF-8 of a whole text. */
  function Utf8Text(s: string): (r: seq<byte>)
    ensures |s| <= |r|
  {
    if s == [] then [] else Utf8(s[0] as int) + Utf8Text(s[1..])
  }
}

/** Generic sequence helpers: filtering out one key, flattening and order-preserving de-duplication. */
module Seqs {

  /**
   * Regrouping a concatenation. Stated once here so that proofs over long byte
   * strings can use it without the solver re-deriving it element by element.
   */
  lemma AppendAssoc<T>(a: seq<T>, b: seq<T>, c: seq<T>)
    ensures a + b + c == a + (b + c)
  {
  }

  lemma TakeSnoc<T>(s: seq<T>, k: nat)
    requires k < |s|
    ensures s[..k + 1] == s[..k] + [s[k]]
  {
  }

  lemma TakeAll<T>(s: seq<T>)
    ensures s[..|s|] == s
  {
  }

  lemma AppendNil<T>(a: seq<T>)
    ensures a + [] == a
  {
  }

  /** The two halves of a concatenation, recovered by slicing. */
  lemma AppendSlices<T>(a: seq<T>, b: seq<T>)
    ensures (a + b)[..|a|] == a && (a + b)[|a|..] == b
  {
  }

  predicate NoDuplicates<T(==)>(s: seq<T>) {
    forall i, j | 0 <= i < j < |s| :: s[i] != s[j]
  }

  /** `retain(|k| k != x)`: every occurrence of `x` removed, the rest in order. */
  function Without<T(==,!new)>(s: seq<T>, x: T): (r: seq<T>)
    ensures x !in r
    ensures forall y :: y in r <==> y in s && y != x
    ensures |r| <= |s|
    ensures x !in s ==> r == s
  {
    if s == [] then []
    else if s[0] == x then Without(s[1..], x)
    else [s[0]] + Without(s[1..], x)
  }

  lemma {:induction false} WithoutKeepsDistinct<T(!new)>(s: seq<T>, x: T)
    requires NoDuplicates(s)
    ensures NoDuplicates(Without(s, x))
    ensures x in s ==> |Without(s, x)| == |s| - 1
  {
    if s != [] {
      var t := s[1..];
      assert NoDuplicates(t) by {
        forall i, j | 0 <= i < j < |t| ensures t[i] != t[j] {
          assert t[i] == s[i + 1] && t[j] == s[j + 1];
        }
      }
      assert s[0] !in t by {
        forall j | 0 <= j < |t| ensures t[j] != s[0] {
          assert t[j] == s[j + 1];
        }
      }
      WithoutKeepsDistinct(t, x);
      if s[0] != x {
        var w := Without(t, x);
        assert Without(s, x) == [s[0]] + w;
        assert s[0] !in w;
        forall i, j | 0 <= i < j < |[s[0]] + w| ensures ([s[0]] + w)[i] != ([s[0]] + w)[j] {
          if i > 0 {
            assert ([s[0]] + w)[i] == w[i - 1] && ([s[0]] + w)[j] == w[j - 1];
          } else {
            assert ([s[0]] + w)[j] in w;
          }
        }
      }
    }
  }

  function Flatten<T>(ss: seq<seq<T>>): (r: seq<T>) {
    if ss == [] then [] else ss[0] + Flatten(ss[1..])
  }

  lemma {:induction false} FlattenAppend<T>(a: seq<seq<T>>, b: seq<seq<T>>)
    ensures Flatten(a + b) == Flatten(a) + Flatten(b)
  {
    if a == [] {
      assert a + b == b;
    } else {
      assert (a + b)[0] == a[0];
      assert (a + b)[1..] == a[1..] + b;
      FlattenAppend(a[1..], b);
    }
  }

  /** De-duplication that walks left to right with a `seen` set, as the source's `retain` loops do. */
  function DedupFrom<T(==,!new)>(xs: seq<T>, seen: set<T>): seq<T> {
    if xs == [] then []
    else if xs[0] in seen then DedupFrom(xs[1..], seen)
    else [xs[0]] + DedupFrom(xs[1..], seen + {xs[0]})
  }

  function Dedup<T(==,!new)>(xs: seq<T>): seq<T> {
    DedupFrom(xs, {})
  }

  /**
   * Independent reference definition: the elements of `xs` at the positions where they occur
   * for the first time, defined from the right end with no auxiliary set.
   */
  function FirstOccurrences<T(==,!new)>(xs: seq<T>): seq<T> {
    if xs == [] then []
    else
      var init, last := xs[..|xs| - 1], xs[|xs| - 1];
      FirstOccurrences(init) + (if last in init then [] else [last])
  }

  /** Extending a prefix by one element extends its first occurrences by that element, unless it was seen. */
  lemma FirstOccurrencesSnoc<T(!new)>(xs: seq<T>, k: nat)
    requires k < |xs|
    ensures FirstOccurrences(xs[..k + 1]) == FirstOccurrences(xs[..k]) + (if xs[k] in xs[..k] then [] else [xs[k]])
  {
    assert xs[..k + 1][..k] == xs[..k];
  }

  /** A `seen` set that holds exactly a prefix's elements, grown by the next element, holds the longer prefix's. */
  lemma SeenSnoc<T>(xs: seq<T>, k: nat, seen: set<T>)
    requires k < |xs|
    requires forall x :: x in seen <==> x in xs[..k]
    ensures forall x :: x in seen + {xs[k]} <==> x in xs[..k + 1]
  {
    assert xs[..k + 1] == xs[..k] + [xs[k]];
  }

  lemma {:induction false} DedupFromSnoc<T(!new)>(a: seq<T>, x: T, seen: set<T>)
    ensures DedupFrom(a + [x], seen)
         == DedupFrom(a, seen) + (if x in seen || x in a then [] else [x])
  {
    if a == [] {
      assert [x][1..] == [];
    } else {
      assert (a + [x])[1..] == a[1..] + [x];
      if a[0] in seen {
        DedupFromSnoc(a[1..], x, seen);
      } else {
        DedupFromSnoc(a[1..], x, seen + {a[0]});
      }
      assert x in a <==> x == a[0] || x in a[1..];
    }
  }

  /** Appending elements already present leaves the first occurrences as they were. */
  lemma {:induction false} FirstOccurrencesOfSeen<T(!new)>(a: seq<T>, b: seq<T>)
    requires forall j | 0 <= j < |b| :: b[j] in a
    ensures FirstOccurrences(a + b) == FirstOccurrences(a)
  {
    if b != [] {
      var init := b[..|b| - 1];
      FirstOccurrencesOfSeen(a, init);
      assert (a + b)[..|a + b| - 1] == a + init;
      assert (a + b)[|a + b| - 1] == b[|b| - 1];
      assert b[|b| - 1] in a + init;
      assert FirstOccurrences(a + b) == FirstOccurrences(a + init);
    } else {
      assert a + b == a;
    }
  }

  /** The left-to-right `seen`-set walk keeps exactly the first occurrences. */
  lemma {:induction false} DedupIsFirstOccurrences<T(!new)>(xs: seq<T>)
    ensures Dedup(xs) == FirstOccurrences(xs)
  {
    if xs != [] {
      var init, last := xs[..|xs| - 1], xs[|xs| - 1];
      assert xs == init + [last];
      DedupFromSnoc(init, last, {});
      DedupIsFirstOccurrences(init);
    }
  }

  lemma {:induction false} FirstOccurrencesProps<T(!new)>(xs: seq<T>)
    ensures NoDuplicates(FirstOccurrences(xs))
    ensures forall y :: y in FirstOccurrences(xs) <==> y in xs
  {
    if xs != [] {
      var init, last := xs[..|xs| - 1], xs[|xs| - 1];
      assert xs == init + [last];
      FirstOccurrencesProps(init);
    }
  }

  /** Only the empty list has no first occurrences. */
  lemma {:induction false} FirstOccurrencesEmpty<T(!new)>(xs: seq<T>)
    ensures FirstOccurrences(xs) == [] <==> xs == []
  {
    if xs != [] {
      FirstOccurrencesEmpty(xs[..|xs| - 1]);
    }
  }

  /** A list with no repeated element is left as it is. */
  lemma {:induction false} FirstOccurrencesOfDistinct<T(!new)>(xs: seq<T>)
    requires NoDuplicates(xs)
    ensures FirstOccurrences(xs) == xs
  {
    if xs != [] {
      var init, last := xs[..|xs| - 1], xs[|xs| - 1];
      assert xs == init + [last];
      assert NoDuplicates(init);
      assert last !in init;
      FirstOccurrencesOfDistinct(init);
    }
  }

  /** De-duplication is idempotent. */
  lemma DedupIdempotent<T(!new)>(xs: seq<T>)
    ensures Dedup(Dedup(xs)) == Dedup(xs)
  {
    DedupIsFirstOccurrences(xs);
    FirstOccurrencesProps(xs);
    DedupIsFirstOccurrences(FirstOccurrences(xs));
    FirstOccurrencesOfDistinct(FirstOccurrences(xs));
  }

  /** A sequence without repetitions has as many distinct elements as positions. */
  lemma {:induction false} DistinctCard<T(!new)>(s: seq<T>)
    requires NoDuplicates(s)
    ensures |set x | x in s| == |s|
  {
    if s != [] {
      var t := s[1..];
      assert (set x | x in s) == {s[0]} + (set x | x in t) by {
        forall x ensures x in s <==> x == s[0] || x in t {
          if x in s {
            var i :| 0 <= i < |s| && s[i] == x;
            if i > 0 {
              assert t[i - 1] == x;
            }
          }
        }
      }
      assert s[0] !in t by {
        forall j | 0 <= j < |t| ensures t[j] != s[0] {
          assert t[j] == s[j + 1];
        }
      }
      assert NoDuplicates(t) by {
        forall i, j | 0 <= i < j < |t| ensures t[i] != t[j] {
          assert t[i] == s[i + 1] && t[j] == s[j + 1];
        }
      }
      DistinctCard(t);
    }
  }

  /** A map whose keys are exactly the elements of a repetition-free sequence is that long. */
  lemma MapCardOfKeys<K(!new), V>(m: map<K, V>, s: seq<K>)
    requires NoDuplicates(s) && forall k :: k in m <==> k in s
    ensures |m| == |s|
  {
    assert m.Keys == set x | x in s;
    DistinctCard(s);
  }
}
