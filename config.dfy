/** Configuration values, their defaults, the filter-name parser and the range clamps. */
module Config {
  import opened Bytes

  /** The resampling filters the image library offers. */
  datatype FilterType = Nearest | Triangle | CatmullRom | Gaussian | Lanczos3

  // ------------------------------------------------------------ filter names

  /** Rust's `char::is_whitespace`: the Unicode White_Space property. */
  predicate IsWhitespace(c: char) {
    ('\U{0009}' <= c <= '\U{000D}') || c == ' ' || c == '\U{0085}' || c == '\U{00A0}' || c == '\U{1680}'
    || ('\U{2000}' <= c <= '\U{200A}') || c == '\U{2028}' || c == '\U{2029}' || c == '\U{202F}'
    || c == '\U{205F}' || c == '\U{3000}'
  }

  /** Number of white-space characters at the start of `s`. */
  function LeadingSpace(s: string): (i: nat)
    ensures i <= |s|
    ensures forall k | 0 <= k < i :: IsWhitespace(s[k])
    ensures i < |s| ==> !IsWhitespace(s[i])
  {
    if s == [] || !IsWhitespace(s[0]) then 0 else 1 + LeadingSpace(s[1..])
  }

  /** Length of `s` once white space at its end is dropped. */
  function TrimmedEnd(s: string): (j: nat)
    ensures j <= |s|
    ensures forall k | j <= k < |s| :: IsWhitespace(s[k])
    ensures j > 0 ==> !IsWhitespace(s[j - 1])
  {
    if s == [] || !IsWhitespace(s[|s| - 1]) then |s| else TrimmedEnd(s[..|s| - 1])
  }

  /** `str::trim`: the slice left after dropping white space at both ends. */
  function Trim(s: string): (r: string)
    ensures |r| <= |s|
    ensures r != [] ==> !IsWhitespace(r[0]) && !IsWhitespace(r[|r| - 1])
    ensures (forall k | 0 <= k < |s| :: !IsWhitespace(s[k])) ==> r == s
  {
    var t := s[..TrimmedEnd(s)];
    t[LeadingSpace(t)..]
  }

  function AsciiLower(c: char): (r: char)
    ensures 'A' <= c <= 'Z' ==> r as int == c as int + 32
    ensures !('A' <= c <= 'Z') ==> r == c
  {
    if 'A' <= c <= 'Z' then (c as int + 32) as char else c
  }

  /** `str::eq_ignore_ascii_case`. */
  predicate EqIgnoreAsciiCase(a: string, b: string) {
    |a| == |b| && forall i | 0 <= i < |a| :: AsciiLower(a[i]) == AsciiLower(b[i])
  }

  /** The spellings accepted for each filter (after trimming, ignoring ASCII case). */
  predicate Names(t: string, f: FilterType) {
    match f
    case Nearest => EqIgnoreAsciiCase(t, "nearest")
    case Triangle => EqIgnoreAsciiCase(t, "triangle")
    case CatmullRom => EqIgnoreAsciiCase(t, "catmullrom") || EqIgnoreAsciiCase(t, "catmull-rom")
    case Gaussian => EqIgnoreAsciiCase(t, "gaussian")
    case Lanczos3 => EqIgnoreAsciiCase(t, "lanczos3") || EqIgnoreAsciiCase(t, "lanczos")
  }

  /** Maps a configured filter name to a filter; unknown names fall back to `Triangle`. */
  function ParseFilterType(s: string): (r: FilterType)
    ensures forall f :: Names(Trim(s), f) ==> r == f
    ensures r != Triangle ==> Names(Trim(s), r)
  {
    var t := Trim(s);
    if EqIgnoreAsciiCase(t, "nearest") then Nearest
    else if EqIgnoreAsciiCase(t, "triangle") then Triangle
    else if EqIgnoreAsciiCase(t, "catmullrom") || EqIgnoreAsciiCase(t, "catmull-rom") then CatmullRom
    else if EqIgnoreAsciiCase(t, "gaussian") then Gaussian
    else if EqIgnoreAsciiCase(t, "lanczos3") || EqIgnoreAsciiCase(t, "lanczos") then Lanczos3
    else Triangle
  }

  /** The lower-case name each filter is configured by. */
  function FilterName(f: FilterType): (r: string)
    ensures Names(r, f)
  {
    match f
    case Nearest => "nearest"
    case Triangle => "triangle"
    case CatmullRom => "catmullrom"
    case Gaussian => "gaussian"
    case Lanczos3 => "lanczos3"
  }

  /** Every filter is reached from its name, whatever the surrounding white space and letter case. */
  lemma ParseFilterName(f: FilterType, name: string, lead: string, trail: string)
    requires EqIgnoreAsciiCase(name, FilterName(f))
    requires forall k | 0 <= k < |lead| :: IsWhitespace(lead[k])
    requires forall k | 0 <= k < |trail| :: IsWhitespace(trail[k])
    ensures ParseFilterType(lead + name + trail) == f
  {
    var t := FilterName(f);
    assert |name| > 0 && !IsWhitespace(name[0]) && !IsWhitespace(name[|name| - 1]) by {
      assert AsciiLower(name[0]) == AsciiLower(t[0]);
      assert AsciiLower(name[|name| - 1]) == AsciiLower(t[|t| - 1]);
    }
    TrimPadded(lead, name, trail);
    assert Names(name, f);
  }

  lemma {:induction false} TrimPadded(lead: string, name: string, trail: string)
    requires forall k | 0 <= k < |lead| :: IsWhitespace(lead[k])
    requires forall k | 0 <= k < |trail| :: IsWhitespace(trail[k])
    requires name != [] && !IsWhitespace(name[0]) && !IsWhitespace(name[|name| - 1])
    ensures Trim(lead + name + trail) == name
  {
    var s := lead + name + trail;
    TrimmedEndPadded(lead + name, trail);
    assert s == (lead + name) + trail;
    var t := s[..TrimmedEnd(s)];
    assert t == lead + name;
    LeadingSpacePadded(lead, name);
    assert t[|lead|..] == name;
  }

  lemma {:induction false} TrimmedEndPadded(s: string, trail: string)
    requires s != [] && !IsWhitespace(s[|s| - 1])
    requires forall k | 0 <= k < |trail| :: IsWhitespace(trail[k])
    ensures TrimmedEnd(s + trail) == |s|
  {
    if trail == [] {
      assert s + trail == s;
    } else {
      var u := s + trail;
      assert u[..|u| - 1] == s + trail[..|trail| - 1];
      TrimmedEndPadded(s, trail[..|trail| - 1]);
    }
  }

  lemma {:induction false} LeadingSpacePadded(lead: string, s: string)
    requires s != [] && !IsWhitespace(s[0])
    requires forall k | 0 <= k < |lead| :: IsWhitespace(lead[k])
    ensures LeadingSpace(lead + s) == |lead|
  {
    if lead == [] {
      assert lead + s == s;
    } else {
      assert (lead + s)[1..] == lead[1..] + s;
      LeadingSpacePadded(lead[1..], s);
    }
  }

  // ------------------------------------------------------------ the values

  const MAX_NAV_LATCH_MS: nat := 5_000
  const MAX_RENDER_CACHE_SIZE: nat := 500
  const MAX_COMPRESS_LEVEL: nat := 9
  const MIN_THREADS: nat := 1
  const MAX_THREADS: nat := 8

  /** `v.clamp(lo, hi)` on an unsigned integer. */
  function Clamp(v: nat, lo: nat, hi: nat): (r: nat)
    requires lo <= hi
    ensures lo <= r <= hi
    ensures lo <= v <= hi ==> r == v
    ensures v < lo ==> r == lo
    ensures hi < v ==> r == hi
  {
    if v < lo then lo else if hi < v then hi else v
  }

  function ClampReal(v: real, lo: real, hi: real): (r: real)
    requires lo <= hi
    ensures lo <= r <= hi
    ensures lo <= v <= hi ==> r == v
  {
    if v < lo then lo else if hi < v then hi else v
  }

  function Min(a: nat, b: nat): (r: nat)
    ensures r <= a && r <= b && (r == a || r == b)
  {
    if a <= b then a else b
  }

  /** Clamping twice is clamping once. */
  lemma ClampIdempotent(v: nat, lo: nat, hi: nat)
    requires lo <= hi
    ensures Clamp(Clamp(v, lo, hi), lo, hi) == Clamp(v, lo, hi)
  {
  }

  class Config {
    var nav_latch_ms: nat
    var force_alt_screen: bool
    var no_alt_screen: bool
    var render_cache_size: nat
    var prefetch_count: nat
    var debug: bool
    var kgp_no_compress: bool
    var compress_level: nat
    var tmux_kitty_max_pixels: nat
    var trace_worker: bool
    var cell_aspect_ratio: real
    var resize_filter: string
    var tile_filter: string
    var prefetch_threads: nat
    var tile_threads: nat

    /** `Config::default()`. */
    constructor Default()
      ensures nav_latch_ms == 150 && render_cache_size == 100 && prefetch_count == 5
      ensures compress_level == 6 && tmux_kitty_max_pixels == 1_500_000
      ensures !force_alt_screen && !no_alt_screen && !debug && !kgp_no_compress && !trace_worker
      ensures cell_aspect_ratio == 2.0
      ensures resize_filter == "triangle" && tile_filter == "nearest"
      ensures prefetch_threads == 2 && tile_threads == 4
      ensures InRange()
    {
      nav_latch_ms := 150;
      force_alt_screen := false;
      no_alt_screen := false;
      render_cache_size := 100;
      prefetch_count := 5;
      debug := false;
      kgp_no_compress := false;
      compress_level := 6;
      tmux_kitty_max_pixels := 1_500_000;
      trace_worker := false;
      cell_aspect_ratio := 2.0;
      resize_filter := "triangle";
      tile_filter := "nearest";
      prefetch_threads := 2;
      tile_threads := 4;
    }

    /** The ranges `clamp_values` establishes. */
    predicate InRange()
      reads this
    {
      nav_latch_ms <= MAX_NAV_LATCH_MS
      && 1 <= render_cache_size <= MAX_RENDER_CACHE_SIZE
      && compress_level <= MAX_COMPRESS_LEVEL
      && 1.0 <= cell_aspect_ratio <= 4.0
      && MIN_THREADS <= prefetch_threads <= MAX_THREADS
      && MIN_THREADS <= tile_threads <= MAX_THREADS
    }

    /** Brings every bounded field into range; fields already in range are untouched. */
    method ClampValues()
      modifies this
      ensures InRange()
      ensures nav_latch_ms == Min(old(nav_latch_ms), MAX_NAV_LATCH_MS)
      ensures render_cache_size == Clamp(old(render_cache_size), 1, MAX_RENDER_CACHE_SIZE)
      ensures compress_level == Min(old(compress_level), MAX_COMPRESS_LEVEL)
      ensures cell_aspect_ratio == ClampReal(old(cell_aspect_ratio), 1.0, 4.0)
      ensures prefetch_threads == Clamp(old(prefetch_threads), MIN_THREADS, MAX_THREADS)
      ensures tile_threads == Clamp(old(tile_threads), MIN_THREADS, MAX_THREADS)
      ensures old(InRange()) ==> Snapshot() == old(Snapshot())
      ensures force_alt_screen == old(force_alt_screen) && no_alt_screen == old(no_alt_screen)
      ensures prefetch_count == old(prefetch_count) && debug == old(debug)
      ensures kgp_no_compress == old(kgp_no_compress) && tmux_kitty_max_pixels == old(tmux_kitty_max_pixels)
      ensures trace_worker == old(trace_worker)
      ensures resize_filter == old(resize_filter) && tile_filter == old(tile_filter)
    {
      nav_latch_ms := Min(nav_latch_ms, MAX_NAV_LATCH_MS);
      render_cache_size := Clamp(render_cache_size, 1, MAX_RENDER_CACHE_SIZE);
      compress_level := Min(compress_level, MAX_COMPRESS_LEVEL);
      cell_aspect_ratio := ClampReal(cell_aspect_ratio, 1.0, 4.0);
      prefetch_threads := Clamp(prefetch_threads, MIN_THREADS, MAX_THREADS);
      tile_threads := Clamp(tile_threads, MIN_THREADS, MAX_THREADS);
    }

    /** The clamped fields as a value, to state that clamping in range changes nothing. */
    function Snapshot(): (nat, nat, nat, real, nat, nat)
      reads this
    {
      (nav_latch_ms, render_cache_size, compress_level, cell_aspect_ratio, prefetch_threads, tile_threads)
    }

    /** The zlib level for transmissions, or none when compression is switched off. */
    function CompressionLevel(): (r: Option<nat>)
      reads this
      ensures r.None? <==> kgp_no_compress
      ensures r.Some? ==> r.value == compress_level
    {
      if kgp_no_compress then None else Some(compress_level)
    }
  }

}
