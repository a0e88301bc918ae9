/**
 Format conversion and format selection of the V4L2 shim.

 The conversion table is a parameter: the laws hold for every table whose fourcc codes are distinct. A parameter of the
 node is represented by what fixating and parsing its pod yields.
 */
module Formats {
  import opened Common

  const MEDIA_TYPE_VIDEO: u32 := 2
  const SUBTYPE_RAW: u32 := 1
  const SUBTYPE_H264: u32 := 0x20001
  const SUBTYPE_MJPG: u32 := 0x20002
  const SUBTYPE_JPEG: u32 := 0x30001
  const FORMAT_UNKNOWN: u32 := 0
  const FORMAT_ENCODED: u32 := 1
  const PARAM_ENUM_FORMAT: u32 := 3
  const PARAM_FORMAT: u32 := 4
  const BUF_TYPE_VIDEO_CAPTURE: u32 := 1
  const FIELD_NONE: u32 := 1
  const COLORSPACE_JPEG: u32 := 7
  const COLORSPACE_SRGB: u32 := 8

  /** A row of the conversion table. */
  datatype Row = Row(fourcc: u32, mediaType: u32, subtype: u32, format: u32, bpp: u32)

  /** struct spa_video_info; `format` has a meaning for raw video only. */
  datatype Info = Info(mediaType: u32, subtype: u32, format: u32, width: u32, height: u32)

  /** struct v4l2_format of the capture kind. */
  datatype Fmt = Fmt(kind: u32, width: u32, height: u32, fourcc: u32, field: u32,
                     bytesPerLine: u32, sizeImage: u32, colorspace: u32)

  ghost predicate DistinctFourccs(table: seq<Row>) {
    forall i, j :: 0 <= i < j < |table| ==> table[i].fourcc != table[j].fourcc
  }

  // ---------------------------------------------------------------- conversion

  /** A format of 0 matches every row of the media type. */
  predicate MatchesMedia(row: Row, mediaType: u32, subtype: u32, format: u32) {
    row.mediaType == mediaType && row.subtype == subtype && (format == FORMAT_UNKNOWN || row.format == format)
  }

  /** format_info_from_media_type: the first matching row, or the length. */
  function RowOfMedia(table: seq<Row>, mediaType: u32, subtype: u32, format: u32): (i: nat)
    ensures i <= |table|
    ensures i < |table| ==> MatchesMedia(table[i], mediaType, subtype, format)
    ensures forall j :: 0 <= j < i ==> !MatchesMedia(table[j], mediaType, subtype, format)
  {
    if table == [] || MatchesMedia(table[0], mediaType, subtype, format) then 0
    else 1 + RowOfMedia(table[1..], mediaType, subtype, format)
  }

  /** format_info_from_fourcc. */
  function RowOfFourcc(table: seq<Row>, fourcc: u32): (i: nat)
    ensures i <= |table|
    ensures i < |table| ==> table[i].fourcc == fourcc
    ensures forall j :: 0 <= j < i ==> table[j].fourcc != fourcc
  {
    if table == [] || table[0].fourcc == fourcc then 0 else 1 + RowOfFourcc(table[1..], fourcc)
  }

  predicate Supported(subtype: u32) {
    subtype == SUBTYPE_RAW || subtype == SUBTYPE_H264 || subtype == SUBTYPE_MJPG || subtype == SUBTYPE_JPEG
  }

  /** SPA_ROUND_UP_N on a positive uint32_t, with its wrap-around. */
  function RoundUp(n: u32, align: u32): u32
    requires n > 0 && align > 0
  {
    (((n - 1) / align + 1) * align) % 0x1_0000_0000
  }

  function Times(a: u32, b: u32): u32 {
    (a * b) % 0x1_0000_0000
  }

  lemma NoWrap(x: nat)
    requires x < 0x1_0000_0000
    ensures x % 0x1_0000_0000 == x
  {
  }

  /** Rounding up gives the least multiple that is not smaller, unless that is 2^32. */
  lemma RoundsUp(n: u32, align: u32, q: nat)
    requires 0 < n && 0 < align && n + align <= 0x1_0000_0000 && q == (n - 1) / align
    ensures RoundUp(n, align) == (q + 1) * align
    ensures n <= RoundUp(n, align) < n + align
  {
    assert n - 1 == q * align + (n - 1) % align;
    assert (q + 1) * align == q * align + align;
    NoWrap((q + 1) * align);
  }

  /** What info_to_fmt makes of a table row and a size. */
  function FmtOfRow(row: Row, width: u32, height: u32): Fmt
    requires width > 0 && height > 0
  {
    var bytesPerLine := Times(RoundUp(width, 4), row.bpp);
    var colorspace :=
      if row.subtype == SUBTYPE_MJPG || row.subtype == SUBTYPE_JPEG then COLORSPACE_JPEG else COLORSPACE_SRGB;
    Fmt(BUF_TYPE_VIDEO_CAPTURE, width, height, row.fourcc, FIELD_NONE,
        bytesPerLine, Times(bytesPerLine, RoundUp(height, 2)), colorspace)
  }

  /** The factors of a product below 2^32 are multiplied without wrap-around. */
  lemma ExactTimes(a: u32, b: u32)
    ensures Times(a, b) == a * b <==> a * b < 0x1_0000_0000
  {
    if a * b < 0x1_0000_0000 {
      NoWrap(a * b);
    }
  }

  /**
   A line is the width rounded up to 4 pixels, and an image that line times the height rounded up to 2, exactly when
   these products fit 32 bits; if the roundings fit as well, the image holds width * height * bpp bytes.
   */
  lemma ImageHoldsBytes(row: Row, width: u32, height: u32)
    requires width > 0 && height > 0
    ensures var fmt, w, h := FmtOfRow(row, width, height), RoundUp(width, 4), RoundUp(height, 2);
      && (fmt.bytesPerLine == w * row.bpp <==> w * row.bpp < 0x1_0000_0000)
      && (fmt.sizeImage == fmt.bytesPerLine * h <==> fmt.bytesPerLine * h < 0x1_0000_0000)
      && (width <= 0xffff_fffc && height <= 0xffff_fffe && (w * row.bpp) * h < 0x1_0000_0000 ==>
            fmt.bytesPerLine >= width * row.bpp && fmt.sizeImage >= (width * row.bpp) * height)
  {
    var w, h := RoundUp(width, 4), RoundUp(height, 2);
    ExactTimes(w, row.bpp);
    ExactTimes(Times(w, row.bpp), h);
    if width <= 0xffff_fffc && height <= 0xffff_fffe && (w * row.bpp) * h < 0x1_0000_0000 {
      RoundsUp(width, 4, (width - 1) / 4);
      RoundsUp(height, 2, (height - 1) / 2);
      MulMonotone(1, h, w * row.bpp);
      MulMonotone(width, w, row.bpp);
      MulMonotone(width * row.bpp, w * row.bpp, height);
      MulMonotone(height, h, w * row.bpp);
    }
  }

  /** The largest sizes, which round up to 2^32, give an empty line or an empty image. */
  lemma LargestSizesAreEmpty(row: Row, width: u32, height: u32)
    requires width > 0 && height > 0
    ensures width > 0xffff_fffc ==> FmtOfRow(row, width, height).bytesPerLine == 0
    ensures height > 0xffff_fffe ==> FmtOfRow(row, width, height).sizeImage == 0
  {
    if width > 0xffff_fffc {
      assert (width - 1) / 4 == 0x3fff_ffff;
    }
    if height > 0xffff_fffe {
      assert (height - 1) / 2 == 0x7fff_ffff;
    }
  }

  /** info_to_fmt. */
  function InfoToFmt(table: seq<Row>, info: Info): Option<Fmt> {
    if info.mediaType != MEDIA_TYPE_VIDEO then None
    else
      var format := if info.subtype == SUBTYPE_RAW then info.format else FORMAT_ENCODED;
      var i := RowOfMedia(table, info.mediaType, info.subtype, format);
      if i == |table| || !Supported(info.subtype) || info.width == 0 || info.height == 0 then None
      else Some(FmtOfRow(table[i], info.width, info.height))
  }

  /** format_to_info. */
  function FmtToInfo(table: seq<Row>, fmt: Fmt): Option<Info> {
    if fmt.kind != BUF_TYPE_VIDEO_CAPTURE then None
    else
      var i := RowOfFourcc(table, fmt.fourcc);
      if i == |table| || !Supported(table[i].subtype) then None
      else
        var row := table[i];
        Some(Info(row.mediaType, row.subtype, if row.subtype == SUBTYPE_RAW then row.format else 0,
                  fmt.width, fmt.height))
  }

  /** With distinct codes, a row is found by its own code. */
  lemma RowFoundByFourcc(table: seq<Row>, i: nat)
    requires DistinctFourccs(table) && i < |table|
    ensures RowOfFourcc(table, table[i].fourcc) == i
  {
    assert RowOfFourcc(table, table[i].fourcc) <= i;
  }

  /**
   A format made from an info leads back to its media type, subtype and size. The raw pixel format comes back exactly
   when it was not 0, or when the first raw row of the table itself has format 0: an info with format 0 matches any
   raw row.
   */
  lemma InfoRoundTrip(table: seq<Row>, info: Info)
    requires DistinctFourccs(table) && InfoToFmt(table, info).Some?
    ensures FmtToInfo(table, InfoToFmt(table, info).value).Some?
    ensures var back := FmtToInfo(table, InfoToFmt(table, info).value).value;
      && back.mediaType == info.mediaType && back.subtype == info.subtype
      && back.width == info.width && back.height == info.height
      && (info.subtype == SUBTYPE_RAW ==>
            var first := RowOfMedia(table, MEDIA_TYPE_VIDEO, SUBTYPE_RAW, FORMAT_UNKNOWN);
            && first < |table|
            && (back.format == info.format <==> info.format != FORMAT_UNKNOWN || table[first].format == FORMAT_UNKNOWN))
  {
    var format := if info.subtype == SUBTYPE_RAW then info.format else FORMAT_ENCODED;
    var i := RowOfMedia(table, info.mediaType, info.subtype, format);
    RowFoundByFourcc(table, i);
    assert MatchesMedia(table[i], info.mediaType, info.subtype, FORMAT_UNKNOWN);
  }

  /** As the table of the shim begins: a raw row without a pixel format of its own. */
  predicate StartsWithUnknownRaw(table: seq<Row>) {
    |table| > 0 && MatchesMedia(table[0], MEDIA_TYPE_VIDEO, SUBTYPE_RAW, FORMAT_UNKNOWN) && table[0].format == FORMAT_UNKNOWN
  }

  /** With such a table, an info comes back whole, the raw format 0 included. */
  lemma InfoIsRestored(table: seq<Row>, info: Info)
    requires DistinctFourccs(table) && StartsWithUnknownRaw(table) && InfoToFmt(table, info).Some?
    requires info.subtype != SUBTYPE_RAW ==> info.format == 0
    ensures FmtToInfo(table, InfoToFmt(table, info).value) == Some(info)
  {
    InfoRoundTrip(table, info);
    assert RowOfMedia(table, MEDIA_TYPE_VIDEO, SUBTYPE_RAW, FORMAT_UNKNOWN) == 0;
    var format := if info.subtype == SUBTYPE_RAW then info.format else FORMAT_ENCODED;
    RowFoundByFourcc(table, RowOfMedia(table, info.mediaType, info.subtype, format));
  }

  /** fmt -> info -> fmt. */
  function Canonical(table: seq<Row>, fmt: Fmt): Option<Fmt> {
    var info := FmtToInfo(table, fmt);
    if info.None? then None else InfoToFmt(table, info.value)
  }

  /** The row a canonical format comes from is the first of its kind, so converting again changes nothing. */
  lemma CanonicalIsIdempotent(table: seq<Row>, fmt: Fmt)
    requires DistinctFourccs(table) && Canonical(table, fmt).Some?
    ensures var c := Canonical(table, fmt).value;
      && Canonical(table, c) == Some(c)
      && c.width == fmt.width && c.height == fmt.height
  {
    var info := FmtToInfo(table, fmt).value;
    var format := if info.subtype == SUBTYPE_RAW then info.format else FORMAT_ENCODED;
    var i := RowOfMedia(table, info.mediaType, info.subtype, format);
    var row := table[i];
    RowFoundByFourcc(table, i);
    SameRowAgain(table, info.mediaType, info.subtype, format);
  }

  /** Looking a found row up by its own format finds it again. */
  lemma SameRowAgain(table: seq<Row>, mediaType: u32, subtype: u32, format: u32)
    requires RowOfMedia(table, mediaType, subtype, format) < |table|
    ensures var i := RowOfMedia(table, mediaType, subtype, format);
      RowOfMedia(table, mediaType, subtype, table[i].format) == i
  {
    var i := RowOfMedia(table, mediaType, subtype, format);
    assert MatchesMedia(table[i], mediaType, subtype, table[i].format);
  }

  /** The pixel format by which a row is looked up again. */
  function LookupFormat(row: Row): u32 {
    if row.subtype == SUBTYPE_RAW then row.format else FORMAT_ENCODED
  }

  /** The row that a format with the code of row i is converted to. */
  function CanonicalRow(table: seq<Row>, i: nat): nat
    requires i < |table|
  {
    RowOfMedia(table, MEDIA_TYPE_VIDEO, table[i].subtype, LookupFormat(table[i]))
  }

  /** The code of row i converts at all: a row of video in a supported encoding, looked up with success. */
  predicate Convertible(table: seq<Row>, i: nat)
    requires i < |table|
  {
    table[i].mediaType == MEDIA_TYPE_VIDEO && Supported(table[i].subtype) && CanonicalRow(table, i) < |table|
  }

  /**
   What fmt -> info -> fmt does, for every table with distinct codes and every format with the code of some row: it is
   refused, or becomes what the first row of the same meaning makes of its size.
   */
  lemma CanonicalForm(table: seq<Row>, fmt: Fmt, i: nat)
    requires DistinctFourccs(table) && i < |table| && fmt.fourcc == table[i].fourcc
    ensures Canonical(table, fmt) ==
      if fmt.kind == BUF_TYPE_VIDEO_CAPTURE && Convertible(table, i) && fmt.width > 0 && fmt.height > 0
      then Some(FmtOfRow(table[CanonicalRow(table, i)], fmt.width, fmt.height)) else None
  {
    RowFoundByFourcc(table, i);
  }

  /**
   A convertible code stays exactly when its row is a raw row or has the format ENCODED and no earlier row has its
   meaning; otherwise the first row of its meaning replaces it.
   */
  lemma CodeIsKeptIff(table: seq<Row>, fmt: Fmt, i: nat)
    requires DistinctFourccs(table) && i < |table| && fmt.fourcc == table[i].fourcc && Canonical(table, fmt).Some?
    ensures Canonical(table, fmt).value.fourcc == table[CanonicalRow(table, i)].fourcc
    ensures Canonical(table, fmt).value.fourcc == fmt.fourcc <==>
      && (table[i].subtype == SUBTYPE_RAW || table[i].format == FORMAT_ENCODED)
      && forall k :: 0 <= k < i ==> !MatchesMedia(table[k], MEDIA_TYPE_VIDEO, table[i].subtype, LookupFormat(table[i]))
  {
    CanonicalForm(table, fmt, i);
    RowFoundByFourcc(table, i);
    RowFoundByFourcc(table, CanonicalRow(table, i));
  }

  /** Every raw code without a pixel format of its own becomes the code of the first raw row. */
  lemma UnknownCodesCollapse(table: seq<Row>, fmt: Fmt, i: nat)
    requires DistinctFourccs(table) && StartsWithUnknownRaw(table)
    requires i < |table| && fmt.fourcc == table[i].fourcc && table[i].mediaType == MEDIA_TYPE_VIDEO
    requires table[i].subtype == SUBTYPE_RAW && table[i].format == FORMAT_UNKNOWN
    requires fmt.kind == BUF_TYPE_VIDEO_CAPTURE && fmt.width > 0 && fmt.height > 0
    ensures Canonical(table, fmt) == Some(FmtOfRow(table[0], fmt.width, fmt.height))
    ensures i > 0 ==> Canonical(table, fmt).value.fourcc != fmt.fourcc
  {
    CanonicalForm(table, fmt, i);
    assert CanonicalRow(table, i) == 0;
  }

  // ---------------------------------------------------------------- selection

  /** A node parameter; `info` is what its pod parses to, if there is a pod and it parses. */
  datatype Param = Param(id: u32, info: Option<Info>)

  /** param_to_fmt. */
  function Convert(table: seq<Row>, p: Param): Option<Fmt> {
    if p.info.None? then None else InfoToFmt(table, p.info.value)
  }

  /** score_diff in exact arithmetic. */
  function Score(fmt: Fmt, tmp: Fmt): nat {
    (if fmt.fourcc != tmp.fourcc then 20000 else 0)
      + (fmt.width - tmp.width) * (fmt.width - tmp.width) + (fmt.height - tmp.height) * (fmt.height - tmp.height)
  }

  /** The computation in C's int is defined, and equals the exact score. */
  predicate ScoreFitsInt(fmt: Fmt, tmp: Fmt) {
    && fmt.width < 0x8000_0000 && fmt.height < 0x8000_0000 && tmp.width < 0x8000_0000 && tmp.height < 0x8000_0000
    && Score(fmt, tmp) < 0x8000_0000
  }

  predicate SmallSize(fmt: Fmt) {
    fmt.width <= 32767 && fmt.height <= 32767
  }

  /** For sizes up to 32767 the int never overflows; it is never negative, so it cannot be the -1 of "none yet". */
  lemma SmallScoresFit(fmt: Fmt, tmp: Fmt)
    requires SmallSize(fmt) && SmallSize(tmp)
    ensures ScoreFitsInt(fmt, tmp)
  {
    SquareBound(fmt.width - tmp.width);
    SquareBound(fmt.height - tmp.height);
  }

  lemma SquareBound(d: int)
    requires -32767 <= d <= 32767
    ensures 0 <= d * d <= 32767 * 32767
  {
    ProductNonNegative(32767 - d, 32767 + d);
    assert (32767 - d) * (32767 + d) == 32767 * 32767 - d * d;
    SquarePositive(d);
  }

  lemma ProductNonNegative(x: int, y: int)
    requires x >= 0 && y >= 0
    ensures x * y >= 0
  {
  }

  /** One more pixel, and the score of a format against the empty one no longer fits. */
  lemma BoundIsTight(fmt: Fmt, tmp: Fmt)
    requires fmt.width == 0 && fmt.height == 0 && tmp.width == 32768 && tmp.height == 32768
    ensures !ScoreFitsInt(fmt, tmp)
  {
    assert 32768 * 32768 == 0x4000_0000;
  }

  predicate IsFormat(table: seq<Row>, p: Param) {
    p.id == PARAM_FORMAT && Convert(table, p).Some?
  }

  predicate IsCandidate(table: seq<Row>, p: Param) {
    p.id == PARAM_ENUM_FORMAT && Convert(table, p).Some?
  }

  /** The k-th parameter is the first convertible Format parameter. */
  ghost predicate IsFirstFormat(table: seq<Row>, params: seq<Param>, k: nat) {
    k < |params| && IsFormat(table, params[k]) && forall j :: 0 <= j < k ==> !IsFormat(table, params[j])
  }

  /** The k-th parameter is the first candidate of minimal score. */
  ghost predicate IsFirstBest(table: seq<Row>, params: seq<Param>, fmt: Fmt, k: nat) {
    && k < |params| && IsCandidate(table, params[k])
    && forall j :: 0 <= j < |params| && IsCandidate(table, params[j]) ==>
         var mine, other := Score(fmt, Convert(table, params[k]).value), Score(fmt, Convert(table, params[j]).value);
         mine <= other && (j < k ==> mine < other)
  }

  /** What try_format promises: the current format if there is one, else the nearest candidate, else no change. */
  ghost predicate IsSelected(table: seq<Row>, params: seq<Param>, fmt: Fmt, res: Fmt) {
    || (exists k: nat :: IsFirstFormat(table, params, k) && res == Convert(table, params[k]).value)
    || (&& (forall j :: 0 <= j < |params| ==> !IsFormat(table, params[j]))
        && exists k: nat :: IsFirstBest(table, params, fmt, k) && res == Convert(table, params[k]).value)
    || (&& (forall j :: 0 <= j < |params| ==> !IsFormat(table, params[j]) && !IsCandidate(table, params[j]))
        && res == fmt)
  }

  /** The loop of try_format has seen the first n parameters and met no convertible Format. */
  ghost predicate Searched(table: seq<Row>, params: seq<Param>, n: nat, fmt: Fmt, best: int, bestFmt: Fmt)
    requires n <= |params|
  {
    && (forall j :: 0 <= j < n ==> !IsFormat(table, params[j]))
    && (if best == -1 then bestFmt == fmt && forall j :: 0 <= j < n ==> !IsCandidate(table, params[j])
        else exists k: nat :: k < n && IsBestSoFar(table, params, n, fmt, best, bestFmt, k))
  }

  ghost predicate IsBestSoFar(table: seq<Row>, params: seq<Param>, n: nat, fmt: Fmt, best: int, bestFmt: Fmt, k: nat)
    requires k < n <= |params|
  {
    && IsFirstBest(table, params[..n], fmt, k)
    && bestFmt == Convert(table, params[k]).value
    && best == Score(fmt, bestFmt)
  }

  lemma SearchStep(table: seq<Row>, params: seq<Param>, n: nat, fmt: Fmt, best: int, bestFmt: Fmt)
    requires n < |params| && Searched(table, params, n, fmt, best, bestFmt)
    requires !IsFormat(table, params[n])
    ensures !IsCandidate(table, params[n]) ==> Searched(table, params, n + 1, fmt, best, bestFmt)
    ensures IsCandidate(table, params[n]) ==>
      var tmp := Convert(table, params[n]).value;
      var score := Score(fmt, tmp);
      if best == -1 || score < best then Searched(table, params, n + 1, fmt, score, tmp)
      else Searched(table, params, n + 1, fmt, best, bestFmt)
  {
    if best != -1 {
      var k: nat :| k < n && IsBestSoFar(table, params, n, fmt, best, bestFmt, k);
      if IsCandidate(table, params[n]) && Score(fmt, Convert(table, params[n]).value) < best {
        NewBest(table, params, n, fmt, best, bestFmt, k);
      } else {
        BestKept(table, params, n, fmt, best, bestFmt, k);
      }
    } else if IsCandidate(table, params[n]) {
      assert IsFirstBest(table, params[..n + 1], fmt, n);
      assert IsBestSoFar(table, params, n + 1, fmt, Score(fmt, Convert(table, params[n]).value),
                         Convert(table, params[n]).value, n);
    }
  }

  lemma NewBest(table: seq<Row>, params: seq<Param>, n: nat, fmt: Fmt, best: int, bestFmt: Fmt, k: nat)
    requires k < n < |params| && IsBestSoFar(table, params, n, fmt, best, bestFmt, k)
    requires IsCandidate(table, params[n]) && Score(fmt, Convert(table, params[n]).value) < best
    ensures var tmp := Convert(table, params[n]).value;
      IsBestSoFar(table, params, n + 1, fmt, Score(fmt, tmp), tmp, n)
  {
    var seen := params[..n + 1];
    forall j | 0 <= j < |seen| && IsCandidate(table, seen[j])
      ensures var mine, other := Score(fmt, Convert(table, seen[n]).value), Score(fmt, Convert(table, seen[j]).value);
        mine <= other && (j < n ==> mine < other)
    {
      assert j < n ==> seen[j] == params[..n][j];
    }
  }

  lemma BestKept(table: seq<Row>, params: seq<Param>, n: nat, fmt: Fmt, best: int, bestFmt: Fmt, k: nat)
    requires k < n < |params| && IsBestSoFar(table, params, n, fmt, best, bestFmt, k)
    requires IsCandidate(table, params[n]) ==> Score(fmt, Convert(table, params[n]).value) >= best
    ensures IsBestSoFar(table, params, n + 1, fmt, best, bestFmt, k)
  {
    var seen := params[..n + 1];
    forall j | 0 <= j < |seen| && IsCandidate(table, seen[j])
      ensures var mine, other := Score(fmt, Convert(table, seen[k]).value), Score(fmt, Convert(table, seen[j]).value);
        mine <= other && (j < k ==> mine < other)
    {
      assert j < n ==> seen[j] == params[..n][j];
    }
  }

  /** The parameters that are not skipped. */
  predicate IsScored(table: seq<Row>, p: Param) {
    (p.id == PARAM_ENUM_FORMAT || p.id == PARAM_FORMAT) && Convert(table, p).Some?
  }

  /** try_format; None stands for -EINVAL. */
  method TryFormat(table: seq<Row>, params: seq<Param>, fmt: Fmt) returns (res: Option<Fmt>)
    requires forall j :: 0 <= j < |params| && IsScored(table, params[j]) ==>
      ScoreFitsInt(fmt, Convert(table, params[j]).value)
    ensures res.None? <==> fmt.kind != BUF_TYPE_VIDEO_CAPTURE
    ensures res.Some? ==> IsSelected(table, params, fmt, res.value)
  {
    if fmt.kind != BUF_TYPE_VIDEO_CAPTURE {
      return None;
    }
    var bestFmt, best: int := fmt, -1;
    var n := 0;
    while n < |params|
      invariant 0 <= n <= |params|
      invariant Searched(table, params, n, fmt, best, bestFmt)
    {
      var p := params[n];
      var tmp := Convert(table, p);
      if IsScored(table, p) {
        var score := Score(fmt, tmp.value);
        if p.id == PARAM_FORMAT {
          assert IsFirstFormat(table, params, n);
          return Some(tmp.value);
        }
        SearchStep(table, params, n, fmt, best, bestFmt);
        if best == -1 || score < best {
          best, bestFmt := score, tmp.value;
        }
      } else {
        SearchStep(table, params, n, fmt, best, bestFmt);
      }
      n := n + 1;
    }
    assert params[..|params|] == params;
    if best != -1 {
      ghost var k: nat :| k < n && IsBestSoFar(table, params, n, fmt, best, bestFmt, k);
      assert IsFirstBest(table, params, fmt, k);
    }
    res := Some(bestFmt);
  }

  /** Of two formats from one table, code and size decide the rest. */
  lemma CodeAndSizeDecide(table: seq<Row>, p: Param, q: Param)
    requires DistinctFourccs(table) && Convert(table, p).Some? && Convert(table, q).Some?
    requires Score(Convert(table, p).value, Convert(table, q).value) == 0
    ensures Convert(table, p) == Convert(table, q)
  {
    var a, b := Convert(table, p).value, Convert(table, q).value;
    ZeroScore(a, b);
    var i := RowOfConvert(table, p);
    var j := RowOfConvert(table, q);
    RowFoundByFourcc(table, i);
    RowFoundByFourcc(table, j);
  }

  lemma RowOfConvert(table: seq<Row>, p: Param) returns (i: nat)
    requires Convert(table, p).Some?
    ensures i < |table| && p.info.Some? && p.info.value.width > 0 && p.info.value.height > 0
    ensures Convert(table, p).value == FmtOfRow(table[i], p.info.value.width, p.info.value.height)
  {
    var info := p.info.value;
    i := RowOfMedia(table, info.mediaType, info.subtype, if info.subtype == SUBTYPE_RAW then info.format else FORMAT_ENCODED);
  }

  lemma ZeroScore(a: Fmt, b: Fmt)
    ensures Score(a, b) == 0 <==> a.fourcc == b.fourcc && a.width == b.width && a.height == b.height
  {
    SquarePositive(a.width - b.width);
    SquarePositive(a.height - b.height);
  }

  lemma SquarePositive(d: int)
    ensures d * d >= 0 && (d * d == 0 <==> d == 0)
  {
  }

  /** Trying the selected format again selects it again. */
  lemma SelectionIsIdempotent(table: seq<Row>, params: seq<Param>, fmt: Fmt, res: Fmt, again: Fmt)
    requires DistinctFourccs(table)
    requires IsSelected(table, params, fmt, res) && IsSelected(table, params, res, again)
    ensures again == res
  {
    if k: nat :| IsFirstBest(table, params, fmt, k) && res == Convert(table, params[k]).value {
      ZeroScore(res, res);
      if j: nat :| IsFirstBest(table, params, res, j) && again == Convert(table, params[j]).value {
        CodeAndSizeDecide(table, params[k], params[j]);
      }
    }
  }

  /** There is at most one selection. */
  lemma SelectionIsUnique(table: seq<Row>, params: seq<Param>, fmt: Fmt, res: Fmt, other: Fmt)
    requires IsSelected(table, params, fmt, res) && IsSelected(table, params, fmt, other)
    ensures other == res
  {
  }
}
