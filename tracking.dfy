/** The file-naming and streamline-selection rules of `compute_tracking`:
    the seed-count tag `_<n><K|M>` in the output names, the `.trk` and
    `.dpy` file names, and the length filter applied to the `.trk` stream
    (but not to the `.dpy` list). */
module Tracking {
  import opened Wrappers
  import opened PyFormat
  import opened PyPath

  // ---------------------------------------------------------------------
  // Seed-count tag
  // ---------------------------------------------------------------------

  /** The number in the tag, with Python 2 integer division. For a positive
      divisor Python's floor division and Dafny's Euclidean division agree
      on every integer, so `/` is used as it is. */
  function LabelNumber(seeds: int): (n: int)
    ensures seeds > 100000 ==> n * 1000000 <= seeds < n * 1000000 + 1000000
    ensures seeds <= 100000 ==> n * 1000 <= seeds < n * 1000 + 1000
  {
    if seeds > 100000 then seeds / 1000000 else seeds / 1000
  }

  /** The unit letter of the tag. */
  function LabelUnit(seeds: int): string
  {
    if seeds < 1000000 then "K" else "M"
  }

  /** `"_%d%s" % (number, unit)`. */
  function SeedTag(seeds: int): Result<string, FormatError>
  {
    Format("_%d%s", [Int(LabelNumber(seeds)), Str(LabelUnit(seeds))])
  }

  /** The tag always formats, and reads as `_`, the number, the unit. */
  lemma SeedTagShape(seeds: int)
    ensures SeedTag(seeds) == Ok("_" + Decimal(LabelNumber(seeds)) + LabelUnit(seeds))
  {
    var n, u := Int(LabelNumber(seeds)), Str(LabelUnit(seeds));
    var d, x := Decimal(LabelNumber(seeds)), LabelUnit(seeds);
    FormatLiteral("_", []);
    FormatOne('d', n);
    FormatOne('s', u);
    assert "%d" + "%s" == "%d%s" && [n] + [u] == [n, u];
    FormatConcat("%d", [n], "%s", [u]);
    assert Format("%d%s", [n, u]) == Ok(d + x);
    assert "_" + "%d%s" == "_%d%s" && [] + [n, u] == [n, u];
    FormatConcat("_", [], "%d%s", [n, u]);
    assert Format("_%d%s", [n, u]) == Ok("_" + (d + x));
    assert SeedTag(seeds) == Format("_%d%s", [n, u]);
    assert "_" + (d + x) == "_" + d + x;
  }

  /** The tag ends in `K` exactly when there are fewer than a million seeds,
      and in `M` otherwise; nothing else is ever produced. */
  lemma SeedTagUnit(seeds: int)
    ensures SeedTag(seeds).Ok?
    ensures var t := SeedTag(seeds).value;
            |t| >= 3 && t[0] == '_'
            && (t[|t| - 1] == 'K' <==> seeds < 1000000)
            && (t[|t| - 1] == 'M' <==> seeds >= 1000000)
  {
    SeedTagShape(seeds);
  }

  /** Reading the number back out of the tag gives `seeds div 10^6` above a
      hundred thousand seeds and `seeds div 10^3` otherwise. */
  lemma SeedTagNumber(seeds: int)
    ensures SeedTag(seeds).Ok?
    ensures var t := SeedTag(seeds).value;
            |t| >= 3 &&
            ParseDecimal(t[1..|t| - 1]) ==
              Some(if seeds > 100000 then seeds / 1000000 else seeds / 1000)
  {
    SeedTagShape(seeds);
    var d := Decimal(LabelNumber(seeds));
    var t := SeedTag(seeds).value;
    assert t[1..|t| - 1] == d;
    DecimalRoundTrip(LabelNumber(seeds));
  }

  /** Counts strictly between a hundred thousand and a million all get the
      tag `_0K`: the threshold of the number (`> 10^5`) and that of the unit
      (`< 10^6`) disagree. */
  lemma SeedTagCollapse(seeds: int)
    requires 100000 < seeds < 1000000
    ensures SeedTag(seeds) == Ok("_0K")
  {
    SeedTagShape(seeds);
    assert LabelNumber(seeds) == 0 && LabelUnit(seeds) == "K";
    assert DigitChar(0) == '0';
    assert Decimal(0) == "0";
    assert "_" + "0" + "K" == "_0K";
  }

  /** The tag of a few seed counts. */
  lemma SeedTagExamples()
    ensures SeedTag(100000) == Ok("_100K")
    ensures SeedTag(500000) == Ok("_0K")
    ensures SeedTag(2000000) == Ok("_2M")
  {
    SeedTagShape(100000);
    assert LabelNumber(100000) == 100 && LabelUnit(100000) == "K";
    assert DigitChar(1) == '1' && DigitChar(0) == '0';
    assert Digits(1) == "1" && Digits(10) == "10" && Decimal(100) == "100";
    assert "_" + "100" + "K" == "_100K";
    SeedTagCollapse(500000);
    SeedTagShape(2000000);
    assert LabelNumber(2000000) == 2 && LabelUnit(2000000) == "M";
    assert DigitChar(2) == '2' && Decimal(2) == "2";
    assert "_" + "2" + "M" == "_2M";
  }

  // ---------------------------------------------------------------------
  // Output file names
  // ---------------------------------------------------------------------

  /** `subj_name + seed + suffix`: the base name of a tracking output. */
  function OutputBasename(subj: string, seeds: int, suffix: string): Result<string, FormatError>
  {
    match SeedTag(seeds)
    case Err(e) => Err(e)
    case Ok(tag) => Ok(subj + tag + suffix)
  }

  /** `os.path.join(out_trk_dir, subj_name + seed + par_trk_suffix)`. */
  function TrkFile(outTrkDir: string, subj: string, seeds: int, trkSuffix: string): Result<string, FormatError>
  {
    match OutputBasename(subj, seeds, trkSuffix)
    case Err(e) => Err(e)
    case Ok(name) => Ok(Join(outTrkDir, name))
  }

  /** `os.path.join(out_trk_dir, subj_name + seed + par_dipy_suffix)`. */
  function DpyFile(outTrkDir: string, subj: string, seeds: int, dipySuffix: string): Result<string, FormatError>
  {
    match OutputBasename(subj, seeds, dipySuffix)
    case Err(e) => Err(e)
    case Ok(name) => Ok(Join(outTrkDir, name))
  }

  /** A tracking output is `<dir>/<subj><tag><suffix>` for a directory not
      ending in `/` and a relative subject name. */
  lemma OutputFileShape(outTrkDir: string, subj: string, seeds: int, suffix: string)
    requires outTrkDir != [] && outTrkDir[|outTrkDir| - 1] != '/'
    requires subj == [] || subj[0] != '/'
    ensures SeedTag(seeds).Ok? && OutputBasename(subj, seeds, suffix).Ok?
    ensures Join(outTrkDir, OutputBasename(subj, seeds, suffix).value) ==
            outTrkDir + "/" + subj + SeedTag(seeds).value + suffix
  {
    SeedTagUnit(seeds);
    var tag := SeedTag(seeds).value;
    var name := subj + tag + suffix;
    assert name[0] == (if subj == [] then tag[0] else subj[0]);
    JoinRelative(outTrkDir, name);
  }

  /** The `.trk` and `.dpy` outputs are siblings that differ only in their
      suffix: same directory, same subject, same tag. */
  lemma OutputFilesShareStem(outTrkDir: string, subj: string, seeds: int, trkSuffix: string, dipySuffix: string)
    requires outTrkDir != [] && outTrkDir[|outTrkDir| - 1] != '/'
    requires subj == [] || subj[0] != '/'
    ensures TrkFile(outTrkDir, subj, seeds, trkSuffix).Ok?
    ensures DpyFile(outTrkDir, subj, seeds, dipySuffix).Ok?
    ensures var stem := outTrkDir + "/" + subj + SeedTag(seeds).value;
            TrkFile(outTrkDir, subj, seeds, trkSuffix).value == stem + trkSuffix
            && DpyFile(outTrkDir, subj, seeds, dipySuffix).value == stem + dipySuffix
  {
    OutputFileShape(outTrkDir, subj, seeds, trkSuffix);
    OutputFileShape(outTrkDir, subj, seeds, dipySuffix);
  }

  // ---------------------------------------------------------------------
  // Length filter
  // ---------------------------------------------------------------------

  /** `length(sl) > par_trk_min and length(sl) < par_trk_max`. The streamline
      type and its arc length are left abstract. */
  predicate KeepForTrk<S>(length: S -> real, trkMin: real, trkMax: real, sl: S)
  {
    length(sl) > trkMin && length(sl) < trkMax
  }

  /** The streamlines of the generator passed to the `.trk` writer, in the
      tracker's order. Every one of them lies strictly within the bounds. */
  function TrkStreamlines<S(==)>(length: S -> real, trkMin: real, trkMax: real, tracked: seq<S>): (r: seq<S>)
    ensures |r| <= |tracked|
    ensures forall i :: 0 <= i < |r| ==> trkMin < length(r[i]) < trkMax
    ensures forall i :: 0 <= i < |r| ==> r[i] in tracked
  {
    if tracked == [] then []
    else
      var rest := TrkStreamlines(length, trkMin, trkMax, tracked[1..]);
      if KeepForTrk(length, trkMin, trkMax, tracked[0]) then [tracked[0]] + rest else rest
  }

  /** `r` can be obtained from `s` by deleting elements: an order-preserving
      subsequence. */
  predicate IsSubsequence<S(==)>(r: seq<S>, s: seq<S>)
    decreases |s|
  {
    if r == [] then true
    else if s == [] then false
    else if r[0] == s[0] then IsSubsequence(r[1..], s[1..])
    else IsSubsequence(r, s[1..])
  }

  lemma {:induction false} TrkIsSubsequence<S>(length: S -> real, trkMin: real, trkMax: real, tracked: seq<S>)
    ensures IsSubsequence(TrkStreamlines(length, trkMin, trkMax, tracked), tracked)
  {
    if tracked != [] {
      var rest := TrkStreamlines(length, trkMin, trkMax, tracked[1..]);
      TrkIsSubsequence(length, trkMin, trkMax, tracked[1..]);
      if KeepForTrk(length, trkMin, trkMax, tracked[0]) {
        assert ([tracked[0]] + rest)[1..] == rest;
      }
    }
  }

  /** The filter loses nothing it should keep: each streamline occurs in the
      `.trk` stream as often as in the tracker output when it is strictly
      within the bounds, and never otherwise. */
  lemma {:induction false} TrkCounts<S>(length: S -> real, trkMin: real, trkMax: real, tracked: seq<S>, sl: S)
    ensures multiset(TrkStreamlines(length, trkMin, trkMax, tracked))[sl] ==
            if KeepForTrk(length, trkMin, trkMax, sl) then multiset(tracked)[sl] else 0
  {
    if tracked != [] {
      TrkCounts(length, trkMin, trkMax, tracked[1..], sl);
      assert tracked == [tracked[0]] + tracked[1..];
    }
  }

  /** A streamline whose length equals either bound is left out of the
      `.trk` stream, however often the tracker produced it. */
  lemma BoundsAreExcluded<S>(length: S -> real, trkMin: real, trkMax: real, tracked: seq<S>, sl: S)
    requires length(sl) == trkMin || length(sl) == trkMax
    ensures sl !in TrkStreamlines(length, trkMin, trkMax, tracked)
  {
  }

  /** What `compute_tracking` hands to its two writers. */
  datatype Tractography<S> = Tractography(trk: seq<S>, dpy: seq<S>)

  /** The `.trk` writer receives the filtered generator; the `.dpy` writer
      receives `[track for track in streamlines]`, the whole tracker output. */
  function SaveTractography<S(==)>(length: S -> real, trkMin: real, trkMax: real, tracked: seq<S>): (out: Tractography<S>)
    ensures out.dpy == tracked
    ensures IsSubsequence(out.trk, out.dpy)
    ensures forall i :: 0 <= i < |out.trk| ==> trkMin < length(out.trk[i]) < trkMax
  {
    TrkIsSubsequence(length, trkMin, trkMax, tracked);
    Tractography(TrkStreamlines(length, trkMin, trkMax, tracked), tracked)
  }
}
