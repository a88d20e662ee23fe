/** The names `tractome_preprocessing` derives: it recomputes the `.trk`
    base name with its own format string, reads that file from the tracking
    directory, and writes the dissimilarity record as `.spa` under a
    `.temp` subdirectory. */
module TractomePreprocessing {
  import opened Wrappers
  import opened PyFormat
  import opened PyPath
  import Tracking

  /** `"%s_%d%s%s" % (subj_name, number, unit, par_trk_suffix)`, with the
      number and unit written out again as the reader writes them. */
  function ReaderTrkBasename(subj: string, seeds: int, trkSuffix: string): Result<string, FormatError>
  {
    Format("%s_%d%s%s", [Str(subj),
                         Int(if seeds > 100000 then seeds / 1000000 else seeds / 1000),
                         Str(if seeds < 1000000 then "K" else "M"),
                         Str(trkSuffix)])
  }

  /** `os.path.splitext(trk_basename)[0] + '.spa'`. */
  function SpaBasename(trkBasename: string): string
  {
    SplitExt(trkBasename).0 + ".spa"
  }

  /** The three paths the stage uses. */
  datatype Paths = Paths(srcTrkFile: string, outSpaDir: string, outSpaFile: string)

  /** The paths derived from the `.trk` base name. */
  function PathsFor(srcTrkDir: string, trkBasename: string): Paths
  {
    var spaDir := Join(srcTrkDir, ".temp");
    Paths(Join(srcTrkDir, trkBasename), spaDir, Join(spaDir, SpaBasename(trkBasename)))
  }

  /** `src_trk_file`, `out_spa_dir` and `out_spa_file` for one subject. */
  function PreprocessingPaths(srcTrkDir: string, subj: string, seeds: int, trkSuffix: string): Result<Paths, FormatError>
  {
    match ReaderTrkBasename(subj, seeds, trkSuffix)
    case Err(e) => Err(e)
    case Ok(trk) => Ok(PathsFor(srcTrkDir, trk))
  }

  /** The reader's format string produces exactly the name the tracking stage
      writes, for every subject name, seed count and suffix. */
  lemma ReaderBasenameAgrees(subj: string, seeds: int, trkSuffix: string)
    ensures ReaderTrkBasename(subj, seeds, trkSuffix).Ok?
    ensures ReaderTrkBasename(subj, seeds, trkSuffix) == Tracking.OutputBasename(subj, seeds, trkSuffix)
  {
    var s, n, u, x := Str(subj), Int(Tracking.LabelNumber(seeds)), Str(Tracking.LabelUnit(seeds)), Str(trkSuffix);
    FormatOne('s', s);
    FormatOne('s', x);
    Tracking.SeedTagShape(seeds);
    assert Format("_%d%s", [n, u]) == Ok(Tracking.SeedTag(seeds).value);
    assert "%s" + "_%d%s" == "%s_%d%s" && [s] + [n, u] == [s, n, u];
    FormatConcat("%s", [s], "_%d%s", [n, u]);
    assert "%s_%d%s" + "%s" == "%s_%d%s%s" && [s, n, u] + [x] == [s, n, u, x];
    FormatConcat("%s_%d%s", [s, n, u], "%s", [x]);
  }

  /** The file `tractome_preprocessing` opens is the `.trk` file
      `compute_tracking` wrote when both are given the same directory. */
  lemma ReaderFindsTrkFile(trkDir: string, subj: string, seeds: int, trkSuffix: string)
    ensures PreprocessingPaths(trkDir, subj, seeds, trkSuffix).Ok?
    ensures Tracking.TrkFile(trkDir, subj, seeds, trkSuffix) ==
            Ok(PreprocessingPaths(trkDir, subj, seeds, trkSuffix).value.srcTrkFile)
  {
    ReaderBasenameAgrees(subj, seeds, trkSuffix);
  }

  /** With a suffix of the form `.ext` (one dot, no `/`), the `.spa` name is
      the `.trk` name with that suffix replaced by `.spa`. */
  lemma SpaReplacesSuffix(subj: string, seeds: int, trkSuffix: string)
    requires |trkSuffix| > 0 && trkSuffix[0] == '.' && '.' !in trkSuffix[1..] && '/' !in trkSuffix
    ensures Tracking.SeedTag(seeds).Ok?
    ensures ReaderTrkBasename(subj, seeds, trkSuffix).Ok?
    ensures var stem := subj + Tracking.SeedTag(seeds).value;
            ReaderTrkBasename(subj, seeds, trkSuffix).value == stem + trkSuffix
            && SpaBasename(ReaderTrkBasename(subj, seeds, trkSuffix).value) == stem + ".spa"
  {
    ReaderBasenameAgrees(subj, seeds, trkSuffix);
    Tracking.SeedTagShape(seeds);
    var tag := Tracking.SeedTag(seeds).value;
    var stem := subj + tag;
    var u := Tracking.LabelUnit(seeds);
    assert stem[|stem| - 1] == u[0];
    SplitExtOfAppend(stem, trkSuffix);
  }

  /** For a relative `.trk` name `<stem><.ext>` in a directory `<dir>` that
      does not end in `/`, the record is `<dir>/.temp/<stem>.spa`. */
  lemma PathsForShape(trkDir: string, stem: string, trkSuffix: string)
    requires trkDir != [] && trkDir[|trkDir| - 1] != '/'
    requires stem != [] && stem[0] != '/' && stem[|stem| - 1] != '.' && stem[|stem| - 1] != '/'
    requires |trkSuffix| > 0 && trkSuffix[0] == '.' && '.' !in trkSuffix[1..] && '/' !in trkSuffix
    ensures PathsFor(trkDir, stem + trkSuffix) ==
            Paths(trkDir + "/" + stem + trkSuffix, trkDir + "/.temp", trkDir + "/.temp/" + stem + ".spa")
  {
    var trk, spa := stem + trkSuffix, stem + ".spa";
    SplitExtOfAppend(stem, trkSuffix);
    assert SpaBasename(trk) == spa;
    assert trk[0] == stem[0] && spa[0] == stem[0];
    JoinRelative(trkDir, ".temp");
    JoinRelative(trkDir, trk);
    JoinRelative(trkDir + "/.temp", spa);
  }

  /** The `.spa` record lands in `<dir>/.temp/`, named after the `.trk` file
      with `.spa` in place of its suffix. */
  lemma SpaFileInTempDir(trkDir: string, subj: string, seeds: int, trkSuffix: string)
    requires trkDir != [] && trkDir[|trkDir| - 1] != '/'
    requires subj == [] || subj[0] != '/'
    requires |trkSuffix| > 0 && trkSuffix[0] == '.' && '.' !in trkSuffix[1..] && '/' !in trkSuffix
    ensures Tracking.SeedTag(seeds).Ok?
    ensures PreprocessingPaths(trkDir, subj, seeds, trkSuffix).Ok?
    ensures var stem := subj + Tracking.SeedTag(seeds).value;
            PreprocessingPaths(trkDir, subj, seeds, trkSuffix).value ==
            Paths(trkDir + "/" + stem + trkSuffix, trkDir + "/.temp", trkDir + "/.temp/" + stem + ".spa")
  {
    ReaderBasenameAgrees(subj, seeds, trkSuffix);
    Tracking.SeedTagUnit(seeds);
    var tag := Tracking.SeedTag(seeds).value;
    var stem := subj + tag;
    assert stem[0] != '/';
    assert stem[|stem| - 1] == tag[|tag| - 1];
    PathsForShape(trkDir, stem, trkSuffix);
  }
}
