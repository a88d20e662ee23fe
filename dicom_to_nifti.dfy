/** The file names `dicom_to_nifti` works with: the outputs it clears before
    running the converter, the converter output it picks (the one with the
    smallest ctime), the stem it cuts from that file's name with
    `str.strip`, and the renames and removals it then attempts. */
module DicomToNifti {
  import opened Wrappers
  import opened PyPath
  import opened PyStrip

  // ---------------------------------------------------------------------
  // Selecting the converter output
  // ---------------------------------------------------------------------

  /** `min(files, key=ctime)` as an index. Python keeps the current best and
      replaces it only by a strictly smaller key, so among equal ctimes
      the first file wins. */
  function EarliestIndex<P>(files: seq<P>, ctime: P -> real): (k: nat)
    requires |files| > 0
    ensures k < |files|
    ensures forall j :: 0 <= j < |files| ==> ctime(files[k]) <= ctime(files[j])
    ensures forall j :: 0 <= j < k ==> ctime(files[k]) < ctime(files[j])
  {
    if |files| == 1 then 0
    else
      var m := EarliestIndex(files[..|files| - 1], ctime);
      if ctime(files[|files| - 1]) < ctime(files[m]) then |files| - 1 else m
  }

  datatype SelectError = EmptySequence  // ValueError: min() arg is an empty sequence

  /** `new_file = min(all_file, key=os.path.getctime)`: the `.nii` file with
      the smallest ctime (the inode status-change time on POSIX, the creation
      time on Windows), not the newest one. */
  function SelectNewFile(allFiles: seq<string>, ctime: string -> real): (r: Result<string, SelectError>)
    ensures r.Err? <==> allFiles == []
    ensures r.Ok? ==> r.value in allFiles
    ensures r.Ok? ==> forall f :: f in allFiles ==> ctime(r.value) <= ctime(f)
  {
    if allFiles == [] then Err(EmptySequence)
    else Ok(allFiles[EarliestIndex(allFiles, ctime)])
  }

  // ---------------------------------------------------------------------
  // The stem of the converter output
  // ---------------------------------------------------------------------

  /** The argument string `strip` is given. */
  const StripArgument: string := "co, o, .nii, .bval, .bvec"

  /** The characters `strip` removes. */
  const StripChars: set<char> := {'c', 'o', ',', ' ', '.', 'n', 'i', 'b', 'v', 'a', 'l', 'e'}

  /** `os.path.basename(new_file).strip(StripArgument)`. */
  function DelFile(newFile: string): (d: string)
    ensures '/' !in d
    ensures d == [] || (d[0] !in StripChars && d[|d| - 1] !in StripChars)
  {
    var b := Basename(newFile);
    assert '/' !in Strip(b, StripChars) by {
      if '/' in Strip(b, StripChars) {
        StripKeepsCharacters(b, StripChars, '/');
      }
    }
    Strip(b, StripChars)
  }

  /** The twelve characters are exactly those of the argument string. */
  lemma StripCharsAsSet()
    ensures forall c :: c in StripArgument <==> c in StripChars
  {
  }

  /** Stripping the stem again changes nothing. */
  lemma DelFileStable(newFile: string)
    ensures Strip(DelFile(newFile), StripChars) == DelFile(newFile)
  {
    StripIdempotent(Basename(newFile), StripChars);
  }

  /** The stem of a converter output `<prefix><stem><ext>`, whose prefix
      and extension are made of the set's characters (`co`, `o`, `.nii`,
      `.bval`, `.bvec`), is recovered exactly when the stem itself neither
      starts nor ends with one of the twelve characters: `strip` works on
      characters, so `dti_scan.nii` loses `can.nii` and yields `dti_s`. */
  lemma {:induction false} DelFileRecoversStem(prefix: string, stem: string, ext: string)
    requires forall k :: 0 <= k < |prefix| ==> prefix[k] in StripChars
    requires forall k :: 0 <= k < |ext| ==> ext[k] in StripChars
    requires '/' !in stem
    ensures DelFile(prefix + stem + ext) == stem <==>
            (stem == [] || (stem[0] !in StripChars && stem[|stem| - 1] !in StripChars))
  {
    if stem == [] || (stem[0] !in StripChars && stem[|stem| - 1] !in StripChars) {
      StemRecovered(prefix, stem, ext);
    }
  }

  /** The "if" half of DelFileRecoversStem. */
  lemma StemRecovered(prefix: string, stem: string, ext: string)
    requires forall k :: 0 <= k < |prefix| ==> prefix[k] in StripChars
    requires forall k :: 0 <= k < |ext| ==> ext[k] in StripChars
    requires '/' !in stem
    requires stem == [] || (stem[0] !in StripChars && stem[|stem| - 1] !in StripChars)
    ensures DelFile(prefix + stem + ext) == stem
  {
    var s := prefix + stem + ext;
    NoSlashInName(prefix, stem, ext);
    BasenameOfName(s);
    var i, j := |prefix|, |prefix| + |stem|;
    PartsOfName(prefix, stem, ext);
    StripUnique(s, StripChars, i, j);
  }

  /** Where the three parts of `<prefix><stem><ext>` sit. */
  lemma PartsOfName(prefix: string, stem: string, ext: string)
    ensures var s := prefix + stem + ext;
            (forall m :: 0 <= m < |prefix| ==> s[m] == prefix[m])
            && s[|prefix|..|prefix| + |stem|] == stem
            && (forall m :: |prefix| + |stem| <= m < |s| ==> s[m] == ext[m - |prefix| - |stem|])
  {
  }

  /** A name built from set characters around a `/`-free stem has no `/`. */
  lemma NoSlashInName(prefix: string, stem: string, ext: string)
    requires forall k :: 0 <= k < |prefix| ==> prefix[k] in StripChars
    requires forall k :: 0 <= k < |ext| ==> ext[k] in StripChars
    requires '/' !in stem
    ensures '/' !in prefix + stem + ext
  {
    assert '/' !in StripChars;
    var s := prefix + stem + ext;
    forall k | 0 <= k < |s| ensures s[k] != '/' {
      if k < |prefix| {
        assert s[k] == prefix[k];
      } else if k < |prefix| + |stem| {
        assert s[k] == stem[k - |prefix|];
      } else {
        assert s[k] == ext[k - |prefix| - |stem|];
      }
    }
  }

  // ---------------------------------------------------------------------
  // The file operations the names feed
  // ---------------------------------------------------------------------

  /** Each operation is attempted only if its source exists. */
  datatype FileAction = RenameIfExists(src: string, dst: string) | RemoveIfExists(path: string)

  /** The outputs removed before the converter runs. */
  function ClearedOutputs(outDir: string, subj: string, tag: string): seq<string>
  {
    [Join(outDir, subj + "_" + tag + ".nii"), Join(outDir, subj + ".bval"), Join(outDir, subj + ".bvec")]
  }

  /** The renames and removals after the converter ran, for stem `del`. */
  function PostConversionActions(outDir: string, subj: string, tag: string, del: string): seq<FileAction>
  {
    if tag == "mri" then
      [RenameIfExists(Join(outDir, "co" + del + ".nii"), Join(outDir, subj + "_" + tag + ".nii")),
       RemoveIfExists(Join(outDir, "o" + del + ".nii")),
       RemoveIfExists(Join(outDir, del + ".nii"))]
    else if tag == "dmri" then
      [RenameIfExists(Join(outDir, del + ".nii"), Join(outDir, subj + "_" + tag + ".nii")),
       RenameIfExists(Join(outDir, del + ".bval"), Join(outDir, subj + ".bval")),
       RenameIfExists(Join(outDir, del + ".bvec"), Join(outDir, subj + ".bvec"))]
    else
      []
  }

  function RenameTargets(actions: seq<FileAction>): set<string>
  {
    set i | 0 <= i < |actions| && actions[i].RenameIfExists? :: actions[i].dst
  }

  /** The whole naming step: pick the converter output, cut its stem, plan
      the renames and removals. It fails exactly when the directory holds no
      `.nii` file. */
  function ConversionPlan(outDir: string, subj: string, tag: string, allFiles: seq<string>, ctime: string -> real)
    : (r: Result<seq<FileAction>, SelectError>)
    ensures r.Err? <==> allFiles == []
  {
    match SelectNewFile(allFiles, ctime)
    case Err(e) => Err(e)
    case Ok(newFile) => Ok(PostConversionActions(outDir, subj, tag, DelFile(newFile)))
  }

  /** For a diffusion series, the files renamed into place are exactly those
      cleared before the converter ran; for a structural series only the
      volume is renamed into place; any other tag does nothing. */
  lemma RenamesRefillClearedOutputs(outDir: string, subj: string, tag: string, del: string)
    ensures tag == "dmri" ==>
      RenameTargets(PostConversionActions(outDir, subj, tag, del)) == set f | f in ClearedOutputs(outDir, subj, tag)
    ensures tag == "mri" ==>
      RenameTargets(PostConversionActions(outDir, subj, tag, del)) == {ClearedOutputs(outDir, subj, tag)[0]}
    ensures tag != "mri" && tag != "dmri" ==> PostConversionActions(outDir, subj, tag, del) == []
  {
    var acts := PostConversionActions(outDir, subj, tag, del);
    var cleared := ClearedOutputs(outDir, subj, tag);
    if tag == "dmri" {
      assert acts[0].dst == cleared[0] && acts[1].dst == cleared[1] && acts[2].dst == cleared[2];
      assert RenameTargets(acts) == {cleared[0], cleared[1], cleared[2]};
    } else if tag == "mri" {
      assert RenameTargets(acts) == {acts[0].dst};
    }
  }

  /** The file an action looks for. */
  function Source(a: FileAction): string
  {
    if a.RenameIfExists? then a.src else a.path
  }

  /** A name the converter may have given one of its outputs: the stem with
      a prefix `co` (cropped and reoriented), `o` (reoriented) or none, and
      a volume or gradient-table extension. */
  predicate StemVariant(name: string, del: string)
  {
    name == "co" + del + ".nii" || name == "o" + del + ".nii" || name == del + ".nii"
    || name == del + ".bval" || name == del + ".bvec"
  }

  /** Every file the plan looks for is in `outDir` and named as a variant of
      the stem. */
  lemma {:induction false} ActionSourcesAreStemVariants(outDir: string, subj: string, tag: string, del: string)
    requires '/' !in del
    ensures var acts := PostConversionActions(outDir, subj, tag, del);
            forall i :: 0 <= i < |acts| ==> StemVariant(Basename(Source(acts[i])), del)
  {
    var acts := PostConversionActions(outDir, subj, tag, del);
    var nii := del + ".nii";
    VariantHasNoSlash(nii, del);
    if tag == "mri" {
      var co, o := "co" + del + ".nii", "o" + del + ".nii";
      VariantHasNoSlash(co, del);
      VariantHasNoSlash(o, del);
      SourcesNamed(outDir, acts, [co, o, nii], del);
    } else if tag == "dmri" {
      var bval, bvec := del + ".bval", del + ".bvec";
      VariantHasNoSlash(bval, del);
      VariantHasNoSlash(bvec, del);
      SourcesNamed(outDir, acts, [nii, bval, bvec], del);
    }
  }

  /** A variant of a `/`-free stem has no `/`. */
  lemma VariantHasNoSlash(name: string, del: string)
    requires StemVariant(name, del) && '/' !in del
    ensures '/' !in name
  {
  }

  /** Actions whose sources are `names` joined to `outDir`, position by
      position, look for files with those names. */
  lemma SourcesNamed(outDir: string, acts: seq<FileAction>, names: seq<string>, del: string)
    requires |acts| == |names|
    requires forall i :: 0 <= i < |acts| ==> Source(acts[i]) == Join(outDir, names[i])
    requires forall i :: 0 <= i < |names| ==> StemVariant(names[i], del) && '/' !in names[i]
    ensures forall i :: 0 <= i < |acts| ==> Basename(Source(acts[i])) == names[i]
    ensures forall i :: 0 <= i < |acts| ==> StemVariant(Basename(Source(acts[i])), del)
  {
    forall i | 0 <= i < |acts| ensures Basename(Source(acts[i])) == names[i] {
      BasenameOfJoin(outDir, names[i]);
    }
  }
}
