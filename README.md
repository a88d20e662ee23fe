# APSS tractography pipeline: naming and selection rules, in Dafny

This project models the self-contained rules of `pipenode.py`, the module that
drives the APSS diffusion-MRI pipeline (DICOM conversion, tensor
reconstruction, EuDX tracking, and the dissimilarity preprocessing for
Tractome). Almost all of that module calls external tools or libraries. The
model covers the parts that are the module's own logic:

- **Seed-count tag** (`compute_tracking`, `tractome_preprocessing`). A seed
  count becomes `_<n><K|M>` with Python 2 integer division. Counts strictly
  between 100000 and 1000000 all become `_0K`, because the number's threshold
  (`> 10^5`) and the unit's threshold (`< 10^6`) differ. The model keeps this.
- **Writer/reader agreement**. `compute_tracking` names its `.trk` file
  `subj + ("_%d%s" % (n, u)) + suffix`. `tractome_preprocessing` rebuilds the
  name on its own with `"%s_%d%s%s" % (...)`. Both are modelled through a model
  of Python's `%` operator, and the two are proved equal for every subject,
  seed count and suffix. The `.spa` name is `splitext` of that name plus
  `.spa`, placed in the `.temp` subdirectory.
- **Length filter**. The `.trk` stream keeps, in order, the streamlines with
  `min < length < max`, with both bounds strict. The `.dpy` file gets the
  whole tracker output, unfiltered. Streamlines and their arc length are
  abstract.
- **DICOM output stem** (`dicom_to_nifti`). The converter output picked is
  `min(..., key=getctime)`: the file with the smallest ctime (the
  inode status-change time on POSIX, the creation time on Windows), and the
  first of several equal times. It fails on an empty list. Its base name is cut with
  `str.strip('co, o, .nii, .bval, .bvec')`, which removes the twelve
  characters of that string from both ends. The renames and removals are
  planned from that stem.
- **FA sanitisation** (`compute_reconstruction`). `FA[np.isnan(FA)] = 0` is
  an in-place loop over an array of `NaN | Value(real)`.

Modules: `Wrappers` (Option, Result); `PyFormat`, `PyPath`, `PyStrip` (the
Python 2 string and `os.path` behaviour the names depend on); `DicomToNifti`,
`Reconstruction`, `Tracking`, `TractomePreprocessing` (one per function of
`pipenode.py`).

Two points where the code reads differently from what its names suggest.
The model follows the code:
- Only the `.trk` output is filtered by length. The generator `strm` goes to
  `.trk`, but `.dpy` gets `[track for track in streamlines]`, the whole
  tracker output (pipenode.py:241-249).
- `new_file` reads as the newest converter output, but
  `min(all_file, key=os.path.getctime)` takes the smallest ctime
  (pipenode.py:77).

## Model

| member | source | states |
|---|---|---|
| `PyFormat.Digits` | pipenode.py:234 | the digits of a natural number: non-empty, all decimal digits, and with no leading zero except for 0 itself |
| `PyFormat.Decimal` | pipenode.py:234 | `%d` renders a non-empty string of digits, with a leading `-` exactly for negative numbers |
| `PyFormat.DecimalRoundTrip` | pipenode.py:234 | the rendered number parses back to itself, so the number in a file name is not lost |
| `PyFormat.DecimalInjective` | pipenode.py:234 | different seed-tag numbers render differently |
| `PyFormat.Format` | pipenode.py:234-235 | the `%` operator for `%s`, `%d` and `%%`; specified by `FormatLiteral`, `FormatConcat` and `FormatOne` |
| `PyFormat.FormatLiteral` | pipenode.py:234 | a format without `%` yields itself with no arguments and raises "not all arguments converted" with any |
| `PyFormat.FormatConcat` | pipenode.py:258-261 | formatting `f1 + f2` with `a1 + a2` is formatting each part and concatenating, when both parts format |
| `PyFormat.FormatOne` | pipenode.py:234-235 | a single `%s` or `%d` conversion renders its one argument |
| `PyPath.LastIndexOf` | pipenode.py:78 | `rfind`: the last occurrence of the character, or -1, with no occurrence after it |
| `PyPath.Join` | pipenode.py:243 | `os.path.join` of two components; specified by `BasenameOfJoin` and, for the tracking and `.spa` paths, by `OutputFileShape` and `PathsForShape` |
| `PyPath.Basename` | pipenode.py:78 | the base name has no `/` and is a suffix of the path |
| `PyPath.SplitExt` | pipenode.py:262 | root and extension concatenate to the path; the extension is empty or one `.` followed by no `.` or `/`; which split is made is stated by `SplitExtCuts` and `SplitExtKeeps` |
| `PyPath.SplitExtCuts` | pipenode.py:262 | when an extension is cut, some character after the last `/` and before the extension is not a `.`, so a leading-dot name such as `.temp` keeps its dot |
| `PyPath.SplitExtKeeps` | pipenode.py:262 | when nothing is cut, every `.` after the last `/` is preceded there only by dots; with the two rows above this fixes the split for every path |
| `PyPath.BasenameOfName` | pipenode.py:78 | a name without `/` is its own base name |
| `PyPath.BasenameOfJoin` | pipenode.py:243 | `basename(join(d, n)) == n` for every `n` without `/` |
| `PyPath.SplitExtOfAppend` | pipenode.py:262 | `splitext(root + ".ext") == (root, ".ext")` when `ext` has no `.` or `/` and `root` ends in neither |
| `PyStrip.StripStart` | pipenode.py:79 | the first index not in the set, with everything before it in the set |
| `PyStrip.StripEnd` | pipenode.py:79 | the end of the last character not in the set, never left of the start, with everything after it in the set |
| `PyStrip.Strip` | pipenode.py:79 | the result is empty or neither starts nor ends with a character of the set |
| `PyStrip.StripIsSlice` | pipenode.py:79 | the result is a contiguous slice of the input and what was cut on either side is made only of set characters |
| `PyStrip.StripKeepsCharacters` | pipenode.py:79 | every character of the result occurs in the input |
| `PyStrip.StripUnique` | pipenode.py:79 | any slice with those properties is the result, so `strip` is fully characterised |
| `PyStrip.StripIdempotent` | pipenode.py:79 | stripping again leaves the result unchanged |
| `DicomToNifti.EarliestIndex` | pipenode.py:77 | `min(key=ctime)` returns an index whose time is at most every other, and strictly below every earlier one (first among ties) |
| `DicomToNifti.SelectNewFile` | pipenode.py:76-77 | fails exactly on an empty listing; otherwise returns a listed file whose ctime is at most that of every listed file |
| `DicomToNifti.DelFile` | pipenode.py:78-79 | the stem has no `/` and neither starts nor ends with one of the stripped characters |
| `DicomToNifti.StripCharsAsSet` | pipenode.py:79 | the characters of the argument `'co, o, .nii, .bval, .bvec'` are exactly c, o, comma, space, dot, n, i, b, v, a, l, e |
| `DicomToNifti.DelFileStable` | pipenode.py:79 | stripping the stem again changes nothing |
| `DicomToNifti.DelFileRecoversStem` | pipenode.py:79 | for `<prefix><stem><ext>` with prefix and extension made of set characters, the stem is recovered if and only if it is empty or neither starts nor ends with a set character |
| `DicomToNifti.StemRecovered` | pipenode.py:79 | the "if" half of the previous row |
| `DicomToNifti.NoSlashInName` | pipenode.py:79 | a converter name built from set characters and a `/`-free stem has no `/` |
| `DicomToNifti.ConversionPlan` | pipenode.py:76-101 | the naming step fails exactly when the output directory has no `.nii` file |
| `DicomToNifti.ClearedOutputs` | pipenode.py:60-65 | the three outputs removed before conversion; specified by `RenamesRefillClearedOutputs` |
| `DicomToNifti.PostConversionActions` | pipenode.py:80-101 | the renames and removals after conversion; specified by `RenamesRefillClearedOutputs` and `ActionSourcesAreStemVariants` |
| `DicomToNifti.RenamesRefillClearedOutputs` | pipenode.py:60-101 | for `dmri` the rename targets are exactly the files cleared before conversion; for `mri` only the volume; other tags do nothing |
| `DicomToNifti.ActionSourcesAreStemVariants` | pipenode.py:80-101 | every file renamed or removed is named `co<stem>.nii`, `o<stem>.nii`, `<stem>.nii`, `<stem>.bval` or `<stem>.bvec` |
| `DicomToNifti.SourcesNamed` | pipenode.py:80-101 | actions whose sources are names joined to the output directory look for files whose base names are exactly those names, position by position, so each is a stem variant |
| `Reconstruction.Sanitized` | pipenode.py:194 | the value of `FA[np.isnan(FA)] = 0`, of the same length as the input; specified by `SanitizedSpec` |
| `Reconstruction.SanitizedSpec` | pipenode.py:194 | after sanitisation no entry is NaN; NaN entries become 0 and all others are unchanged |
| `Reconstruction.SanitizedIdempotent` | pipenode.py:194 | a NaN-free volume is left as it is, so sanitising twice equals sanitising once |
| `Reconstruction.SanitizeNaN` | pipenode.py:194 | the in-place update leaves the array equal to the sanitised old contents |
| `Tracking.LabelNumber` | pipenode.py:234 | the number in the tag is the floor quotient: `n * 10^6 <= seeds < (n + 1) * 10^6` above 100000 seeds, `n * 10^3 <= seeds < (n + 1) * 10^3` otherwise |
| `Tracking.LabelUnit` | pipenode.py:235 | the unit letter; specified by `SeedTagUnit` |
| `Tracking.SeedTag` | pipenode.py:234-235 | `"_%d%s" % (number, unit)`; specified by `SeedTagShape`, `SeedTagUnit` and `SeedTagNumber` |
| `Tracking.SeedTagShape` | pipenode.py:234-235 | the tag always formats, as `_`, the decimal number, then the unit |
| `Tracking.SeedTagUnit` | pipenode.py:235 | the tag ends in `K` if and only if seeds < 1000000, and in `M` if and only if seeds >= 1000000 |
| `Tracking.SeedTagNumber` | pipenode.py:234 | the number read back from the tag is `seeds div 10^6` above 100000 seeds and `seeds div 10^3` otherwise (floor division) |
| `Tracking.SeedTagCollapse` | pipenode.py:234-235 | every count strictly between 100000 and 1000000 gets the tag `_0K` |
| `Tracking.SeedTagExamples` | pipenode.py:234-235 | 100000 gives `_100K`, 500000 gives `_0K`, 2000000 gives `_2M` |
| `Tracking.OutputBasename` | pipenode.py:243 | `subj_name + seed + suffix`; specified by `OutputFileShape` and `ReaderBasenameAgrees` |
| `Tracking.TrkFile` | pipenode.py:243 | the `.trk` path; specified by `OutputFilesShareStem` and `ReaderFindsTrkFile` |
| `Tracking.DpyFile` | pipenode.py:247 | the `.dpy` path; specified by `OutputFilesShareStem` |
| `Tracking.OutputFileShape` | pipenode.py:243 | a tracking output is `<dir>/<subj><tag><suffix>` for a directory not ending in `/` and a relative subject name |
| `Tracking.OutputFilesShareStem` | pipenode.py:243-247 | the `.trk` and `.dpy` files are `<dir>/<subj><tag>` plus their own suffix |
| `Tracking.TrkStreamlines` | pipenode.py:241-242 | every streamline in the `.trk` stream has `min < length < max`, and comes from the tracker output |
| `Tracking.TrkIsSubsequence` | pipenode.py:241-242 | the `.trk` stream is an order-preserving subsequence of the tracker output |
| `Tracking.TrkCounts` | pipenode.py:241-242 | each streamline occurs in the `.trk` stream as often as in the tracker output if it is strictly within the bounds, and never otherwise |
| `Tracking.BoundsAreExcluded` | pipenode.py:241-242 | a streamline whose length equals either bound is not written to `.trk` |
| `Tracking.SaveTractography` | pipenode.py:241-249 | the `.dpy` writer gets the whole tracker output in order; the `.trk` writer gets a subsequence of it, all within the bounds |
| `TractomePreprocessing.ReaderTrkBasename` | pipenode.py:258-261 | the reader's `"%s_%d%s%s"` name; specified by `ReaderBasenameAgrees` |
| `TractomePreprocessing.SpaBasename` | pipenode.py:262 | `splitext(trk_basename)[0] + '.spa'`; specified by `SpaReplacesSuffix` |
| `TractomePreprocessing.PathsFor` | pipenode.py:263-267 | the `.trk`, `.temp` and `.spa` paths for a base name; specified by `PathsForShape` |
| `TractomePreprocessing.PreprocessingPaths` | pipenode.py:258-267 | the stage's three paths for one subject; specified by `SpaFileInTempDir` and `ReaderFindsTrkFile` |
| `TractomePreprocessing.ReaderBasenameAgrees` | pipenode.py:258-261 | the reader's `"%s_%d%s%s"` name equals the writer's `subj + tag + suffix` for every subject, seed count and suffix, and never raises |
| `TractomePreprocessing.ReaderFindsTrkFile` | pipenode.py:263 | the file the preprocessing opens is the `.trk` file the tracking stage wrote in the same directory |
| `TractomePreprocessing.SpaReplacesSuffix` | pipenode.py:262 | with a suffix `.ext`, the `.spa` name is the `.trk` name with its suffix replaced by `.spa` |
| `TractomePreprocessing.PathsForShape` | pipenode.py:262-267 | for `<stem><.ext>` in `<dir>`, the paths are `<dir>/<stem><.ext>`, `<dir>/.temp` and `<dir>/.temp/<stem>.spa` |
| `TractomePreprocessing.SpaFileInTempDir` | pipenode.py:262-267 | the dissimilarity record is written to `<dir>/.temp/<subj><tag>.spa` beside `<dir>/<subj><tag><suffix>` |

## Left out

- Every shell-command wrapper (`pipe`, `dcm2nii`, `eddy_correct`, `bet`, `brain_extraction`, `eddy_current_correction`, `flirt_registration`, `atlas_registration`): subprocess I/O and external binaries.
- The file system: the `.dcm` presence check and its `sys.exit`, the `os.path.exists` tests, the removes and renames themselves, `os.makedirs` of `.temp`. The model stops at the names and the planned actions.
- The `is not None` guard on the directories in `dicom_to_nifti`: paths are always strings here.
- `glob` and `os.path.getctime`: the `.nii` listing and each file's ctime are parameters.
- Tensor fitting, FA and colour-FA computation, eigenvector quantisation and EuDX tracking: floating-point numerics inside dipy. The tracker output is a parameter of the length filter.
- Isotropic resampling, and NIfTI, trackvis, Dpy and pickle serialisation: library code and file formats.
- `compute_dissimilarity` and `bundles_distances_mam`: that code is not part of this model.
- The `uint8` colour-FA cast: a float-to-byte conversion.
- The configuration values (`par_eudx_seeds`, the suffixes, `par_trk_min`, `par_trk_max`) come from `parameters.py`, which is not part of this model. They are parameters here. The seed count is taken to be a Python integer.
- `Tracking.SaveTractography`: the `.trk` generator and the `.dpy` list each iterate the EuDX object once. Both iterations are taken to yield the same deterministic sequence, which is the tracker output parameter.
- The bound of FA values to [0, 1] depends on dipy's floating-point FA formula and is not modelled; only the NaN replacement is.
- `Tracking.TrkStreamlines`: the `(sl, None, None)` records hold the streamline only; the two `None` fields are dropped.
- `Reconstruction.SanitizeNaN`: the FA volume is flattened to one dimension. The update is element-wise, so the shape does not matter.
- `PyFormat.Format` handles only `%s`, `%d` and `%%`, the conversions the pipeline uses. Any other conversion is reported as unsupported.
- `PyPath.Join` takes two components, the only form used here.
