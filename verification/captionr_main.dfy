/**
  The command-line driver of `captionr.py`: the startup checks that reject a run, the
  choice of the image files to caption, and the chunk size for the worker pool.
 */
module CaptionrMain {
  import opened Wrappers
  import opened PyStr
  import opened PyPath
  import opened CaptionrConfig

  // ---------------------------------------------------------------------------
  // Startup checks
  // ---------------------------------------------------------------------------

  /** The errors `parser.error` reports before any model is loaded. */
  datatype StartupError = FolderRequired | QuestionFileMissing | SkipNeedsModel | NoCaptioningFlags

  /** No captioning backend and no CLIP flag is selected. */
  predicate NoModel(cfg: Config) {
    cfg.passes == {} && !AnyClip(cfg)
  }

  /** Something to do without a model: find and replace, folder tags, or text to add. */
  predicate WorkFlags(cfg: Config) {
    (cfg.find != "" && cfg.replace != "") || cfg.folderTag || cfg.prependText != "" || cfg.appendText != ""
  }

  /**
    A Python value whose truth is tested: a boolean, or a method object that was named but
    not called (always true).
   */
  datatype PyValue = PyBool(b: bool) | BoundMethod

  predicate Truthy(v: PyValue) {
    v.BoundMethod? || v.b
  }

  /**
    The question-file check as written: `exists` and `is_file` are named, not called, so the
    values tested are method objects.
   */
  predicate QuestionFileRejectedAsWritten(cfg: Config) {
    cfg.useBlip2 && cfg.questionFile.Some? && (!Truthy(BoundMethod) || !Truthy(BoundMethod))
  }

  /** The question-file check as intended: the file must exist and be a regular file. */
  predicate QuestionFileRejected(cfg: Config) {
    cfg.useBlip2 && cfg.questionFile.Some?
    && (!Truthy(PyBool(cfg.questionFile.value.present)) || !Truthy(PyBool(cfg.questionFile.value.regular)))
  }

  /** The check as written never rejects anything, even a question file that does not exist. */
  lemma QuestionFileCheckNeverFires(cfg: Config)
    ensures !QuestionFileRejectedAsWritten(cfg)
    ensures var missing := cfg.(useBlip2 := true, questionFile := Some(QuestionFile(false, false)));
            QuestionFileRejected(missing) && !QuestionFileRejectedAsWritten(missing)
  {
  }

  /** The first startup error, in the order the checks run, or `None` when the run may go on. */
  function ValidationError(cfg: Config): (r: Option<StartupError>)
    ensures r == Some(FolderRequired) <==> |cfg.folders| == 0
    ensures r == Some(QuestionFileMissing) ==> QuestionFileRejected(cfg)
    ensures r == Some(SkipNeedsModel) || r == Some(NoCaptioningFlags) ==> NoModel(cfg) && cfg.existing == Skip
  {
    if |cfg.folders| == 0 then Some(FolderRequired)
    else if QuestionFileRejected(cfg) then Some(QuestionFileMissing)
    else if NoModel(cfg) && cfg.existing == Skip && WorkFlags(cfg) then Some(SkipNeedsModel)
    else if NoModel(cfg) && cfg.existing == Skip then Some(NoCaptioningFlags)
    else None
  }

  /**
    A run is accepted exactly when it names a folder, its question file (if BLIP2 asks for
    one) exists as a file, and it either selects a model or keeps `--existing` off `skip`.
    Without a model, `skip` is always rejected: with something to do it needs a model, and
    with nothing to do there are no captioning flags.
   */
  lemma ValidationAccepts(cfg: Config)
    ensures ValidationError(cfg) == None
        <==> |cfg.folders| > 0 && !QuestionFileRejected(cfg) && (!NoModel(cfg) || cfg.existing != Skip)
    ensures |cfg.folders| > 0 && !QuestionFileRejected(cfg) && NoModel(cfg) && cfg.existing == Skip ==>
              ValidationError(cfg) == Some(if WorkFlags(cfg) then SkipNeedsModel else NoCaptioningFlags)
  {
  }

  /** The "no captioning flags" error is reported exactly for a run that has nothing at all to do. */
  lemma NoFlagsMeansNothingToDo(cfg: Config)
    requires |cfg.folders| > 0 && !QuestionFileRejected(cfg)
    ensures ValidationError(cfg) == Some(NoCaptioningFlags) <==> NoModel(cfg) && cfg.existing == Skip && !WorkFlags(cfg)
  {
  }

  /** Naming only a folder, with every option at its default, is rejected for want of captioning flags. */
  lemma DefaultsNeedAFlag(folders: seq<string>)
    requires |folders| > 0
    ensures ValidationError(CommandLineDefaults(folders)) == Some(NoCaptioningFlags)
  {
  }

  // ---------------------------------------------------------------------------
  // Choosing the images
  // ---------------------------------------------------------------------------

  /** One file `os.walk` reports: the directory it is in and its name. */
  datatype WalkEntry = WalkEntry(root: string, name: string)

  /** One folder of the command line: its absolute path and the files found below it, in walk order. */
  datatype ScannedFolder = ScannedFolder(absolute: string, files: seq<WalkEntry>)

  /** The image extensions, upper-cased. */
  const ImageExts: seq<string> := [".JPEG", ".JPG", ".JPE", ".PNG", ".WEBP"]

  /** The extension of a file name, dot included. */
  function FileExt(name: string): string {
    SplitExt(Basename(name)).1
  }

  /** A file is an image when its upper-cased extension is one of the image extensions. */
  predicate IsImage(name: string)
    ensures IsImage(name) ==> 4 <= |FileExt(name)| <= 5 && FileExt(name)[0] == '.'
  {
    AsciiUpper(FileExt(name)) in ImageExts
  }

  /** The caption file the skip test looks at: the image's stem with the caption extension, in the scanned folder. */
  function ScanCaptionFile(absolute: string, name: string, ext: CaptionExt): (r: string)
    ensures Basename(r) == Stem(name) + "." + ExtName(ext)
    ensures SplitHead(absolute) == absolute ==> Dirname(r) == absolute
  {
    var file := Stem(name) + "." + ExtName(ext);
    CaptionNameHasNoSlash(Stem(name), ext);
    BasenameOfJoin(absolute, file);
    assert SplitHead(absolute) == absolute ==> Dirname(PathJoin(absolute, file)) == absolute by {
      if SplitHead(absolute) == absolute {
        DirnameOfJoin(absolute, file);
      }
    }
    PathJoin(absolute, file)
  }

  /** An image is queued unless `--existing=skip` and its caption file exists. */
  predicate Queued(policy: Policy, capFile: string, present: set<string>) {
    policy != Skip || capFile !in present
  }

  predicate Picked(cfg: Config, absolute: string, e: WalkEntry, present: set<string>) {
    IsImage(e.name) && Queued(cfg.existing, ScanCaptionFile(absolute, e.name, cfg.extension), present)
  }

  /** The paths queued from the files of one folder, in walk order. */
  function PickFiles(cfg: Config, absolute: string, files: seq<WalkEntry>, present: set<string>): seq<string>
    decreases |files|
  {
    if files == [] then []
    else
      var e := files[|files| - 1];
      PickFiles(cfg, absolute, files[..|files| - 1], present)
        + (if Picked(cfg, absolute, e, present) then [PathJoin(e.root, e.name)] else [])
  }

  /** The paths queued from all folders, folder by folder. */
  function SelectedPaths(cfg: Config, scans: seq<ScannedFolder>, present: set<string>): seq<string>
    decreases |scans|
  {
    if scans == [] then []
    else
      var f := scans[|scans| - 1];
      SelectedPaths(cfg, scans[..|scans| - 1], present) + PickFiles(cfg, f.absolute, f.files, present)
  }

  /** One more file of a folder is judged. */
  lemma PickFilesSnoc(cfg: Config, absolute: string, files: seq<WalkEntry>, j: nat, present: set<string>)
    requires j < |files|
    ensures var e := files[j];
            PickFiles(cfg, absolute, files[..j + 1], present)
              == PickFiles(cfg, absolute, files[..j], present)
                 + (if Picked(cfg, absolute, e, present) then [PathJoin(e.root, e.name)] else [])
  {
    assert files[..j + 1][..j] == files[..j];
  }

  /** One more folder is scanned. */
  lemma SelectedPathsSnoc(cfg: Config, scans: seq<ScannedFolder>, i: nat, present: set<string>)
    requires i < |scans|
    ensures SelectedPaths(cfg, scans[..i + 1], present)
              == SelectedPaths(cfg, scans[..i], present) + PickFiles(cfg, scans[i].absolute, scans[i].files, present)
  {
    assert scans[..i + 1][..i] == scans[..i];
  }

  /**
    The inner loop of the scan, over the files of one folder. The caption-file path is only
    assigned when the caption extension does not occur in the file's extension, which holds
    for every image.
   */
  method PickFromFolder(cfg: Config, folder: ScannedFolder, present: set<string>) returns (picked: seq<string>)
    ensures picked == PickFiles(cfg, folder.absolute, folder.files, present)
  {
    picked := [];
    var capFile := "";
    for j := 0 to |folder.files|
      invariant picked == PickFiles(cfg, folder.absolute, folder.files[..j], present)
    {
      var e := folder.files[j];
      PickFilesSnoc(cfg, folder.absolute, folder.files, j, present);
      var ext := FileExt(e.name);
      if AsciiUpper(ext) !in ImageExts {
        continue;
      }
      ImageExtLacksCaptionExt(e.name, cfg.extension);
      if !Contains(ext, ExtName(cfg.extension)) {
        capFile := PathJoin(folder.absolute, Stem(e.name) + "." + ExtName(cfg.extension));
      }
      if cfg.existing != Skip || capFile !in present {
        picked := picked + [PathJoin(e.root, e.name)];
      }
    }
    assert folder.files[..|folder.files|] == folder.files;
  }

  /** The scan of `captionr.py`, folder by folder; `present` is the set of paths that exist. */
  method SelectImages(cfg: Config, scans: seq<ScannedFolder>, present: set<string>) returns (paths: seq<string>)
    ensures paths == SelectedPaths(cfg, scans, present)
  {
    paths := [];
    for i := 0 to |scans|
      invariant paths == SelectedPaths(cfg, scans[..i], present)
    {
      var picked := PickFromFolder(cfg, scans[i], present);
      SelectedPathsSnoc(cfg, scans, i, present);
      paths := paths + picked;
    }
    assert scans[..|scans|] == scans;
  }

  /** A string that holds `sub` is at least as long and holds each character of `sub`. */
  lemma ContainsChars(s: string, sub: string)
    requires Contains(s, sub)
    ensures |sub| <= |s| && forall c :: c in sub ==> c in s
  {
    ContainsWitness(s, sub);
    var i :| 0 <= i <= |s| && sub <= s[i..];
    forall c | c in sub ensures c in s {
      var k :| 0 <= k < |sub| && sub[k] == c;
      assert s[i + k] == c;
    }
  }

  /** Upper-casing turns an `x` into an `X`. */
  lemma UpperOfLowerX(x: string, k: nat)
    requires k < |x| && x[k] == 'x'
    ensures 'X' in AsciiUpper(x)
  {
    assert AsciiUpper(x)[k] == 'X';
  }

  /**
    The caption extension never occurs in an image extension, so the guard before the
    caption-file path always holds for an image.
   */
  lemma ImageExtLacksCaptionExt(name: string, ext: CaptionExt)
    requires IsImage(name)
    ensures !Contains(FileExt(name), ExtName(ext))
  {
    var x := FileExt(name);
    if Contains(x, ExtName(ext)) {
      ContainsChars(x, ExtName(ext));
      if ext == Txt {
        assert 'x' in ExtName(ext);
        var k :| 0 <= k < |x| && x[k] == 'x';
        UpperOfLowerX(x, k);
        assert false;
      } else {
        assert false;
      }
    }
  }

  /** The images `f` of the entries that `keep` admits, in order. */
  function FilterMap<T, U>(keep: T -> bool, f: T -> U, xs: seq<T>): seq<U>
    decreases |xs|
  {
    if xs == [] then []
    else FilterMap(keep, f, xs[..|xs| - 1]) + (if keep(xs[|xs| - 1]) then [f(xs[|xs| - 1])] else [])
  }

  /** A value is among the results exactly when it is the image of an admitted entry. */
  lemma {:induction false} FilterMapMembers<T, U>(keep: T -> bool, f: T -> U, xs: seq<T>, y: U)
    ensures y in FilterMap(keep, f, xs) <==> exists k :: 0 <= k < |xs| && keep(xs[k]) && y == f(xs[k])
    decreases |xs|
  {
    if xs != [] {
      var n := |xs| - 1;
      var init := xs[..n];
      var last: seq<U> := if keep(xs[n]) then [f(xs[n])] else [];
      assert FilterMap(keep, f, xs) == FilterMap(keep, f, init) + last;
      FilterMapMembers(keep, f, init, y);
      if y in FilterMap(keep, f, init) {
        var k :| 0 <= k < |init| && keep(init[k]) && y == f(init[k]);
        assert xs[k] == init[k];
      } else if y in last {
        assert keep(xs[n]) && y == f(xs[n]);
      }
      if exists k :: 0 <= k < |xs| && keep(xs[k]) && y == f(xs[k]) {
        var k :| 0 <= k < |xs| && keep(xs[k]) && y == f(xs[k]);
        if k < n {
          assert init[k] == xs[k];
        }
      }
    }
  }

  /** The queued paths of a folder: the paths of its entries that `Picked` admits. */
  lemma {:induction false} PickFilesIsFilterMap(cfg: Config, absolute: string, files: seq<WalkEntry>, present: set<string>)
    ensures PickFiles(cfg, absolute, files, present)
              == FilterMap((e: WalkEntry) => Picked(cfg, absolute, e, present), (e: WalkEntry) => PathJoin(e.root, e.name), files)
    decreases |files|
  {
    if files != [] {
      PickFilesIsFilterMap(cfg, absolute, files[..|files| - 1], present);
    }
  }

  /**
    A path is queued from a folder exactly when it is the path of one of the folder's
    images whose caption file passes the skip test.
   */
  lemma PickFilesMembers(cfg: Config, absolute: string, files: seq<WalkEntry>, present: set<string>, p: string)
    ensures p in PickFiles(cfg, absolute, files, present)
        <==> exists k :: 0 <= k < |files| && Picked(cfg, absolute, files[k], present)
                         && p == PathJoin(files[k].root, files[k].name)
  {
    var keep := (e: WalkEntry) => Picked(cfg, absolute, e, present);
    var path := (e: WalkEntry) => PathJoin(e.root, e.name);
    PickFilesIsFilterMap(cfg, absolute, files, present);
    FilterMapMembers(keep, path, files, p);
  }

  /** The paths queued from a folder are never more than its files. */
  lemma {:induction false} PickFilesBound(cfg: Config, absolute: string, files: seq<WalkEntry>, present: set<string>)
    ensures |PickFiles(cfg, absolute, files, present)| <= |files|
    decreases |files|
  {
    if files != [] {
      PickFilesBound(cfg, absolute, files[..|files| - 1], present);
    }
  }

  /**
    Only `--existing=skip` looks at the file system: under any other policy the queued
    paths do not depend on which files exist.
   */
  lemma {:induction false} PresenceOnlyMattersForSkip(cfg: Config, scans: seq<ScannedFolder>,
                                                      present: set<string>, present': set<string>)
    requires cfg.existing != Skip
    ensures SelectedPaths(cfg, scans, present) == SelectedPaths(cfg, scans, present')
    decreases |scans|
  {
    if scans != [] {
      PresenceOnlyMattersForSkip(cfg, scans[..|scans| - 1], present, present');
      var f := scans[|scans| - 1];
      PickFilesIgnorePresence(cfg, f.absolute, f.files, present, present');
    }
  }

  lemma {:induction false} PickFilesIgnorePresence(cfg: Config, absolute: string, files: seq<WalkEntry>,
                                                   present: set<string>, present': set<string>)
    requires cfg.existing != Skip
    ensures PickFiles(cfg, absolute, files, present) == PickFiles(cfg, absolute, files, present')
    decreases |files|
  {
    if files != [] {
      PickFilesIgnorePresence(cfg, absolute, files[..|files| - 1], present, present');
    }
  }

  // ---------------------------------------------------------------------------
  // Chunk size
  // ---------------------------------------------------------------------------

  /** Python's `divmod` on integers: the quotient is rounded down, the remainder takes the divisor's sign. */
  function DivMod(a: int, b: int): (r: (int, int))
    requires b != 0
    ensures a == b * r.0 + r.1
    ensures b > 0 ==> 0 <= r.1 < b
    ensures b < 0 ==> b < r.1 <= 0
  {
    var q := if b > 0 then a / b else (-a) / (-b);
    (q, a - b * q)
  }

  /** For a positive divisor, the rounded-down quotient of a positive number lies between 0 and it. */
  lemma QuotientBounds(len: int, d: int, q: int, e: int)
    requires 0 < len && 0 < d && len == d * q + e && 0 <= e < d
    ensures 0 <= q <= len && (e != 0 ==> q < len)
  {
    PositiveFactor(d, q + 1);
    NonNegativeProduct(d - 1, q);
  }

  lemma PositiveFactor(d: int, x: int)
    requires d > 0 && d * x > 0
    ensures x > 0
  {
  }

  lemma NonNegativeProduct(a: int, b: int)
    requires a >= 0 && b >= 0
    ensures a * b >= 0
  {
  }

  /**
    `calc_chunksize`: `len / (workers * factor)` rounded up, or `None` where Python raises
    `ZeroDivisionError`.
   */
  function CalcChunksize(workers: int, len: nat, factor: int): (r: Option<int>)
    ensures r.None? <==> workers * factor == 0
    ensures workers * factor > 0 ==> r.Some? && (len > 0 ==> 1 <= r.value <= len)
  {
    var d := workers * factor;
    if d == 0 then None
    else
      var (chunk, extra) := DivMod(len, d);
      assert d > 0 && len > 0 ==> 0 <= chunk && (extra != 0 ==> chunk < len) && chunk <= len by {
        if d > 0 && len > 0 {
          QuotientBounds(len, d, chunk, extra);
        }
      }
      Some(if extra != 0 then chunk + 1 else chunk)
  }

  /**
    The chunk size is the ceiling of `len / (workers * factor)`, whatever the divisor's sign:
    the smallest `c` with `c * d >= len` for a positive `d`, the largest with `c * d <= len`
    for a negative one. A zero divisor gives `None`.
   */
  lemma ChunksizeIsCeiling(workers: int, len: nat, factor: int)
    ensures var d := workers * factor;
            var r := CalcChunksize(workers, len, factor);
            && (d == 0 <==> r.None?)
            && (d > 0 ==> r.Some? && r.value * d >= len && (r.value - 1) * d < len && (len == 0 ==> r.value == 0))
            && (d < 0 ==> r.Some? && r.value * d <= len && (r.value - 1) * d > len)
  {
    var d := workers * factor;
    if d != 0 {
      var (q, e) := DivMod(len, d);
      var c := if e != 0 then q + 1 else q;
      if d > 0 {
        assert (c - 1) * d == c * d - d;
      } else {
        assert (c - 1) * d == c * d - d;
      }
    }
  }
}
