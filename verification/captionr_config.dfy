/**
  The run configuration (`CaptionrConfig` and the parsed command line) as one immutable
  value. Options the source declares as possibly `None` (`ignore_tags`, `find`, `replace`,
  `append_text`, `prepend_text`) are tested everywhere as "not `None` and not `''`", so
  here `None` is written `""`.
 */
module CaptionrConfig {
  import opened Wrappers
  import opened PyStr

  /** The captioning backends that take part in `model_order`. */
  datatype Backend = Coca | Git | Blip | Flamingo

  /** The name of a backend in `model_order`. */
  function BackendName(b: Backend): string {
    match b
    case Coca => "coca"
    case Git => "git"
    case Blip => "blip"
    case Flamingo => "flamingo"
  }

  /** The backend an entry of `model_order` names, if any; unknown entries are skipped. */
  function BackendNamed(m: string): (r: Option<Backend>)
    ensures r.Some? ==> BackendName(r.value) == m
    ensures r.None? ==> forall b :: BackendName(b) != m
  {
    if m == "coca" then Some(Coca)
    else if m == "git" then Some(Git)
    else if m == "blip" then Some(Blip)
    else if m == "flamingo" then Some(Flamingo)
    else None
  }

  /** `--existing`: what to do with a caption file that is already there. */
  datatype Policy = Skip | Ignore | Copy | Prepend | Append | Flavor

  /**
    `folder_tag_stop`. The command line converts the option to a `pathlib.Path` (the
    dataclass field is only annotated with that type); a path object never compares equal
    to a `str`. A caller that stores a plain string
    gets the comparison it presumably intended.
   */
  datatype StopPath = NoStop | StopText(text: string) | StopPosixPath(path: string)

  /** `--extension`: the caption file suffix, one of `txt` and `caption`. */
  datatype CaptionExt = Txt | CaptionSuffix

  function ExtName(e: CaptionExt): string {
    match e
    case Txt => "txt"
    case CaptionSuffix => "caption"
  }

  /** A caption file name built from a name without `/` holds no `/` either. */
  lemma CaptionNameHasNoSlash(stem: string, ext: CaptionExt)
    requires '/' !in stem
    ensures '/' !in stem + "." + ExtName(ext)
  {
    var suffix := "." + ExtName(ext);
    assert '/' !in suffix;
    AbsentFromConcat(stem, suffix, '/');
    AppendAssoc(stem, ".", ExtName(ext));
  }

  /** What the file system says about `--blip2_question_file`. */
  datatype QuestionFile = QuestionFile(present: bool, regular: bool)

  datatype Config = Config(
    folders: seq<string>,
    existing: Policy,
    capLength: int,
    passes: set<Backend>,          // --coca_pass, --git_pass, --blip_pass, --flamingo_pass
    modelOrder: string,
    clipFlavor: bool,
    clipArtist: bool,
    clipMedium: bool,
    clipMovement: bool,
    clipTrending: bool,
    failPhrases: string,
    ignoreTags: string,
    find: string,
    replace: string,
    folderTag: bool,
    folderTagLevels: int,
    folderTagStop: StopPath,
    folderTagPosition: int,
    useFilename: bool,
    appendText: string,
    prependText: string,
    uniquifyTags: bool,
    extension: CaptionExt,
    fuzzRatio: real,
    useBlip2: bool,
    questionFile: Option<QuestionFile>)

  /** Some CLIP enrichment flag is set. */
  predicate AnyClip(cfg: Config) {
    cfg.clipArtist || cfg.clipFlavor || cfg.clipTrending || cfg.clipMovement || cfg.clipMedium
  }

  const DefaultFailPhrases: string := "a sign that says,writing that says,that says,with the word"

  /** The command-line defaults, for the given folders. */
  function CommandLineDefaults(folders: seq<string>): Config
  {
    Config(folders, Skip, 0, {}, "coca,git,blip", false, false, false, false, false,
           DefaultFailPhrases, "", "", "", false, 1, NoStop, 1, false, "", "", false, Txt, 60.0, false, None)
  }
}
