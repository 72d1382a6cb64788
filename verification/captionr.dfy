/**
  `Captionr`: the caption assembly of `process_img`, from the existing caption and the backends' outputs to the
  caption text that is written out.
 */
module Captionr {
  import opened Wrappers
  import opened PyStr
  import opened PyPath
  import opened CaptionrConfig
  import opened Fallback
  import opened TagSplit
  import opened TagFilter
  import opened CaptionMerge
  import opened CaptionText
  import opened ParentFolder

  // ---------------------------------------------------------------------------
  // The existing caption
  // ---------------------------------------------------------------------------

  /** The characters a caption taken from a file name keeps: letters (`isalpha`), spaces and commas. */
  predicate NameChar(c: char, isAlpha: char -> bool) {
    isAlpha(c) || c == ' ' || c == ','
  }

  /** The stem with every character other than a letter, a space or a comma dropped, in order. */
  function KeepNameChars(stem: string, isAlpha: char -> bool): (r: string)
    ensures |r| <= |stem|
    ensures forall c :: c in r <==> c in stem && NameChar(c, isAlpha)
    ensures (forall k :: 0 <= k < |stem| ==> NameChar(stem[k], isAlpha)) ==> r == stem
    decreases |stem|
  {
    if stem == [] then []
    else
      var init := stem[..|stem| - 1];
      var c := stem[|stem| - 1];
      assert stem == init + [c];
      KeepNameChars(init, isAlpha) + (if NameChar(c, isAlpha) then [c] else [])
  }

  /** The filter keeps a single character exactly when it is a name character. */
  lemma KeepNameCharsOne(c: char, isAlpha: char -> bool)
    ensures KeepNameChars([c], isAlpha) == if NameChar(c, isAlpha) then [c] else []
  {
  }

  /**
    Filtering distributes over concatenation. With `KeepNameCharsOne` this fixes the result
    completely: the qualifying characters, each as often as it occurs, in the stem's order.
   */
  lemma {:induction false} KeepNameCharsAppend(a: string, b: string, isAlpha: char -> bool)
    ensures KeepNameChars(a + b, isAlpha) == KeepNameChars(a, isAlpha) + KeepNameChars(b, isAlpha)
    decreases |b|
  {
    if b == [] {
      assert a + b == a;
    } else {
      var b' := b[..|b| - 1];
      var c := b[|b| - 1];
      var last := if NameChar(c, isAlpha) then [c] else [];
      assert (a + b)[..|a + b| - 1] == a + b';
      assert (a + b)[|a + b| - 1] == c;
      assert KeepNameChars(a + b, isAlpha) == KeepNameChars(a + b', isAlpha) + last;
      assert KeepNameChars(b, isAlpha) == KeepNameChars(b', isAlpha) + last;
      KeepNameCharsAppend(a, b', isAlpha);
      AppendAssoc(KeepNameChars(a, isAlpha), KeepNameChars(b', isAlpha), last);
    }
  }

  /** The caption taken from the file name when there is no existing caption and `--use_filename` is set. */
  function FilenameCaption(imgPath: string, isAlpha: char -> bool): string {
    KeepNameChars(Stem(imgPath), isAlpha)
  }

  /** The caption file `process_img` reads: next to the image, its stem plus `.txt` or `.caption`. */
  function CaptionFileFor(imgPath: string, ext: CaptionExt): string {
    PathJoin(Dirname(imgPath), Stem(imgPath) + "." + ExtName(ext))
  }

  /**
    The caption file sits in the image's directory and has the image's name, with the
    caption extension in place of the image's.
   */
  lemma CaptionFileName(imgPath: string, ext: CaptionExt)
    ensures Dirname(CaptionFileFor(imgPath, ext)) == Dirname(imgPath)
    ensures Basename(CaptionFileFor(imgPath, ext)) == Stem(imgPath) + "." + ExtName(ext)
  {
    var name := Stem(imgPath) + "." + ExtName(ext);
    CaptionNameHasNoSlash(Stem(imgPath), ext);
    BasenameOfJoin(Dirname(imgPath), name);
    SplitHeadFixed(imgPath);
    DirnameOfJoin(Dirname(imgPath), name);
  }

  /** The existing caption: the file's text, or else the file name when `--use_filename` is set. */
  function ExistingCaption(cfg: Config, imgPath: string, fileCaption: string, isAlpha: char -> bool): string {
    if fileCaption == "" && cfg.useFilename then FilenameCaption(imgPath, isAlpha) else fileCaption
  }

  // ---------------------------------------------------------------------------
  // process_img
  // ---------------------------------------------------------------------------

  /**
    What the CLIP interrogator does for the image: no handle is attached (no CLIP flag),
    its call raised, or it returned a comma-separated tag string.
   */
  datatype ClipResult = ClipAbsent | ClipFailed | ClipTags(tags: string)

  /** The ignore list: the stripped pieces of `--ignore_tags`, or nothing. */
  function IgnoreList(cfg: Config): seq<string> {
    if cfg.ignoreTags != "" then StripEach(Split(cfg.ignoreTags, ',')) else []
  }

  /** The tags before filtering: CLIP's tags or the caption's pieces, then the folder tags. */
  function OutTags(cfg: Config, imgPath: string, caption: string, clip: ClipResult): seq<string>
    requires !(AnyClip(cfg) && clip.ClipFailed?)
  {
    var source := if AnyClip(cfg) && clip.ClipTags? then clip.tags else caption;
    var tags := StripEach(Split(source, ','));
    if cfg.folderTag then
      var folders := ParentFolders(Dirname(imgPath), Steps(cfg.folderTagLevels), cfg.folderTagStop);
      PlaceAll(tags, StripEach(folders), cfg.folderTagPosition)
    else tags
  }

  /** The filtered tags, with or without `--uniquify_tags`. */
  function FilteredTags(cfg: Config, outTags: seq<string>, ratio: (string, string) -> Percent): seq<string> {
    if cfg.uniquifyTags then Uniquify(outTags, IgnoreList(cfg), ratio, cfg.fuzzRatio)
    else PlainFilter(outTags, IgnoreList(cfg))
  }

  /**
    The caption text `process_img` returns for one image, or `None` when the CLIP call
    raised or a negative `--cap_length` left no word (the exception is caught and logged
    for the whole image). With a cap that is not negative, only a CLIP failure loses the
    caption.
   */
  function AssembleCaption(cfg: Config, imgPath: string, fileCaption: string,
                           captions: map<Backend, Option<string>>, clip: ClipResult,
                           ratio: (string, string) -> Percent, isAlpha: char -> bool): (r: Option<string>)
    ensures AnyClip(cfg) && clip.ClipFailed? ==> r.None?
    ensures cfg.capLength >= 0 ==> (r.None? <==> AnyClip(cfg) && clip.ClipFailed?)
  {
    if AnyClip(cfg) && clip.ClipFailed? then None
    else
      var existing := ExistingCaption(cfg, imgPath, fileCaption, isAlpha);
      var caption := StripTrailingPeriod(RawCaption(cfg, captions, existing).0);
      var unique := FilteredTags(cfg, OutTags(cfg, imgPath, caption, clip), ratio);
      var tags := MergedTags(cfg.existing, unique, existing, cfg.uniquifyTags);
      FinishText(tags, cfg.find, cfg.replace, cfg.capLength, cfg.appendText, cfg.prependText)
  }

  /**
    The tags of one image before filtering: CLIP's tag string when CLIP is attached,
    otherwise the pieces of the chosen caption, with the folder tags placed among them.
   */
  method CollectTags(cfg: Config, imgPath: string, caption: string, clip: ClipResult)
    returns (outTags: seq<string>)
    requires !(AnyClip(cfg) && clip.ClipFailed?)
    ensures outTags == OutTags(cfg, imgPath, caption, clip)
  {
    if AnyClip(cfg) && clip.ClipTags? {
      outTags := SplitAndStrip(clip.tags);
    } else {
      outTags := SplitAndStrip(caption);
    }
    if cfg.folderTag {
      var folderTags := GetParentFolder(imgPath, cfg.folderTagLevels, cfg.folderTagStop);
      outTags := AddFolderTags(outTags, folderTags, cfg.folderTagPosition);
    }
  }

  /** The ignore list is read, then the tags are filtered with or without uniquify. */
  method FilterTags(cfg: Config, outTags: seq<string>, ratio: (string, string) -> Percent)
    returns (unique: seq<string>)
    ensures unique == FilteredTags(cfg, outTags, ratio)
  {
    var ignore: seq<string> := [];
    if cfg.ignoreTags != "" {
      ignore := SplitAndStrip(cfg.ignoreTags);
    }
    if cfg.uniquifyTags {
      unique := UniquifyTags(outTags, ignore, ratio, cfg.fuzzRatio);
    } else {
      unique := PlainFilterTags(outTags, ignore);
    }
  }

  /**
    `process_img` without its I/O: `fileCaption` is the text of the caption file ("" when
    there is none or it could not be read), `captions` what each attached backend returned
    for the image, `clip` what the CLIP interrogator did.
   */
  method ProcessImg(cfg: Config, imgPath: string, fileCaption: string,
                    captions: map<Backend, Option<string>>, clip: ClipResult,
                    ratio: (string, string) -> Percent, isAlpha: char -> bool)
    returns (r: Option<string>)
    ensures r == AssembleCaption(cfg, imgPath, fileCaption, captions, clip, ratio, isAlpha)
  {
    var existing := fileCaption;
    if existing == "" && cfg.useFilename {
      existing := FilenameCaption(imgPath, isAlpha);
    }
    var newCaption, gotCap := ChooseCaption(cfg, captions, existing);
    newCaption := StripTrailingPeriod(newCaption);

    if AnyClip(cfg) && clip.ClipFailed? {
      return None;
    }
    var outTags := CollectTags(cfg, imgPath, newCaption, clip);
    var unique := FilterTags(cfg, outTags, ratio);

    var tags := MergeExisting(cfg.existing, unique, existing, cfg.uniquifyTags);
    r := FinishText(tags, cfg.find, cfg.replace, cfg.capLength, cfg.appendText, cfg.prependText);
  }

  /** A caption whose last character is neither whitespace nor a period keeps its end. */
  lemma NoPeriodKept(s: string)
    requires s == [] || (!IsSpace(s[|s| - 1]) && s[|s| - 1] != '.')
    ensures StripTrailingPeriod(s) == s
  {
    if s != [] {
      RStripAt(s, |s| - 1);
      assert s[..|s|] == s;
    }
  }

  /** The options under which `process_img` only re-normalises the existing caption. */
  predicate Inert(cfg: Config) {
    && !AnyClip(cfg) && !cfg.folderTag && cfg.ignoreTags == "" && !cfg.uniquifyTags
    && cfg.existing in {Skip, Ignore, Flavor}
    && cfg.find == "" && cfg.capLength == 0 && cfg.appendText == "" && cfg.prependText == ""
  }

  /**
    Tags in the form the pipeline writes them: at least one, each non-empty, stripped, free
    of commas, quotes and the `_\(` marker, and the last one not ending in a period.
   */
  predicate NormalTags(tags: seq<string>) {
    && |tags| >= 1
    && (forall k :: 0 <= k < |tags| ==>
          tags[k] != "" && ',' !in tags[k] && '"' !in tags[k] && Trimmed(tags[k]) && Passes(tags[k], []))
    && tags[|tags| - 1][|tags[|tags| - 1]| - 1] != '.'
  }

  /** The caption text of normal tags is not empty and has no trailing period to strip. */
  lemma NormalCaptionKeepsEnd(tags: seq<string>)
    requires NormalTags(tags)
    ensures Join(tags, ", ") != "" && StripTrailingPeriod(Join(tags, ", ")) == Join(tags, ", ")
  {
    JoinEndsWithLast(tags, ", ");
    NoPeriodKept(Join(tags, ", "));
  }

  /** Under inert options, the caption text of normal tags splits and filters back to the tags. */
  lemma NormalTagsSurviveFilter(cfg: Config, imgPath: string, tags: seq<string>, clip: ClipResult,
                                ratio: (string, string) -> Percent)
    requires Inert(cfg) && NormalTags(tags)
    ensures FilteredTags(cfg, OutTags(cfg, imgPath, Join(tags, ", "), clip), ratio) == tags
  {
    SplitTagsOfJoin(tags);
    PlainFilterKeepsCleanTags(tags, []);
  }

  /** The policies other than `prepend`, `append` and `copy` leave tags without an empty one alone. */
  lemma KeepingPolicyLeavesTags(policy: Policy, tags: seq<string>, existing: string)
    requires policy in {Skip, Ignore, Flavor} && "" !in tags
    ensures MergedTags(policy, tags, existing, false) == tags
  {
  }

  /**
    Running the pipeline again over its own output changes nothing: a caption made of
    normal tags joined by `", "` comes back unchanged when no backend answers and every
    other option is off.
   */
  lemma ReprocessingKeepsNormalCaption(cfg: Config, imgPath: string, tags: seq<string>,
                                       captions: map<Backend, Option<string>>, clip: ClipResult,
                                       ratio: (string, string) -> Percent, isAlpha: char -> bool)
    requires Inert(cfg) && NormalTags(tags)
    requires Attempts(cfg, captions, Split(cfg.modelOrder, ',')) == []
    ensures AssembleCaption(cfg, imgPath, Join(tags, ", "), captions, clip, ratio, isAlpha)
              == Some(Join(tags, ", "))
  {
    var text := Join(tags, ", ");
    NormalCaptionKeepsEnd(tags);
    assert ExistingCaption(cfg, imgPath, text, isAlpha) == text;
    NoAnswerKeepsExisting(cfg, captions, text);
    NormalTagsSurviveFilter(cfg, imgPath, tags, clip, ratio);
    KeepingPolicyLeavesTags(cfg.existing, tags, text);
    FinishTextPlain(tags);
  }

  /** A join ends with its last piece. */
  lemma {:induction false} JoinEndsWithLast(parts: seq<string>, sep: string)
    requires |parts| >= 1
    ensures var j := Join(parts, sep); var last := parts[|parts| - 1];
            |last| <= |j| && j[|j| - |last|..] == last
    decreases |parts|
  {
    if |parts| > 1 {
      JoinEndsWithLast(parts[1..], sep);
      var rest := Join(parts[1..], sep);
      assert Join(parts, sep) == (parts[0] + sep) + rest;
    }
  }
}
