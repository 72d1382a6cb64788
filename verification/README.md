# captionr caption assembly, modelled in Dafny

captionr writes a text caption next to every image of a training set. The command-line
driver (`captionr.py`) does three things before it captions anything:

- it checks the options and rejects runs that make no sense;
- it walks the given folders and queues the image files whose caption still has to be
  written;
- it computes the chunk size for a worker pool.

`Captionr.process_img` (`captionr/captionr_class.py`) then builds one caption per image,
in these steps:

1. It reads the existing caption, or derives one from the file name.
2. It walks `--model_order` over the enabled captioning backends. A caption that holds a
   fail phrase sends it to the next backend.
3. It strips a trailing period that follows whitespace.
4. It splits the caption, or CLIP's tag string, into tags.
5. It inserts the parent-folder names (`get_parent_folder`) at `--folder_tag_position`.
6. It filters the tags: the `_\(` marker, `--ignore_tags`, and with `--uniquify_tags` also
   exact and fuzzy duplicates.
7. It merges them with the existing caption according to `--existing`.
8. It produces the final text: join with `", "`, `--find`/`--replace`, `--cap_length`,
   `--append_text` and `--prepend_text`.

The model keeps the source's own form. Each loop of the source is a Dafny `method` with
its loop, proved equal to a specification function. The properties are proved as lemmas
about those functions.

Modules:

- `PyStr` and `PyPath` model the Python `str` and `os.path` operations the code relies on.
- `CaptionrConfig` is the run configuration.
- `Fallback` is the backend walk.
- `CaptionText` is the trailing-period strip and the finishing steps.
- `TagSplit`, `TagFilter` and `CaptionMerge` are the tag-list steps.
- `ParentFolder` is `get_parent_folder`.
- `Captionr` is `process_img`.
- `CaptionrMain` is the driver.

The outside world becomes inputs:

- the caption file's text;
- what each backend (and CLIP) returned for the image, or that it raised;
- the files `os.walk` reports;
- the set of paths that exist;
- `fuzz.ratio`, passed as a function;
- `str.isalpha`, passed as a function.

## Model

| member | source | states |
|---|---|---|
| ParentFolder.GetParentFolder | captionr/captionr_class.py:82-95 | the loop returns exactly `ParentFolders` of the image's directory: one name per step up, nearest first, stopping after the step whose remaining parent is the stop folder; no names for `levels <= 0` |
| ParentFolder.ParentFoldersStop | captionr/captionr_class.py:85-94 | at most `levels` names, at least one when `levels > 0`; no folder passed on the way is the stop, and a walk cut short ended at the stop |
| ParentFolder.PathStopNeverFires | captionr/captionr_class.py:91-93 | a stop that is a `pathlib.Path`, or none, never ends the walk: exactly `levels` names, the k-th being the last component of the k-th directory up, with no `/`. Only argparse makes the stop a `Path` (`type=pathlib.Path`, captionr.py:165-167); the dataclass field is merely annotated as one (captionr/captionr_class.py:46) |
| ParentFolder.WalkLength | captionr/captionr_class.py:85-94 | the number of steps is bounded by `levels`, passes no stop folder, and ends early only at one |
| ParentFolder.ParentFolders | captionr/captionr_class.py:85-94 | the walk collects at most `levels` names, none holding a `/` |
| PyPath.PathSplit | captionr/captionr_class.py:83-87 | the tail of `os.path.split` has no `/` |
| PyPath.SplitTailIsLastComponent | captionr/captionr_class.py:86-89 | the tail is a suffix of the path preceded by `/` (or the whole path): the last path component |
| PyPath.SplitHeadIsDirectory | captionr/captionr_class.py:86-87 | the head is empty without a `/`, otherwise the path up to its last `/` with trailing slashes removed unless all slashes |
| PyPath.SplitExt | captionr/captionr_class.py:104 | `splitext` splits the path into two parts whose concatenation is the path; the extension is empty or a `.` followed by no `.` or `/` |
| PyPath.PathJoin | captionr/captionr_class.py:104 | `os.path.join(a, b)` ends with `b` |
| PyPath.BasenameOfJoin | captionr/captionr_class.py:104 | joining a name without `/` onto a directory gives a path whose file name is that name |
| PyPath.SplitHeadFixed | captionr/captionr_class.py:104 | the head `split` returns is already trimmed: trimming it again changes nothing |
| PyPath.DirnameOfJoin | captionr/captionr_class.py:104 | joining a name without `/` onto a directory written as `split` writes heads gives a path whose directory is that directory |
| PyPath.RFind | captionr.py:345 | the last index of the character, or -1, and no occurrence after it |
| Captionr.CaptionFileName | captionr/captionr_class.py:104 | the caption file sits in the image's own directory (same `dirname`) and is named after the image's stem plus `.txt`/`.caption` |
| Captionr.KeepNameChars | captionr/captionr_class.py:113-116 | the filename caption uses only the stem's letters, spaces and commas and every one of them that occurs, is no longer than the stem, and equals the stem when every character qualifies |
| Captionr.KeepNameCharsOne | captionr/captionr_class.py:116 | a single character is kept exactly when it is a letter, a space or a comma |
| Captionr.KeepNameCharsAppend | captionr/captionr_class.py:116 | the filter distributes over concatenation, so the caption is the qualifying characters of the stem, each as often as it occurs, in the stem's order |
| PyPath.Stem | captionr/captionr_class.py:104 | the image's name without extension holds no `/` |
| CaptionrConfig.BackendNamed | captionr/captionr_class.py:125-165 | a `model_order` entry selects the backend with that name and nothing else; unknown entries select none |
| Fallback.ChooseCaption | captionr/captionr_class.py:123-178 | the loop gives `RawCaption`: with `flavor` and an existing caption no backend is asked; otherwise the fallback walk over `model_order` |
| Fallback.RawCaption | captionr/captionr_class.py:121-178 | a caption reported as obtained holds no fail phrase; otherwise the caption is the existing one or one that holds a fail phrase |
| Fallback.FallbackFrom | captionr/captionr_class.py:125-178 | the walk over the remaining entries: an accepted caption holds no fail phrase; without one, the result is the caption held so far or a rejected one |
| Fallback.FallbackPicksFirstAccepted | captionr/captionr_class.py:125-178 | the caption is the first one obtained without a fail phrase; when every caption has one, the last caption obtained, or the existing caption when no backend answered |
| Fallback.NoAnswerKeepsExisting | captionr/captionr_class.py:121-132 | with no enabled backend answering, the caption stays the existing one and no caption is accepted |
| Fallback.EmptyFailPhraseRejectsAll | captionr/captionr_class.py:134 | an empty fail phrase (from an empty list or a doubled comma) matches every caption, so none is accepted |
| CaptionText.StripTrailingPeriod | captionr/captionr_class.py:181-183 | the caption is unchanged, or strictly shorter and stripped |
| CaptionText.StripTrailingPeriodOnMatch | captionr/captionr_class.py:181-183 | whenever the pattern `^.+(\s+\.\s*)$` matches with its group at `p`, the result is the stripped text before `p` |
| CaptionText.StripTrailingPeriodOnlyOnMatch | captionr/captionr_class.py:181-183 | the caption changes only when the pattern matches somewhere |
| CaptionText.WordPeriodKept | captionr/captionr_class.py:181 | a period right after a non-space character is kept |
| Captionr.NoPeriodKept | captionr/captionr_class.py:181-183 | a caption not ending in whitespace or `.` is left alone |
| TagSplit.SplitAndStrip | captionr/captionr_class.py:191-195 | the loop yields the stripped comma-separated pieces, in order |
| TagSplit.SplitTagsShape | captionr/captionr_class.py:191-195 | one tag per piece, at least one, each stripped and comma-free |
| TagSplit.SplitTagsOfJoin | captionr/captionr_class.py:194-195 | splitting and stripping a `", "`-join of stripped comma-free tags gives back the tags |
| TagSplit.InsertIndex | captionr/captionr_class.py:212 | where `list.insert` puts an element: the index itself when in range, clamped otherwise |
| TagSplit.AddFolderTags | captionr/captionr_class.py:206-212 | the loop places each stripped folder tag, appending while the list is shorter than the position, inserting at the position otherwise (`PlaceAll`) |
| TagSplit.FolderTagsReversedAtPosition | captionr/captionr_class.py:208-212 | when the list already reaches the position, the folder tags land there in reverse order |
| TagSplit.FolderTagsAppendedFirst | captionr/captionr_class.py:208-212 | while the list is short, folder tags are appended; the rest go in reversed at the position |
| TagSplit.FolderTagsLayout | captionr/captionr_class.py:206-212 | for a non-negative position, the exact resulting list: tags before the position, appended folder tags, reversed remainder, tags after |
| TagSplit.FolderTagsKeepOrder | captionr/captionr_class.py:206-212 | for any position, negative included, the folder tags form one block, as a multiset exactly the folder tags, at the anchor, and the original tags keep their order around it |
| TagFilter.Clean | captionr/captionr_class.py:233 | a stored tag has no `"` and is stripped |
| TagFilter.FuzzCheck | captionr/captionr_class.py:227-231 | the inner loop keeps `should_append` exactly when no kept tag scores strictly above `--fuzz_ratio` |
| TagFilter.UniquifyTags | captionr/captionr_class.py:223-233 | the loop computes `Uniquify`: each tag is judged against the tags kept before it |
| TagFilter.PlainFilterTags | captionr/captionr_class.py:234-237 | the loop computes `PlainFilter`: tags with the marker or on the ignore list are dropped, the others stored cleaned |
| TagFilter.PlainFilter | captionr/captionr_class.py:234-237 | without uniquify, never more tags come out than go in |
| TagFilter.Uniquify | captionr/captionr_class.py:223-233 | with uniquify, never more tags come out than go in |
| TagFilter.PlainFilterIsSubsequence | captionr/captionr_class.py:234-237 | without uniquify, the result is a subsequence of the cleaned input |
| TagFilter.UniquifyIsSubsequence | captionr/captionr_class.py:223-233 | with uniquify, the result is a subsequence of the cleaned input |
| TagFilter.PlainFilterExcludes | captionr/captionr_class.py:234-237 | for quote-free tags, no kept tag holds the marker, is on the ignore list, or is unstripped |
| TagFilter.UniquifySeparates | captionr/captionr_class.py:223-233 | for quote-free tags, kept tags pass the filter, are pairwise distinct, and each later one scores at most the threshold against each earlier one |
| TagFilter.UniquifyExtends | captionr/captionr_class.py:223-233 | decisions are never revisited: the result for a prefix of the tags is a prefix of the result |
| TagFilter.UniquifySnoc | captionr/captionr_class.py:224-233 | one more tag is admitted exactly when `Admits` holds against what was kept so far |
| TagFilter.RatioAtThresholdKept | captionr/captionr_class.py:229 | a score equal to `--fuzz_ratio` does not drop a tag (the comparison is strict) |
| TagFilter.QuotedRepeatKept | captionr/captionr_class.py:225-233 | a quoted repeat of a kept tag is kept again, giving a duplicate, because membership is tested before the quotes are removed |
| TagFilter.PlainFilterKeepsCleanTags | captionr/captionr_class.py:234-237 | without uniquify, stripped quote-free unmarked non-ignored tags all pass unchanged |
| Captionr.FilterTags | captionr/captionr_class.py:216-237 | reading the ignore list then filtering gives `FilteredTags` |
| CaptionMerge.AppendStripped | captionr/captionr_class.py:245-255 | the `prepend`/`append` loop appends each stripped item unless uniquify is on and it is already there (`AppendMissing`) |
| CaptionMerge.AppendAllStripped | captionr/captionr_class.py:257-259 | the `copy` loop appends every stripped piece |
| CaptionMerge.MergeExisting | captionr/captionr_class.py:241-264 | the merge step and the removal of one empty tag give `MergedTags` |
| CaptionMerge.Merge | captionr/captionr_class.py:241-259 | `prepend` keeps the raw existing pieces at the front; `append` and `copy` keep the new tags at the front; any other policy returns the new tags |
| CaptionMerge.MergedTags | captionr/captionr_class.py:261-264 | the merged list is unchanged when it holds no `""`, and exactly one entry shorter when it does |
| CaptionMerge.FirstIndex | captionr/captionr_class.py:262 | the first index holding the value |
| CaptionMerge.RemoveFirst | captionr/captionr_class.py:261-264 | removing `""` drops its first occurrence, or nothing when absent; the multiset loses exactly that one entry |
| CaptionMerge.AppendMissingPlain | captionr/captionr_class.py:248-255 | without uniquify every item is appended |
| CaptionMerge.AppendMissingExtends | captionr/captionr_class.py:245-255 | the merge only appends: the original list is a prefix |
| CaptionMerge.AppendMissingMembers | captionr/captionr_class.py:245-255 | an entry is in the result exactly when it was in the list or among the items |
| CaptionMerge.AppendMissingNoNewDuplicates | captionr/captionr_class.py:248-255 | with uniquify, no appended entry repeats any entry before it |
| CaptionMerge.AppendMissingKeepsOrder | captionr/captionr_class.py:245-255 | the entries appended after the original list are a subsequence of the items: with uniquify, the first occurrences of the new items, in the items' order |
| CaptionMerge.PrependPlain | captionr/captionr_class.py:245-250 | `prepend` without uniquify: raw existing pieces then stripped tags |
| CaptionMerge.AppendPlain | captionr/captionr_class.py:252-255 | `append` without uniquify: tags then stripped existing pieces |
| CaptionMerge.MergeMembers | captionr/captionr_class.py:241-259 | the members of the merged list, policy by policy, both directions; other policies leave the tags unchanged |
| CaptionMerge.MergeNoNewDuplicates | captionr/captionr_class.py:245-255 | with uniquify, `prepend` and `append` bring in no duplicate past the list they start from |
| CaptionMerge.MergedTagsDropAtMostOneEmpty | captionr/captionr_class.py:261-264 | after the merge, exactly one `""` (if any) is removed and nothing else |
| CaptionText.FindReplace | captionr/captionr_class.py:270-273 | the text is unchanged unless both options are given and `find` occurs |
| CaptionText.FindReplaceIsReplace | captionr/captionr_class.py:270-273 | with both options given, the occurrence guard is redundant: the result is Python's `replace` |
| CaptionText.FindReplaceFirstOccurrence | captionr/captionr_class.py:272-273 | everything before the first occurrence is kept, it becomes `replace`, and the rest is replaced the same way |
| CaptionText.CapWordsWithinCap | captionr/captionr_class.py:276-280 | without a cap, or within it, the text comes back unchanged |
| CaptionText.CapWordsOverCap | captionr/captionr_class.py:276-280 | for a positive cap exceeded by the text, the result has exactly `cap` words, the first `cap`, the last without trailing commas |
| CaptionText.CapWordsNegative | captionr/captionr_class.py:276-280 | for a negative cap the slice `tags[0:cap]` drops the last `-cap` words; when words remain, the result has exactly those, the last without trailing commas |
| CaptionText.CapWords | captionr/captionr_class.py:276-280 | the step fails (`tags[-1]` raises on an empty list) exactly when the cap is negative and removes every word |
| CaptionText.WithAffixes | captionr/captionr_class.py:282-286 | without `--prepend_text` the result is the text followed by `--append_text` (when given); with it, exactly the stripped `--prepend_text`, one space, then that; it always ends with `--append_text` |
| CaptionText.FinishTextPlain | captionr/captionr_class.py:268-286 | with all finishing options off, the caption is the tags joined by `", "` |
| CaptionText.FinishTextWordBound | captionr/captionr_class.py:276-280 | with a positive cap and no affixes, a caption is produced and has at most `cap` space-separated words |
| CaptionText.FinishText | captionr/captionr_class.py:268-286 | the finishing steps fail exactly when a negative cap removes every word of the joined and replaced text |
| Captionr.CollectTags | captionr/captionr_class.py:186-212 | the tag list before filtering: CLIP's tags when CLIP is attached, otherwise the caption's pieces, then the folder tags |
| Captionr.ProcessImg | captionr/captionr_class.py:97-286 | `process_img` without I/O returns `AssembleCaption`: `None` when the CLIP call raised or a negative cap left no words, the caption text otherwise |
| Captionr.AssembleCaption | captionr/captionr_class.py:121-286 | a failing CLIP call gives `None`; with a non-negative cap that is the only way to get `None` |
| Captionr.NormalCaptionKeepsEnd | captionr/captionr_class.py:181-183 | a caption made of normal tags is non-empty and loses no period |
| Captionr.NormalTagsSurviveFilter | captionr/captionr_class.py:191-237 | under inert options the split and filter give back normal tags |
| Captionr.KeepingPolicyLeavesTags | captionr/captionr_class.py:241-264 | `skip`, `ignore` and `flavor` leave a tag list without `""` alone |
| Captionr.ReprocessingKeepsNormalCaption | captionr/captionr_class.py:97-286 | running the pipeline again on its own output, with no backend answering and other options off, leaves the caption unchanged |
| Captionr.JoinEndsWithLast | captionr/captionr_class.py:268 | a join ends with its last piece |
| PyStr.LStrip | captionr/captionr_class.py:286 | `lstrip` removes the leading whitespace run and nothing else |
| PyStr.RStrip | captionr/captionr_class.py:286 | `rstrip` removes the trailing whitespace run and nothing else |
| PyStr.Strip | captionr/captionr_class.py:192 | `strip` leaves a trimmed string no longer than its input |
| PyStr.StripIsMiddle | captionr/captionr_class.py:192 | `strip` keeps a contiguous middle part and removes only whitespace |
| PyStr.StripTrimmed | captionr/captionr_class.py:225 | a string is its own `strip` exactly when trimmed |
| PyStr.StripIdempotent | captionr/captionr_class.py:248-249 | `strip` twice is `strip` once |
| PyStr.StripIgnoresSpaceAround | captionr/captionr_class.py:183 | whitespace around a string does not change its `strip` |
| PyStr.StripContains | captionr/captionr_class.py:226 | what occurs in the stripped string occurs in the string |
| PyStr.Split | captionr/captionr_class.py:194 | `split` on one character gives at least one piece, none holding the separator |
| PyStr.Join | captionr/captionr_class.py:268 | a join of at least one piece starts with the first piece |
| PyStr.JoinSplit | captionr/captionr_class.py:276-280 | joining a split with its separator gives back the string |
| PyStr.SplitJoin | captionr/captionr_class.py:276-280 | splitting a join of separator-free pieces gives back the pieces |
| PyStr.ContainsOneChar | captionr/captionr_class.py:181 | a one-character substring test agrees with membership |
| PyStr.ReplaceAbsent | captionr/captionr_class.py:273 | `replace` with no occurrence changes nothing |
| PyStr.ReplaceSelf | captionr/captionr_class.py:273 | replacing a string by itself changes nothing |
| PyStr.ReplaceAtFirst | captionr/captionr_class.py:273 | the scan is left to right and non-overlapping |
| PyStr.Replace | captionr/captionr_class.py:273 | replacing by a string of the same length keeps the length |
| PyStr.RemoveAll | captionr/captionr_class.py:233 | removing `"` keeps exactly the other characters |
| PyStr.RemoveAllAppend | captionr/captionr_class.py:233 | removing a character distributes over concatenation |
| PyStr.RStripChar | captionr/captionr_class.py:279 | `rstrip(",")` removes exactly the trailing comma run |
| PyStr.AsciiUpper | captionr.py:345 | upper-casing keeps the length |
| CaptionrMain.QuestionFileCheckNeverFires | captionr.py:257-259 | as written, the question-file check never rejects, even for a missing file, while the intended check does |
| CaptionrMain.ValidationAccepts | captionr.py:254-306 | a run is accepted exactly when it names a folder, its question file (if asked for) exists, and it selects a model or keeps `--existing` off `skip`; which of the two errors a rejected modelless `skip` run gets |
| CaptionrMain.NoFlagsMeansNothingToDo | captionr.py:295-306 | the "no captioning flags" error is reported exactly for a modelless `skip` run with nothing to do |
| CaptionrMain.ValidationError | captionr.py:254-306 | the folder error exactly when no folder is given; the question-file error only when the question-file test rejects; the two model errors only for a `skip` run without a model |
| CaptionrMain.DefaultsNeedAFlag | captionr.py:55-186 | a run with only a folder and all defaults is rejected for want of captioning flags |
| CaptionrMain.PickFromFolder | captionr.py:343-352 | the inner loop queues exactly `PickFiles` of the folder, with the caption path carried over as in the source |
| CaptionrMain.SelectImages | captionr.py:341-352 | the scan queues exactly `SelectedPaths`, folder by folder in walk order |
| CaptionrMain.ImageExtLacksCaptionExt | captionr.py:345-348 | an image extension never holds `txt` or `caption`, so the caption path is always recomputed for an image |
| CaptionrMain.IsImage | captionr.py:345 | an image extension is a `.` followed by three or four characters |
| CaptionrMain.ScanCaptionFile | captionr.py:347-348 | the caption path of the scan is the image's stem with the caption extension, in the scanned root folder itself |
| CaptionrMain.PickFilesMembers | captionr.py:343-350 | a path is queued exactly when it is one of the folder's images whose caption file passes the skip test |
| CaptionrMain.PickFilesBound | captionr.py:343-350 | no more paths than files |
| CaptionrMain.PresenceOnlyMattersForSkip | captionr.py:349 | under any policy but `skip`, the queued paths do not depend on which files exist |
| CaptionrMain.DivMod | captionr.py:355 | Python's `divmod`: the quotient rounds down and the remainder has the divisor's sign |
| CaptionrMain.ChunksizeIsCeiling | captionr.py:354-358 | the chunk size is the ceiling of the length over `workers * factor` (for either sign of the divisor); a zero divisor raises |
| CaptionrMain.CalcChunksize | captionr.py:354-358 | `None` (Python raises) exactly for a zero divisor; for a positive divisor and a non-empty list, between 1 and the length |

## Left out

- Image loading, the captioning backends, CLIP and BLIP2 are not modelled. What each
  backend returned for the image (or that it raised) and what CLIP returned are inputs.
  `clip_method`, `clip_max_flavors` and the model options are therefore not modelled.
- Reading the caption file, the output directory (`--output`), writing the caption,
  `--preview` and all logging are left out. `process_img` is modelled up to the caption
  text it returns.
- The exception handler of `process_img` is modelled only for a failing CLIP call and for
  a negative `--cap_length` that removes every word, where `tags[-1]` raises on the empty
  list (the result is `None` in both cases). Backend failures are handled inside the walk. Other failures, such as
  I/O errors, are not modelled.
- Reading the BLIP2 question file is not modelled, and neither are the questions it
  would feed. That code is commented out in `process_img`.
- `os.walk` and `Path.absolute()` are inputs (`ScannedFolder`). `os.path.exists` is the
  set `present`.
- The `process_map` call is commented out in the source, so only `calc_chunksize` is
  modelled, not the worker pool. The sequential loop over the queued paths is
  `ProcessImg` applied to each path.
- `fuzz.ratio` and `str.isalpha` are parameters of the model; their definitions are not
  part of it.
- A backend named twice in `--model_order` is called twice by the source, and a second
  call may answer differently; the model gives both entries the one answer `captions[b]`
  (`Fallback.Attempt`). The second call happens only after the first was rejected or raised.
- PyStr.AsciiUpper: only ASCII letters are upper-cased. No non-ASCII character upper-cases
  to a letter of the image extensions, so the image test is unaffected.
- Options that may be `None` (`ignore_tags`, `find`, `replace`, `append_text`,
  `prepend_text`) are tested as "not `None` and not empty" at every use. `None` is
  therefore modelled as `""`.
- Lists are values. The aliasing of `new_tags` and `existing_tags` in `prepend` has no
  observable effect, because `existing_tags` is not read afterwards.
- TagFilter.UniquifySeparates: it is stated only for tags without `"`. With quotes, the
  source can keep duplicates, which `QuotedRepeatKept` exhibits.
- TagFilter.PlainFilterExcludes: it is stated only for tags without `"`. Removing quotes
  can create the `_\(` marker or an ignored tag after the test.
- The skip test in the file scan looks for the caption file in the scanned root folder,
  not in the image's own subdirectory. The model does the same (`ScanCaptionFile`).
- Two behaviours of the code worth stating:
  - A tag whose fuzzy score equals `--fuzz_ratio` is kept, because the comparison is
    strict (captionr/captionr_class.py:229), as the option's help text says: a tag is
    eliminated when it is *more than* `--fuzz_ratio` similar (captionr.py:179)
    (`RatioAtThresholdKept`).
  - `--folder_tag_stop` arrives as a `pathlib.Path` (argparse converts it), which never
    equals a string, so the stop never fires (`PathStopNeverFires`, listed under Findings).

## Findings

| source | as written | input that shows it | evidently intended | confidence | as-written member | corrected member |
|---|---|---|---|---|---|---|
| captionr.py:257-259 | `exists` and `is_file` are named but not called; a method object is always true, so the test never fires | `--use_blip2 --blip2_question_file missing.txt` for a file that does not exist: no "Question file does not exist" error; the run then fails at `open()` (captionr.py:262) with a `FileNotFoundError` traceback instead of the parser's message | reject a question file that does not exist or is not a regular file | high, not executed | CaptionrMain.QuestionFileCheckNeverFires | CaptionrMain.ValidationAccepts |
| captionr.py:165-167 | argparse converts `--folder_tag_stop` to a `pathlib.Path`, and `get_parent_folder` compares it with the string `split[0]` (captionr/captionr_class.py:91-93); a `Path` never equals a string | `--folder_tag --folder_tag_levels 3 --folder_tag_stop /data` on `/data/a/b/img.png`: the tags are `b`, `a`, `data` instead of stopping after `a` | stop at the given folder, as the option's help text says | high, not executed | ParentFolder.PathStopNeverFires | ParentFolder.ParentFoldersStop |
