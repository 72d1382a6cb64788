/**
  Filtering the tag list of one image (`unique_tags` in `Captionr.process_img`): tags holding
  the marker `_\(` or listed in `--ignore_tags` are dropped; with `--uniquify_tags` exact
  duplicates and tags too similar (by `fuzz.ratio`) to an already kept tag are dropped too.
  Every kept tag is stored with its `"` characters removed and stripped.
 */
module TagFilter {
  import opened PyStr

  /**
    The three characters `_`, `\` and `(`: the source writes `"_\("` in a plain string
    literal, where `\(` is no escape sequence and so keeps its backslash.
   */
  const BadMarker: string := ['_', '\\', '(']

  /** A similarity score as `fuzz.ratio` returns it. */
  type Percent = x: int | 0 <= x <= 100

  /** What a kept tag is stored as: its double quotes removed, then stripped. */
  function Clean(t: string): (r: string)
    ensures '"' !in r && Trimmed(r)
  {
    var u := RemoveAll(t, '"');
    assert '"' !in Strip(u) by {
      if '"' in Strip(u) { StripChars(u, '"'); }
    }
    Strip(u)
  }

  function CleanEach(tags: seq<string>): (r: seq<string>)
    ensures |r| == |tags|
    ensures forall k :: 0 <= k < |tags| ==> r[k] == Clean(tags[k])
  {
    seq(|tags|, k requires 0 <= k < |tags| => Clean(tags[k]))
  }

  /** The two tests every tag goes through: no marker, and its stripped form is not ignored. */
  predicate Passes(t: string, ignore: seq<string>) {
    !Contains(t, BadMarker) && Strip(t) !in ignore
  }

  /** The filter without `--uniquify_tags`. */
  function PlainFilter(tags: seq<string>, ignore: seq<string>): (r: seq<string>)
    ensures |r| <= |tags|
    decreases |tags|
  {
    if tags == [] then []
    else
      var prev := PlainFilter(tags[..|tags| - 1], ignore);
      var t := tags[|tags| - 1];
      if Passes(t, ignore) then prev + [Clean(t)] else prev
  }

  /** Scores of `x` against every kept tag are at most the threshold (a tie does not drop it). */
  predicate FuzzClear(kept: seq<string>, x: string, ratio: (string, string) -> Percent, threshold: real) {
    forall k :: 0 <= k < |kept| ==> ratio(kept[k], x) as real <= threshold
  }

  /** Whether `--uniquify_tags` keeps tag `t`, given the tags kept so far. */
  predicate Admits(kept: seq<string>, t: string, ignore: seq<string>, ratio: (string, string) -> Percent, threshold: real) {
    Strip(t) !in kept && Passes(t, ignore) && FuzzClear(kept, Strip(t), ratio, threshold)
  }

  /** The filter with `--uniquify_tags`: each tag is judged against the tags kept before it. */
  function Uniquify(tags: seq<string>, ignore: seq<string>, ratio: (string, string) -> Percent, threshold: real): (r: seq<string>)
    ensures |r| <= |tags|
    decreases |tags|
  {
    if tags == [] then []
    else
      var prev := Uniquify(tags[..|tags| - 1], ignore, ratio, threshold);
      var t := tags[|tags| - 1];
      if Admits(prev, t, ignore, ratio, threshold) then prev + [Clean(t)] else prev
  }

  /**
    The inner loop over the kept tags: `should_append` stays true unless some kept tag
    scores strictly above the threshold against `tstr`, and the loop stops at the first one.
   */
  method FuzzCheck(unique: seq<string>, tstr: string, ratio: (string, string) -> Percent, threshold: real)
    returns (shouldAppend: bool)
    ensures shouldAppend == FuzzClear(unique, tstr, ratio, threshold)
  {
    shouldAppend := true;
    for j := 0 to |unique|
      invariant FuzzClear(unique[..j], tstr, ratio, threshold)
    {
      if ratio(unique[j], tstr) as real > threshold {
        shouldAppend := false;
        return;
      }
    }
    assert unique[..|unique|] == unique;
  }

  /** The `--uniquify_tags` loop of the source. */
  method UniquifyTags(outTags: seq<string>, ignore: seq<string>, ratio: (string, string) -> Percent, threshold: real)
    returns (unique: seq<string>)
    ensures unique == Uniquify(outTags, ignore, ratio, threshold)
  {
    unique := [];
    for i := 0 to |outTags|
      invariant unique == Uniquify(outTags[..i], ignore, ratio, threshold)
    {
      var tag := outTags[i];
      assert outTags[..i + 1] == outTags[..i] + [tag];
      UniquifySnoc(outTags[..i], tag, ignore, ratio, threshold);
      var tstr := Strip(tag);
      var admitted := false;
      if tstr !in unique && !Contains(tag, BadMarker) && tstr !in ignore {
        admitted := FuzzCheck(unique, tstr, ratio, threshold);
      }
      assert admitted == Admits(unique, tag, ignore, ratio, threshold);
      if admitted {
        unique := unique + [Clean(tag)];
      }
    }
    assert outTags[..|outTags|] == outTags;
  }

  /** The loop of the source when `--uniquify_tags` is off. */
  method PlainFilterTags(outTags: seq<string>, ignore: seq<string>) returns (unique: seq<string>)
    ensures unique == PlainFilter(outTags, ignore)
  {
    unique := [];
    for i := 0 to |outTags|
      invariant unique == PlainFilter(outTags[..i], ignore)
    {
      assert outTags[..i + 1][..i] == outTags[..i];
      var tag := outTags[i];
      if !Contains(tag, BadMarker) && Strip(tag) !in ignore {
        unique := unique + [Clean(tag)];
      }
    }
    assert outTags[..|outTags|] == outTags;
  }

  lemma CleanEachPrefix(tags: seq<string>)
    requires tags != []
    ensures CleanEach(tags)[..|tags| - 1] == CleanEach(tags[..|tags| - 1])
  {
  }

  /** Without uniquify, the kept tags are the cleaned input tags, in their order, some left out. */
  lemma {:induction false} PlainFilterIsSubsequence(tags: seq<string>, ignore: seq<string>)
    ensures SubseqOf(PlainFilter(tags, ignore), CleanEach(tags))
    decreases |tags|
  {
    if tags != [] {
      var init := tags[..|tags| - 1];
      PlainFilterIsSubsequence(init, ignore);
      CleanEachPrefix(tags);
      var r := PlainFilter(tags, ignore);
      var prev := PlainFilter(init, ignore);
      var c := CleanEach(tags);
      if Passes(tags[|tags| - 1], ignore) {
        assert r == prev + [c[|c| - 1]];
        assert r[..|r| - 1] == prev;
      } else {
        assert r == prev;
      }
    }
  }

  /** With uniquify, the kept tags are the cleaned input tags, in their order, some left out. */
  lemma {:induction false} UniquifyIsSubsequence(tags: seq<string>, ignore: seq<string>, ratio: (string, string) -> Percent, threshold: real)
    ensures SubseqOf(Uniquify(tags, ignore, ratio, threshold), CleanEach(tags))
    decreases |tags|
  {
    if tags != [] {
      var init := tags[..|tags| - 1];
      UniquifyIsSubsequence(init, ignore, ratio, threshold);
      CleanEachPrefix(tags);
      var r := Uniquify(tags, ignore, ratio, threshold);
      var prev := Uniquify(init, ignore, ratio, threshold);
      var c := CleanEach(tags);
      if Admits(prev, tags[|tags| - 1], ignore, ratio, threshold) {
        assert r == prev + [c[|c| - 1]];
        assert r[..|r| - 1] == prev;
      } else {
        assert r == prev;
      }
    }
  }

  /** No input tag contains a double quote. */
  predicate QuoteFree(tags: seq<string>) {
    forall k :: 0 <= k < |tags| ==> '"' !in tags[k]
  }

  /** For a tag without quotes, the stored form is its stripped form. */
  lemma CleanQuoteFree(t: string)
    requires '"' !in t
    ensures Clean(t) == Strip(t)
  {
    RemoveAbsent(t, '"');
  }

  /** A kept entry `x` that came from a tag which passed the filter. */
  ghost predicate Filtered(x: string, ignore: seq<string>) {
    !Contains(x, BadMarker) && x !in ignore && Trimmed(x)
  }

  /** A tag that passes and has no quotes is stored as a string that passes too. */
  lemma PassedTagStaysFiltered(t: string, ignore: seq<string>)
    requires '"' !in t && Passes(t, ignore)
    ensures Filtered(Clean(t), ignore)
  {
    CleanQuoteFree(t);
    if Contains(Strip(t), BadMarker) { StripContains(t, BadMarker); }
  }

  ghost predicate AllFiltered(r: seq<string>, ignore: seq<string>) {
    forall k :: 0 <= k < |r| ==> Filtered(r[k], ignore)
  }

  lemma AllFilteredSnoc(r: seq<string>, x: string, ignore: seq<string>)
    requires AllFiltered(r, ignore) && Filtered(x, ignore)
    ensures AllFiltered(r + [x], ignore)
  {
    forall k | 0 <= k < |r| + 1 ensures Filtered((r + [x])[k], ignore) {
      if k < |r| { assert (r + [x])[k] == r[k]; } else { assert (r + [x])[k] == x; }
    }
  }

  /** Without uniquify and for tags without quotes: no kept tag holds the marker or is on the ignore list. */
  lemma {:induction false} PlainFilterExcludes(tags: seq<string>, ignore: seq<string>)
    requires QuoteFree(tags)
    ensures AllFiltered(PlainFilter(tags, ignore), ignore)
    decreases |tags|
  {
    if tags != [] {
      var init := tags[..|tags| - 1];
      PlainFilterExcludes(init, ignore);
      var t := tags[|tags| - 1];
      if Passes(t, ignore) {
        PassedTagStaysFiltered(t, ignore);
        AllFilteredSnoc(PlainFilter(init, ignore), Clean(t), ignore);
      }
    }
  }

  /** No two kept tags are equal, and no later one scores above the threshold against an earlier one. */
  ghost predicate Separated(r: seq<string>, ratio: (string, string) -> Percent, threshold: real) {
    forall i, j :: 0 <= i < j < |r| ==> r[i] != r[j] && ratio(r[i], r[j]) as real <= threshold
  }

  /**
    With uniquify and for tags without quotes: the kept tags pass the filter, are pairwise
    distinct, and each scores at most the threshold against every tag kept before it.
   */
  lemma {:induction false} UniquifySeparates(tags: seq<string>, ignore: seq<string>, ratio: (string, string) -> Percent, threshold: real)
    requires QuoteFree(tags)
    ensures var r := Uniquify(tags, ignore, ratio, threshold);
            AllFiltered(r, ignore) && Separated(r, ratio, threshold)
    decreases |tags|
  {
    if tags != [] {
      var init := tags[..|tags| - 1];
      UniquifySeparates(init, ignore, ratio, threshold);
      var prev := Uniquify(init, ignore, ratio, threshold);
      var t := tags[|tags| - 1];
      if Admits(prev, t, ignore, ratio, threshold) {
        PassedTagStaysFiltered(t, ignore);
        CleanQuoteFree(t);
        var r := prev + [Clean(t)];
        forall i, j | 0 <= i < j < |r|
          ensures r[i] != r[j] && ratio(r[i], r[j]) as real <= threshold
        {
          if j == |prev| {
            assert r[i] == prev[i];
          }
        }
      }
    }
  }

  /** Uniquify never revisits a decision: the result for a prefix of the tags is a prefix of the result. */
  lemma {:induction false} UniquifyExtends(tags: seq<string>, n: nat, ignore: seq<string>, ratio: (string, string) -> Percent, threshold: real)
    requires n <= |tags|
    ensures Uniquify(tags[..n], ignore, ratio, threshold) <= Uniquify(tags, ignore, ratio, threshold)
    decreases |tags|
  {
    if n < |tags| {
      var init := tags[..|tags| - 1];
      assert init[..n] == tags[..n];
      UniquifyExtends(init, n, ignore, ratio, threshold);
    } else {
      assert tags[..n] == tags;
    }
  }

  /** One more tag: it is judged against what the tags before it kept. */
  lemma UniquifySnoc(tags: seq<string>, t: string, ignore: seq<string>, ratio: (string, string) -> Percent, threshold: real)
    ensures var prev := Uniquify(tags, ignore, ratio, threshold);
            Uniquify(tags + [t], ignore, ratio, threshold)
              == if Admits(prev, t, ignore, ratio, threshold) then prev + [Clean(t)] else prev
  {
    assert (tags + [t])[..|tags|] == tags;
  }

  /** A stripped tag without quotes is stored as it is. */
  lemma CleanOfTrimmed(a: string)
    requires '"' !in a && Trimmed(a)
    ensures Clean(a) == a
  {
    StripTrimmed(a);
    CleanQuoteFree(a);
  }

  /** The first tag is kept exactly when it passes the filter. */
  lemma UniquifySingle(a: string, ignore: seq<string>, ratio: (string, string) -> Percent, threshold: real)
    ensures Uniquify([a], ignore, ratio, threshold) == if Passes(a, ignore) then [Clean(a)] else []
  {
    var e: seq<string> := [];
    UniquifySnoc(e, a, ignore, ratio, threshold);
    assert e + [a] == [a];
  }

  /** Two tags: the second is judged against what the first left. */
  lemma UniquifyPair(a: string, b: string, ignore: seq<string>, ratio: (string, string) -> Percent, threshold: real)
    ensures var p := if Passes(a, ignore) then [Clean(a)] else [];
            Uniquify([a, b], ignore, ratio, threshold)
              == if Admits(p, b, ignore, ratio, threshold) then p + [Clean(b)] else p
  {
    UniquifySingle(a, ignore, ratio, threshold);
    UniquifySnoc([a], b, ignore, ratio, threshold);
    assert [a] + [b] == [a, b];
  }

  lemma NotKeptYet(x: string, t: string)
    requires Strip(t) != x
    ensures Strip(t) !in [x]
  {
  }

  lemma FuzzClearOfOne(x: string, t: string, ratio: (string, string) -> Percent, threshold: real)
    requires ratio(x, Strip(t)) as real <= threshold
    ensures FuzzClear([x], Strip(t), ratio, threshold)
  {
  }

  lemma FuzzClearOfTrimmed(x: string, t: string, ratio: (string, string) -> Percent, threshold: real)
    requires Trimmed(t) && ratio(x, t) as real <= threshold
    ensures FuzzClear([x], Strip(t), ratio, threshold)
  {
    StripTrimmed(t);
    FuzzClearOfOne(x, t, ratio, threshold);
  }

  /**
    A score equal to `--fuzz_ratio` does not drop a tag, only a strictly greater one does:
    a second tag that passes, differs from the first one kept and scores exactly the
    threshold against it is kept too.
   */
  lemma RatioAtThresholdKept(a: string, b: string, ignore: seq<string>, ratio: (string, string) -> Percent, threshold: real)
    requires Passes(a, ignore) && Passes(b, ignore) && Strip(b) != Clean(a)
    requires ratio(Clean(a), Strip(b)) as real == threshold
    ensures Uniquify([a, b], ignore, ratio, threshold) == [Clean(a), Clean(b)]
  {
    NotKeptYet(Clean(a), b);
    FuzzClearOfOne(Clean(a), b, ratio, threshold);
    SecondKept(a, b, ignore, ratio, threshold);
  }

  /** The second of two tags is kept when the first passes and the second is admitted after it. */
  lemma SecondKept(a: string, b: string, ignore: seq<string>, ratio: (string, string) -> Percent, threshold: real)
    requires Passes(a, ignore) && Admits([Clean(a)], b, ignore, ratio, threshold)
    ensures Uniquify([a, b], ignore, ratio, threshold) == [Clean(a), Clean(b)]
  {
    UniquifyPair(a, b, ignore, ratio, threshold);
    PairConcat(Clean(a), Clean(b));
  }

  lemma PairConcat(x: string, y: string)
    ensures [x] + [y] == [x, y]
  {
  }

  /** A stored tag wrapped in double quotes. */
  function Quoted(x: string): (q: string)
    ensures |q| == |x| + 2 && q[0] == '"'
  {
    ['"'] + x + ['"']
  }

  /**
    Membership is tested on the stripped tag with its quotes, while the stored form has them
    removed: a quoted repeat of a kept tag is kept again, so the result holds a duplicate.
   */
  lemma QuotedRepeatKept(a: string, ignore: seq<string>, ratio: (string, string) -> Percent, threshold: real)
    requires Passes(a, ignore) && Passes(Quoted(Clean(a)), ignore)
    requires ratio(Clean(a), Quoted(Clean(a))) as real <= threshold
    ensures Uniquify([a, Quoted(Clean(a))], ignore, ratio, threshold) == [Clean(a), Clean(a)]
  {
    var x, q := Clean(a), Quoted(Clean(a));
    QuotedStripped(x);
    NotKeptYet(x, q);
    FuzzClearOfTrimmed(x, q, ratio, threshold);
    SecondKept(a, q, ignore, ratio, threshold);
    QuotedCleaned(x);
  }

  lemma QuotedStripped(x: string)
    ensures Strip(Quoted(x)) != x && Trimmed(Quoted(x))
  {
    var q := Quoted(x);
    assert Trimmed(q);
    StripTrimmed(q);
  }

  lemma QuotedCleaned(x: string)
    requires '"' !in x && Trimmed(x)
    ensures Clean(Quoted(x)) == x
  {
    RemoveAllAppend(['"'] + x, ['"'], '"');
    RemoveAllAppend(['"'], x, '"');
    RemoveAbsent(x, '"');
    assert RemoveAll(['"'], '"') == [];
    assert RemoveAll(Quoted(x), '"') == x;
    StripTrimmed(x);
  }

  /** Without uniquify, tags that are stripped, quote-free, unmarked and not ignored all come through unchanged. */
  lemma {:induction false} PlainFilterKeepsCleanTags(tags: seq<string>, ignore: seq<string>)
    requires forall k :: 0 <= k < |tags| ==> CleanTag(tags[k], ignore)
    ensures PlainFilter(tags, ignore) == tags
    decreases |tags|
  {
    if tags != [] {
      var n := |tags| - 1;
      var t := tags[n];
      forall k | 0 <= k < n ensures CleanTag(tags[..n][k], ignore) {
        TakeIndex(tags, n, k);
      }
      PlainFilterKeepsCleanTags(tags[..n], ignore);
      CleanQuoteFree(t);
      StripTrimmed(t);
      SnocFront(tags);
    }
  }

  /** A tag that is stripped, quote-free, unmarked and not ignored. */
  predicate CleanTag(t: string, ignore: seq<string>) {
    '"' !in t && Trimmed(t) && Passes(t, ignore)
  }
}
