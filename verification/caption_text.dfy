/**
  The string steps of `Captionr.process_img` that work on whole captions: removing a
  trailing period that follows whitespace, and finishing the caption text from the merged
  tag list (join, find/replace, word cap, appended and prepended text).
 */
module CaptionText {
  import opened Wrappers
  import opened PyStr

  // ---------------------------------------------------------------------------
  // The trailing-period strip: the caption is matched against the pattern `^.+(\s+\.\s*)$`;
  // on a match it loses the matched group and is stripped.
  // ---------------------------------------------------------------------------

  /**
    The pattern, read off directly: the group starts at `p` and its period is at `d`. The
    `.+` before it needs at least one character and matches no newline; `\s` is whitespace
    as `str.isspace` has it; the trailing `\s*` reaches the end of the string (it also
    takes the final newline that `$` could stop before).
   */
  ghost predicate PeriodGroupAt(s: string, p: nat, d: nat) {
    && 1 <= p < d < |s|
    && '\n' !in s[..p]
    && AllSpace(s[p..d])
    && s[d] == '.'
    && AllSpace(s[d + 1..])
  }

  /**
    The strip, computed without a regular expression: the period must be the last
    non-whitespace character and be preceded by whitespace. `.+` backtracks to the longest
    prefix it can take, so the caption becomes the stripped text before that whitespace.
    The match fails when the text before the whitespace holds a newline, or, when there is
    no such text, when the caption starts with a newline or has only one whitespace
    character before the period.
   */
  function StripTrailingPeriod(s: string): (r: string)
    ensures r == s || (|r| < |s| && Trimmed(r))
  {
    var t := RStrip(s);
    if t == [] || t[|t| - 1] != '.' then s
    else BeforePeriod(t[..|t| - 1], s)
  }

  /** The strip once the period is found: `x` is the caption up to that period. */
  function BeforePeriod(x: string, s: string): (r: string)
    requires |x| < |s|
    ensures r == s || (|r| < |s| && Trimmed(r))
  {
    var before := RStrip(x);
    if |before| == |x| then s
    else if |before| >= 1 then
      if Contains(before, "\n") then s else Strip(before)
    else if |x| >= 2 && x[0] != '\n' then ""
    else s
  }

  /** `RStrip` stops at the last non-whitespace character. */
  lemma RStripAt(s: string, k: nat)
    requires k < |s| && !IsSpace(s[k]) && AllSpace(s[k + 1..])
    ensures RStrip(s) == s[..k + 1]
  {
  }

  /** Whitespace at the end of a string is all `RStrip` can take away. */
  lemma RStripWithin(s: string, p: nat)
    requires p <= |s| && AllSpace(s[p..])
    ensures |RStrip(s)| <= p
  {
  }

  /** A string of whitespace strips to nothing. */
  lemma StripAllSpace(w: string)
    requires AllSpace(w)
    ensures Strip(w) == ""
  {
    StripIgnoresSpaceAround(w, "", "");
    assert w + "" + "" == w;
  }

  /** Trailing whitespace does not change `strip()`. */
  lemma StripDropsSpaceTail(u: string, q: nat)
    requires q <= |u| && AllSpace(u[q..])
    ensures Strip(u) == Strip(u[..q])
  {
    assert "" + u[..q] + u[q..] == u;
    StripIgnoresSpaceAround("", u[..q], u[q..]);
  }

  /** When the pattern matches, the caption becomes the stripped text before the group. */
  lemma StripTrailingPeriodOnMatch(s: string, p: nat, d: nat)
    requires PeriodGroupAt(s, p, d)
    ensures StripTrailingPeriod(s) == Strip(s[..p])
  {
    PeriodIsLast(s, d);
    SliceOfPrefix(s, d, p);
    BeforePeriodOnSpaceRun(s[..d], s, p);
  }

  /** A period followed only by whitespace is the one the strip looks behind. */
  lemma PeriodIsLast(s: string, d: nat)
    requires d < |s| && s[d] == '.' && AllSpace(s[d + 1..])
    ensures StripTrailingPeriod(s) == BeforePeriod(s[..d], s)
  {
    var t := RStrip(s);
    RStripAt(s, d);
    SliceOfPrefix(s, d + 1, d);
    assert t[..|t| - 1] == s[..d];
  }

  lemma SliceOfPrefix(s: string, d: nat, p: nat)
    requires p <= d <= |s|
    ensures s[..d][..p] == s[..p] && s[..d][p..] == s[p..d]
  {
  }

  /** Text before the period that ends in whitespace from `p` on, with no newline before `p`. */
  lemma BeforePeriodOnSpaceRun(x: string, s: string, p: nat)
    requires 1 <= p < |x| < |s| && '\n' !in x[..p] && AllSpace(x[p..])
    ensures BeforePeriod(x, s) == Strip(x[..p])
  {
    RStripWithin(x, p);
    var q := |RStrip(x)|;
    SliceOfPrefix(x, p, q);
    assert AllSpace(x[q..p]) by {
      forall k | 0 <= k < p - q ensures IsSpace(x[q..p][k]) {
        assert x[q..p][k] == x[q + k];
      }
    }
    StripDropsSpaceTail(x[..p], q);
    if q >= 1 {
      BeforePeriodText(x, s, p, q);
    } else {
      BeforePeriodBlank(x, s, p);
    }
  }

  lemma BeforePeriodText(x: string, s: string, p: nat, q: nat)
    requires 1 <= q <= p < |x| < |s| && q == |RStrip(x)| && '\n' !in x[..p]
    ensures BeforePeriod(x, s) == Strip(x[..q])
  {
    assert '\n' !in RStrip(x) by {
      forall k | 0 <= k < q ensures RStrip(x)[k] != '\n' { assert x[..p][k] == x[k]; }
    }
    ContainsOneChar(RStrip(x), '\n');
  }

  lemma BeforePeriodBlank(x: string, s: string, p: nat)
    requires 1 <= p < |x| < |s| && |RStrip(x)| == 0 && '\n' !in x[..p]
    ensures BeforePeriod(x, s) == "" && Strip(x[..p]) == ""
  {
    assert x[..p][0] == x[0];
    assert AllSpace(x[..p]) by {
      forall k | 0 <= k < p ensures IsSpace(x[..p][k]) { assert x[..p][k] == x[k]; }
    }
    StripAllSpace(x[..p]);
  }

  /** When the caption is changed, the pattern matched. */
  lemma StripTrailingPeriodOnlyOnMatch(s: string)
    requires StripTrailingPeriod(s) != s
    ensures exists p, d :: PeriodGroupAt(s, p, d)
  {
    PeriodLast(s);
    var t := RStrip(s);
    BeforePeriodChanged(t[..|t| - 1], s);
    var d := PeriodFound(s);
    var p := GroupStart(s, d);
  }

  /** The last non-whitespace character, a period, and the text before it. */
  lemma PeriodFound(s: string) returns (d: nat)
    requires var t := RStrip(s); t != [] && t[|t| - 1] == '.'
    requires var t := RStrip(s); var x := t[..|t| - 1]; var q := |RStrip(x)|;
             && q < |x|
             && (q >= 1 ==> '\n' !in RStrip(x))
             && (q == 0 ==> |x| >= 2 && x[0] != '\n')
    ensures d < |s| && s[d] == '.' && AllSpace(s[d + 1..])
    ensures var x := s[..d]; var q := |RStrip(x)|;
            && q < |x|
            && (q >= 1 ==> '\n' !in RStrip(x))
            && (q == 0 ==> |x| >= 2 && x[0] != '\n')
  {
    var t := RStrip(s);
    d := |t| - 1;
    SliceOfPrefix(s, |t|, d);
    assert t[..d] == s[..d];
    SpaceRun(s, d + 1, |s|);
  }

  /** The period `StripTrailingPeriod` looks behind is the last non-whitespace character. */
  lemma PeriodLast(s: string)
    requires StripTrailingPeriod(s) != s
    ensures var t := RStrip(s);
            t != [] && t[|t| - 1] == '.' && BeforePeriod(t[..|t| - 1], s) != s
  {
  }

  /** Where the group starts, once the text before the period is known to be changed. */
  lemma GroupStart(s: string, d: nat) returns (p: nat)
    requires d < |s| && s[d] == '.' && AllSpace(s[d + 1..])
    requires var x := s[..d]; var q := |RStrip(x)|;
             && q < |x|
             && (q >= 1 ==> '\n' !in RStrip(x))
             && (q == 0 ==> |x| >= 2 && x[0] != '\n')
    ensures PeriodGroupAt(s, p, d)
  {
    var x := s[..d];
    var q := |RStrip(x)|;
    SliceOfPrefix(s, d, q);
    if q >= 1 {
      SpaceRun(s, q, d);
      assert RStrip(x) == s[..q];
      p := q;
    } else {
      SpaceRun(s, 1, d);
      assert s[..1] == [x[0]];
      p := 1;
    }
  }

  /** What `BeforePeriod` needs in order to change the caption. */
  lemma BeforePeriodChanged(x: string, s: string)
    requires |x| < |s| && BeforePeriod(x, s) != s
    ensures var q := |RStrip(x)|;
            && q < |x|
            && (q >= 1 ==> '\n' !in RStrip(x))
            && (q == 0 ==> |x| >= 2 && x[0] != '\n')
  {
    ContainsOneChar(RStrip(x), '\n');
  }

  /** A run of whitespace characters makes a whitespace slice. */
  lemma SpaceRun(s: string, a: nat, b: nat)
    requires a <= b <= |s| && forall k :: a <= k < b ==> IsSpace(s[k])
    ensures AllSpace(s[a..b])
  {
    forall k | 0 <= k < b - a ensures IsSpace(s[a..b][k]) { assert s[a..b][k] == s[a + k]; }
  }

  /** A period right after a word is kept: `word.` and `word.  ` are left as they are. */
  lemma WordPeriodKept(s: string, k: nat)
    requires 1 <= k < |s| && s[k] == '.' && !IsSpace(s[k - 1]) && AllSpace(s[k + 1..])
    ensures StripTrailingPeriod(s) == s
  {
    RStripAt(s, k);
    var x := s[..k];
    RStripAt(x, k - 1);
    assert x[k..] == [];
  }

  // ---------------------------------------------------------------------------
  // Finishing the caption text.
  // ---------------------------------------------------------------------------

  /** `--find`/`--replace`: applied only when both are given and `find` occurs in the text. */
  function FindReplace(text: string, find: string, replace: string): (r: string)
    ensures find == "" || replace == "" || !Contains(text, find) ==> r == text
  {
    if find != "" && replace != "" && Contains(text, find) then Replace(text, find, replace)
    else text
  }

  /** With both options given, the guard changes nothing: the result is Python's `replace`. */
  lemma FindReplaceIsReplace(text: string, find: string, replace: string)
    requires find != "" && replace != ""
    ensures FindReplace(text, find, replace) == Replace(text, find, replace)
  {
    if !Contains(text, find) {
      ReplaceAbsent(text, find, replace);
    }
  }

  /**
    The first occurrence of `find` is replaced and the scan resumes after it, so occurrences
    are replaced left to right without overlapping.
   */
  lemma FindReplaceFirstOccurrence(text: string, find: string, replace: string, i: nat)
    requires find != "" && replace != ""
    requires i + |find| <= |text| && find <= text[i..]
    requires forall j :: 0 <= j < i ==> !(find <= text[j..])
    ensures FindReplace(text, find, replace)
              == text[..i] + replace + Replace(text[i + |find|..], find, replace)
  {
    FindReplaceIsReplace(text, find, replace);
    ReplaceAtFirst(text, find, replace, i);
  }

  /** The words kept by `--cap_length`: the first `k`, the last one without trailing commas. */
  function CapTokens(tokens: seq<string>, k: nat): seq<string>
    requires 0 < k < |tokens|
  {
    tokens[..k - 1] + [RStripChar(tokens[k - 1], ',')]
  }

  /**
    How many of `n` words the slice `[0:cap]` keeps once the cap applies (`cap != 0` and
    `n > cap`): the first `cap`, or for a negative cap all but the last `-cap`, possibly none.
   */
  function CapKeep(n: nat, cap: int): (k: nat)
    requires cap != 0 && n > cap
    ensures k < n || k == 0
  {
    if cap > 0 then cap
    else if n + cap > 0 then n + cap
    else 0
  }

  /**
    `--cap_length`: with a non-zero cap and more space-separated words than it, only the
    words the slice keeps remain. When it keeps none, taking the last word raises
    `IndexError`, written `None`; that happens exactly for a negative cap at least as
    large in magnitude as the number of words.
   */
  function CapWords(text: string, cap: int): (r: Option<string>)
    ensures r.None? <==> cap < 0 && |Split(text, ' ')| + cap <= 0
  {
    var tokens := Split(text, ' ');
    if cap != 0 && |tokens| > cap then
      var k := CapKeep(|tokens|, cap);
      if k == 0 then None
      else Some(Join(CapTokens(tokens, k), " "))
    else Some(Join(tokens, " "))
  }

  /** Without a cap, or within it, the split and join give back the text. */
  lemma CapWordsWithinCap(text: string, cap: int)
    requires cap == 0 || |Split(text, ' ')| <= cap
    ensures CapWords(text, cap) == Some(text)
  {
    JoinSplit(text, ' ');
  }

  /** The kept words joined by blanks split back into the kept words. */
  lemma CapTokensSplit(tokens: seq<string>, k: nat)
    requires 0 < k < |tokens|
    requires forall j :: 0 <= j < |tokens| ==> ' ' !in tokens[j]
    ensures Split(Join(CapTokens(tokens, k), " "), ' ') == CapTokens(tokens, k)
  {
    var kept := CapTokens(tokens, k);
    forall j | 0 <= j < |kept| ensures ' ' !in kept[j] {
      if j < k - 1 {
        assert kept[j] == tokens[j];
      } else {
        assert kept[j] == RStripChar(tokens[k - 1], ',');
      }
    }
    SplitJoin(kept, ' ');
  }

  /**
    Over a positive cap, the result has exactly `cap` words: the first `cap` words of the
    text, the last one with its trailing commas removed.
   */
  lemma CapWordsOverCap(text: string, cap: int)
    requires cap > 0 && |Split(text, ' ')| > cap
    ensures CapWords(text, cap).Some?
    ensures Split(CapWords(text, cap).value, ' ') == CapTokens(Split(text, ' '), cap)
    ensures |Split(CapWords(text, cap).value, ' ')| == cap
  {
    CapTokensSplit(Split(text, ' '), cap);
  }

  /**
    A negative cap drops the last `-cap` words, when some remain; the new last word loses
    its trailing commas.
   */
  lemma CapWordsNegative(text: string, cap: int)
    requires cap < 0 && |Split(text, ' ')| + cap > 0
    ensures var n := |Split(text, ' ')|;
            && CapWords(text, cap).Some?
            && Split(CapWords(text, cap).value, ' ') == CapTokens(Split(text, ' '), n + cap)
            && |Split(CapWords(text, cap).value, ' ')| == n + cap
  {
    var tokens := Split(text, ' ');
    CapTokensSplit(tokens, |tokens| + cap);
  }

  /**
    `--append_text` is added with no separator; then, exactly when `--prepend_text` is
    given, its stripped form and one space go in front.
   */
  function WithAffixes(text: string, appendText: string, prependText: string): (r: string)
    ensures var body := if appendText != "" then text + appendText else text;
            var p := Strip(prependText);
            && (prependText == "" ==> r == body)
            && (prependText != "" ==> |r| == |p| + 1 + |body| && r[..|p| + 1] == p + " " && r[|p| + 1..] == body)
    ensures |appendText| <= |r| && r[|r| - |appendText|..] == appendText
  {
    var body := if appendText != "" then text + appendText else text;
    assert body[|body| - |appendText|..] == appendText;
    if prependText != "" then
      var p := Strip(prependText) + " ";
      AffixParts(p, body);
      p + body
    else body
  }

  lemma AffixParts(p: string, body: string)
    ensures var r := p + body;
            |r| == |p| + |body| && r[..|p|] == p && r[|p|..] == body && r[|r| - |body|..] == body
  {
  }

  /**
    The caption text of the source from the merged tag list, or `None` when the word cap
    raises.
   */
  function FinishText(tags: seq<string>, find: string, replace: string, cap: int,
                      appendText: string, prependText: string): (r: Option<string>)
    ensures r.None? <==> cap < 0 && |Split(FindReplace(Join(tags, ", "), find, replace), ' ')| + cap <= 0
  {
    var joined := Join(tags, ", ");
    var replaced := FindReplace(joined, find, replace);
    match CapWords(replaced, cap)
    case None => None
    case Some(capped) => Some(WithAffixes(capped, appendText, prependText))
  }

  /** With every finishing option off, the caption text is the tags joined by `", "`. */
  lemma FinishTextPlain(tags: seq<string>)
    ensures FinishText(tags, "", "", 0, "", "") == Some(Join(tags, ", "))
  {
    CapWordsWithinCap(Join(tags, ", "), 0);
  }

  /** With a positive cap and no affixes, the caption text has at most `cap` space-separated words. */
  lemma FinishTextWordBound(tags: seq<string>, find: string, replace: string, cap: int)
    requires cap > 0
    ensures FinishText(tags, find, replace, cap, "", "").Some?
    ensures |Split(FinishText(tags, find, replace, cap, "", "").value, ' ')| <= cap
  {
    var replaced := FindReplace(Join(tags, ", "), find, replace);
    if |Split(replaced, ' ')| > cap {
      CapWordsOverCap(replaced, cap);
    } else {
      CapWordsWithinCap(replaced, cap);
    }
  }
}
