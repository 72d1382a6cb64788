/**
  The Python `str` operations the caption pipeline relies on, on `seq<char>`:
  `isspace`, `strip`/`lstrip`/`rstrip`, `split` on one character, `join`,
  the `in` substring test, `replace`, and the ASCII part of `upper`.
 */
module PyStr {

  /** Python's `str.isspace()` for one character; the same set is matched by `\s` in a `str` pattern. */
  predicate IsSpace(c: char) {
    || ('\t' <= c <= '\r')
    || ('\U{1C}' <= c <= '\U{1F}')
    || c == ' ' || c == '\U{85}' || c == '\U{A0}' || c == '\U{1680}'
    || ('\U{2000}' <= c <= '\U{200A}')
    || c == '\U{2028}' || c == '\U{2029}' || c == '\U{202F}' || c == '\U{205F}' || c == '\U{3000}'
  }

  predicate AllSpace(s: string) {
    forall k :: 0 <= k < |s| ==> IsSpace(s[k])
  }

  /** `s.lstrip()`: the suffix left after the leading whitespace run. */
  function LStrip(s: string): (r: string)
    ensures |r| <= |s| && r == s[|s| - |r|..]
    ensures r == [] || !IsSpace(r[0])
    ensures forall k :: 0 <= k < |s| - |r| ==> IsSpace(s[k])
    decreases |s|
  {
    if s != [] && IsSpace(s[0]) then LStrip(s[1..]) else s
  }

  /** `s.rstrip()`: the prefix left before the trailing whitespace run. */
  function RStrip(s: string): (r: string)
    ensures |r| <= |s| && r == s[..|r|]
    ensures r == [] || !IsSpace(r[|r| - 1])
    ensures forall k :: |r| <= k < |s| ==> IsSpace(s[k])
    decreases |s|
  {
    if s != [] && IsSpace(s[|s| - 1]) then RStrip(s[..|s| - 1]) else s
  }

  /** No whitespace at either end. */
  predicate Trimmed(s: string) {
    s == [] || (!IsSpace(s[0]) && !IsSpace(s[|s| - 1]))
  }

  /** `s.strip()`: `s` without its leading and trailing whitespace runs. */
  function Strip(s: string): (r: string)
    ensures |r| <= |s|
    ensures Trimmed(r)
  {
    RStrip(LStrip(s))
  }

  /** What `strip()` removes is whitespace, and what it keeps is a contiguous middle part of `s`. */
  lemma StripIsMiddle(s: string)
    ensures var i := |s| - |LStrip(s)|; var r := Strip(s);
      && i + |r| <= |s| && r == s[i..i + |r|]
      && (forall k :: 0 <= k < i ==> IsSpace(s[k]))
      && (forall k :: i + |r| <= k < |s| ==> IsSpace(s[k]))
  {
    var t := LStrip(s);
    var i := StripSlice(s);
    var r := RStrip(t);
    forall k | i + |r| <= k < |s|
      ensures IsSpace(s[k])
    {
      DropIndex(s, i, k - i);
    }
  }

  /** `strip()` introduces no character. */
  lemma StripChars(s: string, c: char)
    requires c in Strip(s)
    ensures c in s
  {
    StripIsMiddle(s);
    var i := |s| - |LStrip(s)|;
    var r := Strip(s);
    var j :| 0 <= j < |r| && r[j] == c;
    assert s[i + j] == c;
  }

  /** A string is its own `strip()` exactly when it has no whitespace at either end. */
  lemma StripTrimmed(s: string)
    ensures Strip(s) == s <==> Trimmed(s)
  {
  }

  lemma {:induction false} LStripSpacePrefix(w: string, s: string)
    requires AllSpace(w)
    ensures LStrip(w + s) == LStrip(s)
    decreases |w|
  {
    if w != [] {
      assert (w + s)[0] == w[0];
      assert (w + s)[1..] == w[1..] + s;
      LStripSpacePrefix(w[1..], s);
    } else {
      assert w + s == s;
    }
  }

  lemma {:induction false} RStripSpaceSuffix(s: string, w: string)
    requires AllSpace(w)
    ensures RStrip(s + w) == RStrip(s)
    decreases |w|
  {
    if w != [] {
      assert (s + w)[|s + w| - 1] == w[|w| - 1];
      assert (s + w)[..|s + w| - 1] == s + w[..|w| - 1];
      RStripSpaceSuffix(s, w[..|w| - 1]);
    } else {
      assert s + w == s;
    }
  }

  lemma {:induction false} LStripAppend(s: string, t: string)
    requires LStrip(s) != []
    ensures LStrip(s + t) == LStrip(s) + t
    decreases |s|
  {
    assert (s + t)[0] == s[0];
    if IsSpace(s[0]) {
      assert LStrip(s) == LStrip(s[1..]);
      TailOfConcat(s, t);
      LStripAppend(s[1..], t);
    }
  }

  lemma TailOfConcat(s: string, t: string)
    requires s != []
    ensures (s + t)[1..] == s[1..] + t
  {
  }

  /** Whitespace added around a string does not change its `strip()`. */
  lemma {:induction false} StripIgnoresSpaceAround(w1: string, s: string, w2: string)
    requires AllSpace(w1) && AllSpace(w2)
    ensures Strip(w1 + s + w2) == Strip(s)
  {
    var sw := s + w2;
    assert w1 + s + w2 == w1 + sw;
    LStripSpacePrefix(w1, sw);
    var l := LStrip(s);
    if l == [] {
      assert AllSpace(sw) by {
        assert s == s[..|s| - |l|];
      }
      LStripSpacePrefix(sw, []);
      assert sw + [] == sw;
      assert LStrip(sw) == [];
    } else {
      LStripAppend(s, w2);
      RStripSpaceSuffix(l, w2);
    }
  }

  /** `Strip` applied twice is `Strip` applied once. */
  lemma StripIdempotent(s: string)
    ensures Strip(Strip(s)) == Strip(s)
  {
    StripTrimmed(Strip(s));
  }

  /** Index of the first `c` in `s` (Python's `s.index(c)`). */
  function IndexOf(s: string, c: char): (i: nat)
    requires c in s
    ensures i < |s| && s[i] == c && c !in s[..i]
  {
    if s[0] == c then 0 else 1 + IndexOf(s[1..], c)
  }

  /**
    `s.split(sep)` for a one-character separator: the pieces between separators, so
    there is always at least one piece and `"".split(",") == [""]`.
   */
  function Split(s: string, sep: char): (parts: seq<string>)
    ensures |parts| >= 1
    ensures forall k :: 0 <= k < |parts| ==> sep !in parts[k]
    decreases |s|
  {
    if sep in s then
      var i := IndexOf(s, sep);
      [s[..i]] + Split(s[i + 1..], sep)
    else
      [s]
  }

  /** `sep.join(parts)`. */
  function Join(parts: seq<string>, sep: string): (r: string)
    ensures |parts| > 0 ==> parts[0] <= r
  {
    if |parts| == 0 then ""
    else if |parts| == 1 then parts[0]
    else parts[0] + sep + Join(parts[1..], sep)
  }

  /** Joining the pieces of a split with the same separator gives back the string. */
  lemma {:induction false} JoinSplit(s: string, sep: char)
    ensures Join(Split(s, sep), [sep]) == s
    decreases |s|
  {
    if sep in s {
      var i := IndexOf(s, sep);
      var rest := s[i + 1..];
      JoinSplit(rest, sep);
      JoinCons(s[..i], Split(rest, sep), [sep]);
      PieceSepRest(s, i);
    }
  }

  /** Joining a list of at least two pieces puts the separator after the first. */
  lemma JoinCons(p: string, rest: seq<string>, sep: string)
    requires |rest| >= 1
    ensures Join([p] + rest, sep) == p + sep + Join(rest, sep)
  {
    assert ([p] + rest)[1..] == rest;
  }

  lemma PieceSepRest(s: string, i: nat)
    requires i < |s|
    ensures s[..i] + [s[i]] + s[i + 1..] == s
  {
  }

  /** Splitting a join of separator-free pieces gives back the pieces. */
  lemma {:induction false} SplitJoin(parts: seq<string>, sep: char)
    requires |parts| >= 1
    requires forall k :: 0 <= k < |parts| ==> sep !in parts[k]
    ensures Split(Join(parts, [sep]), sep) == parts
  {
    if |parts| > 1 {
      var rest := Join(parts[1..], [sep]);
      var s := parts[0] + [sep] + rest;
      assert s[|parts[0]|] == sep;
      assert sep !in s[..|parts[0]|] by { assert s[..|parts[0]|] == parts[0]; }
      assert IndexOf(s, sep) == |parts[0]| by { IndexOfFirst(s, sep, |parts[0]|); }
      assert s[..|parts[0]|] == parts[0];
      assert s[|parts[0]| + 1..] == rest;
      SplitJoin(parts[1..], sep);
    }
  }

  lemma IndexOfFirst(s: string, c: char, i: nat)
    requires i < |s| && s[i] == c && c !in s[..i]
    ensures IndexOf(s, c) == i
  {
  }

  /** Python's `sub in s`. */
  predicate Contains(s: string, sub: string)
    decreases |s|
  {
    sub <= s || (s != [] && Contains(s[1..], sub))
  }

  lemma {:induction false} ContainsAt(s: string, sub: string, i: nat)
    requires i <= |s| && sub <= s[i..]
    ensures Contains(s, sub)
    decreases i
  {
    if i > 0 {
      assert s[1..][i - 1..] == s[i..];
      ContainsAt(s[1..], sub, i - 1);
    }
  }

  /** `sub in s` means `sub` starts at some index of `s`. */
  lemma {:induction false} ContainsWitness(s: string, sub: string)
    requires Contains(s, sub)
    ensures exists i :: 0 <= i <= |s| && sub <= s[i..]
    decreases |s|
  {
    if sub <= s {
      assert s[0..] == s;
    } else {
      ContainsWitness(s[1..], sub);
      var i :| 0 <= i <= |s| - 1 && sub <= s[1..][i..];
      assert s[1..][i..] == s[i + 1..];
    }
  }

  /** For one character, `c in s` as a substring test and as a membership test agree. */
  lemma ContainsOneChar(s: string, c: char)
    ensures Contains(s, [c]) <==> c in s
  {
    if c in s {
      var i :| 0 <= i < |s| && s[i] == c;
      assert [c] <= s[i..];
      ContainsAt(s, [c], i);
    }
    if Contains(s, [c]) {
      ContainsWitness(s, [c]);
      var i :| 0 <= i <= |s| && [c] <= s[i..];
      assert s[i] == c;
    }
  }

  /** What occurs in a slice of `s` occurs in `s`. */
  lemma ContainsInSlice(s: string, a: nat, b: nat, sub: string)
    requires a <= b <= |s| && Contains(s[a..b], sub)
    ensures Contains(s, sub)
  {
    var u := s[a..b];
    ContainsWitness(u, sub);
    var i :| 0 <= i <= |u| && sub <= u[i..];
    assert u[i..] == s[a + i..b];
    assert sub <= s[a + i..];
    ContainsAt(s, sub, a + i);
  }

  /** What occurs in `s.strip()` occurs in `s`. */
  lemma StripContains(s: string, sub: string)
    requires Contains(Strip(s), sub)
    ensures Contains(s, sub)
  {
    var a := StripSlice(s);
    ContainsInSlice(s, a, a + |Strip(s)|, sub);
  }

  /** `strip()` keeps a slice of `s`. */
  lemma StripSlice(s: string) returns (a: nat)
    ensures a == |s| - |LStrip(s)|
    ensures a + |Strip(s)| <= |s| && Strip(s) == s[a..a + |Strip(s)|]
  {
    var l := LStrip(s);
    a := |s| - |l|;
    var r := RStrip(l);
    assert r == l[..|r|] && l == s[a..];
    DropTake(s, a, |r|);
  }

  /**
    `s.replace(find, repl)` for a non-empty `find`: occurrences are found scanning left to
    right and do not overlap. (The one call site guards `find != ''`.)
   */
  function Replace(s: string, find: string, repl: string): (r: string)
    requires find != []
    ensures |repl| == |find| ==> |r| == |s|
    decreases |s|
  {
    if s == [] then []
    else if find <= s then repl + Replace(s[|find|..], find, repl)
    else [s[0]] + Replace(s[1..], find, repl)
  }

  /** With no occurrence of `find`, `replace` leaves the string as it is. */
  lemma {:induction false} ReplaceAbsent(s: string, find: string, repl: string)
    requires find != [] && !Contains(s, find)
    ensures Replace(s, find, repl) == s
    decreases |s|
  {
    if s != [] {
      ReplaceAbsent(s[1..], find, repl);
    }
  }

  /** Replacing a string by itself changes nothing. */
  lemma {:induction false} ReplaceSelf(s: string, find: string)
    requires find != []
    ensures Replace(s, find, find) == s
    decreases |s|
  {
    if s != [] {
      if find <= s {
        ReplaceSelf(s[|find|..], find);
        assert s == find + s[|find|..];
      } else {
        ReplaceSelf(s[1..], find);
      }
    }
  }

  /**
    The scan is left to right: everything before the first occurrence is kept, that
    occurrence becomes `repl`, and the rest is replaced the same way.
   */
  lemma {:induction false} ReplaceAtFirst(s: string, find: string, repl: string, i: nat)
    requires find != [] && i + |find| <= |s| && find <= s[i..]
    requires forall j :: 0 <= j < i ==> !(find <= s[j..])
    ensures Replace(s, find, repl) == s[..i] + repl + Replace(s[i + |find|..], find, repl)
  {
    ReplaceSkips(s, find, repl, i);
    var m := s[i..];
    assert m[|find|..] == s[i + |find|..];
  }

  /** Positions where `find` does not start are copied unchanged. */
  lemma {:induction false} ReplaceSkips(s: string, find: string, repl: string, i: nat)
    requires find != [] && i <= |s|
    requires forall j :: 0 <= j < i ==> !(find <= s[j..])
    ensures Replace(s, find, repl) == s[..i] + Replace(s[i..], find, repl)
    decreases i
  {
    if i == 0 {
      assert s[..0] == [] && s[0..] == s;
    } else {
      var t := s[1..];
      assert !(find <= s) by { assert s[0..] == s; }
      NoEarlierOccurrenceInTail(s, find, i);
      ReplaceSkips(t, find, repl, i - 1);
      var r := Replace(s[i..], find, repl);
      assert t[i - 1..] == s[i..];
      assert Replace(t, find, repl) == t[..i - 1] + r;
      assert s[..i] == [s[0]] + t[..i - 1];
    }
  }

  lemma NoEarlierOccurrenceInTail(s: string, find: string, i: nat)
    requires 0 < i <= |s|
    requires forall j :: 0 <= j < i ==> !(find <= s[j..])
    ensures forall j :: 0 <= j < i - 1 ==> !(find <= s[1..][j..])
  {
    forall j | 0 <= j < i - 1
      ensures !(find <= s[1..][j..])
    {
      assert s[1..][j..] == s[j + 1..];
    }
  }

  /** `s.replace(c, '')` for one character: every `c` removed, the rest in order. */
  function RemoveAll(s: string, c: char): (r: string)
    ensures |r| <= |s|
    ensures forall x :: x in r <==> x in s && x != c
  {
    if s == [] then []
    else (if s[0] == c then [] else [s[0]]) + RemoveAll(s[1..], c)
  }

  lemma {:induction false} RemoveAbsent(s: string, c: char)
    requires c !in s
    ensures RemoveAll(s, c) == s
  {
    if s != [] {
      RemoveAbsent(s[1..], c);
      assert s == [s[0]] + s[1..];
    }
  }

  /** Removing a character distributes over concatenation. */
  lemma {:induction false} RemoveAllAppend(s: string, t: string, c: char)
    ensures RemoveAll(s + t, c) == RemoveAll(s, c) + RemoveAll(t, c)
    decreases |s|
  {
    if s != [] {
      assert (s + t)[1..] == s[1..] + t;
      RemoveAllAppend(s[1..], t, c);
    } else {
      assert s + t == t;
    }
  }

  /** `s.rstrip(c)` for one character: the trailing run of `c` removed. */
  function RStripChar(s: string, c: char): (r: string)
    ensures r <= s
    ensures r == [] || r[|r| - 1] != c
    ensures forall k :: |r| <= k < |s| ==> s[k] == c
    decreases |s|
  {
    if s != [] && s[|s| - 1] == c then RStripChar(s[..|s| - 1], c) else s
  }

  /** `r` can be obtained from `s` by deleting entries, keeping the order of the rest. */
  ghost predicate SubseqOf<T>(r: seq<T>, s: seq<T>)
    decreases |s|
  {
    if r == [] then true
    else if s == [] then false
    else (r[|r| - 1] == s[|s| - 1] && SubseqOf(r[..|r| - 1], s[..|s| - 1])) || SubseqOf(r, s[..|s| - 1])
  }

  /** `[f(x) for x in xs]`. */
  function Map<A, B>(f: A -> B, xs: seq<A>): (r: seq<B>)
    ensures |r| == |xs|
    decreases |xs|
  {
    if xs == [] then []
    else Map(f, xs[..|xs| - 1]) + [f(xs[|xs| - 1])]
  }

  lemma {:induction false} MapAt<A, B>(f: A -> B, xs: seq<A>, k: nat)
    requires k < |xs|
    ensures Map(f, xs)[k] == f(xs[k])
    decreases |xs|
  {
    var n := |xs| - 1;
    if k < n {
      MapAt(f, xs[..n], k);
    }
  }

  lemma MapSnoc<A, B>(f: A -> B, xs: seq<A>, i: nat)
    requires i < |xs|
    ensures Map(f, xs[..i + 1]) == Map(f, xs[..i]) + [f(xs[i])]
  {
    assert xs[..i + 1][..i] == xs[..i];
  }

  /** `[t.strip() for t in parts]`. */
  function StripEach(parts: seq<string>): (r: seq<string>)
    ensures |r| == |parts|
  {
    Map(Strip, parts)
  }

  /** Entry `k` of `StripEach(parts)` is `parts[k]` stripped. */
  lemma StripEachAt(parts: seq<string>, k: nat)
    requires k < |parts|
    ensures StripEach(parts)[k] == Strip(parts[k])
  {
    MapAt(Strip, parts, k);
  }

  /** Stripping one more piece. */
  lemma StripEachSnoc(parts: seq<string>, i: nat)
    requires i < |parts|
    ensures StripEach(parts[..i + 1]) == StripEach(parts[..i]) + [Strip(parts[i])]
  {
    MapSnoc(Strip, parts, i);
  }

  /** Sequences with the same elements at every index are equal. */
  lemma SameElements<T>(a: seq<T>, b: seq<T>)
    requires |a| == |b| && forall k :: 0 <= k < |a| ==> a[k] == b[k]
    ensures a == b
  {
  }

  // Index and concatenation facts, stated once so that proofs about strings need not
  // rediscover them in a large context.

  lemma AbsentFromConcat<T>(a: seq<T>, b: seq<T>, x: T)
    requires x !in a && x !in b
    ensures x !in a + b
  {
  }

  lemma AppendAssoc<T>(a: seq<T>, b: seq<T>, c: seq<T>)
    ensures (a + b) + c == a + (b + c)
  {
  }

  lemma DropTake<T>(xs: seq<T>, a: nat, n: nat)
    requires a + n <= |xs|
    ensures xs[a..][..n] == xs[a..a + n]
  {
  }

  lemma SnocFront<T>(xs: seq<T>)
    requires xs != []
    ensures xs[..|xs| - 1] + [xs[|xs| - 1]] == xs
  {
  }

  lemma SnocIndex<T>(a: seq<T>, x: T, k: nat)
    requires k < |a|
    ensures (a + [x])[k] == a[k]
  {
  }

  lemma TakeIndex<T>(a: seq<T>, n: nat, k: nat)
    requires k < n <= |a|
    ensures a[..n][k] == a[k]
  {
  }

  lemma DropIndex<T>(a: seq<T>, i: nat, k: nat)
    requires i + k < |a|
    ensures a[i..][k] == a[i + k]
  {
  }

  lemma ConsIndex<T>(x: T, xs: seq<T>, k: nat)
    requires 0 < k <= |xs|
    ensures ([x] + xs)[k] == xs[k - 1]
  {
  }

  /** `s.upper()` on ASCII letters; other characters are left alone. */
  function AsciiUpper(s: string): (r: string)
    ensures |r| == |s|
  {
    seq(|s|, k requires 0 <= k < |s| => if 'a' <= s[k] <= 'z' then (s[k] as int - 32) as char else s[k])
  }
}
