/**
  The POSIX `os.path` functions the pipeline uses: `split` (and so `dirname`/`basename`),
  `splitext` and `join` with two arguments.
 */
module PyPath {
  import opened PyStr

  /** `s.rfind(c)`: the last index of `c`, or -1. */
  function RFind(s: string, c: char): (r: int)
    ensures -1 <= r < |s|
    ensures r >= 0 ==> s[r] == c
    ensures forall k :: r < k < |s| ==> s[k] != c
    decreases |s|
  {
    if s == [] then -1
    else if s[|s| - 1] == c then |s| - 1
    else RFind(s[..|s| - 1], c)
  }

  /** The head of a split: its trailing slashes removed unless it consists of slashes only. */
  function SplitHead(head: string): string {
    var h := RStripChar(head, '/');
    if h != "" then h else head
  }

  /**
    `os.path.split(p)`: `tail` is everything after the last `/`; `head` is everything up to
    it, with its trailing slashes removed unless it consists of slashes only. The tail is
    taken off the end one character at a time.
   */
  function PathSplit(p: string): (r: (string, string))
    ensures '/' !in r.1
    decreases |p|
  {
    if p == [] then ("", "")
    else if p[|p| - 1] == '/' then (SplitHead(p), "")
    else
      var r := PathSplit(p[..|p| - 1]);
      (r.0, r.1 + [p[|p| - 1]])
  }

  /** The tail of a split is the last component: the longest end of the path without a `/`. */
  lemma {:induction false} SplitTailIsLastComponent(p: string)
    ensures var t := PathSplit(p).1;
            |t| <= |p| && p[|p| - |t|..] == t && (|t| < |p| ==> p[|p| - |t| - 1] == '/')
    decreases |p|
  {
    if p != [] && p[|p| - 1] != '/' {
      var init := p[..|p| - 1];
      SplitTailIsLastComponent(init);
      var t := PathSplit(init).1;
      assert p[|p| - |t| - 1..] == init[|init| - |t|..] + [p[|p| - 1]];
    }
  }

  /**
    The head of a split is empty when the path has no `/`, and otherwise the path up to its
    last `/`, with the trailing slashes handled by `SplitHead`.
   */
  lemma {:induction false} SplitHeadIsDirectory(p: string)
    ensures var t := PathSplit(p).1;
            |t| <= |p| && PathSplit(p).0 == if |t| == |p| then "" else SplitHead(p[..|p| - |t|])
    decreases |p|
  {
    if p != [] && p[|p| - 1] != '/' {
      var init := p[..|p| - 1];
      SplitHeadIsDirectory(init);
      var t := PathSplit(init).1;
      if |t| < |init| {
        assert p[..|p| - |t| - 1] == init[..|init| - |t|];
      }
    } else if p != [] {
      assert p[..|p|] == p;
    }
  }

  /** A head that `SplitHead` has already trimmed is left as it is. */
  lemma SplitHeadIdempotent(head: string)
    ensures SplitHead(SplitHead(head)) == SplitHead(head)
  {
    var h := RStripChar(head, '/');
    if h != "" {
      assert RStripChar(h, '/') == h;
    }
  }

  /** The head of a split is already trimmed: splitting it again keeps it whole. */
  lemma SplitHeadFixed(p: string)
    ensures SplitHead(PathSplit(p).0) == PathSplit(p).0
  {
    SplitHeadIsDirectory(p);
    var t := PathSplit(p).1;
    if |t| < |p| {
      SplitHeadIdempotent(p[..|p| - |t|]);
    }
  }

  function Dirname(p: string): string { PathSplit(p).0 }

  function Basename(p: string): string { PathSplit(p).1 }

  /** The file name of a path without its extension. */
  function Stem(p: string): (r: string)
    ensures '/' !in r
  {
    var name := Basename(p);
    var stem := SplitExt(name).0;
    assert '/' !in stem by {
      assert stem == name[..|stem|];
      forall k | 0 <= k < |stem| ensures stem[k] != '/' { assert stem[k] == name[k]; }
    }
    stem
  }

  /**
    `os.path.splitext(p)`: the extension runs from the last `.` of the last path
    component, unless everything before that dot in the component is dots.
   */
  function SplitExt(p: string): (r: (string, string))
    ensures r.0 + r.1 == p
    ensures r.1 == "" || (r.1[0] == '.' && '/' !in r.1 && '.' !in r.1[1..])
  {
    var sepIndex := RFind(p, '/');
    var dotIndex := RFind(p, '.');
    if dotIndex > sepIndex && exists k :: sepIndex + 1 <= k < dotIndex && p[k] != '.' then
      assert p[..dotIndex] + p[dotIndex..] == p;
      assert '.' !in p[dotIndex..][1..] by {
        forall j | 0 <= j < |p[dotIndex..][1..]| ensures p[dotIndex..][1..][j] != '.' {
          assert p[dotIndex..][1..][j] == p[dotIndex + 1 + j];
        }
      }
      assert '/' !in p[dotIndex..] by {
        forall j | 0 <= j < |p[dotIndex..]| ensures p[dotIndex..][j] != '/' {
          assert p[dotIndex..][j] == p[dotIndex + j];
        }
      }
      (p[..dotIndex], p[dotIndex..])
    else
      assert p + "" == p;
      (p, "")
  }

  /** `os.path.join(a, b)`. */
  function PathJoin(a: string, b: string): (r: string)
    ensures |b| <= |r| && r[|r| - |b|..] == b
  {
    if b != "" && b[0] == '/' then b
    else if a == "" || a[|a| - 1] == '/' then a + b
    else a + "/" + b
  }

  /** `split` of a string whose last `/` sits right before `b`: the tail is `b`. */
  lemma {:induction false} TailAfterLastSlash(a: string, b: string)
    requires '/' !in b
    ensures PathSplit(a + "/" + b).1 == b
    decreases |b|
  {
    var p := a + "/" + b;
    if b == [] {
      assert p[|p| - 1] == '/';
    } else {
      var b' := b[..|b| - 1];
      assert p[..|p| - 1] == a + "/" + b';
      TailAfterLastSlash(a, b');
      assert b == b' + [b[|b| - 1]];
    }
  }

  /** A path without `/` is all tail. */
  lemma {:induction false} SplitWithoutSlash(p: string)
    requires '/' !in p
    ensures PathSplit(p) == ("", p)
    decreases |p|
  {
    if p != [] {
      var init := p[..|p| - 1];
      assert '/' !in init by {
        forall k | 0 <= k < |init| ensures init[k] != '/' { assert init[k] == p[k]; }
      }
      SplitWithoutSlash(init);
      assert p[|p| - 1] != '/';
      SnocFront(p);
    }
  }

  /** The file name of a path built by `join` is the name joined on, when it holds no `/`. */
  lemma BasenameOfJoin(a: string, b: string)
    requires b != "" && '/' !in b
    ensures Basename(PathJoin(a, b)) == b
  {
    if a == "" {
      SplitWithoutSlash(b);
    } else if a[|a| - 1] == '/' {
      var a' := a[..|a| - 1];
      assert a + b == a' + "/" + b;
      TailAfterLastSlash(a', b);
    } else {
      TailAfterLastSlash(a, b);
    }
  }

  /**
    The directory of a path built by `join` is the directory joined onto, when the name
    holds no `/` and the directory is written as `split` writes heads.
   */
  lemma DirnameOfJoin(a: string, b: string)
    requires b != "" && '/' !in b && SplitHead(a) == a
    ensures Dirname(PathJoin(a, b)) == a
  {
    var p := PathJoin(a, b);
    BasenameOfJoin(a, b);
    SplitHeadIsDirectory(p);
    if a == "" {
      SplitWithoutSlash(b);
    } else if a[|a| - 1] == '/' {
      assert p[..|p| - |b|] == a;
    } else {
      assert p[..|p| - |b|] == a + "/";
      assert RStripChar(a, '/') == a;
      assert (a + "/")[..|a|] == a;
    }
  }
}
