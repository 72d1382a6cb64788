/**
  Building the tag list of one image: the caption (or the CLIP tag string) split on commas
  with every piece stripped, then the parent-folder tags put in at `folder_tag_position`.
 */
module TagSplit {
  import opened PyStr

  /** The loop that splits a caption or tag string on commas and collects each piece stripped. */
  method SplitAndStrip(text: string) returns (tags: seq<string>)
    ensures tags == StripEach(Split(text, ','))
  {
    var pieces := Split(text, ',');
    tags := [];
    for i := 0 to |pieces|
      invariant tags == StripEach(pieces[..i])
    {
      StripEachSnoc(pieces, i);
      tags := tags + [Strip(pieces[i])];
    }
    assert pieces[..|pieces|] == pieces;
  }

  /** Every tag of the split is stripped and free of commas, one tag per comma-separated piece. */
  lemma SplitTagsShape(text: string)
    ensures var tags := StripEach(Split(text, ','));
            && |tags| == |Split(text, ',')| >= 1
            && forall k :: 0 <= k < |tags| ==> ',' !in tags[k] && Trimmed(tags[k])
  {
    var parts := Split(text, ',');
    forall k | 0 <= k < |parts|
      ensures StripEach(parts)[k] == Strip(parts[k]) && ',' !in Strip(parts[k])
    {
      StripEachAt(parts, k);
      if ',' in Strip(parts[k]) { StripChars(parts[k], ','); }
    }
  }

  /** `" " + t` for every tag. */
  function Spaced(tags: seq<string>): (r: seq<string>)
    ensures |r| == |tags|
    ensures forall k :: 0 <= k < |tags| ==> r[k] == " " + tags[k]
  {
    seq(|tags|, k requires 0 <= k < |tags| => " " + tags[k])
  }

  /** `p + ", ".join(tags)` is the comma-join of `p + tags[0]` and the other tags each with a leading blank. */
  lemma {:induction false} CommaSpaceJoin(p: string, tags: seq<string>)
    requires |tags| >= 1
    ensures p + Join(tags, ", ") == Join([p + tags[0]] + Spaced(tags[1..]), ",")
    decreases |tags|
  {
    if |tags| == 1 {
      assert Spaced(tags[1..]) == [];
    } else {
      CommaSpaceJoin(" ", tags[1..]);
      assert [" " + tags[1]] + Spaced(tags[2..]) == Spaced(tags[1..]);
      assert tags[1..][1..] == tags[2..];
      var q := [p + tags[0]] + Spaced(tags[1..]);
      assert q[1..] == Spaced(tags[1..]);
      assert p + (tags[0] + ", " + Join(tags[1..], ", ")) == (p + tags[0]) + "," + (" " + Join(tags[1..], ", "));
    }
  }

  /**
    Splitting a `", "`-joined list of stripped, comma-free tags and stripping the pieces
    gives back the tags: the split/strip step undoes the final join.
   */
  lemma SplitTagsOfJoin(tags: seq<string>)
    requires |tags| >= 1
    requires forall k :: 0 <= k < |tags| ==> ',' !in tags[k] && Trimmed(tags[k])
    ensures StripEach(Split(Join(tags, ", "), ',')) == tags
  {
    var q := [tags[0]] + Spaced(tags[1..]);
    CommaSpaceJoin("", tags);
    assert "" + tags[0] == tags[0];
    assert "" + Join(tags, ", ") == Join(tags, ", ");
    SpacedCommaFree(tags);
    SplitJoin(q, ',');
    StripSpaced(tags);
  }

  lemma SpacedCommaFree(tags: seq<string>)
    requires |tags| >= 1
    requires forall k :: 0 <= k < |tags| ==> ',' !in tags[k]
    ensures var q := [tags[0]] + Spaced(tags[1..]); forall k :: 0 <= k < |q| ==> ',' !in q[k]
  {
    var q := [tags[0]] + Spaced(tags[1..]);
    forall k | 0 <= k < |q| ensures ',' !in q[k] {
      if k > 0 { assert q[k] == " " + tags[k]; }
    }
  }

  lemma StripSpacedTag(t: string)
    requires Trimmed(t)
    ensures Strip(" " + t) == t
  {
    var w := " ";
    assert AllSpace(w) by { assert IsSpace(w[0]); }
    LStripSpacePrefix(w, t);
    StripTrimmed(t);
  }

  lemma StripSpaced(tags: seq<string>)
    requires |tags| >= 1
    requires forall k :: 0 <= k < |tags| ==> Trimmed(tags[k])
    ensures StripEach([tags[0]] + Spaced(tags[1..])) == tags
  {
    var q := [tags[0]] + Spaced(tags[1..]);
    var r := StripEach(q);
    forall k | 0 <= k < |q| ensures r[k] == tags[k] {
      StripEachAt(q, k);
      if k == 0 {
        StripTrimmed(tags[0]);
      } else {
        ConsIndex(tags[0], Spaced(tags[1..]), k);
        DropIndex(tags, 1, k - 1);
        StripSpacedTag(tags[k]);
      }
    }
    SameElements(r, tags);
  }

  /** Where Python's `list.insert(i, x)` puts `x` in a list of length `n`. */
  function InsertIndex(n: nat, i: int): (k: nat)
    ensures k <= n
    ensures 0 <= i <= n ==> k == i
  {
    if i < 0 then (if n + i < 0 then 0 else n + i)
    else if i > n then n
    else i
  }

  /** `xs.insert(i, x)`. */
  function ListInsert(xs: seq<string>, i: int, x: string): (r: seq<string>)
    ensures |r| == |xs| + 1
  {
    var k := InsertIndex(|xs|, i);
    xs[..k] + [x] + xs[k..]
  }

  /** One folder tag: appended while the list is shorter than the position, inserted at the position otherwise. */
  function PlaceFolderTag(tags: seq<string>, tag: string, pos: int): seq<string> {
    if |tags| < pos then tags + [tag] else ListInsert(tags, pos, tag)
  }

  /** The given (already stripped) folder tags, placed one after the other. */
  function PlaceAll(tags: seq<string>, gs: seq<string>, pos: int): seq<string>
    decreases |gs|
  {
    if gs == [] then tags
    else PlaceAll(PlaceFolderTag(tags, gs[0], pos), gs[1..], pos)
  }

  /** The loop over the folder tags, growing the tag list in place; each folder name is stripped first. */
  method AddFolderTags(tags: seq<string>, folders: seq<string>, pos: int) returns (out: seq<string>)
    ensures out == PlaceAll(tags, StripEach(folders), pos)
  {
    ghost var gs := StripEach(folders);
    out := tags;
    for i := 0 to |folders|
      invariant PlaceAll(out, gs[i..], pos) == PlaceAll(tags, gs, pos)
    {
      assert gs[i..][1..] == gs[i + 1..];
      StripEachAt(folders, i);
      var tag := folders[i];
      if |out| < pos {
        out := out + [Strip(tag)];
      } else {
        out := ListInsert(out, pos, Strip(tag));
      }
    }
  }

  function Reverse(s: seq<string>): (r: seq<string>)
    ensures |r| == |s|
  {
    if s == [] then [] else Reverse(s[1..]) + [s[0]]
  }

  lemma InsertedAt<T>(xs: seq<T>, k: nat, x: T)
    requires k <= |xs|
    ensures var r := xs[..k] + [x] + xs[k..]; r[..k] == xs[..k] && r[k..] == [x] + xs[k..]
  {
    var r := xs[..k] + [x] + xs[k..];
    assert r[..k] == xs[..k];
    assert r[k..] == [x] + xs[k..];
  }

  lemma Regroup<T>(a: seq<T>, r: seq<T>, x: T, b: seq<T>)
    ensures a + r + ([x] + b) == a + (r + [x]) + b
  {
  }

  /**
    When the list already reaches the position, every folder tag is inserted at that same
    index, so the folder tags end up there in reverse order.
   */
  lemma {:induction false} FolderTagsReversedAtPosition(tags: seq<string>, gs: seq<string>, pos: int)
    requires 0 <= pos <= |tags|
    ensures PlaceAll(tags, gs, pos) == tags[..pos] + Reverse(gs) + tags[pos..]
    decreases |gs|
  {
    if gs == [] {
      assert tags[..pos] + tags[pos..] == tags;
    } else {
      var g := gs[0];
      var rest := gs[1..];
      var next := ListInsert(tags, pos, g);
      assert PlaceAll(tags, gs, pos) == PlaceAll(next, rest, pos);
      FolderTagsReversedAtPosition(next, rest, pos);
      InsertedAt(tags, pos, g);
      Regroup(tags[..pos], Reverse(rest), g, tags[pos..]);
    }
  }

  function Min(a: int, b: int): int { if a < b then a else b }

  /** While the list is shorter than the position, folder tags are appended; the rest go in reversed at the position. */
  lemma {:induction false} FolderTagsAppendedFirst(tags: seq<string>, gs: seq<string>, pos: int)
    requires |tags| < pos
    ensures var a := Min(pos - |tags|, |gs|);
            PlaceAll(tags, gs, pos) == tags + gs[..a] + Reverse(gs[a..])
    decreases |gs|
  {
    var a := Min(pos - |tags|, |gs|);
    if gs != [] {
      var next := tags + [gs[0]];
      var g1 := gs[1..];
      assert PlaceAll(tags, gs, pos) == PlaceAll(next, g1, pos);
      if |next| < pos {
        FolderTagsAppendedFirst(next, g1, pos);
        assert Min(pos - |next|, |g1|) == a - 1;
        MoveFirstOver(tags, gs, a, Reverse(g1[a - 1..]));
      } else {
        FolderTagsReversedAtPosition(next, g1, pos);
        assert a == 1 && pos == |next|;
        MoveFirstOver(tags, gs, 1, Reverse(g1));
        WholePrefix(next);
      }
    } else {
      assert gs[..a] == [] && gs[a..] == [];
    }
  }

  /** Moving the first element of `gs` over to the end of `tags`. */
  lemma MoveFirstOver<T>(tags: seq<T>, gs: seq<T>, a: nat, r: seq<T>)
    requires 1 <= a <= |gs|
    ensures (tags + [gs[0]]) + gs[1..][..a - 1] + r == tags + gs[..a] + r
    ensures gs[1..][a - 1..] == gs[a..]
  {
    assert gs[..a] == [gs[0]] + gs[1..][..a - 1];
  }

  lemma NothingAppended(t1: seq<string>, gs: seq<string>, t2: seq<string>)
    ensures t1 + gs[..0] + Reverse(gs[0..]) + t2 == t1 + Reverse(gs) + t2
  {
    assert gs[..0] == [] && gs[0..] == gs;
  }

  lemma WholePrefix<T>(xs: seq<T>)
    ensures xs[..|xs|] == xs && xs[|xs|..] == []
  {
  }

  /**
    For a non-negative position: the first folder tags are appended until the list reaches
    the position, and the remaining ones are inserted there in reverse order; the original
    tags keep their order around them.
   */
  lemma FolderTagsLayout(tags: seq<string>, gs: seq<string>, pos: int)
    requires pos >= 0
    ensures var p := Min(pos, |tags|);
            var a := if |tags| < pos then Min(pos - |tags|, |gs|) else 0;
            PlaceAll(tags, gs, pos) == tags[..p] + gs[..a] + Reverse(gs[a..]) + tags[p..]
  {
    if pos <= |tags| {
      FolderTagsReversedAtPosition(tags, gs, pos);
      NothingAppended(tags[..pos], gs, tags[pos..]);
    } else {
      FolderTagsAppendedFirst(tags, gs, pos);
      WholePrefix(tags);
      var a := Min(pos - |tags|, |gs|);
      assert tags + gs[..a] + Reverse(gs[a..]) + [] == tags + gs[..a] + Reverse(gs[a..]);
    }
  }

  /** The index the original tags are split at: the folder tags all land there, in some order. */
  function FolderAnchor(n: nat, pos: int): (k: nat)
    ensures k <= n
  {
    if pos >= 0 then (if pos < n then pos else n)
    else if n + pos < 0 then 0 else n + pos
  }

  /** Where `PlaceFolderTag` puts its tag in a list of length `n`. */
  function PlaceIndex(n: nat, pos: int): (idx: nat)
    ensures idx <= n
  {
    if n < pos then n else InsertIndex(n, pos)
  }

  lemma PlaceFolderTagAt(l: seq<string>, g: string, pos: int)
    ensures var idx := PlaceIndex(|l|, pos); PlaceFolderTag(l, g, pos) == l[..idx] + [g] + l[idx..]
  {
    if |l| < pos { assert l[..|l|] == l && l[|l|..] == []; }
  }

  /** A tag placed in a list with a block of `m` entries at the anchor lands inside or at either end of that block. */
  lemma PlaceIndexInBlock(n: nat, m: nat, pos: int)
    ensures var k := FolderAnchor(n, pos); k <= PlaceIndex(n + m, pos) <= k + m
  {
  }

  lemma SplitInBlock(t1: seq<string>, b: seq<string>, t2: seq<string>, j: nat)
    requires j <= |b|
    ensures var l := t1 + b + t2;
            l[..|t1| + j] == t1 + b[..j] && l[|t1| + j..] == b[j..] + t2
  {
    var l := t1 + b + t2;
    assert l[..|t1| + j] == t1 + b[..j];
    assert l[|t1| + j..] == b[j..] + t2;
  }

  /** `r` is `t1`, then a block of `n` entries holding exactly `m`, then `t2`. */
  ghost predicate BlockBetween(r: seq<string>, t1: seq<string>, t2: seq<string>, n: nat, m: multiset<string>) {
    && |r| == |t1| + n + |t2|
    && r[..|t1|] == t1 && r[|t1| + n..] == t2
    && multiset(r[|t1|..|t1| + n]) == m
  }

  /** The block after one more folder tag is placed into it. */
  function GrownBlock(t1: seq<string>, b: seq<string>, t2: seq<string>, g: string, pos: int): (nb: seq<string>)
    requires |t1| == FolderAnchor(|t1| + |t2|, pos)
    ensures PlaceFolderTag(t1 + b + t2, g, pos) == t1 + nb + t2
    ensures |nb| == |b| + 1 && multiset(nb) == multiset(b) + multiset{g}
  {
    var l := t1 + b + t2;
    PlaceIndexInBlock(|t1| + |t2|, |b|, pos);
    var j := PlaceIndex(|l|, pos) - |t1|;
    PlaceFolderTagAt(l, g, pos);
    SplitInBlock(t1, b, t2, j);
    InsertedInBlock(t1, b, t2, j, g);
    b[..j] + [g] + b[j..]
  }

  lemma InsertedInBlock(t1: seq<string>, b: seq<string>, t2: seq<string>, j: nat, g: string)
    requires j <= |b|
    ensures (t1 + b[..j]) + [g] + (b[j..] + t2) == t1 + (b[..j] + [g] + b[j..]) + t2
    ensures multiset(b[..j] + [g] + b[j..]) == multiset(b) + multiset{g}
  {
    assert b == b[..j] + b[j..];
  }

  lemma BlockBetweenOfConcat(t1: seq<string>, b: seq<string>, t2: seq<string>)
    ensures BlockBetween(t1 + b + t2, t1, t2, |b|, multiset(b))
  {
    var r := t1 + b + t2;
    assert r[..|t1|] == t1;
    assert r[|t1|..|t1| + |b|] == b;
    assert r[|t1| + |b|..] == t2;
  }

  /**
    The block the folder tags form: placing them into `t1 + b + t2`, where `t1` ends at the
    anchor, only ever grows the block between `t1` and `t2`.
   */
  ghost function FolderBlock(t1: seq<string>, b: seq<string>, t2: seq<string>, gs: seq<string>, pos: int): (nb: seq<string>)
    requires |t1| == FolderAnchor(|t1| + |t2|, pos)
    ensures PlaceAll(t1 + b + t2, gs, pos) == t1 + nb + t2
    ensures |nb| == |b| + |gs| && multiset(nb) == multiset(b) + multiset(gs)
    decreases |gs|
  {
    if gs == [] then b
    else
      assert gs == [gs[0]] + gs[1..];
      FolderBlock(t1, GrownBlock(t1, b, t2, gs[0], pos), t2, gs[1..], pos)
  }

  /**
    For any position (negative ones included, which Python counts from the end): exactly
    one entry per folder tag is added, all of them in one block at the anchor, and the
    original tags keep their relative order before and after that block.
   */
  lemma FolderTagsKeepOrder(tags: seq<string>, gs: seq<string>, pos: int)
    ensures var k := FolderAnchor(|tags|, pos);
            BlockBetween(PlaceAll(tags, gs, pos), tags[..k], tags[k..], |gs|, multiset(gs))
  {
    var k := FolderAnchor(|tags|, pos);
    var t1, t2 := tags[..k], tags[k..];
    var e: seq<string> := [];
    assert t1 + e + t2 == tags;
    var nb := FolderBlock(t1, e, t2, gs, pos);
    BlockBetweenOfConcat(t1, nb, t2);
  }
}
