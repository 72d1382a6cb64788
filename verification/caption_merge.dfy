/**
  Merging the filtered tags of one image with the pieces of its existing caption, as
  `--existing` says (`prepend`, `append`, `copy`; the other policies leave the tags alone),
  and then dropping the first empty tag.
 */
module CaptionMerge {
  import opened PyStr
  import opened CaptionrConfig

  /**
    Appending each item to `acc` in turn; with `uniq` an item already in the growing list is
    skipped. The merge passes the stripped pieces.
   */
  function AppendMissing(acc: seq<string>, items: seq<string>, uniq: bool): seq<string>
    decreases |items|
  {
    if items == [] then acc
    else
      var prev := AppendMissing(acc, items[..|items| - 1], uniq);
      var x := items[|items| - 1];
      if x !in prev || !uniq then prev + [x] else prev
  }

  /**
    The list after the merge. Splitting the existing caption on commas gives at least one
    piece, so the length guards of `prepend` and `append` always hold; `copy` needs a
    non-empty existing caption. `prepend` starts from the pieces as they are, unstripped.
   */
  function Merge(policy: Policy, unique: seq<string>, existing: string, uniq: bool): (r: seq<string>)
    ensures policy == Prepend ==> Split(existing, ',') <= r
    ensures policy == Append || policy == Copy ==> unique <= r
    ensures policy != Prepend && policy != Append && policy != Copy ==> r == unique
  {
    var existingTags := Split(existing, ',');
    match policy
    case Prepend =>
      AppendMissingExtends(existingTags, StripEach(unique), uniq);
      AppendMissing(existingTags, StripEach(unique), uniq)
    case Append =>
      AppendMissingExtends(unique, StripEach(existingTags), uniq);
      AppendMissing(unique, StripEach(existingTags), uniq)
    case Copy => if existing != "" then unique + StripEach(existingTags) else unique
    case _ => unique
  }

  /** The index of the first occurrence of `v` in `xs`. */
  function FirstIndex(xs: seq<string>, v: string): (i: nat)
    requires v in xs
    ensures i < |xs| && xs[i] == v && v !in xs[..i]
  {
    if xs[0] == v then 0
    else
      var j := FirstIndex(xs[1..], v);
      assert xs[..j + 1] == [xs[0]] + xs[1..][..j];
      j + 1
  }

  /** `xs.remove(v)` with its `ValueError` ignored: the first occurrence of `v`, if any, is dropped. */
  function RemoveFirst(xs: seq<string>, v: string): (r: seq<string>)
    ensures v !in xs ==> r == xs
    ensures v in xs ==> var i := FirstIndex(xs, v); r == xs[..i] + xs[i + 1..]
    ensures multiset(r) + (if v in xs then multiset{v} else multiset{}) == multiset(xs)
  {
    if v in xs then
      var i := FirstIndex(xs, v);
      assert xs == xs[..i] + [v] + xs[i + 1..];
      xs[..i] + xs[i + 1..]
    else xs
  }

  /** The merge followed by the removal of one empty tag. */
  function MergedTags(policy: Policy, unique: seq<string>, existing: string, uniq: bool): (r: seq<string>)
    ensures "" !in Merge(policy, unique, existing, uniq) ==> r == Merge(policy, unique, existing, uniq)
    ensures "" in Merge(policy, unique, existing, uniq) ==> |r| == |Merge(policy, unique, existing, uniq)| - 1
  {
    RemoveFirst(Merge(policy, unique, existing, uniq), "")
  }

  /**
    The loop shared by `prepend` (over the new tags, onto the existing pieces) and `append`
    (over the existing pieces, onto the new tags): each item is stripped and appended, unless
    uniquify is on and the list already holds it.
   */
  method AppendStripped(acc: seq<string>, items: seq<string>, uniq: bool) returns (out: seq<string>)
    ensures out == AppendMissing(acc, StripEach(items), uniq)
  {
    out := acc;
    for i := 0 to |items|
      invariant out == AppendMissing(acc, StripEach(items[..i]), uniq)
    {
      var tag := Strip(items[i]);
      AppendMissingSnoc(acc, StripEach(items[..i]), tag, uniq);
      if tag !in out || !uniq {
        out := out + [tag];
      }
      StripEachSnoc(items, i);
    }
    assert items[..|items|] == items;
  }

  /** The `copy` loop: every stripped piece is appended. */
  method AppendAllStripped(acc: seq<string>, items: seq<string>) returns (out: seq<string>)
    ensures out == acc + StripEach(items)
  {
    out := acc;
    for i := 0 to |items|
      invariant out == acc + StripEach(items[..i])
    {
      StripEachSnoc(items, i);
      AppendAssoc(acc, StripEach(items[..i]), [Strip(items[i])]);
      out := out + [Strip(items[i])];
    }
    assert items[..|items|] == items;
  }

  /** The merge step, then the removal of the first empty tag (nothing happens when there is none). */
  method MergeExisting(policy: Policy, unique: seq<string>, existing: string, uniq: bool)
    returns (tags: seq<string>)
    ensures tags == MergedTags(policy, unique, existing, uniq)
  {
    var existingTags := Split(existing, ',');
    var merged := unique;
    if policy == Prepend && |existingTags| > 0 {
      merged := AppendStripped(existingTags, unique, uniq);
    }
    if policy == Append && |existingTags| > 0 {
      merged := AppendStripped(merged, existingTags, uniq);
    }
    if policy == Copy && existing != "" {
      merged := AppendAllStripped(merged, existingTags);
    }
    assert merged == Merge(policy, unique, existing, uniq) by {
      match policy
      case Prepend => assert merged == AppendMissing(existingTags, StripEach(unique), uniq);
      case Append => assert merged == AppendMissing(unique, StripEach(existingTags), uniq);
      case Copy =>
      case _ => assert merged == unique;
    }
    tags := RemoveFirst(merged, "");
  }

  /** One more item is judged against the list built so far. */
  lemma AppendMissingSnoc(acc: seq<string>, items: seq<string>, x: string, uniq: bool)
    ensures var prev := AppendMissing(acc, items, uniq);
            AppendMissing(acc, items + [x], uniq) == if x !in prev || !uniq then prev + [x] else prev
  {
    assert (items + [x])[..|items|] == items;
  }

  /** Without `--uniquify_tags` every item is appended. */
  lemma {:induction false} AppendMissingPlain(acc: seq<string>, items: seq<string>)
    ensures AppendMissing(acc, items, false) == acc + items
    decreases |items|
  {
    if items != [] {
      var init := items[..|items| - 1];
      AppendMissingPlain(acc, init);
      assert items == init + [items[|items| - 1]];
    }
  }

  /** The merge only appends: what the list held before is its prefix. */
  lemma {:induction false} AppendMissingExtends(acc: seq<string>, items: seq<string>, uniq: bool)
    ensures acc <= AppendMissing(acc, items, uniq)
    decreases |items|
  {
    if items != [] {
      AppendMissingExtends(acc, items[..|items| - 1], uniq);
    }
  }

  /**
    The entries appended after the original list are some of the items, in the items'
    order: with uniquify, the first occurrence of each new item, in turn.
   */
  lemma {:induction false} AppendMissingKeepsOrder(acc: seq<string>, items: seq<string>, uniq: bool)
    ensures |acc| <= |AppendMissing(acc, items, uniq)|
    ensures SubseqOf(AppendMissing(acc, items, uniq)[|acc|..], items)
    decreases |items|
  {
    if items != [] {
      var init := items[..|items| - 1];
      var x := items[|items| - 1];
      AppendMissingKeepsOrder(acc, init, uniq);
      var prev := AppendMissing(acc, init, uniq);
      var r := AppendMissing(acc, items, uniq);
      if x !in prev || !uniq {
        assert r == prev + [x];
        assert r[|acc|..] == prev[|acc|..] + [x];
        assert r[|acc|..][..|r[|acc|..]| - 1] == prev[|acc|..];
      } else {
        assert r == prev;
      }
    }
  }

  /** An entry is in the merged list exactly when it was there before or is one of the items. */
  lemma {:induction false} AppendMissingMembers(acc: seq<string>, items: seq<string>, uniq: bool, x: string)
    ensures x in AppendMissing(acc, items, uniq) <==> x in acc || x in items
    decreases |items|
  {
    if items != [] {
      var init := items[..|items| - 1];
      AppendMissingMembers(acc, init, uniq, x);
      assert items == init + [items[|items| - 1]];
    }
  }

  /** Past index `start`, every entry differs from every entry before it. */
  predicate NoNewDuplicates(r: seq<string>, start: nat) {
    forall i, j :: 0 <= j < i < |r| && start <= i ==> r[j] != r[i]
  }

  /**
    With `--uniquify_tags` the merge brings in no duplicate: each appended entry differs
    from every entry before it, whether already in the list or appended earlier.
   */
  lemma {:induction false} AppendMissingNoNewDuplicates(acc: seq<string>, items: seq<string>)
    ensures NoNewDuplicates(AppendMissing(acc, items, true), |acc|)
    decreases |items|
  {
    if items != [] {
      var init := items[..|items| - 1];
      AppendMissingNoNewDuplicates(acc, init);
      AppendMissingExtends(acc, init, true);
      var prev := AppendMissing(acc, init, true);
      var x := items[|items| - 1];
      if x !in prev {
        var r := prev + [x];
        forall i, j | 0 <= j < i < |r| && |acc| <= i ensures r[j] != r[i] {
          if i == |prev| {
            assert r[j] == prev[j];
          } else {
            assert r[j] == prev[j] && r[i] == prev[i];
          }
        }
      }
    }
  }

  /** With `--uniquify_tags` off, `prepend` gives the raw existing pieces followed by the stripped tags. */
  lemma PrependPlain(unique: seq<string>, existing: string)
    ensures Merge(Prepend, unique, existing, false) == Split(existing, ',') + StripEach(unique)
  {
    AppendMissingPlain(Split(existing, ','), StripEach(unique));
  }

  /** With `--uniquify_tags` off, `append` gives the tags followed by the stripped existing pieces. */
  lemma AppendPlain(unique: seq<string>, existing: string)
    ensures Merge(Append, unique, existing, false) == unique + StripEach(Split(existing, ','))
  {
    AppendMissingPlain(unique, StripEach(Split(existing, ',')));
  }

  /**
    What the merged list holds, policy by policy: `prepend` the raw pieces and the stripped
    tags; `append` the tags and the stripped pieces; `copy` the same, but only for a
    non-empty existing caption; any other policy only the tags.
   */
  lemma MergeMembers(policy: Policy, unique: seq<string>, existing: string, uniq: bool, x: string)
    ensures var m := Merge(policy, unique, existing, uniq);
            var pieces := Split(existing, ',');
            && (policy == Prepend ==> (x in m <==> x in pieces || x in StripEach(unique)))
            && (policy == Append ==> (x in m <==> x in unique || x in StripEach(pieces)))
            && (policy == Copy ==> (x in m <==> x in unique || (existing != "" && x in StripEach(pieces))))
            && (policy !in {Prepend, Append, Copy} ==> m == unique)
  {
    var pieces := Split(existing, ',');
    var m := Merge(policy, unique, existing, uniq);
    match policy
    case Prepend =>
      assert m == AppendMissing(pieces, StripEach(unique), uniq);
      AppendMissingMembers(pieces, StripEach(unique), uniq, x);
    case Append =>
      assert m == AppendMissing(unique, StripEach(pieces), uniq);
      AppendMissingMembers(unique, StripEach(pieces), uniq, x);
    case Copy =>
      if existing != "" {
        assert m == unique + StripEach(pieces);
      } else {
        assert m == unique;
      }
    case _ =>
      assert m == unique;
  }

  /**
    With `--uniquify_tags`, `prepend` and `append` bring in no duplicate: past the list they
    start from, every entry differs from every entry before it.
   */
  lemma MergeNoNewDuplicates(policy: Policy, unique: seq<string>, existing: string)
    requires policy == Prepend || policy == Append
    ensures NoNewDuplicates(Merge(policy, unique, existing, true),
                            if policy == Prepend then |Split(existing, ',')| else |unique|)
  {
    var pieces := Split(existing, ',');
    if policy == Prepend {
      AppendMissingNoNewDuplicates(pieces, StripEach(unique));
    } else {
      AppendMissingNoNewDuplicates(unique, StripEach(pieces));
    }
  }

  /** After the merge at most one entry is dropped, and only an empty one. */
  lemma MergedTagsDropAtMostOneEmpty(policy: Policy, unique: seq<string>, existing: string, uniq: bool)
    ensures var m := Merge(policy, unique, existing, uniq);
            var r := MergedTags(policy, unique, existing, uniq);
            multiset(r) == multiset(m) - multiset{""} && |m| - 1 <= |r| <= |m|
  {
    var m := Merge(policy, unique, existing, uniq);
    var r := RemoveFirst(m, "");
    assert |multiset(r)| == |r| && |multiset(m)| == |m|;
  }
}
