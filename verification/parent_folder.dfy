/**
  `get_parent_folder`: the names of the directories above an image, nearest first, used as
  folder tags. The walk takes `--folder_tag_levels` steps up and ends early right after the
  step whose remaining parent is the `--folder_tag_stop` folder.
 */
module ParentFolder {
  import opened PyPath
  import opened CaptionrConfig

  /**
    Whether the walk stops once the remaining parent is `head`. Only a non-empty string
    stop can equal a path string; a `pathlib.Path` stop never does.
   */
  predicate StopsAt(stop: StopPath, head: string) {
    stop.StopText? && stop.text != "" && head == stop.text
  }

  /** `range(int(levels))`: the number of steps the loop may take. */
  function Steps(levels: int): nat {
    if levels > 0 then levels else 0
  }

  /** The `k`-th directory above `p`, as repeated `os.path.split` walks up. */
  function Ancestor(p: string, k: nat): string {
    if k == 0 then p else Dirname(Ancestor(p, k - 1))
  }

  /** Whether the `j`-th directory above `common` is the stop folder. */
  predicate StopAbove(common: string, stop: StopPath, j: nat) {
    StopsAt(stop, Ancestor(common, j))
  }

  /** The name the walk collects at step `k`: the last component of the `k`-th directory up. */
  function NameAt(common: string, k: nat): (r: string)
    ensures '/' !in r
  {
    Basename(Ancestor(common, k))
  }

  /**
    The number of steps the walk takes when it has taken `k` of at most `n` without meeting
    the stop folder: it goes on up to the first stop folder above step `k`, or to `n`.
   */
  function WalkLength(common: string, stop: StopPath, k: nat, n: nat): (m: nat)
    requires k <= n
    ensures k <= m <= n && (k < n ==> k < m)
    ensures forall j :: k < j < m ==> !StopAbove(common, stop, j)
    ensures m < n ==> StopAbove(common, stop, m)
    decreases n - k
  {
    if k == n then n
    else if StopAbove(common, stop, k + 1) then k + 1
    else WalkLength(common, stop, k + 1, n)
  }

  /** The folder names collected from `common` upwards, nearest first. */
  function ParentFolders(common: string, n: nat, stop: StopPath): (r: seq<string>)
    ensures |r| <= n
    ensures forall k :: 0 <= k < |r| ==> '/' !in r[k]
  {
    seq(WalkLength(common, stop, 0, n), k requires 0 <= k => NameAt(common, k))
  }

  /** The loop of `get_parent_folder`, starting from the directory of `filepath`. */
  method GetParentFolder(filepath: string, levels: int, stop: StopPath) returns (paths: seq<string>)
    ensures paths == ParentFolders(Dirname(filepath), Steps(levels), stop)
    ensures levels <= 0 ==> paths == []
  {
    var common := Dirname(filepath);
    ghost var start := common;
    paths := [];
    var n := Steps(levels);
    for i := 0 to n
      invariant common == Ancestor(start, i)
      invariant |paths| == i && forall k :: 0 <= k < i ==> paths[k] == NameAt(start, k)
      invariant WalkLength(start, stop, 0, n) == WalkLength(start, stop, i, n)
    {
      var split := PathSplit(common);
      common := split.0;
      paths := paths + [split.1];
      if StopsAt(stop, split.0) {
        return;
      }
    }
  }

  /**
    The walk collects at most `n` names, and at least one when `n` is positive. It stops
    early only at the stop folder: no directory passed on the way up is the stop, and when
    fewer than `n` names come back, the parent left after the last one is the stop.
   */
  lemma ParentFoldersStop(common: string, n: nat, stop: StopPath)
    ensures var r := ParentFolders(common, n, stop);
            && |r| <= n && (n > 0 ==> |r| >= 1)
            && (forall j :: 0 < j < |r| ==> !StopsAt(stop, Ancestor(common, j)))
            && (|r| < n ==> StopsAt(stop, Ancestor(common, |r|)))
  {
    var m := WalkLength(common, stop, 0, n);
    forall j | 0 < j < m ensures !StopsAt(stop, Ancestor(common, j)) {
      assert !StopAbove(common, stop, j);
    }
    if m < n {
      assert StopAbove(common, stop, m);
    }
  }

  /** When no directory on the way up is the stop folder, the walk takes every step. */
  lemma {:induction false} NoStopFullWalk(common: string, stop: StopPath, k: nat, n: nat)
    requires k <= n
    requires forall j :: k < j <= n ==> !StopAbove(common, stop, j)
    ensures WalkLength(common, stop, k, n) == n
    decreases n - k
  {
    if k < n {
      NoStopFullWalk(common, stop, k + 1, n);
    }
  }

  /**
    A stop given as a `pathlib.Path`, or none at all, never ends the walk early: there are
    exactly `levels` names when `levels` is positive, and the `k`-th is the name of the
    `k`-th directory up, which holds no `/`.
   */
  lemma PathStopNeverFires(common: string, levels: int, stop: StopPath)
    requires !stop.StopText?
    ensures var r := ParentFolders(common, Steps(levels), stop);
            && |r| == Steps(levels)
            && forall k :: 0 <= k < |r| ==> r[k] == Basename(Ancestor(common, k)) && '/' !in r[k]
  {
    NoStopFullWalk(common, stop, 0, Steps(levels));
  }
}
