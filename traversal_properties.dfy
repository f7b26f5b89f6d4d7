/** What `traverseListViewChildren` (util.py) promises, proved of the pass-by-pass
    specification `Util.Traversal` that the loop `Util.TraverseListViewChildren` is
    proved to compute. */
module TraversalProperties {
  import opened Wrappers
  import opened Util

  // ---------------------------------------------------------------------------
  // Small facts about the pieces of one pass
  // ---------------------------------------------------------------------------

  lemma HashSetOfAppend<T>(s: seq<T>, t: seq<T>, hash: T -> int)
    ensures HashSetOf(s + t, hash) == HashSetOf(s, hash) + HashSetOf(t, hash)
  {
    var u := s + t;
    forall h | h in HashSetOf(u, hash) ensures h in HashSetOf(s, hash) + HashSetOf(t, hash) {
      var i :| 0 <= i < |u| && hash(u[i]) == h;
      if i >= |s| { assert u[i] == t[i - |s|]; }
    }
    forall h | h in HashSetOf(t, hash) ensures h in HashSetOf(u, hash) {
      var i :| 0 <= i < |t| && hash(t[i]) == h;
      assert u[|s| + i] == t[i];
    }
    forall h | h in HashSetOf(s, hash) ensures h in HashSetOf(u, hash) {
      var i :| 0 <= i < |s| && hash(s[i]) == h;
      assert u[i] == s[i];
    }
  }

  /** Appending children that are fresh with respect to the hashes of `calls` keeps the
      hashes of all calls distinct. */
  lemma AppendFresh<T>(calls: seq<T>, children: seq<T>, hash: T -> int)
    requires HashesDistinct(calls, hash)
    requires Fresh(children, HashSetOf(calls, hash), hash)
    ensures HashesDistinct(calls + children, hash)
  {
    var u := calls + children;
    forall i, j | 0 <= i < j < |u| ensures hash(u[i]) != hash(u[j]) {
      if j >= |calls| {
        assert u[j] == children[j - |calls|];
        if i >= |calls| {
          assert u[i] == children[i - |calls|];
        } else {
          assert u[i] == calls[i];
          assert hash(calls[i]) in HashSetOf(calls, hash);
        }
      } else {
        assert u[i] == calls[i] && u[j] == calls[j];
      }
    }
  }

  /** The children a pass keeps are fully visible and come from that pass's window. */
  lemma ReconciledChildrenShown<T>(window: seq<T>, lastChild: Option<T>, hash: T -> int, visible: T -> bool)
    requires Reconcile(window, lastChild, hash, visible).NewChildren?
    ensures var c := Reconcile(window, lastChild, hash, visible).children;
      forall i :: 0 <= i < |c| ==> visible(c[i]) && c[i] in window
  {
    var shown := FullyVisible(window, visible);
    var c := Reconcile(window, lastChild, hash, visible).children;
    FullyVisibleMembers(window, visible);
    var start := |shown| - |c|;
    assert c == shown[start..] by {
      ReconcileSpec(window, lastChild, hash, visible);
    }
    forall i | 0 <= i < |c| ensures visible(c[i]) && c[i] in window {
      assert c[i] == shown[start + i];
    }
  }

  // ---------------------------------------------------------------------------
  // Properties of a whole traversal
  // ---------------------------------------------------------------------------

  /** `transform` calls are never taken back: a run from some state extends that state's
      calls. */
  lemma {:induction false} RunExtendsCalls<T>(windows: seq<seq<T>>, pass: nat, p: Progress<T>,
                                               hash: T -> int, visible: T -> bool)
    ensures p.calls <= Run(windows, pass, p, hash, visible).calls
    decreases |windows| - pass
  {
    match Reconcile(WindowAt(windows, pass), p.lastChild, hash, visible)
    case Skipped =>
    case NewChildren(children) =>
      if children != [] {
        var pe := ProcessChildren(children, p, hash);
        if pe.Processed? {
          ProcessChildrenCompleted(children, p, hash);
          RunExtendsCalls(windows, pass + 1, pe.progress, hash, visible);
        } else {
          ProcessChildrenDuplicate(children, p, hash);
        }
      }
  }

  /** How one pass decides the traversal. It raises "scrolling too fast", and makes no
      further `transform` call, exactly when a last child exists and no fully visible
      child of the window has its hash. It ends without error, and makes no `transform`
      call, exactly when no children remain after reconciliation. */
  lemma PassOutcome<T>(windows: seq<seq<T>>, pass: nat, p: Progress<T>, hash: T -> int, visible: T -> bool)
    ensures var r := Run(windows, pass, p, hash, visible);
      var next := Reconcile(WindowAt(windows, pass), p.lastChild, hash, visible);
      && (next.Skipped? <==> r.outcome == ScrollingTooFast && r.calls == p.calls)
      && (next == NewChildren([]) <==> r.outcome == Finished && r.calls == p.calls)
  {
    match Reconcile(WindowAt(windows, pass), p.lastChild, hash, visible)
    case Skipped =>
    case NewChildren(children) =>
      if children != [] {
        var pe := ProcessChildren(children, p, hash);
        if pe.Processed? {
          ProcessChildrenCompleted(children, p, hash);
          RunExtendsCalls(windows, pass + 1, pe.progress, hash, visible);
          assert |pe.progress.calls| > |p.calls|;
        }
      }
  }

  /** `c` was read in the window of pass `from` or of a later pass. */
  ghost predicate ReadFrom<T>(c: T, windows: seq<seq<T>>, from: nat)
  {
    exists k :: from <= k < |windows| && c in windows[k]
  }

  /** The calls from position `from` on are of fully visible children read in the window
      of pass `pass` or of a later pass. */
  ghost predicate CallsShownFrom<T>(calls: seq<T>, from: nat, windows: seq<seq<T>>, pass: nat, visible: T -> bool)
  {
    forall i :: from <= i < |calls| ==> visible(calls[i]) && ReadFrom(calls[i], windows, pass)
  }

  /** Every `transform` call a run makes from pass `pass` on is of a fully visible child of
      a window read from that pass on. */
  lemma {:induction false} RunCallsShown<T>(windows: seq<seq<T>>, pass: nat, p: Progress<T>,
                                             hash: T -> int, visible: T -> bool)
    ensures CallsShownFrom(Run(windows, pass, p, hash, visible).calls, |p.calls|, windows, pass, visible)
    decreases |windows| - pass
  {
    var window := WindowAt(windows, pass);
    var next := Reconcile(window, p.lastChild, hash, visible);
    var r := Run(windows, pass, p, hash, visible);
    if next.NewChildren? && next.children != [] {
      var children := next.children;
      assert pass < |windows|;
      var pe := ProcessChildren(children, p, hash);
      var added: seq<T>;
      if pe.Processed? {
        added := children;
        assert pe.progress.calls == p.calls + children by {
          ProcessChildrenCompleted(children, p, hash);
        }
        assert r == Run(windows, pass + 1, pe.progress, hash, visible);
        assert pe.progress.calls <= r.calls by {
          RunExtendsCalls(windows, pass + 1, pe.progress, hash, visible);
        }
        assert CallsShownFrom(r.calls, |pe.progress.calls|, windows, pass + 1, visible) by {
          RunCallsShown(windows, pass + 1, pe.progress, hash, visible);
        }
        forall i | |pe.progress.calls| <= i < |r.calls|
          ensures visible(r.calls[i]) && ReadFrom(r.calls[i], windows, pass)
        {
          assert ReadFrom(r.calls[i], windows, pass + 1);
        }
      } else {
        ProcessChildrenDuplicate(children, p, hash);
        added := children[..|pe.progress.calls| - |p.calls|];
        assert r.calls == pe.progress.calls;
      }
      assert p.calls + added <= r.calls;
      assert forall i :: 0 <= i < |children| ==> visible(children[i]) && children[i] in window by {
        ReconciledChildrenShown(window, p.lastChild, hash, visible);
      }
      forall i | |p.calls| <= i < |p.calls| + |added|
        ensures visible(r.calls[i]) && ReadFrom(r.calls[i], windows, pass)
      {
        assert r.calls[i] == added[i - |p.calls|] == children[i - |p.calls|];
        assert r.calls[i] in windows[pass];
      }
    } else {
      assert r.calls == p.calls;
    }
  }

  /** `transform` is only ever applied to a fully visible child of some window read. */
  lemma TraversalCallsShown<T>(windows: seq<seq<T>>, hash: T -> int, visible: T -> bool)
    ensures var calls := Traversal(windows, hash, visible).calls;
      forall i :: 0 <= i < |calls| ==>
        visible(calls[i]) && exists k :: 0 <= k < |windows| && calls[i] in windows[k]
  {
    var start := Progress(None, {}, []);
    RunCallsShown(windows, 0, start, hash, visible);
    assert Traversal(windows, hash, visible) == Run(windows, 0, start, hash, visible);
  }

  /** As long as the visited hashes are those of the calls made, the calls keep pairwise
      distinct hashes. */
  lemma {:induction false} RunHashesDistinct<T>(windows: seq<seq<T>>, pass: nat, p: Progress<T>,
                                                 hash: T -> int, visible: T -> bool)
    requires p.visitedHashes == HashSetOf(p.calls, hash)
    requires HashesDistinct(p.calls, hash)
    ensures HashesDistinct(Run(windows, pass, p, hash, visible).calls, hash)
    decreases |windows| - pass
  {
    var next := Reconcile(WindowAt(windows, pass), p.lastChild, hash, visible);
    if next.NewChildren? && next.children != [] {
      var children := next.children;
      var pe := ProcessChildren(children, p, hash);
      if pe.Processed? {
        var q := pe.progress;
        assert q.visitedHashes == HashSetOf(q.calls, hash) && HashesDistinct(q.calls, hash) by {
          ProcessChildrenCompletesIffFresh(children, p, hash);
          ProcessChildrenCompleted(children, p, hash);
          AppendFresh(p.calls, children, hash);
          HashSetOfAppend(p.calls, children, hash);
        }
        assert Run(windows, pass, p, hash, visible) == Run(windows, pass + 1, q, hash, visible);
        RunHashesDistinct(windows, pass + 1, q, hash, visible);
      } else {
        assert HashesDistinct(pe.progress.calls, hash) by {
          ProcessChildrenDuplicate(children, p, hash);
          var n := |pe.progress.calls| - |p.calls|;
          AppendFresh(p.calls, children[..n], hash);
        }
      }
    }
  }

  /** `transform` never sees two children with the same hash. */
  lemma TraversalHashesDistinct<T>(windows: seq<seq<T>>, hash: T -> int, visible: T -> bool)
    ensures HashesDistinct(Traversal(windows, hash, visible).calls, hash)
  {
    var none: seq<T> := [];
    assert HashSetOf(none, hash) == {};
    RunHashesDistinct(windows, 0, Progress(None, {}, []), hash, visible);
  }

  // ---------------------------------------------------------------------------
  // Exactly once, in order, over a well-behaved sliding window
  // ---------------------------------------------------------------------------

  /** Window `k` (after the first) slides the view forward over `items`: after the
      visibility filter it shows exactly `items[lo[k]..hi[k]]`; it shows again the last item
      of window `k - 1`; it brings at least one new item, unless it is the last window, which
      brings none and reaches the end of the list. */
  ghost predicate WindowSlides<T>(items: seq<T>, windows: seq<seq<T>>, lo: seq<nat>, hi: seq<nat>,
                                  visible: T -> bool, k: nat)
    requires |lo| == |windows| && |hi| == |windows|
    requires 1 <= k < |windows|
  {
    && lo[k] < hi[k - 1] <= hi[k] <= |items|
    && FullyVisible(windows[k], visible) == items[lo[k]..hi[k]]
    && (k < |windows| - 1 ==> hi[k - 1] < hi[k])
    && (k == |windows| - 1 ==> hi[k - 1] == hi[k] == |items|)
  }

  /** The windows show the list `items` through a window that slides forward: the first
      window shows, after the visibility filter, `items[..hi[0]]`, and every later window
      slides on from the one before. */
  ghost predicate SlidingWindows<T>(items: seq<T>, windows: seq<seq<T>>, lo: seq<nat>, hi: seq<nat>,
                                    visible: T -> bool)
  {
    && 2 <= |windows| && |lo| == |windows| && |hi| == |windows|
    && lo[0] == 0 && hi[0] <= |items|
    && FullyVisible(windows[0], visible) == items[0..hi[0]]
    && forall k :: 1 <= k < |windows| ==> WindowSlides(items, windows, lo, hi, visible, k)
  }


  /** The children after the end of what was already done are fresh. */
  lemma SliceFresh<T>(items: seq<T>, a: nat, b: nat, hash: T -> int)
    requires a <= b <= |items|
    requires HashesDistinct(items, hash)
    ensures Fresh(items[a..b], HashSetOf(items[..a], hash), hash)
    ensures HashSetOf(items[..a], hash) + HashSetOf(items[a..b], hash) == HashSetOf(items[..b], hash)
  {
    forall i | 0 <= i < b - a ensures hash(items[a..b][i]) !in HashSetOf(items[..a], hash) {
      assert items[a..b][i] == items[a + i];
      forall j | 0 <= j < a ensures hash(items[..a][j]) != hash(items[a + i]) {
        assert items[..a][j] == items[j];
      }
    }
    forall i, j | 0 <= i < j < b - a ensures hash(items[a..b][i]) != hash(items[a..b][j]) {
      assert items[a..b][i] == items[a + i] && items[a..b][j] == items[a + j];
    }
    assert items[..a] + items[a..b] == items[..b];
    HashSetOfAppend(items[..a], items[a..b], hash);
  }

  /** A window showing `items[s..t]` with the last child `items[e - 1]` in it keeps exactly
      `items[e..t]`. */
  lemma ReconcileSlice<T>(items: seq<T>, window: seq<T>, s: nat, e: nat, t: nat, hash: T -> int, visible: T -> bool)
    requires s < e <= t <= |items|
    requires FullyVisible(window, visible) == items[s..t]
    requires HashesDistinct(items, hash)
    ensures Reconcile(window, Some(items[e - 1]), hash, visible) == NewChildren(items[e..t])
  {
    var shown := items[s..t];
    var hashes := HashesOf(shown, hash);
    var lastHash := hash(items[e - 1]);
    assert hashes[e - 1 - s] == lastHash;
    var idx := IndexOf(hashes, lastHash);
    assert hashes[idx] == hash(items[s + idx]);
    assert s + idx == e - 1;
    assert shown[idx + 1..] == items[e..t];
  }

  /** Processing the fresh slice `items[e..t]` after `items[..e]` completes with `items[..t]`
      done. */
  lemma ProcessSlice<T>(items: seq<T>, lastChild: Option<T>, e: nat, t: nat, hash: T -> int)
    requires e < t <= |items|
    requires HashesDistinct(items, hash)
    ensures ProcessChildren(items[e..t], Progress(lastChild, HashSetOf(items[..e], hash), items[..e]), hash)
         == Processed(Progress(Some(items[t - 1]), HashSetOf(items[..t], hash), items[..t]))
  {
    var children := items[e..t];
    var p := Progress(lastChild, HashSetOf(items[..e], hash), items[..e]);
    var r := ProcessChildren(children, p, hash);
    assert r.Processed? by {
      SliceFresh(items, e, t, hash);
      ProcessChildrenCompletesIffFresh(children, p, hash);
    }
    assert r.progress == Progress(Some(children[|children| - 1]), p.visitedHashes + HashSetOf(children, hash),
                                  p.calls + children) by {
      ProcessChildrenCompleted(children, p, hash);
    }
    assert p.visitedHashes + HashSetOf(children, hash) == HashSetOf(items[..t], hash) by {
      SliceFresh(items, e, t, hash);
    }
    assert p.calls + children == items[..t];
    assert children[|children| - 1] == items[t - 1];
  }

  /** From pass `k` with progress `p`, the traversal finishes having transformed `items`. */
  ghost predicate FinishesAll<T>(windows: seq<seq<T>>, k: nat, p: Progress<T>, hash: T -> int, visible: T -> bool,
                                 items: seq<T>)
  {
    Run(windows, k, p, hash, visible) == Trace(Finished, items)
  }

  /** One pass over a window showing `items[s..t]`, with everything up to `items[e - 1]`
      done: it finishes if nothing is new, and otherwise does `items[e..t]` and moves on. */
  lemma SlidePass<T>(items: seq<T>, windows: seq<seq<T>>, k: nat, s: nat, e: nat, t: nat,
                     hash: T -> int, visible: T -> bool, p: Progress<T>)
    requires k < |windows|
    requires s < e <= t <= |items|
    requires FullyVisible(windows[k], visible) == items[s..t]
    requires HashesDistinct(items, hash)
    requires p == Progress(Some(items[e - 1]), HashSetOf(items[..e], hash), items[..e])
    ensures e == t ==> Run(windows, k, p, hash, visible) == Trace(Finished, items[..e])
    ensures e < t ==>
      Run(windows, k, p, hash, visible) ==
      Run(windows, k + 1, Progress(Some(items[t - 1]), HashSetOf(items[..t], hash), items[..t]), hash, visible)
  {
    assert Reconcile(WindowAt(windows, k), p.lastChild, hash, visible) == NewChildren(items[e..t]) by {
      assert WindowAt(windows, k) == windows[k];
      ReconcileSlice(items, windows[k], s, e, t, hash, visible);
    }
    if e == t {
      assert items[e..t] == [];
    } else {
      var q := Progress(Some(items[t - 1]), HashSetOf(items[..t], hash), items[..t]);
      assert ProcessChildren(items[e..t], p, hash) == Processed(q) by {
        ProcessSlice(items, p.lastChild, e, t, hash);
      }
    }
  }

  /** From pass `k` on, with everything up to the end of window `k - 1` done, the traversal
      finishes having transformed exactly `items`. */
  lemma {:induction false} SlidingFromPass<T>(items: seq<T>, windows: seq<seq<T>>, lo: seq<nat>, hi: seq<nat>,
                                               hash: T -> int, visible: T -> bool, k: nat, p: Progress<T>)
    requires |lo| == |windows| && |hi| == |windows|
    requires forall j :: 1 <= j < |windows| ==> WindowSlides(items, windows, lo, hi, visible, j)
    requires HashesDistinct(items, hash)
    requires 1 <= k < |windows|
    requires 1 <= hi[k - 1] <= |items|
    requires p == Progress(Some(items[hi[k - 1] - 1]), HashSetOf(items[..hi[k - 1]], hash), items[..hi[k - 1]])
    ensures FinishesAll(windows, k, p, hash, visible, items)
    decreases |windows| - k
  {
    assert WindowSlides(items, windows, lo, hi, visible, k);
    var e, t := hi[k - 1], hi[k];
    if k == |windows| - 1 {
      LastPass(items, windows, k, lo[k], e, hash, visible, p);
    } else {
      var q := Progress(Some(items[t - 1]), HashSetOf(items[..t], hash), items[..t]);
      SlidingFromPass(items, windows, lo, hi, hash, visible, k + 1, q);
      MiddlePass(items, windows, k, lo[k], e, t, hash, visible, p);
    }
  }

  /** The last pass reads nothing new and ends the traversal with everything done. */
  lemma LastPass<T>(items: seq<T>, windows: seq<seq<T>>, k: nat, s: nat, e: nat,
                    hash: T -> int, visible: T -> bool, p: Progress<T>)
    requires k < |windows|
    requires s < e == |items|
    requires FullyVisible(windows[k], visible) == items[s..e]
    requires HashesDistinct(items, hash)
    requires p == Progress(Some(items[e - 1]), HashSetOf(items[..e], hash), items[..e])
    ensures FinishesAll(windows, k, p, hash, visible, items)
  {
    SlidePass(items, windows, k, s, e, e, hash, visible, p);
    assert items[..e] == items;
  }

  /** A pass that brings new items does them, and the rest of the traversal is that of the
      next pass. */
  lemma MiddlePass<T>(items: seq<T>, windows: seq<seq<T>>, k: nat, s: nat, e: nat, t: nat,
                      hash: T -> int, visible: T -> bool, p: Progress<T>)
    requires k < |windows|
    requires s < e < t <= |items|
    requires FullyVisible(windows[k], visible) == items[s..t]
    requires HashesDistinct(items, hash)
    requires p == Progress(Some(items[e - 1]), HashSetOf(items[..e], hash), items[..e])
    requires FinishesAll(windows, k + 1, Progress(Some(items[t - 1]), HashSetOf(items[..t], hash), items[..t]),
                         hash, visible, items)
    ensures FinishesAll(windows, k, p, hash, visible, items)
  {
    SlidePass(items, windows, k, s, e, t, hash, visible, p);
  }

  /** The first pass, over a window showing `items[..t]`, does all of `items[..t]`; so if
      the traversal finishes from the second pass on, the whole traversal finishes. */
  lemma FirstPass<T>(items: seq<T>, windows: seq<seq<T>>, t: nat, hash: T -> int, visible: T -> bool)
    requires 0 < |windows|
    requires 0 < t <= |items|
    requires FullyVisible(windows[0], visible) == items[0..t]
    requires HashesDistinct(items, hash)
    requires FinishesAll(windows, 1, Progress(Some(items[t - 1]), HashSetOf(items[..t], hash), items[..t]),
                         hash, visible, items)
    ensures Traversal(windows, hash, visible) == Trace(Finished, items)
  {
    assert WindowAt(windows, 0) == windows[0];
    assert items[..0] == [];
    assert HashSetOf(items[..0], hash) == {};
    ProcessSlice(items, None, 0, t, hash);
    assert items[0..t] != [];
  }

  /** Over distinct, consistently hashed items shown through a sliding window with overlap,
      `transform` is applied to every item exactly once, in list order, and the traversal
      ends without error. */
  lemma ExactlyOnceInOrder<T>(items: seq<T>, windows: seq<seq<T>>, lo: seq<nat>, hi: seq<nat>,
                              hash: T -> int, visible: T -> bool)
    requires SlidingWindows(items, windows, lo, hi, visible)
    requires HashesDistinct(items, hash)
    ensures Traversal(windows, hash, visible) == Trace(Finished, items)
  {
    var t := hi[0];
    assert WindowSlides(items, windows, lo, hi, visible, 1);
    SlidingFromPass(items, windows, lo, hi, hash, visible, 1,
                    Progress(Some(items[t - 1]), HashSetOf(items[..t], hash), items[..t]));
    FirstPass(items, windows, t, hash, visible);
  }

  // ---------------------------------------------------------------------------
  // The hasher is only applied to fully visible children
  // ---------------------------------------------------------------------------

  lemma ReconcileHashOnVisibleOnly<T>(window: seq<T>, lastChild: Option<T>,
                                      h1: T -> int, h2: T -> int, visible: T -> bool)
    requires forall t :: visible(t) ==> h1(t) == h2(t)
    requires lastChild.Some? ==> visible(lastChild.value)
    ensures Reconcile(window, lastChild, h1, visible) == Reconcile(window, lastChild, h2, visible)
  {
    var shown := FullyVisible(window, visible);
    FullyVisibleMembers(window, visible);
    assert HashesOf(shown, h1) == HashesOf(shown, h2);
  }

  lemma {:induction false} ProcessChildrenHashOnVisibleOnly<T>(children: seq<T>, p: Progress<T>,
                                                                h1: T -> int, h2: T -> int, visible: T -> bool)
    requires forall t :: visible(t) ==> h1(t) == h2(t)
    requires forall i :: 0 <= i < |children| ==> visible(children[i])
    ensures ProcessChildren(children, p, h1) == ProcessChildren(children, p, h2)
    decreases |children|
  {
    if children != [] {
      var child := children[0];
      var q := Progress(Some(child), p.visitedHashes + {h1(child)}, p.calls + [child]);
      ProcessChildrenHashOnVisibleOnly(children[1..], q, h1, h2, visible);
    }
  }

  lemma {:induction false} RunHashOnVisibleOnly<T>(windows: seq<seq<T>>, pass: nat, p: Progress<T>,
                                                    h1: T -> int, h2: T -> int, visible: T -> bool)
    requires forall t :: visible(t) ==> h1(t) == h2(t)
    requires p.lastChild.Some? ==> visible(p.lastChild.value)
    ensures Run(windows, pass, p, h1, visible) == Run(windows, pass, p, h2, visible)
    decreases |windows| - pass
  {
    var window := WindowAt(windows, pass);
    ReconcileHashOnVisibleOnly(window, p.lastChild, h1, h2, visible);
    var next := Reconcile(window, p.lastChild, h1, visible);
    if next.NewChildren? && next.children != [] {
      var children := next.children;
      assert visible(children[|children| - 1]) by {
        ReconciledChildrenShown(window, p.lastChild, h1, visible);
      }
      assert ProcessChildren(children, p, h1) == ProcessChildren(children, p, h2) by {
        ReconciledChildrenShown(window, p.lastChild, h1, visible);
        ProcessChildrenHashOnVisibleOnly(children, p, h1, h2, visible);
      }
      var pe := ProcessChildren(children, p, h1);
      if pe.Processed? {
        assert pe.progress.lastChild == Some(children[|children| - 1]) by {
          ProcessChildrenCompleted(children, p, h1);
        }
        RunHashOnVisibleOnly(windows, pass + 1, pe.progress, h1, h2, visible);
      }
    }
  }

  /** The traversal only hashes fully visible children (and the last child, which was one):
      two hashers that agree on fully visible children give the same traversal. */
  lemma TraversalHashOnVisibleOnly<T>(windows: seq<seq<T>>, h1: T -> int, h2: T -> int, visible: T -> bool)
    requires forall t :: visible(t) ==> h1(t) == h2(t)
    ensures Traversal(windows, h1, visible) == Traversal(windows, h2, visible)
  {
    RunHashOnVisibleOnly(windows, 0, Progress(None, {}, []), h1, h2, visible);
  }
}
