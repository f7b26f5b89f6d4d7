/** The generic helpers of util.py: looking a view up by a predicate, and traversing a
    lazily rendered, scrolling list whose children can only be read through a shifting
    window.

    The device is abstracted as the sequence of windows the traversal reads, one per pass
    (the list view's children after each reload); once that sequence runs out, the window
    read is empty. The caller's `transform` is recorded: every child it is applied to is
    appended to `calls`, in order. */
module Util {
  import opened Wrappers
  import opened Views

  // ---------------------------------------------------------------------------
  // findViewWithPredicate / findViewWithPredicateOrRaise
  // ---------------------------------------------------------------------------

  /** The first view, in iteration order, that satisfies `pred`. */
  function FirstMatch(views: seq<View>, pred: View -> bool): (r: Option<View>)
    ensures r.None? <==> forall i :: 0 <= i < |views| ==> !pred(views[i])
    ensures r.Some? ==>
      exists i :: 0 <= i < |views| && views[i] == r.value && pred(views[i]) &&
        forall j :: 0 <= j < i ==> !pred(views[j])
    decreases |views|
  {
    if views == [] then None
    else if pred(views[0]) then Some(views[0])
    else
      var r := FirstMatch(views[1..], pred);
      assert r.Some? ==> exists i :: 0 < i <= |views[1..]| && views[i] == r.value && pred(views[i]) &&
                                    forall j :: 0 <= j < i ==> !pred(views[j]) by {
        if r.Some? {
          var i :| 0 <= i < |views[1..]| && views[1..][i] == r.value && pred(views[1..][i]) &&
            forall j :: 0 <= j < i ==> !pred(views[1..][j]);
          assert forall j :: 0 <= j < i + 1 ==> !pred(views[j]) by {
            forall j | 0 <= j < i + 1 ensures !pred(views[j]) {
              if j > 0 { assert views[j] == views[1..][j - 1]; }
            }
          }
        }
      }
      r
  }

  /** The views are those of `vc.getViewIds()`, in the dictionary's iteration order. */
  method FindViewWithPredicate(views: seq<View>, pred: View -> bool) returns (r: Option<View>)
    ensures r == FirstMatch(views, pred)
  {
    var i := 0;
    while i < |views|
      invariant 0 <= i <= |views|
      invariant FirstMatch(views, pred) == FirstMatch(views[i..], pred)
    {
      assert views[i..][1..] == views[i + 1..];
      if pred(views[i]) {
        return Some(views[i]);
      }
      i := i + 1;
    }
    return None;
  }

  const DefaultLookupMessage := "Cannot find view with predicate."

  method FindViewWithPredicateOrRaise(views: seq<View>, pred: View -> bool, msg: Option<string>)
    returns (r: Result<View, string>)
    ensures r.Failure? <==> forall i :: 0 <= i < |views| ==> !pred(views[i])
    ensures r.Success? ==> Some(r.value) == FirstMatch(views, pred)
    ensures r.Failure? ==> r.error == (if msg.None? then DefaultLookupMessage else msg.value)
  {
    var result := FindViewWithPredicate(views, pred);
    if result.None? {
      var message := if msg.None? then DefaultLookupMessage else msg.value;
      return Failure(message);
    } else {
      return Success(result.value);
    }
  }

  // ---------------------------------------------------------------------------
  // traverseListViewChildren: specification, pass by pass
  // ---------------------------------------------------------------------------

  /** How a traversal ends: normally, or by one of its two exceptions. */
  datatype Outcome = Finished | ScrollingTooFast | DuplicateHash
  {
    /** The message of the exception raised. */
    function Message(): string
      requires this != Finished
    {
      match this
      case ScrollingTooFast => TooFastMessage
      case DuplicateHash => DuplicateHashMessage
    }
  }

  const TooFastMessage :=
    "You're scrolling too fast and missing children, please increase scroller's duration or swipe dead zone percentage."
  const DuplicateHashMessage :=
    "Encountered same hash from multiple children. Is your hash function truly unique?"

  /** The loop's state: `last_child`, `visited_hashes`, and the `transform` calls so far. */
  datatype Progress<T> = Progress(lastChild: Option<T>, visitedHashes: set<int>, calls: seq<T>)

  /** What a traversal observably does: how it ends, and which children it transformed. */
  datatype Trace<T> = Trace(outcome: Outcome, calls: seq<T>)

  /** The list view's children as read on pass `pass`. */
  function WindowAt<T>(windows: seq<seq<T>>, pass: nat): seq<T>
  {
    if pass < |windows| then windows[pass] else []
  }

  /** The children kept by the visibility check, in their order. */
  function FullyVisible<T>(children: seq<T>, visible: T -> bool): (r: seq<T>)
    ensures |r| <= |children|
    decreases |children|
  {
    if children == [] then []
    else if visible(children[0]) then [children[0]] + FullyVisible(children[1..], visible)
    else FullyVisible(children[1..], visible)
  }

  /** The children kept are fully visible children of the window. */
  lemma {:induction false} FullyVisibleMembers<T>(children: seq<T>, visible: T -> bool)
    ensures forall i :: 0 <= i < |FullyVisible(children, visible)| ==> visible(FullyVisible(children, visible)[i])
    ensures forall i :: 0 <= i < |FullyVisible(children, visible)| ==> FullyVisible(children, visible)[i] in children
    decreases |children|
  {
    if children != [] {
      FullyVisibleMembers(children[1..], visible);
      var r := FullyVisible(children, visible);
      var rest := FullyVisible(children[1..], visible);
      forall i | 0 <= i < |r| ensures visible(r[i]) && r[i] in children {
        if visible(children[0]) {
          if i > 0 {
            assert r[i] == rest[i - 1];
            assert rest[i - 1] in children[1..];
          }
        } else {
          assert r[i] == rest[i];
          assert rest[i] in children[1..];
        }
      }
    }
  }

  /** Every fully visible child of the window is kept. */
  lemma {:induction false} FullyVisibleComplete<T>(children: seq<T>, visible: T -> bool)
    ensures forall i :: 0 <= i < |children| && visible(children[i]) ==> children[i] in FullyVisible(children, visible)
    decreases |children|
  {
    if children != [] {
      FullyVisibleComplete(children[1..], visible);
      var r := FullyVisible(children, visible);
      var rest := FullyVisible(children[1..], visible);
      forall i | 0 <= i < |children| && visible(children[i]) ensures children[i] in r {
        if i > 0 {
          assert children[i] == children[1..][i - 1];
          assert children[i] in rest;
        }
      }
    }
  }

  /** No child is kept more often than the window shows it. */
  lemma {:induction false} FullyVisibleSubMultiset<T>(children: seq<T>, visible: T -> bool)
    ensures multiset(FullyVisible(children, visible)) <= multiset(children)
    decreases |children|
  {
    if children != [] {
      FullyVisibleSubMultiset(children[1..], visible);
      assert children == [children[0]] + children[1..];
    }
  }

  /** Filtering a window piece by piece gives the same children, in the same order and with
      the same repeats, as filtering it whole. */
  lemma {:induction false} FullyVisibleAppend<T>(a: seq<T>, b: seq<T>, visible: T -> bool)
    ensures FullyVisible(a + b, visible) == FullyVisible(a, visible) + FullyVisible(b, visible)
    decreases |a|
  {
    if a == [] {
      assert a + b == b;
    } else {
      var ab := a + b;
      assert ab != [] && ab[0] == a[0] && ab[1..] == a[1..] + b;
      var head := if visible(a[0]) then [a[0]] else [];
      calc {
        FullyVisible(ab, visible);
        head + FullyVisible(a[1..] + b, visible);
        { FullyVisibleAppend(a[1..], b, visible); }
        head + (FullyVisible(a[1..], visible) + FullyVisible(b, visible));
        (head + FullyVisible(a[1..], visible)) + FullyVisible(b, visible);
        FullyVisible(a, visible) + FullyVisible(b, visible);
      }
    }
  }

  /** Filtering any split of the window piece by piece gives the whole window's result. */
  lemma FullyVisibleSplit<T>(children: seq<T>, visible: T -> bool)
    ensures forall k :: 0 <= k <= |children| ==>
      FullyVisible(children, visible) == FullyVisible(children[..k], visible) + FullyVisible(children[k..], visible)
  {
    forall k | 0 <= k <= |children|
      ensures FullyVisible(children, visible) == FullyVisible(children[..k], visible) + FullyVisible(children[k..], visible)
    {
      FullyVisibleAppend(children[..k], children[k..], visible);
      assert children[..k] + children[k..] == children;
    }
  }

  /** A single child is kept exactly when it is fully visible. */
  lemma FullyVisibleSingle<T>(c: T, visible: T -> bool)
    ensures FullyVisible([c], visible) == if visible(c) then [c] else []
  {
    assert [c][1..] == [];
  }

  /** The visibility check keeps every fully visible child and nothing else, in window order
      and with every repeat: filtering any split of the window piece by piece gives the same
      result, and a single child is kept exactly when it is fully visible. */
  lemma FullyVisibleSpec<T>(children: seq<T>, visible: T -> bool)
    ensures var r := FullyVisible(children, visible);
      && (forall i :: 0 <= i < |r| ==> visible(r[i]))
      && multiset(r) <= multiset(children)
      && (forall i :: 0 <= i < |children| && visible(children[i]) ==> children[i] in r)
      && (forall k :: 0 <= k <= |children| ==>
            r == FullyVisible(children[..k], visible) + FullyVisible(children[k..], visible))
      && (forall c :: c in children ==> FullyVisible([c], visible) == if visible(c) then [c] else [])
  {
    FullyVisibleMembers(children, visible);
    FullyVisibleSubMultiset(children, visible);
    FullyVisibleComplete(children, visible);
    FullyVisibleSplit(children, visible);
    forall c | c in children ensures FullyVisible([c], visible) == if visible(c) then [c] else [] {
      FullyVisibleSingle(c, visible);
    }
  }

  function HashesOf<T>(children: seq<T>, hash: T -> int): (r: seq<int>)
    ensures |r| == |children|
    ensures forall i :: 0 <= i < |children| ==> r[i] == hash(children[i])
  {
    seq(|children|, i requires 0 <= i < |children| => hash(children[i]))
  }

  /** Python's `list.index`: the position of the first occurrence. */
  function IndexOf(hashes: seq<int>, h: int): (r: nat)
    requires h in hashes
    ensures r < |hashes| && hashes[r] == h
    ensures forall j :: 0 <= j < r ==> hashes[j] != h
    decreases |hashes|
  {
    if hashes[0] == h then 0
    else
      assert h in hashes[1..];
      1 + IndexOf(hashes[1..], h)
  }

  /** The set of hashes of a sequence of children. */
  function HashSetOf<T>(s: seq<T>, hash: T -> int): set<int>
  {
    set i | 0 <= i < |s| :: hash(s[i])
  }

  /** No two elements of `s` share a hash. */
  ghost predicate HashesDistinct<T>(s: seq<T>, hash: T -> int)
  {
    forall i, j :: 0 <= i < j < |s| ==> hash(s[i]) != hash(s[j])
  }

  /** No child's hash is already visited, and no two children share a hash. */
  ghost predicate Fresh<T>(children: seq<T>, visited: set<int>, hash: T -> int)
  {
    && (forall i :: 0 <= i < |children| ==> hash(children[i]) !in visited)
    && HashesDistinct(children, hash)
  }

  /** The children still to process on one pass, or the "scrolling too fast" exit. */
  datatype NewChildren<T> = NewChildren(children: seq<T>) | Skipped

  /** Drop the children that are not fully visible and, when a previous pass processed a
      child, the children up to and including the first one with that child's hash. */
  function Reconcile<T>(window: seq<T>, lastChild: Option<T>, hash: T -> int, visible: T -> bool)
    : (r: NewChildren<T>)
    ensures r.NewChildren? ==> |r.children| <= |FullyVisible(window, visible)|
  {
    var shown := FullyVisible(window, visible);
    if lastChild.None? then NewChildren(shown)
    else
      var hashes := HashesOf(shown, hash);
      var lastHash := hash(lastChild.value);
      if lastHash !in hashes then Skipped
      else NewChildren(shown[IndexOf(hashes, lastHash) + 1..])
  }

  /** No child of `s` has hash `h`. */
  ghost predicate HashAbsent<T>(s: seq<T>, hash: T -> int, h: int)
  {
    forall i :: 0 <= i < |s| ==> hash(s[i]) != h
  }

  /** On the first pass every fully visible child is new. On a later pass the window is
      skipped exactly when no fully visible child has the last child's hash; otherwise
      the children kept are exactly those after the first one with that hash. */
  lemma ReconcileSpec<T>(window: seq<T>, lastChild: Option<T>, hash: T -> int, visible: T -> bool)
    ensures var r := Reconcile(window, lastChild, hash, visible);
      var shown := FullyVisible(window, visible);
      && (lastChild.None? ==> r == NewChildren(shown))
      && (r.Skipped? <==> lastChild.Some? && HashAbsent(shown, hash, hash(lastChild.value)))
      && (r.NewChildren? && lastChild.Some? ==>
            var idx := |shown| - |r.children| - 1;
            && 0 <= idx
            && r.children == shown[idx + 1..]
            && hash(shown[idx]) == hash(lastChild.value)
            && HashAbsent(shown[..idx], hash, hash(lastChild.value)))
  {
    var shown := FullyVisible(window, visible);
    var r := Reconcile(window, lastChild, hash, visible);
    if lastChild.Some? {
      var hashes := HashesOf(shown, hash);
      var lastHash := hash(lastChild.value);
      if lastHash in hashes {
        var idx := IndexOf(hashes, lastHash);
        assert r == NewChildren(shown[idx + 1..]);
        assert |shown| - |r.children| - 1 == idx;
        assert hash(shown[idx]) == lastHash by {
          assert hashes[idx] == hash(shown[idx]);
        }
        assert HashAbsent(shown[..idx], hash, lastHash) by {
          forall j | 0 <= j < idx ensures hash(shown[..idx][j]) != lastHash {
            assert hashes[j] == hash(shown[j]);
          }
        }
        assert !HashAbsent(shown, hash, lastHash);
      } else {
        assert r == Skipped;
        assert HashAbsent(shown, hash, lastHash) by {
          forall i | 0 <= i < |shown| ensures hash(shown[i]) != lastHash {
            assert hashes[i] == hash(shown[i]);
          }
        }
      }
    }
  }

  /** How the inner `for` loop over the new children ends. */
  datatype PassEnd<T> = Processed(progress: Progress<T>) | Duplicate(progress: Progress<T>)

  /** The inner `for` loop: each child in order is checked against the visited hashes and
      then transformed, becomes the last child, and has its hash visited. */
  function ProcessChildren<T>(children: seq<T>, p: Progress<T>, hash: T -> int): PassEnd<T>
    decreases |children|
  {
    if children == [] then Processed(p)
    else
      var child := children[0];
      var h := hash(child);
      if h in p.visitedHashes then Duplicate(p)
      else ProcessChildren(children[1..], Progress(Some(child), p.visitedHashes + {h}, p.calls + [child]), hash)
  }

  /** The inner loop completes exactly when no child's hash was visited before and no two
      children share a hash. */
  lemma {:induction false} ProcessChildrenCompletesIffFresh<T>(children: seq<T>, p: Progress<T>, hash: T -> int)
    ensures ProcessChildren(children, p, hash).Processed? <==> Fresh(children, p.visitedHashes, hash)
    decreases |children|
  {
    if children != [] {
      var child := children[0];
      assert children == [child] + children[1..];
      FreshCons(child, children[1..], p.visitedHashes, hash);
      if hash(child) !in p.visitedHashes {
        var q := Progress(Some(child), p.visitedHashes + {hash(child)}, p.calls + [child]);
        ProcessChildrenCompletesIffFresh(children[1..], q, hash);
      }
    }
  }

  /** A completed inner loop has transformed all children in order; the last of them is
      the last child, and their hashes have joined the visited ones. */
  lemma {:induction false} ProcessChildrenCompleted<T>(children: seq<T>, p: Progress<T>, hash: T -> int)
    requires ProcessChildren(children, p, hash).Processed?
    ensures ProcessChildren(children, p, hash).progress ==
      Progress(if children == [] then p.lastChild else Some(children[|children| - 1]),
               p.visitedHashes + HashSetOf(children, hash),
               p.calls + children)
    decreases |children|
  {
    if children == [] {
      assert HashSetOf(children, hash) == {};
    } else {
      var child := children[0];
      var q := Progress(Some(child), p.visitedHashes + {hash(child)}, p.calls + [child]);
      ProcessChildrenCompleted(children[1..], q, hash);
      HashSetOfCons(child, children[1..], hash);
      assert children == [child] + children[1..];
    }
  }

  /** An inner loop that raises the duplicate-hash error has transformed exactly the
      children ahead of the offending one, all of them fresh, and the offending child's
      hash was already visited. */
  lemma {:induction false} ProcessChildrenDuplicate<T>(children: seq<T>, p: Progress<T>, hash: T -> int)
    requires ProcessChildren(children, p, hash).Duplicate?
    ensures var n := |ProcessChildren(children, p, hash).progress.calls| - |p.calls|;
      && 0 <= n < |children|
      && ProcessChildren(children, p, hash).progress.calls == p.calls + children[..n]
      && Fresh(children[..n], p.visitedHashes, hash)
      && hash(children[n]) in p.visitedHashes + HashSetOf(children[..n], hash)
    decreases |children|
  {
    var child := children[0];
    if hash(child) in p.visitedHashes {
      assert children[..0] == [];
      assert HashSetOf(children[..0], hash) == {};
    } else {
      var q := Progress(Some(child), p.visitedHashes + {hash(child)}, p.calls + [child]);
      var r := ProcessChildren(children[1..], q, hash);
      assert ProcessChildren(children, p, hash) == r;
      ProcessChildrenDuplicate(children[1..], q, hash);
      var n := |r.progress.calls| - |q.calls|;
      var done := children[1..][..n];
      assert children[..n + 1] == [child] + done;
      assert r.progress.calls == p.calls + children[..n + 1] by {
        assert r.progress.calls == (p.calls + [child]) + done;
      }
      assert Fresh(children[..n + 1], p.visitedHashes, hash) by {
        FreshCons(child, done, p.visitedHashes, hash);
      }
      assert hash(children[n + 1]) in p.visitedHashes + HashSetOf(children[..n + 1], hash) by {
        assert children[n + 1] == children[1..][n];
        HashSetOfCons(child, done, hash);
      }
    }
  }

  lemma HashSetOfCons<T>(c: T, s: seq<T>, hash: T -> int)
    ensures HashSetOf([c] + s, hash) == {hash(c)} + HashSetOf(s, hash)
  {
    var l := [c] + s;
    forall h | h in HashSetOf(l, hash) ensures h in {hash(c)} + HashSetOf(s, hash) {
      var i :| 0 <= i < |l| && hash(l[i]) == h;
      if i > 0 { assert l[i] == s[i - 1]; }
    }
    forall h | h in HashSetOf(s, hash) ensures h in HashSetOf(l, hash) {
      var i :| 0 <= i < |s| && hash(s[i]) == h;
      assert l[i + 1] == s[i];
    }
    assert l[0] == c;
  }

  lemma FreshCons<T>(c: T, s: seq<T>, visited: set<int>, hash: T -> int)
    ensures Fresh([c] + s, visited, hash) <==>
      hash(c) !in visited && Fresh(s, visited + {hash(c)}, hash)
  {
    var l := [c] + s;
    if hash(c) !in visited && Fresh(s, visited + {hash(c)}, hash) {
      forall i, j | 0 <= i < j < |l| ensures hash(l[i]) != hash(l[j]) {
        assert l[j] == s[j - 1];
        if i > 0 { assert l[i] == s[i - 1]; }
      }
      forall i | 0 <= i < |l| ensures hash(l[i]) !in visited {
        if i > 0 { assert l[i] == s[i - 1]; }
      }
    }
    if Fresh(l, visited, hash) {
      assert l[0] == c;
      forall i | 0 <= i < |s| ensures hash(s[i]) !in visited + {hash(c)} {
        assert s[i] == l[i + 1];
      }
      forall i, j | 0 <= i < j < |s| ensures hash(s[i]) != hash(s[j]) {
        assert s[i] == l[i + 1] && s[j] == l[j + 1];
      }
    }
  }

  /** One pass of the `while not reached_end` loop, then the passes after it. */
  function Run<T>(windows: seq<seq<T>>, pass: nat, p: Progress<T>, hash: T -> int, visible: T -> bool)
    : Trace<T>
    decreases |windows| - pass
  {
    match Reconcile(WindowAt(windows, pass), p.lastChild, hash, visible)
    case Skipped => Trace(ScrollingTooFast, p.calls)
    case NewChildren(children) =>
      if children == [] then Trace(Finished, p.calls)
      else
        match ProcessChildren(children, p, hash)
        case Duplicate(q) => Trace(DuplicateHash, q.calls)
        case Processed(q) => Run(windows, pass + 1, q, hash, visible)
  }

  /** A pass that processes all of its new children hands its progress to the next pass. */
  lemma RunNextPass<T>(windows: seq<seq<T>>, pass: nat, p: Progress<T>, q: Progress<T>, hash: T -> int,
                       visible: T -> bool)
    requires Reconcile(WindowAt(windows, pass), p.lastChild, hash, visible).NewChildren?
    requires Reconcile(WindowAt(windows, pass), p.lastChild, hash, visible).children != []
    requires ProcessChildren(Reconcile(WindowAt(windows, pass), p.lastChild, hash, visible).children, p, hash)
          == Processed(q)
    ensures Run(windows, pass, p, hash, visible) == Run(windows, pass + 1, q, hash, visible)
  {
  }

  /** The whole traversal, from the start of the list with nothing visited. */
  function Traversal<T>(windows: seq<seq<T>>, hash: T -> int, visible: T -> bool): Trace<T>
  {
    Run(windows, 0, Progress(None, {}, []), hash, visible)
  }

  // ---------------------------------------------------------------------------
  // traverseListViewChildren: the loop
  // ---------------------------------------------------------------------------

  /** Scrolling to the start, reloading and flinging are the device's business: here they
      are the step from one window to the next. */
  method TraverseListViewChildren<T>(windows: seq<seq<T>>, hash: T -> int, visible: T -> bool)
    returns (outcome: Outcome, calls: seq<T>)
    ensures Trace(outcome, calls) == Traversal(windows, hash, visible)
  {
    var lastChild: Option<T> := None;
    var reachedEnd := false;
    var visitedHashes: set<int> := {};
    calls := [];
    var pass := 0;

    while !reachedEnd
      invariant !reachedEnd
      invariant Run(windows, pass, Progress(lastChild, visitedHashes, calls), hash, visible)
             == Traversal(windows, hash, visible)
      decreases |windows| - pass
    {
      // Grab the children on screen, and remove the ones that are not fully visible
      var children := FullyVisible(WindowAt(windows, pass), visible);

      // Remove the ones already done
      if lastChild.Some? {
        var childrenHashes := HashesOf(children, hash);
        var lastChildHash := hash(lastChild.value);
        if lastChildHash !in childrenHashes {
          return ScrollingTooFast, calls;
        }
        var idx := IndexOf(childrenHashes, lastChildHash);
        children := children[idx + 1..];
      }
      assert Reconcile(WindowAt(windows, pass), lastChild, hash, visible) == NewChildren(children);

      if |children| == 0 {
        reachedEnd := true;
        break;
      }

      ghost var before := Progress(lastChild, visitedHashes, calls);
      for i := 0 to |children|
        invariant ProcessChildren(children, before, hash)
               == ProcessChildren(children[i..], Progress(lastChild, visitedHashes, calls), hash)
      {
        var child := children[i];
        var childHash := hash(child);
        if childHash in visitedHashes {
          return DuplicateHash, calls;
        }
        calls := calls + [child];  // transform(child)
        lastChild := Some(child);
        visitedHashes := visitedHashes + {childHash};
        assert children[i..][1..] == children[i + 1..];
      }
      assert children[|children|..] == [];
      RunNextPass(windows, pass, before, Progress(lastChild, visitedHashes, calls), hash, visible);
      pass := pass + 1;
    }
    outcome := Finished;
  }
}
