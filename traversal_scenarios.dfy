/** Small concrete traversals: a list read through a window of two rows with one row of
    overlap, a fling that overshoots, a hasher that is not unique, and a row that is
    first seen cut off at the edge of the screen. */
module TraversalScenarios {
  import opened Wrappers
  import opened Util
  import opened TraversalProperties

  /** A list row as the traversal sees it: which entry it is, and whether it is fully
      rendered on screen. */
  datatype Row = Row(entry: int, complete: bool)

  function EntryOf(r: Row): int { r.entry }

  function IsComplete(r: Row): bool { r.complete }

  /** A hasher that is not unique: entries of the same parity collide. */
  function ParityOf(r: Row): int { r.entry % 2 }

  /** Entries A, B, C (1, 2, 3) through a window of two with one of overlap: each entry is
      transformed once, in order, and the traversal ends after a fling that shows nothing
      new. */
  lemma ThreeEntriesSlidingWindow()
    ensures var a, b, c := Row(1, true), Row(2, true), Row(3, true);
      Traversal([[a, b], [b, c], [b, c]], EntryOf, IsComplete) == Trace(Finished, [a, b, c])
  {
    var a, b, c := Row(1, true), Row(2, true), Row(3, true);
    var items := [a, b, c];
    var windows := [[a, b], [b, c], [b, c]];
    assert FullyVisible([c], IsComplete) == [c];
    assert FullyVisible([b, c], IsComplete) == [b, c] == items[1..3];
    assert FullyVisible([a, b], IsComplete) == [a, b] == items[0..2];
    ExactlyOnceInOrder(items, windows, [0, 1, 1], [2, 3, 3], EntryOf, IsComplete);
  }

  /** The second window jumps from {A, B} straight to {C}: both A and B of the first
      window are transformed, then the traversal raises "scrolling too fast" without
      transforming C. */
  lemma OvershootingFling()
    ensures var a, b, c := Row(1, true), Row(2, true), Row(3, true);
      Traversal([[a, b], [c]], EntryOf, IsComplete) == Trace(ScrollingTooFast, [a, b])
  {
    var a, b, c := Row(1, true), Row(2, true), Row(3, true);
    var windows := [[a, b], [c]];
    var p0 := Progress(None, {}, []);
    assert FullyVisible([a, b], IsComplete) == [a, b];
    assert Reconcile(windows[0], None, EntryOf, IsComplete) == NewChildren([a, b]);
    var p1 := Progress(Some(b), {1, 2}, [a, b]);
    assert [a, b][1..] == [b] && [b][1..] == [];
    assert ProcessChildren([b], Progress(Some(a), {1}, [a]), EntryOf) == Processed(p1) by {
      assert {1} + {EntryOf(b)} == {1, 2};
    }
    assert Progress(Some(a), p0.visitedHashes + {EntryOf(a)}, p0.calls + [a]) == Progress(Some(a), {1}, [a]);
    assert ProcessChildren([a, b], p0, EntryOf) == Processed(p1);
    assert FullyVisible([c], IsComplete) == [c];
    assert Reconcile(windows[1], Some(b), EntryOf, IsComplete) == Skipped;
    assert Run(windows, 0, p0, EntryOf, IsComplete) == Run(windows, 1, p1, EntryOf, IsComplete);
  }

  /** Two different entries, A and C (1 and 3), share a hash: C is never transformed. */
  lemma NonUniqueHash()
    ensures var a, b, c := Row(1, true), Row(2, true), Row(3, true);
      Traversal([[a, b], [b, c]], ParityOf, IsComplete) == Trace(DuplicateHash, [a, b])
  {
    var a, b, c := Row(1, true), Row(2, true), Row(3, true);
    var windows := [[a, b], [b, c]];
    var p0 := Progress(None, {}, []);
    assert FullyVisible([a, b], IsComplete) == [a, b];
    assert Reconcile(windows[0], None, ParityOf, IsComplete) == NewChildren([a, b]);
    var p1 := Progress(Some(b), {1, 0}, [a, b]);
    assert [a, b][1..] == [b] && [b][1..] == [];
    assert ProcessChildren([b], Progress(Some(a), {1}, [a]), ParityOf) == Processed(p1) by {
      assert {1} + {ParityOf(b)} == {1, 0};
    }
    assert Progress(Some(a), p0.visitedHashes + {ParityOf(a)}, p0.calls + [a]) == Progress(Some(a), {1}, [a]);
    assert ProcessChildren([a, b], p0, ParityOf) == Processed(p1);
    assert FullyVisible([b, c], IsComplete) == [b, c];
    assert HashesOf([b, c], ParityOf) == [0, 1];
    assert Reconcile(windows[1], Some(b), ParityOf, IsComplete) == NewChildren([c]);
    assert ProcessChildren([c], p1, ParityOf) == Duplicate(p1);
    assert Run(windows, 0, p0, ParityOf, IsComplete) == Run(windows, 1, p1, ParityOf, IsComplete);
  }

  /** Entry 3 is first read cut off at the bottom edge and is skipped there; it is
      transformed once, on the next pass, when it is fully on screen. */
  lemma CutOffRowWaitsForNextPass()
    ensures
      var w0 := [Row(1, true), Row(2, true), Row(3, false)];
      var w1 := [Row(2, true), Row(3, true), Row(4, false)];
      var w2 := [Row(3, true), Row(4, true)];
      Traversal([w0, w1, w2, w2], EntryOf, IsComplete)
        == Trace(Finished, [Row(1, true), Row(2, true), Row(3, true), Row(4, true)])
  {
    var w0 := [Row(1, true), Row(2, true), Row(3, false)];
    var w1 := [Row(2, true), Row(3, true), Row(4, false)];
    var w2 := [Row(3, true), Row(4, true)];
    var items := [Row(1, true), Row(2, true), Row(3, true), Row(4, true)];
    assert FullyVisible([Row(3, false)], IsComplete) == [];
    assert FullyVisible([Row(4, false)], IsComplete) == [];
    assert FullyVisible([Row(4, true)], IsComplete) == [Row(4, true)];
    assert FullyVisible(w0, IsComplete) == items[0..2];
    assert FullyVisible(w1, IsComplete) == items[1..3];
    assert FullyVisible(w2, IsComplete) == items[2..4];
    ExactlyOnceInOrder(items, [w0, w1, w2, w2], [0, 1, 2, 2], [2, 3, 4, 4], EntryOf, IsComplete);
  }
}
