/**
 * The bookkeeping of erasing shared by main.py and archive.py, on plain
 * values: the pending erase map (a dict from stroke index to stroke, in
 * insertion order), the commit that turns it into a batch and deletes every
 * batched stroke with list.remove, the 25-batch trim, and undo.
 */
module EraseHistory {

  /** NUM_UNDOS: the number of batches the bounded history keeps. */
  const NumUndos := 25

  /** One entry of the pending erase map: the index of a stroke in the stroke list, and the stroke. */
  datatype Entry<T> = Entry(index: nat, item: T)

  /** i in the map. */
  predicate HasKey<T>(m: seq<Entry<T>>, i: nat) {
    exists k :: 0 <= k < |m| && m[k].index == i
  }

  /** A dict has each key once. */
  predicate UniqueKeys<T>(m: seq<Entry<T>>) {
    forall j, k :: 0 <= j < k < |m| ==> m[j].index != m[k].index
  }

  /** Every entry names the stroke that sits at its index in the list s. */
  predicate Indexes<T(==)>(m: seq<Entry<T>>, s: seq<T>) {
    forall k :: 0 <= k < |m| ==> m[k].index < |s| && s[m[k].index] == m[k].item
  }

  /** list(m.values()): the strokes in insertion order. */
  function Values<T>(m: seq<Entry<T>>): seq<T> {
    seq(|m|, k requires 0 <= k < |m| => m[k].item)
  }

  predicate Distinct<T(==)>(s: seq<T>) {
    forall i, j :: 0 <= i < j < |s| ==> s[i] != s[j]
  }

  function Elems<T>(s: seq<T>): set<T> {
    set x | x in s
  }

  // ---------------------------------------------------------------------------
  // Marking strokes while the eraser moves

  /** `if i not in m: m[i] = x`. */
  function Mark<T>(m: seq<Entry<T>>, i: nat, x: T): seq<Entry<T>> {
    if HasKey(m, i) then m else m + [Entry(i, x)]
  }

  /**
   * One pass of the erase loop over enumerate(strokes): every stroke whose
   * hit test succeeded (hits[i]) is marked under its index.
   */
  function ErasePass<T>(m: seq<Entry<T>>, s: seq<T>, hits: seq<bool>): seq<Entry<T>>
    requires |hits| == |s|
    decreases |s|
  {
    if |s| == 0 then m
    else
      var n := |s| - 1;
      var m' := ErasePass(m, s[..n], hits[..n]);
      if hits[n] then Mark(m', n, s[n]) else m'
  }

  /** After a pass, an index is pending iff it was pending before or its stroke was hit. */
  lemma {:induction false} ErasePassKeys<T>(m: seq<Entry<T>>, s: seq<T>, hits: seq<bool>, i: nat)
    requires |hits| == |s|
    ensures HasKey(ErasePass(m, s, hits), i) <==> HasKey(m, i) || (i < |s| && hits[i])
  {
    if |s| > 0 {
      var n := |s| - 1;
      ErasePassKeys(m, s[..n], hits[..n], i);
      var m' := ErasePass(m, s[..n], hits[..n]);
      if hits[n] && !HasKey(m', n) {
        var r := m' + [Entry(n, s[n])];
        assert r[|m'|].index == n;
        if HasKey(m', i) {
          var k :| 0 <= k < |m'| && m'[k].index == i;
          assert r[k].index == i;
        }
        if HasKey(r, i) && i != n {
          var k :| 0 <= k < |r| && r[k].index == i;
          assert m'[k].index == i;
        }
      }
    }
  }

  /**
   * A pass only appends: the entries pending before it stay in place,
   * unchanged, so a stroke already pending under its index is neither
   * re-added nor replaced.
   */
  lemma {:induction false} ErasePassExtends<T>(m: seq<Entry<T>>, s: seq<T>, hits: seq<bool>)
    requires |hits| == |s|
    ensures m <= ErasePass(m, s, hits)
  {
    if |s| > 0 {
      var n := |s| - 1;
      ErasePassExtends(m, s[..n], hits[..n]);
    }
  }

  /** A pass keeps the keys unique. */
  lemma {:induction false} ErasePassUnique<T>(m: seq<Entry<T>>, s: seq<T>, hits: seq<bool>)
    requires |hits| == |s| && UniqueKeys(m)
    ensures UniqueKeys(ErasePass(m, s, hits))
  {
    if |s| > 0 {
      var n := |s| - 1;
      ErasePassUnique(m, s[..n], hits[..n]);
    }
  }

  /** Every entry a pass adds names a stroke that was hit, under its own index. */
  lemma {:induction false} ErasePassAdds<T>(m: seq<Entry<T>>, s: seq<T>, hits: seq<bool>)
    requires |hits| == |s|
    ensures forall k :: |m| <= k < |ErasePass(m, s, hits)| ==>
      ErasePass(m, s, hits)[k].index < |s| && hits[ErasePass(m, s, hits)[k].index]
      && s[ErasePass(m, s, hits)[k].index] == ErasePass(m, s, hits)[k].item
  {
    if |s| > 0 {
      var n := |s| - 1;
      ErasePassAdds(m, s[..n], hits[..n]);
      var m' := ErasePass(m, s[..n], hits[..n]);
      var r := ErasePass(m, s, hits);
      forall k | |m| <= k < |r|
        ensures r[k].index < |s| && hits[r[k].index] && s[r[k].index] == r[k].item
      {
        assert r == m' || r == m' + [Entry(n, s[n])];
        if k < |m'| {
          assert r[k] == m'[k];
          assert m'[k].index < n;
          assert s[..n][m'[k].index] == s[m'[k].index];
          assert hits[..n][m'[k].index] == hits[m'[k].index];
        }
      }
    }
  }

  /** A pass keeps every pending stroke recorded under its own index. */
  lemma ErasePassIndexes<T>(m: seq<Entry<T>>, s: seq<T>, hits: seq<bool>)
    requires |hits| == |s| && Indexes(m, s)
    ensures Indexes(ErasePass(m, s, hits), s)
  {
    ErasePassExtends(m, s, hits);
    ErasePassAdds(m, s, hits);
    var r := ErasePass(m, s, hits);
    forall k | 0 <= k < |r|
      ensures r[k].index < |s| && s[r[k].index] == r[k].item
    {
      if k < |m| {
        assert r[k] == m[k];
      }
    }
  }

  /** A pass over strokes that are all pending already changes nothing. */
  lemma {:induction false} ErasePassNoop<T>(m: seq<Entry<T>>, s: seq<T>, hits: seq<bool>)
    requires |hits| == |s|
    requires forall i :: 0 <= i < |s| && hits[i] ==> HasKey(m, i)
    ensures ErasePass(m, s, hits) == m
  {
    if |s| > 0 {
      var n := |s| - 1;
      ErasePassNoop(m, s[..n], hits[..n]);
    }
  }

  /** Erasing over the same strokes again with the same hits changes nothing. */
  lemma ErasePassIdempotent<T>(m: seq<Entry<T>>, s: seq<T>, hits: seq<bool>)
    requires |hits| == |s|
    ensures ErasePass(ErasePass(m, s, hits), s, hits) == ErasePass(m, s, hits)
  {
    var m1 := ErasePass(m, s, hits);
    forall i | 0 <= i < |s| && hits[i]
      ensures HasKey(m1, i)
    {
      ErasePassKeys(m, s, hits, i);
    }
    ErasePassNoop(m1, s, hits);
  }

  // ---------------------------------------------------------------------------
  // Committing a batch: every batched stroke is removed from the list

  /** list.remove(x): drop the first occurrence of x (the caller checks x in s). */
  function RemoveFirst<T(==)>(s: seq<T>, x: T): seq<T> {
    if |s| == 0 then s
    else if s[0] == x then s[1..]
    else [s[0]] + RemoveFirst(s[1..], x)
  }

  /** `for stroke in batch: if stroke in strokes: strokes.remove(stroke)`. */
  function RemoveBatch<T(==)>(s: seq<T>, batch: seq<T>): seq<T>
    decreases |batch|
  {
    if |batch| == 0 then s
    else
      var n := |batch| - 1;
      var r := RemoveBatch(s, batch[..n]);
      if batch[n] in r then RemoveFirst(r, batch[n]) else r
  }

  /** The commit loop: RemoveBatch for every batch of the history, oldest first. */
  function RemoveBatches<T(==)>(s: seq<T>, batches: seq<seq<T>>): seq<T>
    decreases |batches|
  {
    if |batches| == 0 then s
    else
      var n := |batches| - 1;
      RemoveBatch(RemoveBatches(s, batches[..n]), batches[n])
  }

  /** All strokes of all batches, oldest batch first. */
  function Flatten<T>(batches: seq<seq<T>>): seq<T>
    decreases |batches|
  {
    if |batches| == 0 then []
    else Flatten(batches[..|batches| - 1]) + batches[|batches| - 1]
  }

  /** A stroke is in the flattened history iff some batch holds it. */
  lemma {:induction false} FlattenMembers<T>(batches: seq<seq<T>>, x: T)
    ensures x in Flatten(batches) <==> exists i :: 0 <= i < |batches| && x in batches[i]
  {
    if |batches| > 0 {
      var n := |batches| - 1;
      FlattenMembers(batches[..n], x);
      if exists i :: 0 <= i < n && x in batches[..n][i] {
        var i :| 0 <= i < n && x in batches[..n][i];
        assert batches[i] == batches[..n][i];
      }
      if exists i :: 0 <= i < |batches| && x in batches[i] {
        var i :| 0 <= i < |batches| && x in batches[i];
        if i < n {
          assert batches[..n][i] == batches[i];
        }
      }
    }
  }

  /** Reference definition of a commit: the strokes outside ex, in their order. */
  function Without<T(==)>(s: seq<T>, ex: set<T>): seq<T> {
    if |s| == 0 then []
    else if s[0] in ex then Without(s[1..], ex)
    else [s[0]] + Without(s[1..], ex)
  }

  /** Without keeps exactly the strokes outside ex. */
  lemma {:induction false} WithoutMembers<T>(s: seq<T>, ex: set<T>, x: T)
    ensures x in Without(s, ex) <==> x in s && x !in ex
  {
    if |s| > 0 {
      WithoutMembers(s[1..], ex, x);
      assert s == [s[0]] + s[1..];
    }
  }

  /** Without keeps the order of what it keeps: it distributes over concatenation. */
  lemma {:induction false} WithoutConcat<T>(a: seq<T>, b: seq<T>, ex: set<T>)
    ensures Without(a + b, ex) == Without(a, ex) + Without(b, ex)
  {
    if |a| == 0 {
      assert a + b == b;
    } else {
      assert (a + b)[1..] == a[1..] + b;
      WithoutConcat(a[1..], b, ex);
    }
  }

  /** Removing from a list of distinct strokes leaves a list of distinct strokes. */
  lemma {:induction false} WithoutDistinct<T>(s: seq<T>, ex: set<T>)
    requires Distinct(s)
    ensures Distinct(Without(s, ex))
  {
    if |s| > 0 {
      WithoutDistinct(s[1..], ex);
      WithoutMembers(s[1..], ex, s[0]);
    }
  }

  /** Two removals in a row remove the union. */
  lemma {:induction false} WithoutTwice<T>(s: seq<T>, a: set<T>, b: set<T>)
    ensures Without(Without(s, a), b) == Without(s, a + b)
  {
    if |s| > 0 {
      WithoutTwice(s[1..], a, b);
    }
  }

  /** Removing nothing that occurs leaves the list as it is. */
  lemma {:induction false} WithoutNone<T>(s: seq<T>, ex: set<T>)
    requires forall x :: x in s ==> x !in ex
    ensures Without(s, ex) == s
  {
    if |s| > 0 {
      WithoutNone(s[1..], ex);
    }
  }

  /** On distinct strokes, list.remove(x) is the filter that drops x. */
  lemma {:induction false} RemoveFirstIsWithout<T>(s: seq<T>, x: T)
    requires Distinct(s)
    ensures RemoveFirst(s, x) == Without(s, {x})
  {
    if |s| > 0 {
      if s[0] == x {
        WithoutNone(s[1..], {x});
      } else {
        RemoveFirstIsWithout(s[1..], x);
      }
    }
  }

  /** On distinct strokes, committing one batch drops exactly its strokes. */
  lemma {:induction false} RemoveBatchIsWithout<T>(s: seq<T>, batch: seq<T>)
    requires Distinct(s)
    ensures RemoveBatch(s, batch) == Without(s, Elems(batch))
  {
    if |batch| == 0 {
      assert Elems(batch) == {};
      WithoutNone(s, {});
    } else {
      var n := |batch| - 1;
      RemoveBatchIsWithout(s, batch[..n]);
      var r := RemoveBatch(s, batch[..n]);
      WithoutDistinct(s, Elems(batch[..n]));
      WithoutTwice(s, Elems(batch[..n]), {batch[n]});
      assert Elems(batch) == Elems(batch[..n]) + {batch[n]} by {
        assert batch == batch[..n] + [batch[n]];
      }
      if batch[n] in r {
        RemoveFirstIsWithout(r, batch[n]);
      } else {
        WithoutNone(r, {batch[n]});
      }
    }
  }

  /**
   * On distinct strokes the commit loop is the reference filter: it drops
   * exactly the strokes of the history and keeps the others in order.
   */
  lemma {:induction false} RemoveBatchesIsWithout<T>(s: seq<T>, batches: seq<seq<T>>)
    requires Distinct(s)
    ensures RemoveBatches(s, batches) == Without(s, Elems(Flatten(batches)))
  {
    if |batches| == 0 {
      assert Elems(Flatten(batches)) == {};
      WithoutNone(s, {});
    } else {
      var n := |batches| - 1;
      RemoveBatchesIsWithout(s, batches[..n]);
      var ex := Elems(Flatten(batches[..n]));
      WithoutDistinct(s, ex);
      RemoveBatchIsWithout(Without(s, ex), batches[n]);
      WithoutTwice(s, ex, Elems(batches[n]));
      assert Elems(Flatten(batches)) == ex + Elems(batches[n]);
    }
  }

  /**
   * The commit loop of tabletReleaseEvent (main.py) and tabletEvent
   * (archive.py): for every batch of the history, oldest first, each of its
   * strokes still in the list is removed with list.remove.
   */
  method Commit<T(==)>(s: seq<T>, batches: seq<seq<T>>) returns (r: seq<T>)
    ensures r == RemoveBatches(s, batches)
    ensures Distinct(s) ==> r == Without(s, Elems(Flatten(batches)))
  {
    r := s;
    for j := 0 to |batches|
      invariant r == RemoveBatches(s, batches[..j])
    {
      ghost var before := r;
      var batch := batches[j];
      for k := 0 to |batch|
        invariant r == RemoveBatch(before, batch[..k])
      {
        assert batch[..k + 1][..k] == batch[..k];
        if batch[k] in r {
          r := RemoveFirst(r, batch[k]);
        }
      }
      assert batch[..|batch|] == batch;
      assert batches[..j + 1][..j] == batches[..j];
    }
    assert batches[..|batches|] == batches;
    if Distinct(s) {
      RemoveBatchesIsWithout(s, batches);
    }
  }

  /** After a commit no stroke of the history is left, and every other stroke is. */
  lemma CommitMembers<T>(s: seq<T>, batches: seq<seq<T>>, x: T)
    requires Distinct(s)
    ensures x in RemoveBatches(s, batches) <==> x in s && x !in Flatten(batches)
  {
    RemoveBatchesIsWithout(s, batches);
    WithoutMembers(s, Elems(Flatten(batches)), x);
  }

  /**
   * A commit of a distinct list leaves a distinct list that shares nothing
   * with the history and holds only strokes of the old list.
   */
  lemma CommitApart<T>(s: seq<T>, batches: seq<seq<T>>)
    requires Distinct(s)
    ensures Distinct(RemoveBatches(s, batches))
    ensures forall x :: x in Flatten(batches) ==> x !in RemoveBatches(s, batches)
    ensures forall x :: x in RemoveBatches(s, batches) ==> x in s
  {
    forall x | x in Flatten(batches)
      ensures x !in RemoveBatches(s, batches)
    {
      CommitMembers(s, batches, x);
    }
    forall x | x in RemoveBatches(s, batches)
      ensures x in s
    {
      CommitMembers(s, batches, x);
    }
    RemoveBatchesIsWithout(s, batches);
    WithoutDistinct(s, Elems(Flatten(batches)));
  }

  // ---------------------------------------------------------------------------
  // The bounded history and undo

  /** history[-min(NUM_UNDOS, len(history)):]: the newest 25 batches. */
  function Trim<T>(h: seq<T>): seq<T> {
    var keep := if |h| < NumUndos then |h| else NumUndos;
    h[|h| - keep..]
  }

  /** The trimmed history is a suffix of at most 25 batches, and it keeps the newest one. */
  lemma TrimKeepsNewest<T>(h: seq<T>)
    ensures |Trim(h)| <= NumUndos
    ensures |Trim(h)| == |h| || |Trim(h)| == NumUndos
    ensures Trim(h) == h[|h| - |Trim(h)|..]
    ensures |h| > 0 ==> Trim(h)[|Trim(h)| - 1] == h[|h| - 1]
  {
  }

  /**
   * Pushing onto a history of at most 25 batches and trimming: below 25
   * nothing is lost; at 25 the oldest batch is evicted.
   */
  lemma TrimPush<T>(h: seq<T>, b: T)
    requires |h| <= NumUndos
    ensures Trim(h + [b]) == (if |h| < NumUndos then h else h[1..]) + [b]
  {
    if |h| == NumUndos {
      assert (h + [b])[1..] == h[1..] + [b];
    }
  }

  /**
   * Window.undo on values: with a non-empty history the newest batch is
   * appended back to the strokes and popped; otherwise nothing changes.
   */
  function Undo<T>(s: seq<T>, h: seq<seq<T>>): (r: (seq<T>, seq<seq<T>>))
    ensures |h| == 0 ==> r == (s, h)
    ensures |h| > 0 ==> r.1 + [h[|h| - 1]] == h
    ensures |h| > 0 ==> |r.0| == |s| + |h[|h| - 1]| && r.0[..|s|] == s
    ensures |h| > 0 ==> r.0[|s|..] == h[|h| - 1]
  {
    if |h| == 0 then (s, h) else (s + h[|h| - 1], h[..|h| - 1])
  }

  /** The strokes a pending map holds are distinct when the list they index is. */
  lemma ValuesDistinct<T>(m: seq<Entry<T>>, s: seq<T>)
    requires UniqueKeys(m) && Indexes(m, s) && Distinct(s)
    ensures Distinct(Values(m)) && Elems(Values(m)) <= Elems(s)
  {
    forall x | x in Values(m)
      ensures x in s
    {
      var k :| 0 <= k < |m| && Values(m)[k] == x;
      assert s[m[k].index] == x;
    }
  }

  /**
   * Erasing then undoing restores the strokes: a release that commits a
   * non-empty pending map into a history of at most 25 batches, followed by
   * an undo, gives back the same set of distinct strokes, and the history as
   * it was (minus its oldest batch when the push evicted it). Only the order
   * changes: the restored strokes come back at the end.
   */
  lemma EraseThenUndo<T>(s: seq<T>, m: seq<Entry<T>>, h: seq<seq<T>>)
    requires Distinct(s) && UniqueKeys(m) && Indexes(m, s) && |m| > 0
    requires |h| <= NumUndos
    requires forall x :: x in Flatten(h) ==> x !in s
    ensures Elems(Undo(RemoveBatches(s, h + [Values(m)]), Trim(h + [Values(m)])).0) == Elems(s)
    ensures Distinct(Undo(RemoveBatches(s, h + [Values(m)]), Trim(h + [Values(m)])).0)
    ensures Undo(RemoveBatches(s, h + [Values(m)]), Trim(h + [Values(m)])).1
         == (if |h| < NumUndos then h else h[1..])
  {
    var v := Values(m);
    var s1 := RemoveBatches(s, h + [v]);
    var rest := if |h| < NumUndos then h else h[1..];
    TrimPush(h, v);
    UndoPush(s1, rest, v);
    ValuesDistinct(m, s);
    RestoreAfterCommit(s, h, v);
  }

  /** Undoing right after a push gives the pushed batch back. */
  lemma UndoPush<T>(s: seq<T>, h: seq<seq<T>>, b: seq<T>)
    ensures Undo(s, h + [b]) == (s + b, h)
  {
    assert (h + [b])[..|h|] == h;
  }

  /**
   * Removing the history plus a batch v of the list's own strokes and then
   * appending v back gives the list's strokes again, each once.
   */
  lemma RestoreAfterCommit<T>(s: seq<T>, h: seq<seq<T>>, v: seq<T>)
    requires Distinct(s) && Distinct(v) && Elems(v) <= Elems(s)
    requires forall x :: x in Flatten(h) ==> x !in s
    ensures Elems(RemoveBatches(s, h + [v]) + v) == Elems(s)
    ensures Distinct(RemoveBatches(s, h + [v]) + v)
  {
    var h1 := h + [v];
    var s1 := RemoveBatches(s, h1);
    FlattenAppend(h, v);
    RemoveBatchesIsWithout(s, h1);
    WithoutDistinct(s, Elems(Flatten(h1)));
    forall x | x in s1
      ensures x !in v
    {
      CommitMembers(s, h1, x);
    }
    DistinctConcat(s1, v);
    forall x | x in s
      ensures x in s1 + v
    {
      CommitMembers(s, h1, x);
    }
    forall x | x in s1 + v
      ensures x in s
    {
      if x in s1 {
        CommitMembers(s, h1, x);
      } else {
        assert x in Elems(v);
      }
    }
  }

  // ---------------------------------------------------------------------------
  // The strokes on the page and in the history stay distinct

  lemma FlattenAppend<T>(h: seq<seq<T>>, b: seq<T>)
    ensures Flatten(h + [b]) == Flatten(h) + b
  {
    assert (h + [b])[..|h|] == h;
  }

  /** Flattening distributes over concatenation of histories. */
  lemma {:induction false} FlattenConcat<T>(a: seq<seq<T>>, b: seq<seq<T>>)
    ensures Flatten(a + b) == Flatten(a) + Flatten(b)
  {
    if |b| == 0 {
      assert a + b == a;
    } else {
      var n := |b| - 1;
      FlattenConcat(a, b[..n]);
      assert a + b == (a + b[..n]) + [b[n]];
      assert b == b[..n] + [b[n]];
      FlattenAppend(a + b[..n], b[n]);
      FlattenAppend(b[..n], b[n]);
    }
  }

  /** A concatenation is distinct iff both parts are and they share nothing. */
  lemma DistinctConcat<T>(a: seq<T>, b: seq<T>)
    ensures Distinct(a + b) <==> Distinct(a) && Distinct(b) && (forall x :: x in a ==> x !in b)
  {
    if Distinct(a) && Distinct(b) && (forall x :: x in a ==> x !in b) {
      forall i, j | 0 <= i < j < |a + b|
        ensures (a + b)[i] != (a + b)[j]
      {
        if i < |a| && j >= |a| {
          assert (a + b)[i] in a && (a + b)[j] == b[j - |a|];
        }
      }
    }
    if Distinct(a + b) {
      forall i, j | 0 <= i < j < |a|
        ensures a[i] != a[j]
      {
        assert a[i] == (a + b)[i] && a[j] == (a + b)[j];
      }
      forall i, j | 0 <= i < j < |b|
        ensures b[i] != b[j]
      {
        assert b[i] == (a + b)[|a| + i] && b[j] == (a + b)[|a| + j];
      }
      forall i, j | 0 <= i < |a| && 0 <= j < |b|
        ensures a[i] != b[j]
      {
        assert a[i] == (a + b)[i] && b[j] == (a + b)[|a| + j];
      }
    }
  }

  /** Trimming keeps a distinct history distinct and adds no stroke to it. */
  lemma TrimFlatten<T>(h: seq<seq<T>>)
    requires Distinct(Flatten(h))
    ensures Distinct(Flatten(Trim(h)))
    ensures forall x :: x in Flatten(Trim(h)) ==> x in Flatten(h)
  {
    var d := |h| - |Trim(h)|;
    assert h == h[..d] + Trim(h);
    FlattenConcat(h[..d], Trim(h));
    DistinctConcat(Flatten(h[..d]), Flatten(Trim(h)));
  }

  /** Pushing the pending strokes keeps the history distinct. */
  lemma PushFlatten<T>(s: seq<T>, m: seq<Entry<T>>, h: seq<seq<T>>)
    requires Distinct(s + Flatten(h)) && UniqueKeys(m) && Indexes(m, s)
    ensures Distinct(Flatten(h + [Values(m)]))
    ensures forall x :: x in Flatten(h + [Values(m)]) ==> x in s + Flatten(h)
  {
    var v := Values(m);
    DistinctConcat(s, Flatten(h));
    ValuesDistinct(m, s);
    FlattenAppend(h, v);
    DistinctConcat(Flatten(h), v);
  }

  /**
   * A release keeps the strokes listed and the strokes held by the history
   * distinct, and brings in no stroke that was in neither.
   */
  lemma ReleaseKeepsDistinct<T>(s: seq<T>, m: seq<Entry<T>>, h: seq<seq<T>>)
    requires Distinct(s + Flatten(h)) && UniqueKeys(m) && Indexes(m, s)
    ensures Distinct(RemoveBatches(s, h + [Values(m)]) + Flatten(Trim(h + [Values(m)])))
    ensures forall x :: x in RemoveBatches(s, h + [Values(m)]) + Flatten(Trim(h + [Values(m)])) ==>
      x in s + Flatten(h)
  {
    var h1 := h + [Values(m)];
    PushFlatten(s, m, h);
    TrimFlatten(h1);
    var s1 := RemoveBatches(s, h1);
    DistinctConcat(s, Flatten(h));
    RemoveBatchesIsWithout(s, h1);
    WithoutDistinct(s, Elems(Flatten(h1)));
    forall x | x in s1
      ensures x !in Flatten(Trim(h1)) && x in s
    {
      CommitMembers(s, h1, x);
    }
    DistinctConcat(s1, Flatten(Trim(h1)));
  }

  /**
   * Undo moves the newest batch from the history back to the list: the
   * strokes listed and held stay distinct and none is lost or gained.
   */
  lemma UndoKeepsDistinct<T>(s: seq<T>, h: seq<seq<T>>)
    requires Distinct(s + Flatten(h))
    ensures Distinct(Undo(s, h).0 + Flatten(Undo(s, h).1))
    ensures Elems(Undo(s, h).0 + Flatten(Undo(s, h).1)) == Elems(s + Flatten(h))
  {
    if |h| > 0 {
      var n := |h| - 1;
      assert h == h[..n] + [h[n]];
      FlattenAppend(h[..n], h[n]);
      var f := Flatten(h[..n]);
      assert s + Flatten(h) == (s + f) + h[n];
      assert Undo(s, h).0 + Flatten(Undo(s, h).1) == (s + h[n]) + f;
      DistinctConcat(s + f, h[n]);
      DistinctConcat(s, f);
      DistinctConcat(s, h[n]);
      DistinctConcat(s + h[n], f);
    }
  }
}
