/// The 'seen' queue of AcceptOnceFileFilter as a value: a sequence of files with the
/// head (the oldest admission) at index 0, and a capacity it may never exceed.
/// The functions below are what the filter's methods are proved against; the lemmas
/// state the guarantees of the accept-once filter in terms of them.
module SeenQueue {

  /// No element occurs twice in `s`.
  predicate NoDuplicates<T(==)>(s: seq<T>)
  {
    forall i, j :: 0 <= i < j < |s| ==> s[i] != s[j]
  }

  /// The state the filter keeps: a positive capacity, at most that many remembered
  /// files, and no file remembered twice.
  predicate ValidQueue<T(==)>(seen: seq<T>, cap: nat)
  {
    0 < cap && |seen| <= cap && NoDuplicates(seen)
  }

  /// The last `n` elements of `s` (all of `s` when it is shorter).
  function LastN<T>(s: seq<T>, n: nat): (r: seq<T>)
    ensures |r| <= n && |r| <= |s|
    ensures |r| == n || r == s
    ensures r == s[|s| - |r|..]
  {
    if |s| <= n then s else s[|s| - n..]
  }

  /// Equal entries of `h` lie more than `cap` positions apart.
  predicate Spread<T(==)>(h: seq<T>, cap: nat)
  {
    forall j, k :: 0 <= j < k < |h| && h[j] == h[k] ==> k - j > cap
  }

  /// The queue after one accept of `x`: a file already remembered is rejected and
  /// nothing changes; otherwise `x` is offered, and when the queue is full the offer
  /// fails, so the head is polled and `x` added after it.
  function AcceptStep<T(==)>(seen: seq<T>, cap: nat, x: T): (r: seq<T>)
    requires 0 < cap && |seen| <= cap
    ensures |r| <= cap && x in r
  {
    if x in seen then seen
    else if |seen| < cap then seen + [x]
    else seen[1..] + [x]
  }

  /// Appending a file not yet present keeps a sequence free of duplicates.
  lemma AppendFreshNoDuplicates<T>(s: seq<T>, x: T)
    requires NoDuplicates(s) && x !in s
    ensures NoDuplicates(s + [x])
  {
    var t := s + [x];
    forall i, j | 0 <= i < j < |t| ensures t[i] != t[j] {
      assert t[i] == s[i];
      if j < |s| {
        assert t[j] == s[j];
      }
    }
  }

  /// Accepting a file keeps the queue free of duplicates and within its capacity.
  lemma AcceptPreservesValid<T>(seen: seq<T>, cap: nat, x: T)
    requires ValidQueue(seen, cap)
    ensures ValidQueue(AcceptStep(seen, cap, x), cap)
  {
    if x !in seen {
      if |seen| < cap {
        AppendFreshNoDuplicates(seen, x);
      } else {
        var rest := seen[1..];
        assert forall i :: 0 <= i < |rest| ==> rest[i] == seen[i + 1];
        AppendFreshNoDuplicates(rest, x);
      }
    }
  }

  /// Result of filtering a batch: the queue afterwards and the admitted files in order.
  datatype Batch<T> = Batch(seen: seq<T>, accepted: seq<T>)

  /// Accept each file of `files` in turn, starting from `seen`; a file is kept
  /// in `accepted` exactly when its accept admits it.
  function FilterRun<T(==)>(seen: seq<T>, cap: nat, files: seq<T>): (r: Batch<T>)
    requires 0 < cap && |seen| <= cap
    ensures |r.seen| <= cap && |r.accepted| <= |files|
    decreases |files|
  {
    if files == [] then Batch(seen, [])
    else
      var prev := FilterRun(seen, cap, files[..|files| - 1]);
      var x := files[|files| - 1];
      Batch(AcceptStep(prev.seen, cap, x),
            if x in prev.seen then prev.accepted else prev.accepted + [x])
  }

  /// A batch returns only files it was given, and the queue afterwards remembers
  /// only files it remembered before or was given.
  lemma {:induction false} FilterRunMembers<T>(seen: seq<T>, cap: nat, files: seq<T>)
    requires 0 < cap && |seen| <= cap
    ensures var r := FilterRun(seen, cap, files);
      (forall y :: y in r.accepted ==> y in files) &&
      (forall y :: y in r.seen ==> y in seen || y in files)
    decreases |files|
  {
    if files != [] {
      var n := |files| - 1;
      FilterRunMembers(seen, cap, files[..n]);
      assert forall y :: y in files[..n] ==> y in files;
    }
  }

  /// Filtering one more file extends the run by one accept.
  lemma FilterRunSnoc<T>(seen: seq<T>, cap: nat, files: seq<T>, i: nat)
    requires 0 < cap && |seen| <= cap && i < |files|
    ensures var prev := FilterRun(seen, cap, files[..i]);
      FilterRun(seen, cap, files[..i + 1]) ==
        Batch(AcceptStep(prev.seen, cap, files[i]),
              if files[i] in prev.seen then prev.accepted else prev.accepted + [files[i]])
  {
    assert files[..i + 1][..i] == files[..i];
  }

  /// Filtering a batch keeps the queue free of duplicates and within its capacity.
  lemma {:induction false} FilterRunPreservesValid<T>(seen: seq<T>, cap: nat, files: seq<T>)
    requires ValidQueue(seen, cap)
    ensures ValidQueue(FilterRun(seen, cap, files).seen, cap)
    decreases |files|
  {
    if files != [] {
      var init := files[..|files| - 1];
      FilterRunPreservesValid(seen, cap, init);
      AcceptPreservesValid(FilterRun(seen, cap, init).seen, cap, files[|files| - 1]);
    }
  }

  /// Whether the accept of `files[i]` admits it, given the queue left by the files
  /// before it.
  predicate AdmittedAt<T(==)>(seen: seq<T>, cap: nat, files: seq<T>, i: nat)
    requires 0 < cap && |seen| <= cap && i < |files|
  {
    files[i] !in FilterRun(seen, cap, files[..i]).seen
  }

  /// The decision on a file does not depend on the files after it.
  lemma AdmittedAtPrefix<T>(seen: seq<T>, cap: nat, files: seq<T>, n: nat, i: nat)
    requires 0 < cap && |seen| <= cap && i < n <= |files|
    ensures AdmittedAt(seen, cap, files[..n], i) == AdmittedAt(seen, cap, files, i)
  {
    assert files[..n][..i] == files[..i];
  }

  /// The positions in `files` whose accept admits the file, in increasing order.
  function AdmittedPositions<T(==)>(seen: seq<T>, cap: nat, files: seq<T>): (idx: seq<nat>)
    requires 0 < cap && |seen| <= cap
    ensures forall k :: 0 <= k < |idx| ==> idx[k] < |files|
    decreases |files|
  {
    if files == [] then []
    else
      var n := |files| - 1;
      var prev := AdmittedPositions(seen, cap, files[..n]);
      if AdmittedAt(seen, cap, files, n) then prev + [n] else prev
  }

  /// The admitted positions are strictly increasing.
  lemma {:induction false} AdmittedPositionsIncrease<T>(seen: seq<T>, cap: nat, files: seq<T>)
    requires 0 < cap && |seen| <= cap
    ensures forall j, k :: 0 <= j < k < |AdmittedPositions(seen, cap, files)| ==>
      AdmittedPositions(seen, cap, files)[j] < AdmittedPositions(seen, cap, files)[k]
    decreases |files|
  {
    if files != [] {
      var n := |files| - 1;
      AdmittedPositionsIncrease(seen, cap, files[..n]);
      var prev := AdmittedPositions(seen, cap, files[..n]);
      assert forall k :: 0 <= k < |prev| ==> prev[k] < n;
    }
  }

  /// A position is listed exactly when the accept of its file admits it.
  lemma {:induction false} AdmittedPositionsExact<T>(seen: seq<T>, cap: nat, files: seq<T>)
    requires 0 < cap && |seen| <= cap
    ensures forall i :: 0 <= i < |files| ==>
      (i in AdmittedPositions(seen, cap, files) <==> AdmittedAt(seen, cap, files, i))
    decreases |files|
  {
    if files != [] {
      var n := |files| - 1;
      AdmittedPositionsExact(seen, cap, files[..n]);
      forall i | 0 <= i < n ensures AdmittedAt(seen, cap, files[..n], i) == AdmittedAt(seen, cap, files, i) {
        AdmittedAtPrefix(seen, cap, files, n, i);
      }
    }
  }

  /// The batch's result is the files at the admitted positions.
  lemma {:induction false} AdmittedPositionsPick<T>(seen: seq<T>, cap: nat, files: seq<T>)
    requires 0 < cap && |seen| <= cap
    ensures var idx := AdmittedPositions(seen, cap, files);
      var r := FilterRun(seen, cap, files);
      |idx| == |r.accepted| && forall k :: 0 <= k < |idx| ==> r.accepted[k] == files[idx[k]]
    decreases |files|
  {
    if files != [] {
      var n := |files| - 1;
      var init := files[..n];
      AdmittedPositionsPick(seen, cap, init);
      assert init == files[..n];
      assert forall k :: 0 <= k < n ==> init[k] == files[k];
    }
  }

  /// The result of a batch is exactly the files whose accept admitted them, in input
  /// order: there are increasing positions `idx` whose files make up the result, and
  /// position `i` is among them iff the accept of `files[i]` admitted it.
  lemma FilterRunSelects<T>(seen: seq<T>, cap: nat, files: seq<T>) returns (idx: seq<nat>)
    requires 0 < cap && |seen| <= cap
    ensures |idx| == |FilterRun(seen, cap, files).accepted|
    ensures forall k :: 0 <= k < |idx| ==>
      idx[k] < |files| && FilterRun(seen, cap, files).accepted[k] == files[idx[k]]
    ensures forall j, k :: 0 <= j < k < |idx| ==> idx[j] < idx[k]
    ensures forall i :: 0 <= i < |files| ==> (i in idx <==> AdmittedAt(seen, cap, files, i))
  {
    idx := AdmittedPositions(seen, cap, files);
    AdmittedPositionsIncrease(seen, cap, files);
    AdmittedPositionsExact(seen, cap, files);
    AdmittedPositionsPick(seen, cap, files);
  }

  /// Two equal entries of a spread history cannot lie within `cap` positions.
  lemma SpreadApart<T>(h: seq<T>, cap: nat, j: nat, k: nat)
    requires Spread(h, cap) && j < k < |h| && k - j <= cap
    ensures h[j] != h[k]
  {
  }

  /// Appending a file outside the window of the last `cap` files to the queue holding
  /// that window gives the window of the extended history.
  lemma WindowAppend<T>(h: seq<T>, cap: nat, x: T)
    requires 0 < cap && x !in LastN(h, cap)
    ensures AcceptStep(LastN(h, cap), cap, x) == LastN(h + [x], cap)
  {
    var h' := h + [x];
    if |h| < cap {
      assert LastN(h', cap) == h';
    } else {
      assert LastN(h, cap)[1..] + [x] == h'[|h'| - cap..];
    }
  }

  /// Appending a file outside the window of the last `cap` files keeps repeats in the
  /// history more than `cap` apart.
  lemma SpreadAppend<T>(h: seq<T>, cap: nat, x: T)
    requires Spread(h, cap) && x !in LastN(h, cap)
    ensures Spread(h + [x], cap)
  {
    var w := LastN(h, cap);
    var h' := h + [x];
    forall j | |h| - |w| <= j < |h| ensures h[j] != x {
      assert h[j] == w[j - (|h| - |w|)];
    }
    forall j, k | 0 <= j < k < |h'| && h'[j] == h'[k] ensures k - j > cap {
      assert h'[j] == h[j];
      if k < |h| {
        assert h'[k] == h[k];
      }
    }
  }

  /// FIFO characterisation of one accept: when the queue holds the last `cap` files
  /// of the admission history `h`, a file is admitted iff it is not among them, and
  /// the queue then holds the last `cap` files of the extended history.
  lemma AcceptWindow<T>(h: seq<T>, cap: nat, x: T)
    requires 0 < cap && Spread(h, cap)
    ensures x !in LastN(h, cap) ==>
      AcceptStep(LastN(h, cap), cap, x) == LastN(h + [x], cap) && Spread(h + [x], cap)
    ensures x in LastN(h, cap) ==> AcceptStep(LastN(h, cap), cap, x) == LastN(h, cap)
  {
    if x !in LastN(h, cap) {
      WindowAppend(h, cap, x);
      SpreadAppend(h, cap, x);
    }
  }

  /// A queue holding the last `cap` files of a history whose repeats are more than
  /// `cap` apart is valid.
  lemma WindowValid<T>(h: seq<T>, cap: nat)
    requires 0 < cap && Spread(h, cap)
    ensures ValidQueue(LastN(h, cap), cap)
  {
    var w := LastN(h, cap);
    var o := |h| - |w|;
    assert w == h[o..];
    forall i, j | 0 <= i < j < |w| ensures w[i] != w[j] {
      SpreadApart(h, cap, o + i, o + j);
    }
  }

  /// A valid queue is its own history.
  lemma ValidIsOwnWindow<T>(seen: seq<T>, cap: nat)
    requires ValidQueue(seen, cap)
    ensures LastN(seen, cap) == seen && Spread(seen, cap)
  {
  }

  /// One accept in terms of the history `h` extended by the files `acc` passed so far.
  lemma WindowStep<T>(h: seq<T>, acc: seq<T>, cap: nat, x: T)
    requires 0 < cap && Spread(h + acc, cap)
    ensures var acc' := if x in LastN(h + acc, cap) then acc else acc + [x];
      AcceptStep(LastN(h + acc, cap), cap, x) == LastN(h + acc', cap) && Spread(h + acc', cap)
  {
    var past := h + acc;
    AcceptWindow(past, cap, x);
    if x !in LastN(past, cap) {
      assert h + (acc + [x]) == past + [x];
    }
  }

  /// FIFO characterisation of a batch: from a queue holding the last `cap` files of
  /// the history `h`, the queue afterwards holds the last `cap` files of `h` extended
  /// by the batch's result, and repeats in that history stay more than `cap` apart.
  lemma {:induction false} FilterRunWindow<T>(h: seq<T>, cap: nat, files: seq<T>)
    requires 0 < cap && Spread(h, cap)
    ensures var r := FilterRun(LastN(h, cap), cap, files);
      r.seen == LastN(h + r.accepted, cap) && Spread(h + r.accepted, cap)
    decreases |files|
  {
    if files == [] {
      assert h + [] == h;
    } else {
      var init := files[..|files| - 1];
      FilterRunWindow(h, cap, init);
      WindowStep(h, FilterRun(LastN(h, cap), cap, init).accepted, cap, files[|files| - 1]);
    }
  }

  /// Within one batch, a file can be returned twice only when the two returns lie more
  /// than `cap` positions apart, that is, at least `cap` admissions lie between them:
  /// it must have been evicted in between.
  lemma AcceptedRepeatsFarApart<T>(seen: seq<T>, cap: nat, files: seq<T>)
    requires ValidQueue(seen, cap)
    ensures Spread(FilterRun(seen, cap, files).accepted, cap)
  {
    ValidIsOwnWindow(seen, cap);
    FilterRunWindow(seen, cap, files);
    var a := FilterRun(seen, cap, files).accepted;
    var h := seen + a;
    forall j, k | 0 <= j < k < |a| && a[j] == a[k] ensures k - j > cap {
      assert h[|seen| + j] == a[j] && h[|seen| + k] == a[k];
    }
  }

  /// A batch no longer than the capacity never returns a file twice.
  lemma ShortBatchNoRepeats<T>(seen: seq<T>, cap: nat, files: seq<T>)
    requires ValidQueue(seen, cap) && |files| <= cap
    ensures NoDuplicates(FilterRun(seen, cap, files).accepted)
  {
    AcceptedRepeatsFarApart(seen, cap, files);
  }

  /// With capacity 1, a file evicted by another one in the same batch is returned again.
  lemma RepeatAfterEvictionInOneBatch<T>(a: T, b: T)
    requires a != b
    ensures FilterRun([], 1, [a, b, a]).accepted == [a, b, a]
  {
    assert [a][..0] == [];
    assert FilterRun([], 1, [a]) == Batch([a], [a]);
    assert [a, b][..1] == [a];
    assert FilterRun([], 1, [a, b]) == Batch([b], [a, b]);
    assert [a, b, a][..2] == [a, b];
  }

  /// While the queue never fills, nothing is evicted: the batch's result is appended
  /// to the queue, and no file already remembered is returned.
  lemma NoEvictionBelowCapacity<T>(seen: seq<T>, cap: nat, files: seq<T>)
    requires ValidQueue(seen, cap) && |seen| + |files| <= cap
    ensures var r := FilterRun(seen, cap, files);
      r.seen == seen + r.accepted && NoDuplicates(r.seen) &&
      forall f :: f in seen ==> f !in r.accepted
  {
    ValidIsOwnWindow(seen, cap);
    FilterRunWindow(seen, cap, files);
    FilterRunPreservesValid(seen, cap, files);
    var r := FilterRun(seen, cap, files);
    assert LastN(seen + r.accepted, cap) == seen + r.accepted;
    forall i, k | 0 <= i < |seen| && 0 <= k < |r.accepted| ensures seen[i] != r.accepted[k] {
      assert r.seen[i] == seen[i] && r.seen[|seen| + k] == r.accepted[k];
    }
  }

  /// While the queue never fills, every file of the batch, admitted or rejected, is
  /// remembered afterwards, and so is every file remembered before.
  lemma {:induction false} NoEvictionRemembers<T>(seen: seq<T>, cap: nat, files: seq<T>)
    requires ValidQueue(seen, cap) && |seen| + |files| <= cap
    ensures forall f :: f in seen || f in files ==> f in FilterRun(seen, cap, files).seen
    decreases |files|
  {
    if files != [] {
      var n := |files| - 1;
      var init := files[..n];
      NoEvictionRemembers(seen, cap, init);
      NoEvictionBelowCapacity(seen, cap, init);
      var prev := FilterRun(seen, cap, init);
      assert |prev.seen| < cap;
      assert forall f :: f in files ==> f in init || f == files[n];
    }
  }

  /// A batch whose files are all remembered returns nothing and leaves the queue as it was.
  lemma {:induction false} AllRememberedUnchanged<T>(seen: seq<T>, cap: nat, files: seq<T>)
    requires 0 < cap && |seen| <= cap
    requires forall f :: f in files ==> f in seen
    ensures FilterRun(seen, cap, files) == Batch(seen, [])
    decreases |files|
  {
    if files != [] {
      var init := files[..|files| - 1];
      assert forall f :: f in init ==> f in files;
      AllRememberedUnchanged(seen, cap, init);
    }
  }

  /// Accept-once across calls: while the queue never fills, filtering the same batch
  /// again returns nothing and leaves the queue as the first call left it.
  lemma RefilterReturnsNothing<T>(seen: seq<T>, cap: nat, files: seq<T>)
    requires ValidQueue(seen, cap) && |seen| + |files| <= cap
    ensures var r := FilterRun(seen, cap, files);
      FilterRun(r.seen, cap, files) == Batch(r.seen, [])
  {
    NoEvictionRemembers(seen, cap, files);
    AllRememberedUnchanged(FilterRun(seen, cap, files).seen, cap, files);
  }

  /// Distinct files none of which is remembered are all admitted, in order.
  lemma {:induction false} FreshDistinctAllAdmitted<T>(seen: seq<T>, cap: nat, files: seq<T>)
    requires 0 < cap && |seen| <= cap
    requires NoDuplicates(files) && forall f :: f in files ==> f !in seen
    ensures FilterRun(seen, cap, files).accepted == files
    decreases |files|
  {
    if files != [] {
      var n := |files| - 1;
      var init := files[..n];
      FreshDistinctAllAdmitted(seen, cap, init);
      FilterRunMembers(seen, cap, init);
      assert forall i :: 0 <= i < n ==> init[i] == files[i] != files[n];
      assert files[n] !in FilterRun(seen, cap, init).seen;
      assert init + [files[n]] == files;
    }
  }

  /// Filtering a one-file batch is one accept.
  lemma FilterOne<T>(seen: seq<T>, cap: nat, x: T)
    requires 0 < cap && |seen| <= cap
    ensures FilterRun(seen, cap, [x]) == Batch(AcceptStep(seen, cap, x), if x in seen then [] else [x])
  {
    assert [x][..0] == [];
  }

  /// From an empty queue, a batch of distinct files passes whole, and the queue then
  /// holds its last `cap` files.
  lemma DistinctBatchFromEmpty<T>(ids: seq<T>, cap: nat)
    requires 0 < cap && NoDuplicates(ids)
    ensures FilterRun([], cap, ids) == Batch(LastN(ids, cap), ids)
  {
    FreshDistinctAllAdmitted([], cap, ids);
    FilterRunWindow([], cap, ids);
    assert [] + ids == ids;
  }

  /// FIFO eviction: after `cap + 1` distinct files are filtered from an empty queue,
  /// the first is forgotten and passes again, while the other `cap` are still rejected.
  lemma EvictedOldestReadmitted<T>(ids: seq<T>, cap: nat)
    requires 0 < cap && |ids| == cap + 1 && NoDuplicates(ids)
    ensures var r := FilterRun([], cap, ids);
      r.accepted == ids && r.seen == ids[1..] &&
      FilterRun(r.seen, cap, [ids[0]]).accepted == [ids[0]] &&
      forall i :: 1 <= i < |ids| ==> FilterRun(r.seen, cap, [ids[i]]).accepted == []
  {
    DistinctBatchFromEmpty(ids, cap);
    var s := ids[1..];
    forall i | 0 <= i < |s| ensures s[i] != ids[0] {
      assert s[i] == ids[i + 1];
    }
    FilterOne(s, cap, ids[0]);
    forall i | 1 <= i < |ids| ensures FilterRun(s, cap, [ids[i]]).accepted == [] {
      FilterOne(s, cap, ids[i]);
      assert s[i - 1] == ids[i];
    }
  }
}
