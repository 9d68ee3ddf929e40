/// The accept-once file filter: an object owning the 'seen' queue, updated in place
/// by every accept. Files are values of an opaque type with decidable equality.
module FileFilter {
  import opened SeenQueue

  /// A Java `int`.
  newtype int32 = x: int | -0x8000_0000 <= x < 0x8000_0000

  /// Integer.MAX_VALUE: the capacity of a LinkedBlockingQueue created without one.
  const IntMaxValue: nat := 0x7fff_ffff

  class AcceptOnceFileFilter<T(==)> {
    /// The queue of files already passed, oldest (the head) first.
    var seen: seq<T>
    /// The capacity of the queue, fixed at construction.
    const capacity: nat

    /// The capacity is positive, and the queue holds at most that many files, none twice.
    ghost predicate Valid()
      reads this
    {
      ValidQueue(seen, capacity)
    }

    /// A filter over a bounded queue: a file that falls out of the full queue passes again.
    constructor (maxCapacity: int32)
      requires maxCapacity > 0
      ensures Valid()
      ensures capacity == maxCapacity as nat && seen == []
    {
      capacity := maxCapacity as nat;
      seen := [];
    }

    /// A filter over a queue without a given capacity, which the JDK bounds by
    /// Integer.MAX_VALUE.
    constructor Unbounded()
      ensures Valid()
      ensures capacity == IntMaxValue && seen == []
    {
      capacity := IntMaxValue;
      seen := [];
    }

    /// Passes `file` at most once while it is remembered: a remembered file is rejected
    /// and nothing changes; a new one is offered to the queue, and when the offer fails
    /// because the queue is full, the head is polled and the file added.
    method Accept(file: T) returns (admitted: bool)
      requires Valid()
      modifies this
      ensures Valid()
      ensures admitted <==> file !in old(seen)
      ensures !admitted ==> seen == old(seen)
      ensures admitted && |old(seen)| < capacity ==> seen == old(seen) + [file]
      ensures admitted && |old(seen)| == capacity ==> seen == old(seen)[1..] + [file]
      ensures seen == AcceptStep(old(seen), capacity, file)
    {
      if file in seen {
        return false;
      }
      if |seen| < capacity {
        // the offer succeeds
        seen := seen + [file];
      } else {
        // the offer fails: poll the head, then add
        seen := seen[1..];
        seen := seen + [file];
      }
      AcceptPreservesValid(old(seen), capacity, file);
      return true;
    }

    /// Returns the files of `files` that this filter had not passed before, in order,
    /// remembering each as it passes.
    method FilterFiles(files: seq<T>) returns (accepted: seq<T>)
      requires Valid()
      modifies this
      ensures Valid()
      ensures accepted == FilterRun(old(seen), capacity, files).accepted
      ensures seen == FilterRun(old(seen), capacity, files).seen
      ensures files == [] ==> accepted == [] && seen == old(seen)
      ensures |old(seen)| + |files| <= capacity ==>
        seen == old(seen) + accepted &&
        (forall f :: f in old(seen) ==> f !in accepted) &&
        (forall f :: f in files ==> f in seen)
    {
      ghost var seen0 := seen;
      accepted := [];
      for i := 0 to |files|
        invariant Valid()
        invariant FilterRun(seen0, capacity, files[..i]) == Batch(seen, accepted)
      {
        FilterRunSnoc(seen0, capacity, files, i);
        var admitted := Accept(files[i]);
        if admitted {
          accepted := accepted + [files[i]];
        }
      }
      assert files[..|files|] == files;
      if |seen0| + |files| <= capacity {
        NoEvictionBelowCapacity(seen0, capacity, files);
        NoEvictionRemembers(seen0, capacity, files);
      }
    }
  }

  /// A filter of capacity 2, first two polls: a and b pass; then a is rejected.
  lemma CapacityTwoFirstPolls<T>(a: T, b: T)
    requires a != b
    ensures FilterRun([], 2, [a, b]) == Batch([a, b], [a, b])
    ensures FilterRun([a, b], 2, [a]) == Batch([a, b], [])
  {
    DistinctBatchFromEmpty([a, b], 2);
    FilterOne([a, b], 2, a);
  }

  /// A filter of capacity 2 whose queue is full: a new file passes, evicts the head
  /// and becomes the tail (c evicting a from [a, b]; a evicting b from [b, c]).
  lemma CapacityTwoEviction<T>(a: T, b: T, c: T)
    requires c != a && c != b
    ensures FilterRun([a, b], 2, [c]) == Batch([b, c], [c])
  {
    assert c !in [a, b];
    FilterOne([a, b], 2, c);
    assert [a, b][1..] + [c] == [b, c];
  }

  /// One filter of capacity 2 polled four times: [a, b] passes whole, a is then
  /// rejected, c evicts a, and a, forgotten, passes again and evicts b.
  method CapacityTwoPolls<T(==)>(a: T, b: T, c: T) returns (r1: seq<T>, r2: seq<T>, r3: seq<T>, r4: seq<T>)
    requires a != b && b != c && a != c
    ensures r1 == [a, b] && r2 == [] && r3 == [c] && r4 == [a]
  {
    var filter := new AcceptOnceFileFilter<T>(2);
    CapacityTwoFirstPolls(a, b);
    r1 := filter.FilterFiles([a, b]);
    r2 := filter.FilterFiles([a]);
    CapacityTwoEviction(a, b, c);
    r3 := filter.FilterFiles([c]);
    CapacityTwoEviction(b, c, a);
    r4 := filter.FilterFiles([a]);
  }

  /// A no-argument filter given the same batch twice: the first call passes every file
  /// of the batch (each once), the second passes nothing.
  method UnboundedFiltersOnce<T(==)>(files: seq<T>) returns (first: seq<T>, second: seq<T>)
    requires |files| <= IntMaxValue
    ensures forall f :: f in files <==> f in first
    ensures NoDuplicates(first)
    ensures second == []
  {
    var filter := new AcceptOnceFileFilter<T>.Unbounded();
    first := filter.FilterFiles(files);
    assert filter.seen == first;
    FilterRunMembers([], IntMaxValue, files);
    AllRememberedUnchanged(filter.seen, IntMaxValue, files);
    second := filter.FilterFiles(files);
  }

  /// An unbounded filter drops a repeat within one batch.
  lemma UnboundedBatchScenario<T>(x: T, y: T)
    requires x != y
    ensures FilterRun([], IntMaxValue, [x, x, y]).accepted == [x, y]
  {
    assert [x, x, y][..2] == [x, x];
    assert [x, x][..1] == [x];
    FilterOne([], IntMaxValue, x);
  }
}
