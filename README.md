# Accept-once file filter

A Dafny model of `AcceptOnceFileFilter` from Spring Integration's file module. The filter
sits in front of a file-polling source and passes each file only once. It remembers the
files it has passed in a FIFO queue called `seen`. The queue is either bounded by a
capacity given to the constructor, or created without a capacity.

- `filterFiles` walks the input array in order and keeps every file that `accept` admits.
- `accept` rejects a file already in `seen`. Otherwise it offers the file to the queue.
  When the offer fails because the queue is full, it polls the head (the oldest file) and
  adds the new file at the tail. Either way it then admits the file.

Files are values of an opaque type `T` with decidable equality.

The model has two modules:

- `SeenQueue` (`seen_queue.dfy`) is the queue as a value. A `seq<T>` holds the queue with
  its head at index 0. `AcceptStep` is one accept. `FilterRun` folds `AcceptStep` over a
  batch and returns a `Batch` (the new queue and the admitted files in order). The lemmas
  state the filter's guarantees in terms of these functions.
- `FileFilter` (`file_filter.dfy`) holds the class `AcceptOnceFileFilter`. It has a `seen`
  field that `Accept` and `FilterFiles` update in place, and a `capacity` fixed at
  construction. `Accept` and `FilterFiles` are proved against `AcceptStep` and `FilterRun`.

The queue's behaviour is characterised by a FIFO window. Take the history of all files the
filter has passed. The queue always holds the last `capacity` entries of that history
(`LastN`), and two equal entries of the history are always more than `capacity` positions
apart (`Spread`). So a file is admitted exactly when it is not among the last `capacity`
admissions; otherwise it is rejected and the queue stays as it was (`AcceptWindow`,
`WindowStep`, `FilterRunWindow`). A file that falls out of a bounded queue
passes again, as the bounded constructor's documentation says (`EvictedOldestReadmitted`).

This also means a single `filterFiles` call can return a file twice on a bounded filter.
With capacity 1 and input `[a, b, a]`, `b` evicts `a`, and `a` then passes again
(`RepeatAfterEvictionInOneBatch`). What does hold is weaker: repeats within one batch are
more than `capacity` positions apart in the result, that is, at least `capacity`
admissions lie between them (`AcceptedRepeatsFarApart`). A batch no longer than
the capacity never returns a file twice (`ShortBatchNoRepeats`).

The constructor without arguments builds `new LinkedBlockingQueue<File>()`. The JDK gives
that queue a capacity of `Integer.MAX_VALUE`, so the model's `Unbounded` constructor uses
capacity `0x7fff_ffff`, not an unbounded sequence. The filter is truly accept-once only
while no eviction can happen. `NoEvictionBelowCapacity` and the last postcondition of
`FilterFiles` say that while the queue and the batch together fit the capacity, the batch's
result is appended to the queue, no file already remembered is returned, and every file of
the batch is remembered afterwards. So filtering the same batch again returns nothing
(`RefilterReturnsNothing`, `UnboundedFiltersOnce`). The constructor's
documentation (AcceptOnceFileFilter.java:53) calls this queue unbounded; the model
follows the capacity the JDK actually gives it.

## Model

| member | source | states |
|---|---|---|
| `FileFilter.AcceptOnceFileFilter.constructor` | org.springframework.integration.file/src/main/java/org/springframework/integration/file/AcceptOnceFileFilter.java:48-50 | A bounded filter built from a positive Java `int` starts with an empty queue of exactly that capacity and satisfies the invariant. |
| `FileFilter.AcceptOnceFileFilter.Unbounded` | org.springframework.integration.file/src/main/java/org/springframework/integration/file/AcceptOnceFileFilter.java:55-57 | The no-argument filter starts with an empty queue whose capacity is `Integer.MAX_VALUE`, the default capacity of a `LinkedBlockingQueue`. |
| `FileFilter.AcceptOnceFileFilter.Accept` | org.springframework.integration.file/src/main/java/org/springframework/integration/file/AcceptOnceFileFilter.java:74-85 | A file is admitted iff it is not in `seen`. A rejected file leaves `seen` unchanged. A new file is appended when the queue has room. When the queue is full, exactly the head is dropped and the file appended. No duplicates and the capacity bound are preserved. |
| `FileFilter.AcceptOnceFileFilter.FilterFiles` | org.springframework.integration.file/src/main/java/org/springframework/integration/file/AcceptOnceFileFilter.java:64-72 | The returned list and the new queue are those of accepting each input in order (`FilterRun`). An empty input returns nothing and leaves `seen` unchanged. While queue plus batch fit the capacity, the result is appended to `seen`, holds no file already remembered, and every input file is remembered afterwards. |
| `SeenQueue.AcceptStep` | org.springframework.integration.file/src/main/java/org/springframework/integration/file/AcceptOnceFileFilter.java:76-82 | After an accept, the queue stays within the capacity and holds the accepted file. |
| `SeenQueue.AcceptPreservesValid` | org.springframework.integration.file/src/main/java/org/springframework/integration/file/AcceptOnceFileFilter.java:76-82 | Accept preserves "positive capacity, at most capacity entries, no duplicates". |
| `SeenQueue.FilterRun` | org.springframework.integration.file/src/main/java/org/springframework/integration/file/AcceptOnceFileFilter.java:64-72 | Filtering a batch keeps the queue within the capacity and returns no more files than it was given. |
| `SeenQueue.FilterRunMembers` | org.springframework.integration.file/src/main/java/org/springframework/integration/file/AcceptOnceFileFilter.java:64-72 | A batch returns only files from its input. Afterwards the queue holds only files it held before or was given. |
| `SeenQueue.FilterRunPreservesValid` | org.springframework.integration.file/src/main/java/org/springframework/integration/file/AcceptOnceFileFilter.java:64-72 | Filtering a batch preserves the queue invariant. |
| `SeenQueue.AdmittedPositionsIncrease` | org.springframework.integration.file/src/main/java/org/springframework/integration/file/AcceptOnceFileFilter.java:66-68 | The positions of the admitted inputs strictly increase. |
| `SeenQueue.AdmittedPositionsExact` | org.springframework.integration.file/src/main/java/org/springframework/integration/file/AcceptOnceFileFilter.java:66-68 | An input position is listed iff `accept` admitted that file, given the queue left by the inputs before it. |
| `SeenQueue.AdmittedPositionsPick` | org.springframework.integration.file/src/main/java/org/springframework/integration/file/AcceptOnceFileFilter.java:66-68 | The batch's result is the inputs at the admitted positions. |
| `SeenQueue.FilterRunSelects` | org.springframework.integration.file/src/main/java/org/springframework/integration/file/AcceptOnceFileFilter.java:64-72 | The result is exactly the inputs `accept` admitted, in their original input order. |
| `SeenQueue.FilterOne` | org.springframework.integration.file/src/main/java/org/springframework/integration/file/AcceptOnceFileFilter.java:66-68 | Filtering a one-file array is one accept: the file is returned iff it was not remembered. |
| `SeenQueue.WindowAppend` | org.springframework.integration.file/src/main/java/org/springframework/integration/file/AcceptOnceFileFilter.java:79-82 | Admitting a file to a queue that holds the last `cap` files of a history gives the last `cap` files of the history extended by it. |
| `SeenQueue.SpreadAppend` | org.springframework.integration.file/src/main/java/org/springframework/integration/file/AcceptOnceFileFilter.java:76-82 | Admitting only files outside the window keeps repeats in the history more than `cap` apart. |
| `SeenQueue.AcceptWindow` | org.springframework.integration.file/src/main/java/org/springframework/integration/file/AcceptOnceFileFilter.java:76-82 | FIFO eviction for one accept: a file outside the window of the last `cap` admissions is admitted and the queue becomes the window of the extended history; a file inside the window leaves the queue as it was. |
| `SeenQueue.WindowStep` | org.springframework.integration.file/src/main/java/org/springframework/integration/file/AcceptOnceFileFilter.java:76-82 | One accept against the history extended by the files passed so far: a file among the last `cap` of that history leaves the queue and the history unchanged; any other file is admitted, extends the history, and the queue becomes the new window, with repeats still more than `cap` apart. |
| `SeenQueue.WindowValid` | org.springframework.integration.file/src/main/java/org/springframework/integration/file/AcceptOnceFileFilter.java:49 | The window of a spread history never exceeds the capacity and holds no duplicates. |
| `SeenQueue.FilterRunWindow` | org.springframework.integration.file/src/main/java/org/springframework/integration/file/AcceptOnceFileFilter.java:64-72 | FIFO eviction for a batch: after the batch, the queue is the last `cap` files of the history extended by the batch's result, and that history stays spread. |
| `SeenQueue.AcceptedRepeatsFarApart` | org.springframework.integration.file/src/main/java/org/springframework/integration/file/AcceptOnceFileFilter.java:66-68 | Within one batch, the two returns of a file returned twice are more than `cap` positions apart in the result, that is, at least `cap` admissions lie between them. |
| `SeenQueue.ShortBatchNoRepeats` | org.springframework.integration.file/src/main/java/org/springframework/integration/file/AcceptOnceFileFilter.java:66-68 | A batch no longer than the capacity never returns a file twice. |
| `SeenQueue.RepeatAfterEvictionInOneBatch` | org.springframework.integration.file/src/main/java/org/springframework/integration/file/AcceptOnceFileFilter.java:41-43 | With capacity 1, the batch `[a, b, a]` returns `[a, b, a]`: the evicted `a` passes again within the same batch. |
| `SeenQueue.NoEvictionBelowCapacity` | org.springframework.integration.file/src/main/java/org/springframework/integration/file/AcceptOnceFileFilter.java:64-82 | While queue plus batch fit the capacity, the result is appended to the queue without duplicates, and no remembered file is returned again. |
| `SeenQueue.NoEvictionRemembers` | org.springframework.integration.file/src/main/java/org/springframework/integration/file/AcceptOnceFileFilter.java:60-72 | While queue plus batch fit the capacity, every file given to the batch, admitted or rejected, and every file remembered before is remembered afterwards. |
| `SeenQueue.AllRememberedUnchanged` | org.springframework.integration.file/src/main/java/org/springframework/integration/file/AcceptOnceFileFilter.java:64-72 | A batch whose files are all remembered returns nothing and leaves the queue unchanged. |
| `SeenQueue.RefilterReturnsNothing` | org.springframework.integration.file/src/main/java/org/springframework/integration/file/AcceptOnceFileFilter.java:60-72 | While queue plus batch fit the capacity, filtering the same batch a second time returns nothing and changes nothing: files already filtered are not returned. |
| `SeenQueue.FreshDistinctAllAdmitted` | org.springframework.integration.file/src/main/java/org/springframework/integration/file/AcceptOnceFileFilter.java:64-72 | Distinct files, none remembered, all pass in order. |
| `SeenQueue.DistinctBatchFromEmpty` | org.springframework.integration.file/src/main/java/org/springframework/integration/file/AcceptOnceFileFilter.java:64-72 | From an empty queue, a batch of distinct files passes whole, and the queue keeps its last `cap` files. |
| `SeenQueue.EvictedOldestReadmitted` | org.springframework.integration.file/src/main/java/org/springframework/integration/file/AcceptOnceFileFilter.java:41-43 | After `cap + 1` distinct files pass an empty filter, the queue is the last `cap` of them. The first file passes again, and each of the others is still rejected. |
| `FileFilter.CapacityTwoFirstPolls` | org.springframework.integration.file/src/main/java/org/springframework/integration/file/AcceptOnceFileFilter.java:64-83 | Capacity 2: `[a, b]` passes whole, and `a` is then rejected. |
| `FileFilter.CapacityTwoEviction` | org.springframework.integration.file/src/main/java/org/springframework/integration/file/AcceptOnceFileFilter.java:79-82 | Capacity 2, full queue `[a, b]`: a new `c` passes and the queue becomes `[b, c]`. Read with `(b, c, a)`, the evicted `a` passes again and the queue becomes `[c, a]`. |
| `FileFilter.CapacityTwoPolls` | org.springframework.integration.file/src/main/java/org/springframework/integration/file/AcceptOnceFileFilter.java:41-50 | One filter of capacity 2 polled four times returns `[a, b]`, then `[]` for `[a]`, then `[c]`, then `[a]` again: `c` evicted `a`. |
| `FileFilter.UnboundedFiltersOnce` | org.springframework.integration.file/src/main/java/org/springframework/integration/file/AcceptOnceFileFilter.java:55-72 | A no-argument filter given the same batch twice returns every file of the batch exactly once the first time, and nothing the second time. |
| `FileFilter.UnboundedBatchScenario` | org.springframework.integration.file/src/main/java/org/springframework/integration/file/AcceptOnceFileFilter.java:55-57 | A no-argument filter returns `[x, y]` for `[x, x, y]`. |

## Left out

- The `monitor` lock (AcceptOnceFileFilter.java:37, 75) and the thread safety of `LinkedBlockingQueue`. `Accept` is one sequential step. Concurrent callers, and accepts of other threads interleaving inside one `filterFiles` call, are not modelled.
- `java.io.File` equality and any file-system access. Files are an opaque type with `==`.
- `FileFilter.AcceptOnceFileFilter.constructor`: the `IllegalArgumentException` that `LinkedBlockingQueue` throws for a capacity of 0 or less is a precondition `maxCapacity > 0`, not an error path.
- A `null` array or `null` file, which would make the source throw `NullPointerException`. The input array is a `seq<T>` because it is only read, and the returned `ArrayList` is a `seq<T>`.
- `FileFilter.AcceptOnceFileFilter.Accept` and `FileFilter.AcceptOnceFileFilter.FilterFiles`: the FIFO-window characterisation (queue = last `capacity` admissions) is proved on values (`AcceptWindow`, `FilterRunWindow`), not kept as a ghost history inside the class.
- SourceAnnotationPostProcessor.java and AnnotationMethodPostProcessor.java are not part of this model. They are annotation and dependency-injection configuration with no logic of the filter.
