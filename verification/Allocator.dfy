/** The allocation of source files to thread batches (SourceBatchThreadAllocator): files are sorted
    by descending size and each goes to the batch with the smallest load, kept in a min-heap. */
module Allocator {
  import opened Scheduling
  import opened Sequences

  const UNSIGNED_RANGE: nat := 0x1_0000_0000
  type unsigned = x: nat | x < UNSIGNED_RANGE

  datatype SourceFile = SourceFile(path: string, size: unsigned, id: unsigned)

  datatype ThreadSourceBatch = ThreadSourceBatch(sourceFiles: seq<SourceFile>, threadLoad: unsigned) {
    /** `threadLoad` is an unsigned counter: adding a file wraps around. */
    function Add(f: SourceFile): ThreadSourceBatch {
      ThreadSourceBatch(sourceFiles + [f], (threadLoad + f.size) % UNSIGNED_RANGE)
    }
  }

  function SumSizes(files: seq<SourceFile>): nat {
    if files == [] then 0 else SumSizes(files[..|files| - 1]) + files[|files| - 1].size
  }

  /** How often a file occurs in several batches taken together. */
  ghost function Copies(parts: seq<seq<SourceFile>>, f: SourceFile): nat {
    if parts == [] then 0 else Copies(parts[..|parts| - 1], f) + Occurrences(parts[|parts| - 1], f)
  }

  ghost function FilesOfBatches(batches: seq<ThreadSourceBatch>): (parts: seq<seq<SourceFile>>)
    ensures |parts| == |batches|
  {
    seq(|batches|, i requires 0 <= i < |batches| => batches[i].sourceFiles)
  }

  predicate BiggestFirst(files: seq<SourceFile>) {
    forall i, j :: 0 <= i < j < |files| ==> files[i].size >= files[j].size
  }

  /** The sizes of the files that have at least `size`. */
  function SumAtLeast(files: seq<SourceFile>, size: nat): nat {
    if files == [] then 0
    else
      var last := files[|files| - 1].size;
      SumAtLeast(files[..|files| - 1], size) + if last >= size then last else 0
  }

  /** No batch load can wrap around: checkable before the allocation, from the sizes alone. A file is
      placed after those that are larger, so only they count. */
  predicate LoadsFit(files: seq<SourceFile>, n: nat) {
    forall f :: f in files ==> SumAtLeast(files, f.size) + (n - 1) * f.size < n * UNSIGNED_RANGE
  }

  /** `c` bounds the load of every part. */
  ghost predicate LoadsAtMost(parts: seq<seq<SourceFile>>, c: nat) {
    forall k :: 0 <= k < |parts| ==> SumSizes(parts[k]) <= c
  }

  /** `parts` distributes `files` over `n` threads. */
  ghost predicate Distributes(parts: seq<seq<SourceFile>>, files: seq<SourceFile>, n: nat) {
    |parts| == n && forall f :: Copies(parts, f) == Occurrences(files, f)
  }

  // ---- the standard library's sort and heap

  method SortBiggestFirst(files: seq<SourceFile>) returns (sorted: seq<SourceFile>)
    ensures BiggestFirst(sorted) && Permuted(sorted, files) && SumSizes(sorted) == SumSizes(files)
  {
    sorted := [];
    for i := 0 to |files|
      invariant BiggestFirst(sorted) && Permuted(sorted, files[..i]) && SumSizes(sorted) == SumSizes(files[..i])
    {
      Prefix(files, i);
      sorted := Insert(sorted, files[i]);
    }
    assert files[..|files|] == files;
  }

  lemma Prefix(files: seq<SourceFile>, i: nat)
    requires i < |files|
    ensures SumSizes(files[..i + 1]) == SumSizes(files[..i]) + files[i].size
    ensures forall f :: Occurrences(files[..i + 1], f) == Occurrences(files[..i], f) + if files[i] == f then 1 else 0
  {
    assert files[..i + 1][..i] == files[..i];
  }

  method Insert(sorted: seq<SourceFile>, f: SourceFile) returns (r: seq<SourceFile>)
    requires BiggestFirst(sorted)
    ensures BiggestFirst(r) && |r| == |sorted| + 1 && SumSizes(r) == SumSizes(sorted) + f.size
    ensures forall x :: Occurrences(r, x) == Occurrences(sorted, x) + if f == x then 1 else 0
  {
    var k := 0;
    while k < |sorted| && sorted[k].size >= f.size
      invariant 0 <= k <= |sorted|
      invariant forall j :: 0 <= j < k ==> sorted[j].size >= f.size
    {
      k := k + 1;
    }
    r := sorted[..k] + [f] + sorted[k..];
    InsertSorted(sorted, k, f);
    InsertSum(sorted, k, f);
    forall x { OccurrencesInsert(sorted, k, f, x); }
  }

  lemma InsertSorted(sorted: seq<SourceFile>, k: nat, f: SourceFile)
    requires BiggestFirst(sorted) && k <= |sorted| && (forall j :: 0 <= j < k ==> sorted[j].size >= f.size)
    requires k < |sorted| ==> sorted[k].size < f.size
    ensures BiggestFirst(sorted[..k] + [f] + sorted[k..])
  {}

  lemma InsertSum(sorted: seq<SourceFile>, k: nat, f: SourceFile)
    requires k <= |sorted|
    ensures SumSizes(sorted[..k] + [f] + sorted[k..]) == SumSizes(sorted) + f.size
  {
    assert sorted == sorted[..k] + sorted[k..];
    SumSizesMiddle(sorted[..k], f, sorted[k..]);
  }

  /** The heap is the bag of its batches, in no particular order; its top is any of least load. */
  predicate IsTop(queue: seq<ThreadSourceBatch>, k: nat) {
    k < |queue| && forall x :: 0 <= x < |queue| ==> queue[k].threadLoad <= queue[x].threadLoad
  }

  lemma {:induction false} TopExists(queue: seq<ThreadSourceBatch>)
    requires queue != []
    ensures exists k: nat :: IsTop(queue, k)
  {
    var m := |queue| - 1;
    if m == 0 {
      assert IsTop(queue, 0);
    } else {
      TopExists(queue[..m]);
      var k: nat :| IsTop(queue[..m], k);
      assert IsTop(queue, if queue[m].threadLoad <= queue[k].threadLoad then m else k);
    }
  }

  // ---- the batches an assignment stands for

  ghost function Sizes(files: seq<SourceFile>): (p: seq<nat>)
    ensures |p| == |files|
  {
    seq(|files|, i requires 0 <= i < |files| => files[i].size as nat)
  }

  ghost function Part(files: seq<SourceFile>, a: seq<nat>, k: nat, t: nat): seq<SourceFile>
    requires t <= |files| == |a|
  {
    if t == 0 then [] else Part(files, a, k, t - 1) + if a[t - 1] == k then [files[t - 1]] else []
  }

  ghost function Batch(files: seq<SourceFile>, a: seq<nat>, k: nat, t: nat): ThreadSourceBatch
    requires t <= |files| == |a|
  {
    ThreadSourceBatch(Part(files, a, k, t), Load(Sizes(files), a, k, t) % UNSIGNED_RANGE)
  }

  ghost function Batches(files: seq<SourceFile>, a: seq<nat>, n: nat, t: nat): (bs: seq<ThreadSourceBatch>)
    requires t <= |files| == |a|
    ensures |bs| == n
  {
    seq(n, k requires 0 <= k < n => Batch(files, a, k, t))
  }

  /** File `i` went to a batch whose (wrapped) `threadLoad` was minimal. */
  ghost predicate PlacedOnTop(p: seq<nat>, a: seq<nat>, n: nat, i: nat)
    requires i < |p| == |a|
  {
    forall k: nat :: k < n ==> Load(p, a, a[i], i) % UNSIGNED_RANGE <= Load(p, a, k, i) % UNSIGNED_RANGE
  }

  ghost predicate HeapRun(p: seq<nat>, a: seq<nat>, n: nat, t: nat) {
    && t <= |p| == |a|
    && Assigns(a, n, t)
    && forall i: nat :: i < t ==> PlacedOnTop(p, a, n, i)
  }

  lemma {:induction false} SumSizesAppend(xs: seq<SourceFile>, ys: seq<SourceFile>)
    ensures SumSizes(xs + ys) == SumSizes(xs) + SumSizes(ys)
  {
    if ys == [] {
      assert xs + ys == xs;
    } else {
      SumSizesAppend(xs, ys[..|ys| - 1]);
      assert (xs + ys)[..|xs + ys| - 1] == xs + ys[..|ys| - 1];
    }
  }

  lemma {:induction false} SumSizesMiddle(xs: seq<SourceFile>, f: SourceFile, ys: seq<SourceFile>)
    ensures SumSizes(xs + [f] + ys) == SumSizes(xs + ys) + f.size
  {
    SumSizesAppend(xs + [f], ys);
    SumSizesAppend(xs, ys);
    SumSizesAppend(xs, [f]);
    assert SumSizes([f]) == f.size;
  }

  lemma SumWithOne(files: seq<SourceFile>, f: SourceFile)
    ensures SumSizes(files + [f]) == SumSizes(files) + f.size
  {
    assert (files + [f])[..|files|] == files;
  }

  lemma {:induction false} PartLoad(files: seq<SourceFile>, a: seq<nat>, k: nat, t: nat)
    requires t <= |files| == |a|
    ensures SumSizes(Part(files, a, k, t)) == Load(Sizes(files), a, k, t)
  {
    if t > 0 {
      PartLoad(files, a, k, t - 1);
      var part := Part(files, a, k, t - 1);
      if a[t - 1] == k { SumWithOne(part, files[t - 1]); } else { assert part + [] == part; }
    }
  }

  lemma {:induction false} TotalIsSum(files: seq<SourceFile>, t: nat)
    requires t <= |files|
    ensures Total(Sizes(files), t) == SumSizes(files[..t])
  {
    if t > 0 {
      TotalIsSum(files, t - 1);
      assert files[..t][..t - 1] == files[..t - 1];
    }
  }

  ghost function Parts(files: seq<SourceFile>, a: seq<nat>, n: nat, t: nat): (parts: seq<seq<SourceFile>>)
    requires t <= |files| == |a|
    ensures |parts| == n
  {
    seq(n, k requires 0 <= k < n => Part(files, a, k, t))
  }

  lemma CopiesAppend(parts: seq<seq<SourceFile>>, part: seq<SourceFile>, f: SourceFile)
    ensures Copies(parts + [part], f) == Copies(parts, f) + Occurrences(part, f)
  {
    assert (parts + [part])[..|parts|] == parts;
  }

  /** How often `f` is among the first `t` files that went to batch `k`. */
  ghost function OnBatch(files: seq<SourceFile>, a: seq<nat>, k: nat, t: nat, f: SourceFile): nat
    requires t <= |files| == |a|
  {
    if t == 0 then 0 else OnBatch(files, a, k, t - 1, f) + if a[t - 1] == k && files[t - 1] == f then 1 else 0
  }

  lemma {:induction false} PartCount(files: seq<SourceFile>, a: seq<nat>, k: nat, t: nat, f: SourceFile)
    requires t <= |files| == |a|
    ensures Occurrences(Part(files, a, k, t), f) == OnBatch(files, a, k, t, f)
  {
    if t > 0 {
      PartCount(files, a, k, t - 1, f);
      var part := Part(files, a, k, t - 1);
      if a[t - 1] == k { OccurrencesAppend(part, files[t - 1], f); } else { assert part + [] == part; }
    }
  }

  /** Copies of `f` on the first `n` batches. */
  ghost function PartCopies(files: seq<SourceFile>, a: seq<nat>, n: nat, t: nat, f: SourceFile): nat
    requires t <= |files| == |a|
  {
    if n == 0 then 0 else PartCopies(files, a, n - 1, t, f) + OnBatch(files, a, n - 1, t, f)
  }

  lemma {:induction false} PartCopiesStep(files: seq<SourceFile>, a: seq<nat>, n: nat, t: nat, f: SourceFile)
    requires 0 < t <= |files| == |a|
    ensures PartCopies(files, a, n, t, f) ==
            PartCopies(files, a, n, t - 1, f) + if a[t - 1] < n && files[t - 1] == f then 1 else 0
  {
    if n > 0 { PartCopiesStep(files, a, n - 1, t, f); }
  }

  lemma {:induction false} PartCopiesZero(files: seq<SourceFile>, a: seq<nat>, n: nat, f: SourceFile)
    requires |files| == |a|
    ensures PartCopies(files, a, n, 0, f) == 0
  {
    if n > 0 { PartCopiesZero(files, a, n - 1, f); }
  }

  lemma {:induction false} PartsHoldFiles(files: seq<SourceFile>, a: seq<nat>, n: nat, t: nat, f: SourceFile)
    requires t <= |files| == |a| && Assigns(a, n, t)
    ensures PartCopies(files, a, n, t, f) == Occurrences(files[..t], f)
  {
    if t == 0 {
      PartCopiesZero(files, a, n, f);
    } else {
      PartCopiesStep(files, a, n, t, f);
      PartsHoldFiles(files, a, n, t - 1, f);
      Prefix(files, t - 1);
    }
  }

  lemma {:induction false} CopiesInParts(files: seq<SourceFile>, a: seq<nat>, n: nat, t: nat, f: SourceFile)
    requires t <= |files| == |a|
    ensures Copies(Parts(files, a, n, t), f) == PartCopies(files, a, n, t, f)
  {
    if n > 0 {
      CopiesInParts(files, a, n - 1, t, f);
      assert Parts(files, a, n, t) == Parts(files, a, n - 1, t) + [Part(files, a, n - 1, t)];
      CopiesAppend(Parts(files, a, n - 1, t), Part(files, a, n - 1, t), f);
      PartCount(files, a, n - 1, t, f);
    }
  }

  // ---- reordering the batches

  lemma {:induction false} CopiesUpdate(parts: seq<seq<SourceFile>>, k: nat, part: seq<SourceFile>, f: SourceFile)
    requires k < |parts|
    ensures Copies(parts[k := part], f) + Occurrences(parts[k], f) == Copies(parts, f) + Occurrences(part, f)
  {
    var m := |parts| - 1;
    if k == m {
      assert parts[k := part][..m] == parts[..m];
    } else {
      CopiesUpdate(parts[..m], k, part, f);
      assert parts[k := part][..m] == parts[..m][k := part];
    }
  }

  lemma {:induction false} CopiesRemove(parts: seq<seq<SourceFile>>, k: nat, f: SourceFile)
    requires k < |parts|
    ensures Copies(parts, f) == Copies(RemoveAt(parts, k), f) + Occurrences(parts[k], f)
  {
    var m := |parts| - 1;
    if k == m {
      assert RemoveAt(parts, k) == parts[..m];
    } else {
      CopiesRemove(parts[..m], k, f);
      assert RemoveAt(parts, k) == RemoveAt(parts[..m], k) + [parts[m]];
      CopiesAppend(RemoveAt(parts[..m], k), parts[m], f);
    }
  }

  /** The batches of `xs` in another order, as far as a caller can tell. */
  ghost predicate Shuffled(xs: seq<ThreadSourceBatch>, ys: seq<ThreadSourceBatch>) {
    && |xs| == |ys| && (forall b :: b in xs ==> b in ys)
    && forall f :: Copies(FilesOfBatches(xs), f) == Copies(FilesOfBatches(ys), f)
  }

  lemma FilesOfRemove(bs: seq<ThreadSourceBatch>, k: nat, f: SourceFile)
    requires k < |bs|
    ensures Copies(FilesOfBatches(bs), f) ==
            Copies(FilesOfBatches(RemoveAt(bs, k)), f) + Occurrences(bs[k].sourceFiles, f)
  {
    assert RemoveAt(FilesOfBatches(bs), k) == FilesOfBatches(RemoveAt(bs, k));
    CopiesRemove(FilesOfBatches(bs), k, f);
  }

  lemma FilesOfAppend(bs: seq<ThreadSourceBatch>, b: ThreadSourceBatch, f: SourceFile)
    ensures Copies(FilesOfBatches(bs + [b]), f) == Copies(FilesOfBatches(bs), f) + Occurrences(b.sourceFiles, f)
  {
    assert FilesOfBatches(bs + [b]) == FilesOfBatches(bs) + [b.sourceFiles];
    CopiesAppend(FilesOfBatches(bs), b.sourceFiles, f);
  }

  // ---- any distribution of the files is an assignment of the sorted files

  lemma {:induction false} LoadAgrees(p: seq<nat>, a: seq<nat>, q: seq<nat>, b: seq<nat>, k: nat, t: nat)
    requires t <= |p| == |a| && t <= |q| == |b|
    requires forall i :: 0 <= i < t ==> p[i] == q[i] && a[i] == b[i]
    ensures Load(p, a, k, t) == Load(q, b, k, t)
  {
    if t > 0 { LoadAgrees(p, a, q, b, k, t - 1); }
  }

  lemma {:induction false} CopyAt(parts: seq<seq<SourceFile>>, f: SourceFile) returns (k: nat, i: nat)
    requires Copies(parts, f) > 0
    ensures k < |parts| && i < |parts[k]| && parts[k][i] == f
  {
    var m := |parts| - 1;
    OccurrencesIn(parts[m], f);
    if f in parts[m] {
      k := m;
      i :| 0 <= i < |parts[m]| && parts[m][i] == f;
    } else {
      k, i := CopyAt(parts[..m], f);
    }
  }

  lemma {:induction false} SumSizesRemove(files: seq<SourceFile>, i: nat)
    requires i < |files|
    ensures SumSizes(files) == SumSizes(RemoveAt(files, i)) + files[i].size
  {
    SumSizesMiddle(files[..i], files[i], files[i + 1..]);
    assert files == files[..i] + [files[i]] + files[i + 1..];
  }

  lemma {:induction false} AssignmentOfDistribution(files: seq<SourceFile>, parts: seq<seq<SourceFile>>)
      returns (o: seq<nat>)
    requires Distributes(parts, files, |parts|)
    ensures |o| == |files| && Assigns(o, |parts|, |files|)
    ensures forall k: nat :: k < |parts| ==> Load(Sizes(files), o, k, |files|) == SumSizes(parts[k])
  {
    if files == [] {
      o := [];
      forall k: nat | k < |parts|
        ensures parts[k] == []
      {
        if parts[k] != [] {
          OccurrencesIn(parts[k], parts[k][0]);
          CopiesUpdate(parts, k, [], parts[k][0]);
        }
      }
    } else {
      var m := |files| - 1;
      assert Copies(parts, files[m]) > 0;
      var k, i := CopyAt(parts, files[m]);
      var rest := RemoveAt(parts[k], i);
      forall f ensures Copies(parts[k := rest], f) == Occurrences(files[..m], f) {
        CopiesUpdate(parts, k, rest, f);
        OccurrencesRemove(parts[k], i, f);
      }
      var o' := AssignmentOfDistribution(files[..m], parts[k := rest]);
      o := o' + [k];
      SumSizesRemove(parts[k], i);
      forall x: nat | x < |parts|
        ensures Load(Sizes(files), o, x, |files|) == SumSizes(parts[x])
      {
        LoadAgrees(Sizes(files), o, Sizes(files[..m]), o', x, m);
      }
    }
  }

  // ---- what the allocation promises

  /** Loads that cannot wrap: the heap then compares true loads. */
  lemma {:induction false} NoWrapGreedy(files: seq<SourceFile>, a: seq<nat>, n: nat, t: nat)
    requires BiggestFirst(files) && LoadsFit(files, n) && t <= |files|
    requires HeapRun(Sizes(files), a, n, t)
    ensures Greedy(Sizes(files), a, n, t)
    ensures forall k: nat :: k < n ==> Load(Sizes(files), a, k, t) < UNSIGNED_RANGE
  {
    var p := Sizes(files);
    if t > 0 {
      var j := t - 1;
      NoWrapGreedy(files, a, n, j);
      assert PlacedOnTop(p, a, n, j);
      forall k: nat | k < n
        ensures Load(p, a, a[j], j) <= Load(p, a, k, j)
      {
        SmallMod(Load(p, a, a[j], j), UNSIGNED_RANGE);
        SmallMod(Load(p, a, k, j), UNSIGNED_RANGE);
      }
      assert PlacedOnLightest(p, a, n, j);
      GrahamBound(p, a, n, j);
      TotalIsSum(files, t);
      PlacedSoFar(files, t);
      assert files[j] in files;
      Cancel(n, Load(p, a, a[j], t), UNSIGNED_RANGE);
    }
  }

  lemma {:induction false} AtLeastAll(files: seq<SourceFile>, size: nat)
    requires forall i :: 0 <= i < |files| ==> files[i].size >= size
    ensures SumAtLeast(files, size) == SumSizes(files)
  {
    if files != [] { AtLeastAll(files[..|files| - 1], size); }
  }

  lemma {:induction false} AtLeastGrows(files: seq<SourceFile>, t: nat, u: nat, size: nat)
    requires t <= u <= |files|
    ensures SumAtLeast(files[..t], size) <= SumAtLeast(files[..u], size)
  {
    if t < u {
      AtLeastGrows(files, t, u - 1, size);
      assert files[..u][..u - 1] == files[..u - 1];
    }
  }

  /** The files placed up to and including file `t - 1` are among those at least as large. */
  lemma PlacedSoFar(files: seq<SourceFile>, t: nat)
    requires BiggestFirst(files) && 0 < t <= |files|
    ensures SumSizes(files[..t]) <= SumAtLeast(files, files[t - 1].size)
  {
    AtLeastAll(files[..t], files[t - 1].size);
    AtLeastGrows(files, t, |files|, files[t - 1].size);
    assert files[..|files|] == files;
  }

  lemma {:induction false} SizeWithinSum(files: seq<SourceFile>, f: SourceFile)
    requires f in files
    ensures f.size <= SumSizes(files)
  {
    var m := |files| - 1;
    if f != files[m] {
      assert f in files[..m];
      SizeWithinSum(files[..m], f);
    }
  }

  lemma {:induction false} AtLeastAtMostSum(files: seq<SourceFile>, size: nat)
    ensures SumAtLeast(files, size) <= SumSizes(files)
  {
    if files != [] { AtLeastAtMostSum(files[..|files| - 1], size); }
  }

  /** A total below 2^32 is enough. */
  lemma {:induction false} TotalFits(files: seq<SourceFile>, n: nat)
    requires n > 0 && SumSizes(files) < UNSIGNED_RANGE
    ensures LoadsFit(files, n)
  {
    forall f | f in files ensures SumAtLeast(files, f.size) + (n - 1) * f.size < n * UNSIGNED_RANGE {
      SizeWithinSum(files, f);
      AtLeastAtMostSum(files, f.size);
      Shares(SumSizes(files), f.size, n, UNSIGNED_RANGE);
    }
  }

  lemma {:induction false} Shares(total: nat, size: nat, n: nat, range: nat)
    requires n > 0 && size <= total < range
    ensures total + (n - 1) * size < n * range
  {
    if n > 1 {
      Shares(total, size, n - 1, range);
      assert (n - 1) * size == (n - 2) * size + size && n * range == (n - 1) * range + range;
    }
  }

  lemma SmallMod(x: nat, m: nat)
    requires x < m
    ensures x % m == x
  {}

  lemma Cancel(n: nat, x: nat, y: nat)
    requires n * x < n * y
    ensures x < y
  {}

  lemma SizesDescend(files: seq<SourceFile>)
    requires BiggestFirst(files)
    ensures Descending(Sizes(files))
  {}

  /** Whatever the distribution `parts` of the same files, the batches of a heap run are at most
      4/3 - 1/(3n) times as loaded as its heaviest part. */
  lemma {:induction false} NearOptimal(files: seq<SourceFile>, a: seq<nat>, n: nat, parts: seq<seq<SourceFile>>,
                                       c: nat, k: nat)
    requires BiggestFirst(files) && LoadsFit(files, n)
    requires HeapRun(Sizes(files), a, n, |files|)
    requires Distributes(parts, files, n) && LoadsAtMost(parts, c)
    requires k < n
    ensures 3 * n * SumSizes(Part(files, a, k, |files|)) <= (4 * n - 1) * c
  {
    var p := Sizes(files);
    SizesDescend(files);
    NoWrapGreedy(files, a, n, |files|);
    var o := AssignmentOfDistribution(files, parts);
    assert Within(p, o, n, |files|, c);
    LongestFirstBound(p, a, o, n, c, k);
    PartLoad(files, a, k, |files|);
  }

  /** What a caller may rely on about the batches, in terms of the input files alone. */
  ghost predicate Allocation(files: seq<SourceFile>, n: nat, batches: seq<ThreadSourceBatch>) {
    && Distributes(FilesOfBatches(batches), files, n)
    && (forall b :: b in batches ==> b.threadLoad == SumSizes(b.sourceFiles) % UNSIGNED_RANGE)
    && (forall i, j :: 0 <= i < j < |batches| ==> batches[i].threadLoad <= batches[j].threadLoad)
  }

  /** All files of the batches, one batch after the other. */
  ghost function Flatten(parts: seq<seq<SourceFile>>): seq<SourceFile> {
    if parts == [] then [] else Flatten(parts[..|parts| - 1]) + parts[|parts| - 1]
  }

  lemma {:induction false} FlattenCopies(parts: seq<seq<SourceFile>>, f: SourceFile)
    ensures Occurrences(Flatten(parts), f) == Copies(parts, f)
  {
    if parts != [] {
      FlattenCopies(parts[..|parts| - 1], f);
      OccurrencesConcat(Flatten(parts[..|parts| - 1]), parts[|parts| - 1], f);
    }
  }

  /** Counting copies says that the files of all batches together are the files given, as multisets. */
  lemma DistributesIsMultiset(parts: seq<seq<SourceFile>>, files: seq<SourceFile>, n: nat)
    ensures Distributes(parts, files, n) <==> |parts| == n && multiset(Flatten(parts)) == multiset(files)
  {
    forall f ensures Occurrences(Flatten(parts), f) == Copies(parts, f) { FlattenCopies(parts, f); }
    PermutedIsMultiset(Flatten(parts), files);
    if Distributes(parts, files, n) { SameLength(Flatten(parts), files); }
  }

  ghost predicate Balanced(files: seq<SourceFile>, n: nat, batches: seq<ThreadSourceBatch>) {
    && (forall parts: seq<seq<SourceFile>>, c: nat, b |
          Distributes(parts, files, n) && LoadsAtMost(parts, c) && b in batches ::
         3 * n * SumSizes(b.sourceFiles) <= (4 * n - 1) * c)
    && (n <= |files| && (forall f :: f in files ==> f.size > 0) ==> forall b :: b in batches ==> b.sourceFiles != [])
  }

  lemma {:induction false} PartNotEmpty(files: seq<SourceFile>, a: seq<nat>, k: nat, t: nat)
    requires t <= |files| == |a| && Count(a, k, t) > 0
    ensures Part(files, a, k, t) != []
  {
    if a[t - 1] != k { PartNotEmpty(files, a, k, t - 1); }
  }

  lemma BatchAt(files: seq<SourceFile>, a: seq<nat>, n: nat, batches: seq<ThreadSourceBatch>, b: ThreadSourceBatch)
      returns (k: nat)
    requires |a| == |files| && Shuffled(batches, Batches(files, a, n, |files|)) && b in batches
    ensures k < n && b == Batch(files, a, k, |files|)
  {
    var bs := Batches(files, a, n, |files|);
    assert b in bs;
    k :| 0 <= k < |bs| && bs[k] == b;
  }

  lemma {:induction false} HeapRunAllocates(files: seq<SourceFile>, sorted: seq<SourceFile>, a: seq<nat>, n: nat,
                                            batches: seq<ThreadSourceBatch>)
    requires Permuted(sorted, files) && HeapRun(Sizes(sorted), a, n, |sorted|)
    requires Shuffled(batches, Batches(sorted, a, n, |sorted|))
    requires forall i, j :: 0 <= i < j < |batches| ==> batches[i].threadLoad <= batches[j].threadLoad
    ensures Allocation(files, n, batches)
  {
    assert sorted[..|sorted|] == sorted;
    assert FilesOfBatches(Batches(sorted, a, n, |sorted|)) == Parts(sorted, a, n, |sorted|);
    forall f
      ensures Copies(FilesOfBatches(batches), f) == Occurrences(sorted, f)
    {
      PartsHoldFiles(sorted, a, n, |sorted|, f);
      CopiesInParts(sorted, a, n, |sorted|, f);
    }
    forall b | b in batches
      ensures b.threadLoad == SumSizes(b.sourceFiles) % UNSIGNED_RANGE
    {
      var k := BatchAt(sorted, a, n, batches, b);
      PartLoad(sorted, a, k, |sorted|);
    }
  }

  lemma {:induction false} HeapRunBalances(sorted: seq<SourceFile>, a: seq<nat>, n: nat,
                                           batches: seq<ThreadSourceBatch>)
    requires BiggestFirst(sorted) && LoadsFit(sorted, n)
    requires HeapRun(Sizes(sorted), a, n, |sorted|)
    requires Shuffled(batches, Batches(sorted, a, n, |sorted|))
    ensures Balanced(sorted, n, batches)
  {
    forall parts: seq<seq<SourceFile>>, c: nat, b |
        Distributes(parts, sorted, n) && LoadsAtMost(parts, c) && b in batches
      ensures 3 * n * SumSizes(b.sourceFiles) <= (4 * n - 1) * c
    {
      var k := BatchAt(sorted, a, n, batches, b);
      NearOptimal(sorted, a, n, parts, c, k);
    }
    if n <= |sorted| && forall f :: f in sorted ==> f.size > 0 {
      forall b | b in batches
        ensures b.sourceFiles != []
      {
        var k := BatchAt(sorted, a, n, batches, b);
        NoWrapGreedy(sorted, a, n, |sorted|);
        NoIdleMachine(Sizes(sorted), a, n, k);
        PartNotEmpty(sorted, a, k, |sorted|);
      }
    }
  }

  lemma {:induction false} AtLeastConcat(xs: seq<SourceFile>, ys: seq<SourceFile>, size: nat)
    ensures SumAtLeast(xs + ys, size) == SumAtLeast(xs, size) + SumAtLeast(ys, size)
  {
    if ys == [] {
      assert xs + ys == xs;
    } else {
      AtLeastConcat(xs, ys[..|ys| - 1], size);
      assert (xs + ys)[..|xs + ys| - 1] == xs + ys[..|ys| - 1];
    }
  }

  lemma AtLeastRemove(files: seq<SourceFile>, k: nat, size: nat)
    requires k < |files|
    ensures SumAtLeast(files, size) ==
            SumAtLeast(RemoveAt(files, k), size) + if files[k].size >= size then files[k].size else 0
  {
    AtLeastConcat(files[..k], files[k + 1..], size);
    AtLeastConcat(files[..k], [files[k]], size);
    AtLeastConcat(files[..k] + [files[k]], files[k + 1..], size);
    SplitAt(files, k);
    assert [files[k]][..0] == [];
  }

  lemma {:induction false} AtLeastPermuted(xs: seq<SourceFile>, ys: seq<SourceFile>, size: nat)
    requires Permuted(xs, ys)
    ensures SumAtLeast(xs, size) == SumAtLeast(ys, size)
  {
    if xs != [] {
      var m := |xs| - 1;
      OccurrencesIn(xs, xs[m]);
      OccurrencesIn(ys, xs[m]);
      var k :| 0 <= k < |ys| && ys[k] == xs[m];
      forall f ensures Occurrences(xs[..m], f) == Occurrences(RemoveAt(ys, k), f) {
        OccurrencesRemove(ys, k, f);
      }
      AtLeastPermuted(xs[..m], RemoveAt(ys, k), size);
      AtLeastRemove(ys, k, size);
    }
  }

  lemma LoadsFitPermutation(xs: seq<SourceFile>, ys: seq<SourceFile>, n: nat)
    requires Permuted(xs, ys) && LoadsFit(xs, n)
    ensures LoadsFit(ys, n)
  {
    forall f | f in ys
      ensures SumAtLeast(ys, f.size) + (n - 1) * f.size < n * UNSIGNED_RANGE
    {
      OccurrencesIn(xs, f);
      OccurrencesIn(ys, f);
      AtLeastPermuted(xs, ys, f.size);
    }
  }

  lemma BalancedPermutation(xs: seq<SourceFile>, ys: seq<SourceFile>, n: nat, batches: seq<ThreadSourceBatch>)
    requires Permuted(xs, ys) && Balanced(xs, n, batches)
    ensures Balanced(ys, n, batches)
  {
    forall f | f in xs
      ensures f in ys
    {
      OccurrencesIn(xs, f);
      OccurrencesIn(ys, f);
    }
  }

  lemma BatchesAfter(files: seq<SourceFile>, a: seq<nat>, b: seq<nat>, n: nat, i: nat, k: nat)
    requires i < |files| == |a| && k < n
    requires b == a[i := k]
    ensures Batches(files, b, n, i) == Batches(files, a, n, i)
    ensures Batches(files, b, n, i + 1) == Batches(files, a, n, i)[k := Batches(files, a, n, i)[k].Add(files[i])]
  {
    forall x: nat | x < n
      ensures Load(Sizes(files), b, x, i) == Load(Sizes(files), a, x, i)
      ensures Part(files, b, x, i) == Part(files, a, x, i)
    {
      LoadAgrees(Sizes(files), b, Sizes(files), a, x, i);
      PartAgrees(files, a, b, x, i);
    }
    ModAdd(Load(Sizes(files), a, k, i), files[i].size);
    var bs, cs := Batches(files, a, n, i), Batches(files, b, n, i + 1);
    forall x: nat | x < n
      ensures cs[x] == bs[k := bs[k].Add(files[i])][x]
    {
      if x != k { assert Part(files, b, x, i + 1) == Part(files, b, x, i); }
    }
  }

  lemma ModAdd(x: nat, y: nat)
    ensures (x % UNSIGNED_RANGE + y) % UNSIGNED_RANGE == (x + y) % UNSIGNED_RANGE
  {}

  lemma {:induction false} PartAgrees(files: seq<SourceFile>, a: seq<nat>, b: seq<nat>, k: nat, t: nat)
    requires t <= |files| == |a| == |b|
    requires forall i :: 0 <= i < t ==> a[i] == b[i]
    ensures Part(files, a, k, t) == Part(files, b, k, t)
  {
    if t > 0 { PartAgrees(files, a, b, k, t - 1); }
  }

  lemma HeapRunStep(p: seq<nat>, a: seq<nat>, b: seq<nat>, n: nat, i: nat)
    requires i < |p| == |a| && HeapRun(p, a, n, i)
    requires |b| == |a| && (forall x :: 0 <= x < i ==> b[x] == a[x]) && b[i] < n
    requires PlacedOnTop(p, b, n, i)
    ensures HeapRun(p, b, n, i + 1)
  {
    forall x: nat | x < i
      ensures PlacedOnTop(p, b, n, x)
    {
      assert PlacedOnTop(p, a, n, x);
      forall k: nat | k < n
        ensures Load(p, b, b[x], x) % UNSIGNED_RANGE <= Load(p, b, k, x) % UNSIGNED_RANGE
      {
        LoadAgrees(p, a, p, b, b[x], x);
        LoadAgrees(p, a, p, b, k, x);
      }
    }
  }

  // ---- without room for the loads the bound fails

  const HALF: nat := 0x8000_0000

  /** The first two files go to different threads and the third to either; then its load has wrapped. */
  lemma HalfLoads(p: seq<nat>, a: seq<nat>)
    requires |p| == 4 && (forall i :: 0 <= i < 4 ==> p[i] == HALF) && HeapRun(p, a, 2, 4)
    ensures a[2] < 2 && Load(p, a, a[2], 4) == 3 * HALF
  {
    var x, y := a[0], a[2];
    assert PlacedOnTop(p, a, 2, 1) && PlacedOnTop(p, a, 2, 3);
    var other := 1 - x;
    assert Load(p, a, x, 1) == HALF && Load(p, a, other, 1) == 0;
    assert a[1] == other;
    assert Load(p, a, x, 2) == HALF && Load(p, a, other, 2) == HALF;
    assert Load(p, a, y, 3) == 2 * HALF && Load(p, a, 1 - y, 3) == HALF;
    assert a[3] == y;
  }

  /** Four files of 2^31 bytes on two threads, however ties are broken: the thread that gets the third file has
      a load that wraps to zero, so it also gets the fourth, and 3/2 of the optimum exceeds the bound. */
  lemma WrapUnbalances(files: seq<SourceFile>, a: seq<nat>) returns (k: nat)
    requires |files| == 4 && (forall i :: 0 <= i < 4 ==> files[i].size == HALF) && HeapRun(Sizes(files), a, 2, 4)
    ensures BiggestFirst(files) && !LoadsFit(files, 2)
    ensures var parts := [[files[0], files[1]], [files[2], files[3]]];
            Distributes(parts, files, 2) && LoadsAtMost(parts, 2 * HALF)
    ensures k < 2 && 3 * 2 * SumSizes(Part(files, a, k, 4)) > (4 * 2 - 1) * (2 * HALF)
  {
    assert forall i :: 0 <= i < 4 ==> Sizes(files)[i] == HALF;
    HalfLoads(Sizes(files), a);
    k := a[2];
    PartLoad(files, a, k, 4);
    HalfTotal(files);
    HalfParts(files);
  }

  lemma HalfTotal(files: seq<SourceFile>)
    requires |files| == 4 && forall i :: 0 <= i < 4 ==> files[i].size == HALF
    ensures SumSizes(files) == 4 * HALF && !LoadsFit(files, 2)
  {
    assert SumSizes(files[..1]) == HALF;
    assert files[..2][..1] == files[..1] && files[..3][..2] == files[..2] && files[..3] == files[..|files| - 1];
    assert SumSizes(files[..2]) == 2 * HALF;
    assert SumSizes(files[..3]) == 3 * HALF;
    AtLeastAll(files, HALF);
    assert files[0] in files;
  }

  lemma SumOfTwo(f: SourceFile, g: SourceFile)
    ensures SumSizes([f, g]) == f.size + g.size
  {
    SumSizesAppend([f], [g]);
    assert [f] + [g] == [f, g];
    assert [f][..0] == [] && [g][..0] == [];
  }

  lemma HalfParts(files: seq<SourceFile>)
    requires |files| == 4 && forall i :: 0 <= i < 4 ==> files[i].size == HALF
    ensures var parts := [[files[0], files[1]], [files[2], files[3]]];
            Distributes(parts, files, 2) && LoadsAtMost(parts, 2 * HALF)
  {
    var u, v := [files[0], files[1]], [files[2], files[3]];
    var parts := [u, v];
    SumOfTwo(files[0], files[1]);
    SumOfTwo(files[2], files[3]);
    assert files == u + v;
    assert parts == ([] + [u]) + [v];
    forall f ensures Copies(parts, f) == Occurrences(files, f) {
      OccurrencesConcat(u, v, f);
      CopiesAppend([], u, f);
      CopiesAppend([u], v, f);
      assert [] + [u] == [u];
    }
  }

  class SourceBatchThreadAllocator {
    const threadNum: unsigned
    var sourceFiles: seq<SourceFile>

    constructor (threadNum: unsigned, files: seq<SourceFile>)
      ensures this.threadNum == threadNum && sourceFiles == files
    {
      this.threadNum := threadNum;
      sourceFiles := files;
    }

    /** Taking the top of an empty heap is undefined, so files need at least one thread. */
    method AllocateGreedyMinHeap() returns (threadBatches: seq<ThreadSourceBatch>)
      requires threadNum > 0 || sourceFiles == []
      modifies this
      ensures BiggestFirst(sourceFiles) && multiset(sourceFiles) == multiset(old(sourceFiles))
      ensures multiset(Flatten(FilesOfBatches(threadBatches))) == multiset(old(sourceFiles))
      ensures Allocation(old(sourceFiles), threadNum, threadBatches)
      ensures LoadsFit(old(sourceFiles), threadNum) ==> Balanced(old(sourceFiles), threadNum, threadBatches)
    {
      ghost var n: nat := threadNum;
      var queue := [];
      for i := 0 to threadNum
        invariant |queue| == i && forall k :: 0 <= k < i ==> queue[k] == ThreadSourceBatch([], 0)
      {
        queue := queue + [ThreadSourceBatch([], 0)];
      }
      sourceFiles := SortBiggestFirst(sourceFiles);
      ghost var a: seq<nat> := seq(|sourceFiles|, _ => 0);
      assert queue == Batches(sourceFiles, a, n, 0);
      queue, a := Distribute(queue, a);
      threadBatches := Drain(queue);
      HeapRunAllocates(old(sourceFiles), sourceFiles, a, n, threadBatches);
      PermutedIsMultiset(sourceFiles, old(sourceFiles));
      DistributesIsMultiset(FilesOfBatches(threadBatches), old(sourceFiles), n);
      if LoadsFit(old(sourceFiles), n) {
        LoadsFitPermutation(old(sourceFiles), sourceFiles, n);
        HeapRunBalances(sourceFiles, a, n, threadBatches);
        BalancedPermutation(sourceFiles, old(sourceFiles), n, threadBatches);
      }
    }

    /** The loop that pops the lightest batch, gives it the next file and pushes it back; a batch keeps its
        place in the bag. The ghost assignment names the batch of every file. */
    method Distribute(initial: seq<ThreadSourceBatch>, ghost start: seq<nat>)
        returns (queue: seq<ThreadSourceBatch>, ghost a: seq<nat>)
      requires threadNum > 0 || sourceFiles == []
      requires |start| == |sourceFiles| && initial == Batches(sourceFiles, start, threadNum, 0)
      ensures HeapRun(Sizes(sourceFiles), a, threadNum, |sourceFiles|)
      ensures queue == Batches(sourceFiles, a, threadNum, |sourceFiles|)
    {
      ghost var n: nat := threadNum;
      queue, a := initial, start;
      for i := 0 to |sourceFiles|
        invariant |a| == |sourceFiles| && HeapRun(Sizes(sourceFiles), a, n, i)
        invariant queue == Batches(sourceFiles, a, n, i)
      {
        TopExists(queue);
        var k: nat :| IsTop(queue, k);
        ghost var b := a[i := k];
        BatchesAfter(sourceFiles, a, b, n, i, k);
        TopIsLightest(sourceFiles, a, b, n, i, k);
        HeapRunStep(Sizes(sourceFiles), a, b, n, i);
        queue := queue[k := queue[k].Add(sourceFiles[i])];
        a := b;
      }
    }

    /** The batches leave the heap from the lightest to the heaviest. */
    method Drain(initial: seq<ThreadSourceBatch>) returns (threadBatches: seq<ThreadSourceBatch>)
      ensures Shuffled(threadBatches, initial)
      ensures forall i, j :: 0 <= i < j < |threadBatches| ==> threadBatches[i].threadLoad <= threadBatches[j].threadLoad
    {
      var queue := initial;
      threadBatches := [];
      while queue != []
        invariant Draining(threadBatches, queue, initial)
        decreases |queue|
      {
        TopExists(queue);
        var k: nat :| IsTop(queue, k);
        DrainStep(threadBatches, queue, initial, k);
        threadBatches := threadBatches + [queue[k]];
        queue := RemoveAt(queue, k);
      }
    }
  }

  ghost predicate Draining(done: seq<ThreadSourceBatch>, queue: seq<ThreadSourceBatch>, all: seq<ThreadSourceBatch>) {
    && |done| + |queue| == |all| && (forall b :: b in done || b in queue ==> b in all)
    && (forall f ::
          Copies(FilesOfBatches(done), f) + Copies(FilesOfBatches(queue), f) == Copies(FilesOfBatches(all), f))
    && (forall i, j :: 0 <= i < j < |done| ==> done[i].threadLoad <= done[j].threadLoad)
    && (forall i, j :: 0 <= i < |done| && 0 <= j < |queue| ==> done[i].threadLoad <= queue[j].threadLoad)
  }

  lemma DrainStep(done: seq<ThreadSourceBatch>, queue: seq<ThreadSourceBatch>, all: seq<ThreadSourceBatch>, k: nat)
    requires Draining(done, queue, all) && IsTop(queue, k)
    ensures Draining(done + [queue[k]], RemoveAt(queue, k), all)
  {
    var done', queue' := done + [queue[k]], RemoveAt(queue, k);
    forall f
      ensures Copies(FilesOfBatches(done'), f) + Copies(FilesOfBatches(queue'), f) == Copies(FilesOfBatches(all), f)
    {
      FilesOfAppend(done, queue[k], f);
      FilesOfRemove(queue, k, f);
    }
    assert forall j :: 0 <= j < |queue'| ==> queue'[j] == queue[if j < k then j else j + 1];
    assert queue[k] in queue;
  }

  lemma TopIsLightest(files: seq<SourceFile>, a: seq<nat>, b: seq<nat>, n: nat, i: nat, k: nat)
    requires i < |files| == |a| && k < n && b == a[i := k]
    requires IsTop(Batches(files, a, n, i), k)
    ensures PlacedOnTop(Sizes(files), b, n, i)
  {
    var bs := Batches(files, a, n, i);
    forall x: nat | x < n
      ensures Load(Sizes(files), b, b[i], i) % UNSIGNED_RANGE <= Load(Sizes(files), b, x, i) % UNSIGNED_RANGE
    {
      assert bs[k].threadLoad <= bs[x].threadLoad;
      LoadAgrees(Sizes(files), b, Sizes(files), a, b[i], i);
      LoadAgrees(Sizes(files), b, Sizes(files), a, x, i);
    }
  }
}
