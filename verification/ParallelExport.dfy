/** The multi-threaded export: one thread per batch, each file's action draws its result slot from a
    shared atomic counter and writes the slot when the file is done. Threads interleave freely. */
module ParallelExport {
  import opened Allocator
  import opened Sequences

  /** A result slot: the initial placeholder object, a value in the middle of being assigned, or the
      diagnostics of a file. */
  datatype Slot = Placeholder | Torn | Diagnostics(file: SourceFile)

  /** What a thread is doing: between files, executing the action of a file, or assigning its result. */
  datatype Phase = Between | Executing(fileId: nat, file: SourceFile) | Writing(fileId: nat, file: SourceFile)

  datatype Thread = Thread(phase: Phase, todo: seq<SourceFile>) {
    predicate Active() { !phase.Between? }
    /** Files not yet finished with, the current one first. */
    function Remaining(): seq<SourceFile> {
      if Active() then [phase.file] + todo else todo
    }
    predicate Joinable() { phase.Between? && todo == [] }
  }

  /** The shared state; `finished` and `dropped` record what became of every file, and `raced`
      whether a slot outside the vector or a slot under assignment was ever assigned. */
  datatype State = State(
    fileIdCounter: nat,
    slots: seq<Slot>,
    threads: seq<Thread>,
    finished: seq<SourceFile>,
    dropped: seq<SourceFile>,
    skips: nat,
    raced: bool)

  /** One step of one thread. A file may be skipped before an action is created for it, and an action
      may end without reaching the assignment of its result. */
  datatype Step = Create(t: nat) | Skip(t: nat) | StartWrite(t: nat) | EndWrite(t: nat) | Abort(t: nat)

  predicate Enabled(s: State, step: Step) {
    && step.t < |s.threads|
    && var th := s.threads[step.t];
       match step
       case Create(_) => th.phase.Between? && th.todo != []
       case Skip(_) => th.phase.Between? && th.todo != []
       case StartWrite(_) => th.phase.Executing?
       case EndWrite(_) => th.phase.Writing?
       case Abort(_) => th.phase.Executing?
  }

  /** Steps that are not enabled leave the state alone. */
  function Next(s: State, step: Step): State {
    if !Enabled(s, step) then s else
    var t := step.t;
    var th := s.threads[t];
    match step
    case Create(_) =>
      s.(fileIdCounter := (s.fileIdCounter + 1) % UNSIGNED_RANGE,
         threads := s.threads[t := Thread(Executing(s.fileIdCounter, th.todo[0]), th.todo[1..])])
    case Skip(_) =>
      s.(threads := s.threads[t := Thread(Between, th.todo[1..])],
         dropped := s.dropped + [th.todo[0]],
         skips := s.skips + 1)
    case StartWrite(_) =>
      var id := th.phase.fileId;
      s.(threads := s.threads[t := Thread(Writing(id, th.phase.file), th.todo)],
         slots := if id < |s.slots| then s.slots[id := Torn] else s.slots,
         raced := s.raced || id >= |s.slots| || s.slots[id] != Placeholder)
    case EndWrite(_) =>
      var id := th.phase.fileId;
      s.(threads := s.threads[t := Thread(Between, th.todo)],
         slots := if id < |s.slots| then s.slots[id := Diagnostics(th.phase.file)] else s.slots,
         finished := s.finished + [th.phase.file])
    case Abort(_) =>
      s.(threads := s.threads[t := Thread(Between, th.todo)],
         dropped := s.dropped + [th.phase.file])
  }

  function Run(s: State, steps: seq<Step>): State {
    if steps == [] then s else Next(Run(s, steps[..|steps| - 1]), steps[|steps| - 1])
  }

  function Placeholders(totalFiles: nat): seq<Slot> {
    seq(totalFiles, _ => Placeholder)
  }

  function Init(totalFiles: nat, batches: seq<ThreadSourceBatch>): State {
    State(0, Placeholders(totalFiles),
          seq(|batches|, i requires 0 <= i < |batches| => Thread(Between, batches[i].sourceFiles)),
          [], [], 0, false)
  }

  predicate AllJoined(s: State) {
    forall t :: 0 <= t < |s.threads| ==> s.threads[t].Joinable()
  }

  // ---- the invariant

  ghost function Remainings(threads: seq<Thread>): (parts: seq<seq<SourceFile>>)
    ensures |parts| == |threads|
  {
    seq(|threads|, t requires 0 <= t < |threads| => threads[t].Remaining())
  }

  ghost function Todo(threads: seq<Thread>): nat {
    if threads == [] then 0 else Todo(threads[..|threads| - 1]) + |threads[|threads| - 1].todo|
  }

  lemma {:induction false} TodoUpdate(threads: seq<Thread>, k: nat, th: Thread)
    requires k < |threads|
    ensures Todo(threads[k := th]) + |threads[k].todo| == Todo(threads) + |th.todo|
  {
    var m := |threads| - 1;
    if k == m {
      assert threads[k := th][..m] == threads[..m];
    } else {
      TodoUpdate(threads[..m], k, th);
      assert threads[k := th][..m] == threads[..m][k := th];
    }
  }

  /** The slot of a running action is a drawn one, untouched until the action writes it. */
  ghost predicate OwnsSlot(s: State, th: Thread) {
    th.Active() ==>
      && th.phase.fileId < s.fileIdCounter <= |s.slots|
      && s.slots[th.phase.fileId] == if th.phase.Writing? then Torn else Placeholder
  }

  ghost predicate Distinct(th: Thread, other: Thread) {
    th.Active() && other.Active() ==> th.phase.fileId != other.phase.fileId
  }

  ghost predicate TornByThread(s: State, i: nat) {
    exists t :: 0 <= t < |s.threads| && s.threads[t].phase.Writing? && s.threads[t].phase.fileId == i
  }

  /** Every drawn id belongs to one action, and only a slot under assignment is torn. */
  ghost predicate SlotsOwned(s: State) {
    && (forall t :: 0 <= t < |s.threads| ==> OwnsSlot(s, s.threads[t]))
    && (forall t, u :: 0 <= t < u < |s.threads| ==> Distinct(s.threads[t], s.threads[u]))
    && (forall i :: s.fileIdCounter <= i < |s.slots| ==> s.slots[i] == Placeholder)
    && (forall i :: 0 <= i < |s.slots| && s.slots[i] == Torn ==> TornByThread(s, i))
  }

  /** Every copy of `f` is still to be done, done or dropped, and its results are in the slots. */
  ghost predicate Accounted(s: State, input: seq<SourceFile>, f: SourceFile) {
    && Known(s, f) == Occurrences(input, f)
    && Occurrences(s.slots, Diagnostics(f)) == Occurrences(s.finished, f)
  }

  ghost predicate Inv(s: State, total: nat, input: seq<SourceFile>) {
    && |s.slots| == total < UNSIGNED_RANGE
    && s.fileIdCounter + Todo(s.threads) + s.skips == total
    && !s.raced
    && SlotsOwned(s)
    && forall f :: Accounted(s, input, f)
  }

  lemma {:induction false} RemainingsUpdate(threads: seq<Thread>, k: nat, th: Thread, f: SourceFile)
    requires k < |threads|
    ensures Copies(Remainings(threads[k := th]), f) + Occurrences(threads[k].Remaining(), f) ==
            Copies(Remainings(threads), f) + Occurrences(th.Remaining(), f)
  {
    assert Remainings(threads[k := th]) == Remainings(threads)[k := th.Remaining()];
    CopiesUpdate(Remainings(threads), k, th.Remaining(), f);
  }

  lemma HeadAdded(x: SourceFile, xs: seq<SourceFile>, f: SourceFile)
    ensures Occurrences([x] + xs, f) == (if x == f then 1 else 0) + Occurrences(xs, f)
  {
    OccurrencesConcat([x], xs, f);
    assert [x][..0] == [];
  }

  /** Copies of `f` not yet finished with, finished and dropped. */
  ghost function Known(s: State, f: SourceFile): nat {
    Copies(Remainings(s.threads), f) + Occurrences(s.finished, f) + Occurrences(s.dropped, f)
  }

  /** What the step changes for its own thread. */
  lemma ThreadNext(s: State, step: Step, f: SourceFile)
    requires Enabled(s, step)
    ensures var s' := Next(s, step);
            Occurrences(s'.threads[step.t].Remaining(), f) + Occurrences(s'.finished, f) + Occurrences(s'.dropped, f) ==
            Occurrences(s.threads[step.t].Remaining(), f) + Occurrences(s.finished, f) + Occurrences(s.dropped, f)
  {
    var th := s.threads[step.t];
    match step
    case Create(_) =>
      Rejoined(th.todo);
    case Skip(_) =>
      MovedOut(th.todo[0], th.todo[1..], s.dropped, f);
      Rejoined(th.todo);
    case StartWrite(_) =>
    case EndWrite(_) =>
      MovedOut(th.phase.file, th.todo, s.finished, f);
    case Abort(_) =>
      MovedOut(th.phase.file, th.todo, s.dropped, f);
  }

  lemma Rejoined(todo: seq<SourceFile>)
    requires todo != []
    ensures [todo[0]] + todo[1..] == todo
  {}

  /** The first file of a thread is recorded as done or dropped. */
  lemma MovedOut(x: SourceFile, rest: seq<SourceFile>, record: seq<SourceFile>, f: SourceFile)
    ensures Occurrences([x] + rest, f) + Occurrences(record, f) ==
            Occurrences(rest, f) + Occurrences(record + [x], f)
  {
    HeadAdded(x, rest, f);
    OccurrencesAppend(record, x, f);
  }

  lemma RemainingNext(s: State, step: Step, f: SourceFile)
    requires Enabled(s, step)
    ensures Known(Next(s, step), f) == Known(s, f)
  {
    ThreadNext(s, step, f);
    var th := Next(s, step).threads[step.t];
    RemainingsUpdate(s.threads, step.t, th, f);
    assert Next(s, step).threads == s.threads[step.t := th];
  }

  /** A slot that holds no result gets `slot`. */
  lemma SlotWritten(slots: seq<Slot>, id: nat, slot: Slot, f: SourceFile)
    requires id < |slots| && !slots[id].Diagnostics?
    ensures Occurrences(slots[id := slot], Diagnostics(f)) ==
            Occurrences(slots, Diagnostics(f)) + if slot == Diagnostics(f) then 1 else 0
  {
    OccurrencesUpdate(slots, id, slot, Diagnostics(f));
  }

  lemma ResultsNext(s: State, step: Step, f: SourceFile)
    requires Enabled(s, step) && OwnsSlot(s, s.threads[step.t])
    requires Occurrences(s.slots, Diagnostics(f)) == Occurrences(s.finished, f)
    ensures Occurrences(Next(s, step).slots, Diagnostics(f)) == Occurrences(Next(s, step).finished, f)
  {
    var th := s.threads[step.t];
    if step.StartWrite? {
      SlotWritten(s.slots, th.phase.fileId, Torn, f);
    } else if step.EndWrite? {
      ResultAdded(s.slots, th.phase.fileId, th.phase.file, s.finished, f);
    }
  }

  lemma ResultAdded(slots: seq<Slot>, id: nat, file: SourceFile, finished: seq<SourceFile>, f: SourceFile)
    requires id < |slots| && !slots[id].Diagnostics? && Occurrences(slots, Diagnostics(f)) == Occurrences(finished, f)
    ensures Occurrences(slots[id := Diagnostics(file)], Diagnostics(f)) == Occurrences(finished + [file], f)
  {
    SlotWritten(slots, id, Diagnostics(file), f);
    OccurrencesAppend(finished, file, f);
  }

  lemma TornNext(s: State, step: Step)
    requires SlotsOwned(s) && Enabled(s, step)
    ensures forall i :: 0 <= i < |Next(s, step).slots| && Next(s, step).slots[i] == Torn ==>
            TornByThread(Next(s, step), i)
  {
    var s' := Next(s, step);
    assert OwnsSlot(s, s.threads[step.t]);
    forall i | 0 <= i < |s'.slots| && s'.slots[i] == Torn
      ensures TornByThread(s', i)
    {
      if step.StartWrite? && i == s.threads[step.t].phase.fileId {
        assert s'.threads[step.t].phase.fileId == i;
      } else {
        assert TornByThread(s, i);
        var u :| 0 <= u < |s.threads| && s.threads[u].phase.Writing? && s.threads[u].phase.fileId == i;
        assert s'.threads[u] == s.threads[u];
      }
    }
  }

  lemma OwnedNext(s: State, step: Step)
    requires SlotsOwned(s) && Enabled(s, step)
    requires s.fileIdCounter <= |s.slots| < UNSIGNED_RANGE
    requires step.Create? ==> s.fileIdCounter < |s.slots|
    ensures SlotsOwned(Next(s, step)) && Next(s, step).raced == s.raced
  {
    var s' := Next(s, step);
    var t := step.t;
    assert OwnsSlot(s, s.threads[t]);
    forall u | 0 <= u < |s'.threads|
      ensures OwnsSlot(s', s'.threads[u])
      ensures u != t ==> Distinct(s'.threads[u], s'.threads[t])
    {
      assert OwnsSlot(s, s.threads[u]);
      if u != t {
        assert Distinct(s.threads[if u < t then u else t], s.threads[if u < t then t else u]);
      }
    }
    TornNext(s, step);
  }

  lemma NextKeepsInv(s: State, step: Step, total: nat, input: seq<SourceFile>)
    requires Inv(s, total, input)
    ensures Inv(Next(s, step), total, input) && |Next(s, step).threads| == |s.threads|
  {
    if Enabled(s, step) {
      TodoUpdate(s.threads, step.t, Next(s, step).threads[step.t]);
      OwnedNext(s, step);
      forall f
        ensures Accounted(Next(s, step), input, f)
      {
        assert Accounted(s, input, f);
        RemainingNext(s, step, f);
        assert OwnsSlot(s, s.threads[step.t]);
        ResultsNext(s, step, f);
      }
    }
  }

  lemma {:induction false} RunKeepsInv(s: State, steps: seq<Step>, total: nat, input: seq<SourceFile>)
    requires Inv(s, total, input)
    ensures Inv(Run(s, steps), total, input)
    ensures |Run(s, steps).threads| == |s.threads|
  {
    if steps != [] {
      var front := steps[..|steps| - 1];
      var step := steps[|steps| - 1];
      RunKeepsInv(s, front, total, input);
      NextKeepsInv(Run(s, front), step, total, input);
    }
  }

  // ---- starting from the allocator's batches

  lemma {:induction false} TodoOfParts(files: seq<SourceFile>, threads: seq<Thread>)
    requires forall t :: 0 <= t < |threads| ==> threads[t].phase.Between?
    requires Distributes(Remainings(threads), files, |threads|)
    ensures Todo(threads) == |files|
  {
    if files == [] {
      forall k | 0 <= k < |threads|
        ensures threads[k].todo == []
      {
        if threads[k].todo != [] {
          var f := threads[k].todo[0];
          OccurrencesIn(threads[k].Remaining(), f);
          RemainingsUpdate(threads, k, Thread(Between, []), f);
        }
      }
      NothingTodo(threads);
    } else {
      var m := |files| - 1;
      assert Copies(Remainings(threads), files[m]) > 0;
      var k, i := CopyAt(Remainings(threads), files[m]);
      var rest := Thread(Between, RemoveAt(threads[k].todo, i));
      forall f
        ensures Copies(Remainings(threads[k := rest]), f) == Occurrences(files[..m], f)
      {
        OccurrencesRemove(threads[k].todo, i, f);
        RemainingsUpdate(threads, k, rest, f);
      }
      TodoOfParts(files[..m], threads[k := rest]);
      TodoUpdate(threads, k, rest);
    }
  }

  lemma {:induction false} NothingTodo(threads: seq<Thread>)
    requires forall t :: 0 <= t < |threads| ==> threads[t].todo == []
    ensures Todo(threads) == 0
  {
    if threads != [] { NothingTodo(threads[..|threads| - 1]); }
  }

  lemma InitInv(files: seq<SourceFile>, n: nat, batches: seq<ThreadSourceBatch>)
    requires Allocation(files, n, batches) && |files| < UNSIGNED_RANGE
    ensures Inv(Init(|files|, batches), |files|, files)
  {
    var s := Init(|files|, batches);
    assert Remainings(s.threads) == FilesOfBatches(batches);
    TodoOfParts(files, s.threads);
    forall f ensures Accounted(s, files, f) {
      OccurrencesIn(s.slots, Diagnostics(f));
    }
  }

  // ---- what main collects

  lemma NoneRemaining(threads: seq<Thread>, f: SourceFile)
    requires forall t :: 0 <= t < |threads| ==> threads[t].Joinable()
    ensures Copies(Remainings(threads), f) == 0
  {
    NoneIn(Remainings(threads), f);
  }

  lemma {:induction false} NoneIn(parts: seq<seq<SourceFile>>, f: SourceFile)
    requires forall i :: 0 <= i < |parts| ==> parts[i] == []
    ensures Copies(parts, f) == 0
  {
    if parts != [] { NoneIn(parts[..|parts| - 1], f); }
  }

  /** The files whose diagnostics are in the slots, in slot order. */
  ghost function FilesIn(slots: seq<Slot>): seq<SourceFile> {
    if slots == [] then []
    else FilesIn(slots[..|slots| - 1]) + if slots[|slots| - 1].Diagnostics? then [slots[|slots| - 1].file] else []
  }

  lemma {:induction false} FilesInCounts(slots: seq<Slot>, f: SourceFile)
    ensures Occurrences(FilesIn(slots), f) == Occurrences(slots, Diagnostics(f))
  {
    if slots != [] {
      var front, last := slots[..|slots| - 1], slots[|slots| - 1];
      FilesInCounts(front, f);
      if last.Diagnostics? {
        OccurrencesAppend(FilesIn(front), last.file, f);
      } else {
        assert FilesIn(front) + [] == FilesIn(front);
      }
    }
  }

  lemma {:induction false} FilesInAndRest(slots: seq<Slot>)
    ensures |FilesIn(slots)| + Occurrences(slots, Placeholder) + Occurrences(slots, Torn) == |slots|
  {
    if slots != [] { FilesInAndRest(slots[..|slots| - 1]); }
  }

  /** Safety over every interleaving: no slot is ever assigned outside the vector, twice, or by two
      threads at once, and the ids being written at any moment are distinct and in range. */
  lemma {:induction false} RaceFree(files: seq<SourceFile>, n: nat, batches: seq<ThreadSourceBatch>, steps: seq<Step>)
    requires Allocation(files, n, batches) && |files| < UNSIGNED_RANGE
    ensures var s := Run(Init(|files|, batches), steps);
            && !s.raced
            && s.fileIdCounter <= |files| == |s.slots|
            && (forall t :: 0 <= t < |s.threads| && s.threads[t].Active() ==> s.threads[t].phase.fileId < |files|)
            && (forall t, u :: 0 <= t < u < |s.threads| && s.threads[t].Active() && s.threads[u].Active() ==>
                  s.threads[t].phase.fileId != s.threads[u].phase.fileId)
  {
    InitInv(files, n, batches);
    RunKeepsInv(Init(|files|, batches), steps, |files|, files);
  }

  /** After all joins the collected vector holds exactly the diagnostics of the finished files, each
      as often as it was finished, and placeholders for the rest. */
  lemma {:induction false} Collected(files: seq<SourceFile>, n: nat, batches: seq<ThreadSourceBatch>, steps: seq<Step>)
    requires Allocation(files, n, batches) && |files| < UNSIGNED_RANGE
    requires AllJoined(Run(Init(|files|, batches), steps))
    ensures var s := Run(Init(|files|, batches), steps);
            && multiset(FilesIn(s.slots)) == multiset(s.finished)
            && multiset(s.finished + s.dropped) == multiset(files)
            && Torn !in s.slots
            && Occurrences(s.slots, Placeholder) == |s.dropped|
            && |s.slots| == |files|
  {
    var s := Run(Init(|files|, batches), steps);
    InitInv(files, n, batches);
    RunKeepsInv(Init(|files|, batches), steps, |files|, files);
    JoinedAccounts(s, |files|, files);
    PermutedIsMultiset(FilesIn(s.slots), s.finished);
    PermutedIsMultiset(s.finished + s.dropped, files);
    FilesInAndRest(s.slots);
  }

  lemma JoinedAccounts(s: State, total: nat, input: seq<SourceFile>)
    requires Inv(s, total, input) && AllJoined(s)
    ensures Permuted(FilesIn(s.slots), s.finished) && Permuted(s.finished + s.dropped, input)
    ensures Torn !in s.slots && Occurrences(s.slots, Torn) == 0
  {
    forall f
      ensures Occurrences(FilesIn(s.slots), f) == Occurrences(s.finished, f)
      ensures Occurrences(s.finished + s.dropped, f) == Occurrences(input, f)
    {
      assert Accounted(s, input, f);
      FilesInCounts(s.slots, f);
      NoneRemaining(s.threads, f);
      OccurrencesConcat(s.finished, s.dropped, f);
    }
    SameLength(FilesIn(s.slots), s.finished);
    SameLength(s.finished + s.dropped, input);
    OccurrencesIn(s.slots, Torn);
  }

  /** The output is a permutation of all results exactly when no file was skipped and no action ended early. */
  lemma {:induction false} CompleteExport(files: seq<SourceFile>, n: nat, batches: seq<ThreadSourceBatch>,
                                          steps: seq<Step>)
    requires Allocation(files, n, batches) && |files| < UNSIGNED_RANGE
    requires AllJoined(Run(Init(|files|, batches), steps))
    ensures var s := Run(Init(|files|, batches), steps);
            s.dropped == [] <==> multiset(FilesIn(s.slots)) == multiset(files) && Placeholder !in s.slots
  {
    Collected(files, n, batches, steps);
    var s := Run(Init(|files|, batches), steps);
    OccurrencesIn(s.slots, Placeholder);
    assert s.finished + [] == s.finished;
  }

  // ---- main's choice of the number of threads

  function ValidateThreadNum(selected: unsigned, hardwareThreads: unsigned, files: nat): (n: nat)
    ensures n <= selected && n <= hardwareThreads && n <= files
    ensures n == selected || n == hardwareThreads || n == files
  {
    var threadNum := if selected < hardwareThreads then selected else hardwareThreads;
    if files < threadNum then files else threadNum
  }

  /** The allocator's demand is met exactly when a thread was asked for and the hardware reports one,
      unless there is nothing to do. */
  lemma ThreadsForFiles(selected: unsigned, hardwareThreads: unsigned, files: seq<SourceFile>)
    ensures (ValidateThreadNum(selected, hardwareThreads, |files|) > 0 || files == []) <==>
            (selected > 0 && hardwareThreads > 0) || files == []
  {}

  // ---- the shared statics

  class DiagnosticExporterStatics {
    var fileIdCounter: nat
    var individualDiagsInfos: seq<Slot>

    constructor ()
      ensures fileIdCounter == 0 && individualDiagsInfos == []
    {
      fileIdCounter, individualDiagsInfos := 0, [];
    }

    method SetTotalFiles(totalFiles: unsigned)
      modifies this
      ensures individualDiagsInfos == Placeholders(totalFiles)
      ensures fileIdCounter == old(fileIdCounter)
    {
      individualDiagsInfos :=
        if totalFiles <= |individualDiagsInfos| then individualDiagsInfos[..totalFiles]
        else individualDiagsInfos + seq(totalFiles - |individualDiagsInfos|, _ => Torn);
      for i := 0 to totalFiles
        invariant |individualDiagsInfos| == totalFiles
        invariant forall k :: 0 <= k < i ==> individualDiagsInfos[k] == Placeholder
        invariant fileIdCounter == old(fileIdCounter)
      {
        individualDiagsInfos := individualDiagsInfos[i := Placeholder];
      }
    }
  }
}
