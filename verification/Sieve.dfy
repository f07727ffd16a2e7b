/** The processes of the sieve: a generator and a growing chain of filter stages, stepped in any
    order over pipes of any capacity. */
module Sieve {
  import opened Primes

  const UINT_MAX: nat := 0xFFFF_FFFF

  /** Where a filter stage is in its loop; `Put` holds the number it is writing. */
  datatype Pc =
    | First
    | Announce(p: nat)
    | Spawn(p: nat)
    | Filter(p: nat)
    | Put(p: nat, b: nat)
    | CloseOut(p: nat)
    | Wait(p: nat)
    | Exit
    | Done

  /** `got` is the history of the numbers the stage has read. */
  datatype Stage = Stage(pc: Pc, got: seq<nat>)

  datatype Pipe = Pipe(queue: seq<nat>, closed: bool)

  datatype Generator = Emit(next: nat) | Waiting | Finished

  /** Stage `k` reads pipe `k`; the generator writes pipe 0 and stage `k` writes pipe `k + 1`. */
  datatype State = State(n: nat, cap: nat, gen: Generator, stages: seq<Stage>, pipes: seq<Pipe>, output: seq<nat>)

  predicate Init(s: State) {
    2 <= s.n <= UINT_MAX && s.cap >= 1 && s == State(s.n, s.cap, Emit(2), [Stage(First, [])], [Pipe([], false)], [])
  }

  // ---------------------------------------------------------------------------------------------
  // Steps

  predicate Readable(p: Pipe) {
    p.queue != [] || p.closed
  }

  predicate StageEnabled(s: State, k: nat) {
    k < |s.stages| && k < |s.pipes| &&
    match s.stages[k].pc
    case First => Readable(s.pipes[k])
    case Filter(p) => p > 0 && Readable(s.pipes[k])
    case Put(_, _) => k + 1 < |s.pipes| && |s.pipes[k + 1].queue| < s.cap
    case CloseOut(_) => k + 1 < |s.pipes|
    case Wait(_) => k + 1 < |s.stages| && s.stages[k + 1].pc.Done?
    case Done => false
    case _ => true
  }

  predicate GeneratorEnabled(s: State) {
    0 < |s.pipes| && 0 < |s.stages| &&
    match s.gen
    case Emit(next) => next > s.n || |s.pipes[0].queue| < s.cap
    case Waiting => s.stages[0].pc.Done?
    case Finished => false
  }

  /** Process 0 is the generator, process `k + 1` is stage `k`. */
  predicate Enabled(s: State, i: nat) {
    if i == 0 then GeneratorEnabled(s) else StageEnabled(s, i - 1)
  }

  function Push(s: State, k: nat, b: nat): State
    requires k < |s.pipes|
  {
    s.(pipes := s.pipes[k := Pipe(s.pipes[k].queue + [b], s.pipes[k].closed)])
  }

  function Pop(s: State, k: nat): State
    requires k < |s.pipes| && s.pipes[k].queue != []
  {
    s.(pipes := s.pipes[k := Pipe(s.pipes[k].queue[1..], s.pipes[k].closed)])
  }

  function Close(s: State, k: nat): State
    requires k < |s.pipes|
  {
    s.(pipes := s.pipes[k := Pipe(s.pipes[k].queue, true)])
  }

  function Go(s: State, k: nat, pc: Pc): State
    requires k < |s.stages|
  {
    s.(stages := s.stages[k := Stage(pc, s.stages[k].got)])
  }

  function Got(s: State, k: nat, pc: Pc, b: nat): State
    requires k < |s.stages|
  {
    s.(stages := s.stages[k := Stage(pc, s.stages[k].got + [b])])
  }

  function StageNext(s: State, k: nat): State
    requires StageEnabled(s, k)
  {
    match s.stages[k].pc
    case First =>
      if s.pipes[k].queue == [] then Go(s, k, Exit)
      else Got(Pop(s, k), k, Announce(s.pipes[k].queue[0]), s.pipes[k].queue[0])
    case Announce(p) => Go(s, k, Spawn(p)).(output := s.output + [p])
    case Spawn(p) => Spawned(Go(s, k, Filter(p)))
    case Filter(p) =>
      if s.pipes[k].queue == [] then Go(s, k, CloseOut(p))
      else Got(Pop(s, k), k, if s.pipes[k].queue[0] % p != 0 then Put(p, s.pipes[k].queue[0]) else Filter(p), s.pipes[k].queue[0])
    case Put(p, b) => Go(Push(s, k + 1, b), k, Filter(p))
    case CloseOut(p) => Go(Close(s, k + 1), k, Wait(p))
    case Wait(_) => Go(s, k, Done)
    case Exit => Go(s, k, Done)
  }

  /** A new pipe and a new process at its end. */
  function Spawned(s: State): State {
    s.(stages := s.stages + [Stage(First, [])], pipes := s.pipes + [Pipe([], false)])
  }

  /** The counter of the generator is unsigned. */
  function Successor(b: nat): nat {
    if b == UINT_MAX then 0 else b + 1
  }

  function GeneratorNext(s: State): State
    requires GeneratorEnabled(s)
  {
    match s.gen
    case Emit(next) => if next > s.n then Close(s, 0).(gen := Waiting) else Push(s, 0, next).(gen := Emit(Successor(next)))
    case Waiting => s.(gen := Finished)
  }

  function Next(s: State, i: nat): State
    requires Enabled(s, i)
  {
    if i == 0 then GeneratorNext(s) else StageNext(s, i - 1)
  }

  // ---------------------------------------------------------------------------------------------
  // What is on its way

  /** The numbers that stage `k` has still to read: in its pipe, and coming into its pipe. */
  function Future(s: State, k: nat): seq<nat>
    decreases k, 1
  {
    (if k < |s.pipes| then s.pipes[k].queue else []) + Coming(s, k)
  }

  function Coming(s: State, k: nat): seq<nat>
    decreases k, 0
  {
    if k == 0 then (if s.gen.Emit? then Range(s.gen.next, s.n + 1) else [])
    else if k > |s.stages| then []
    else Passes(s.stages[k - 1].pc, Future(s, k - 1))
  }

  /** What a stage will still write when `f` is what it has still to read. */
  function Passes(pc: Pc, f: seq<nat>): seq<nat> {
    match pc
    case Filter(p) => if p > 0 then Sift(p, f) else []
    case Put(p, b) => if p > 0 then [b] + Sift(p, f) else []
    case _ => []
  }

  /** What a stage has read and has still to read is its input. */
  predicate Flow(s: State, k: nat) {
    k < |s.stages| ==> s.stages[k].got + Future(s, k) == Input(s.n, k)
  }

  predicate HasChild(pc: Pc) {
    pc.Filter? || pc.Put? || pc.CloseOut? || pc.Wait?
  }

  predicate Ended(pc: Pc) {
    pc.CloseOut? || pc.Wait? || pc.Exit? || pc.Done?
  }

  /** A stage and the history it has read. */
  predicate StageOk(s: State, k: nat) {
    k < |s.stages| ==>
      var pc, got, last := s.stages[k].pc, s.stages[k].got, k + 1 == |s.stages|;
      && (HasChild(pc) ==> !last) && (!HasChild(pc) && !pc.Done? ==> last)
      && (pc.First? || pc.Exit? || (pc.Done? && last) ==> got == [])
      && (pc.Announce? || pc.Spawn? ==> got == [pc.p])
      && (!last ==> got != [])
      && (HasChild(pc) ==> got != [] && pc.p == got[0])
      && (Ended(pc) ==> Future(s, k) == [] && k < |s.pipes| && s.pipes[k].closed)
      && (pc.Done? && !last ==> s.stages[k + 1].pc.Done?)
  }

  /** A pipe is closed exactly when its writer is past closing it. */
  predicate PipeOk(s: State, k: nat) {
    k < |s.pipes| ==>
      (s.pipes[k].closed <==> if k == 0 then !s.gen.Emit? else k <= |s.stages| && (s.stages[k - 1].pc.Wait? || s.stages[k - 1].pc.Done?))
  }

  /** The stages that have printed. */
  function Printed(s: State): nat {
    if |s.stages| > 0 && s.stages[|s.stages| - 1].pc.Spawn? then |s.stages| else if |s.stages| > 0 then |s.stages| - 1 else 0
  }

  ghost predicate Inv(s: State) {
    && 2 <= s.n < UINT_MAX && s.cap >= 1 && 0 < |s.stages| == |s.pipes| <= s.n
    && (forall k: nat :: Flow(s, k) && StageOk(s, k) && PipeOk(s, k))
    && (s.gen.Finished? ==> s.stages[0].pc.Done?)
    && s.output == Heads(s.n, Printed(s))
  }

  // ---------------------------------------------------------------------------------------------
  // Flow

  function Queue(s: State, k: nat): seq<nat> {
    if k < |s.pipes| then s.pipes[k].queue else []
  }

  /** Pipe `k` and its writer are as before. */
  predicate SameLink(s: State, s': State, k: nat) {
    && Queue(s', k) == Queue(s, k) && s'.n == s.n
    && (k == 0 ==> s'.gen == s.gen)
    && (0 < k <= |s.stages| ==> k <= |s'.stages| && s'.stages[k - 1].pc == s.stages[k - 1].pc)
    && (k > |s.stages| ==> k > |s'.stages|)
  }

  lemma {:induction false} FutureBefore(s: State, s': State, k: nat)
    requires forall j: nat :: j <= k ==> SameLink(s, s', j)
    ensures Future(s', k) == Future(s, k)
    decreases k
  {
    assert SameLink(s, s', k);
    if k > 0 { FutureBefore(s, s', k - 1); }
  }

  lemma {:induction false} FutureAfter(s: State, s': State, m: nat, k: nat)
    requires m <= k && Future(s', m) == Future(s, m) && forall j: nat :: m < j <= k ==> SameLink(s, s', j)
    ensures Future(s', k) == Future(s, k)
    decreases k
  {
    if m < k {
      FutureAfter(s, s', m, k - 1);
      assert SameLink(s, s', k);
    }
  }

  /** A closed pipe brings nothing more. */
  lemma ClosedIsDry(s: State, k: nat)
    requires Inv(s) && k < |s.pipes| && s.pipes[k].closed
    ensures Coming(s, k) == []
  {
    assert PipeOk(s, k);
  }

  /** Steps after which every stage has the same still to read. */
  predicate Quiet(s: State, k: nat) {
    StageEnabled(s, k) &&
    match s.stages[k].pc
    case First => s.pipes[k].queue == []
    case Filter(_) => s.pipes[k].queue == []
    case Put(_, _) => false
    case Spawn(_) => false
    case _ => true
  }

  lemma QuietLinks(s: State, k: nat)
    requires Quiet(s, k)
    ensures var s' := StageNext(s, k);
      && (forall j: nat :: j != k + 1 ==> SameLink(s, s', j))
      && Queue(s', k + 1) == Queue(s, k + 1) && |s'.stages| == |s.stages|
  {}

  lemma QuietPasses(s: State, k: nat)
    requires Inv(s) && Quiet(s, k)
    ensures Passes(StageNext(s, k).stages[k].pc, Future(s, k)) == Passes(s.stages[k].pc, Future(s, k))
  {
    if s.stages[k].pc.Filter? {
      ClosedIsDry(s, k);
      assert Future(s, k) == [];
    }
    hide Inv, Future;
  }

  lemma QuietFuture(s: State, k: nat, j: nat)
    requires Inv(s) && Quiet(s, k)
    ensures Future(StageNext(s, k), j) == Future(s, j)
  {
    var s' := StageNext(s, k);
    QuietPasses(s, k);
    QuietLinks(s, k);
    hide Inv, Future, StageNext, Quiet, SameLink, Passes, Queue;
    if j <= k {
      FutureBefore(s, s', j);
    } else {
      FutureBefore(s, s', k);
      NextLink(s, s', k);
      FutureAfter(s, s', k + 1, j);
    }
  }

  lemma NextLink(s: State, s': State, k: nat)
    requires k < |s.stages| == |s'.stages| && Future(s', k) == Future(s, k) && Queue(s', k + 1) == Queue(s, k + 1)
    requires Passes(s'.stages[k].pc, Future(s, k)) == Passes(s.stages[k].pc, Future(s, k))
    ensures Future(s', k + 1) == Future(s, k + 1)
  {}

  /** Reading a number. */
  predicate Reads(s: State, k: nat) {
    StageEnabled(s, k) && (s.stages[k].pc.First? || s.stages[k].pc.Filter?) && s.pipes[k].queue != []
  }

  lemma ReadLinks(s: State, k: nat)
    requires Reads(s, k)
    ensures var s' := StageNext(s, k);
      && (forall j: nat :: j != k && j != k + 1 ==> SameLink(s, s', j))
      && Queue(s, k) == [s.pipes[k].queue[0]] + Queue(s', k) && Queue(s', k + 1) == Queue(s, k + 1)
      && |s'.stages| == |s.stages| && s'.gen == s.gen && s'.n == s.n
      && (k > 0 ==> s'.stages[k - 1].pc == s.stages[k - 1].pc)
  {}

  lemma ReadPasses(s: State, k: nat, rest: seq<nat>)
    requires Reads(s, k)
    ensures Passes(StageNext(s, k).stages[k].pc, rest) == Passes(s.stages[k].pc, [s.pipes[k].queue[0]] + rest)
  {
    assert ([s.pipes[k].queue[0]] + rest)[1..] == rest;
  }

  lemma ReadHere(s: State, k: nat)
    requires Reads(s, k)
    ensures Future(s, k) == [s.pipes[k].queue[0]] + Future(StageNext(s, k), k)
    ensures Future(StageNext(s, k), k + 1) == Future(s, k + 1)
  {
    var s' := StageNext(s, k);
    ReadLinks(s, k);
    ReadPasses(s, k, Future(s', k));
    hide StageNext, Reads, Passes, Queue, SameLink;
    if k > 0 { FutureBefore(s, s', k - 1); }
    assert Coming(s', k) == Coming(s, k);
    QueueFirst(s, k);
    QueueFirst(s', k);
    QueueFirst(s, k + 1);
    QueueFirst(s', k + 1);
  }

  lemma QueueFirst(s: State, k: nat)
    ensures Future(s, k) == Queue(s, k) + Coming(s, k)
  {}

  lemma ReadFuture(s: State, k: nat, j: nat)
    requires Reads(s, k)
    ensures j == k ==> Future(s, k) == [s.pipes[k].queue[0]] + Future(StageNext(s, k), k)
    ensures j != k ==> Future(StageNext(s, k), j) == Future(s, j)
  {
    var s' := StageNext(s, k);
    ReadLinks(s, k);
    ReadHere(s, k);
    hide Future, StageNext, Reads, SameLink;
    if j < k {
      FutureBefore(s, s', j);
    } else if j > k {
      FutureAfter(s, s', k + 1, j);
    }
  }

  /** Writing a number moves it from the writer into the pipe. */
  lemma PutFuture(s: State, k: nat, j: nat)
    requires StageEnabled(s, k) && s.stages[k].pc.Put? && s.stages[k].pc.p > 0
    ensures Future(StageNext(s, k), j) == Future(s, j)
  {
    var s' := StageNext(s, k);
    PutLinks(s, k);
    hide Future, StageNext, SameLink, StageEnabled;
    if j <= k {
      FutureBefore(s, s', j);
    } else {
      FutureBefore(s, s', k);
      PutHere(s, s', k);
      FutureAfter(s, s', k + 1, j);
    }
  }

  lemma PutHere(s: State, s': State, k: nat)
    requires k < |s.stages| == |s'.stages| && s.stages[k].pc.Put? && s.stages[k].pc.p > 0 && s'.stages[k].pc == Filter(s.stages[k].pc.p)
    requires Future(s', k) == Future(s, k) && Queue(s', k + 1) == Queue(s, k + 1) + [s.stages[k].pc.b]
    ensures Future(s', k + 1) == Future(s, k + 1)
  {
    QueueFirst(s, k + 1);
    QueueFirst(s', k + 1);
    var f := Future(s, k);
    assert Coming(s, k + 1) == Passes(s.stages[k].pc, f) && Coming(s', k + 1) == Passes(s'.stages[k].pc, f);
    hide Future, Sift;
  }

  lemma PutLinks(s: State, k: nat)
    requires StageEnabled(s, k) && s.stages[k].pc.Put?
    ensures var s' := StageNext(s, k);
      && (forall j: nat :: j != k + 1 ==> SameLink(s, s', j))
      && Queue(s', k + 1) == Queue(s, k + 1) + [s.stages[k].pc.b]
      && |s'.stages| == |s.stages| && s'.stages[k].pc == Filter(s.stages[k].pc.p)
  {}

  lemma SpawnLinks(s: State, k: nat)
    requires StageEnabled(s, k) && s.stages[k].pc.Spawn? && |s.stages| == k + 1 == |s.pipes|
    ensures var s' := StageNext(s, k);
      && (forall i: nat :: i <= k ==> SameLink(s, s', i)) && Queue(s', k + 1) == [] && s'.n == s.n
      && |s'.stages| == k + 2 && s'.stages[k].pc == Filter(s.stages[k].pc.p) && s'.stages[k + 1] == Stage(First, [])
      && (forall i: nat :: i <= k ==> s'.stages[i].got == s.stages[i].got)
  {}

  lemma InputTail(n: nat, k: nat, p: nat, f: seq<nat>)
    requires Input(n, k) == [p] + f
    ensures p > 0 && Input(n, k + 1) == Sift(p, f)
  {
    assert ([p] + f)[0] == p && ([p] + f)[1..] == f;
    assert Input(n, k)[0] >= 2;
  }

  lemma InvAt(s: State, k: nat)
    requires Inv(s)
    ensures Flow(s, k) && StageOk(s, k) && PipeOk(s, k) && 0 < |s.stages| == |s.pipes|
    ensures s.output == Heads(s.n, Printed(s))
  {}

  /** A new stage will read what its parent lets through of the rest of its own input. */
  lemma SpawnFlow(s: State, k: nat, j: nat)
    requires Inv(s) && StageEnabled(s, k) && s.stages[k].pc.Spawn?
    ensures Flow(StageNext(s, k), j)
  {
    hide Inv, Future, Input, PipeOk, SameLink;
    InvAt(s, k);
    InvAt(s, j);
    var s' := StageNext(s, k);
    SpawnLinks(s, k);
    InputTail(s.n, k, s.stages[k].pc.p, Future(s, k));
    hide StageNext, StageOk, StageEnabled;
    if j <= k {
      FutureBefore(s, s', j);
    } else if j == k + 1 {
      FutureBefore(s, s', k);
      QueueFirst(s', k + 1);
    }
  }

  /** The generator moves the next number into the first pipe. */
  lemma GeneratorFuture(s: State, j: nat)
    requires Inv(s) && GeneratorEnabled(s)
    ensures Future(GeneratorNext(s), j) == Future(s, j)
  {
    var s' := GeneratorNext(s);
    QueueFirst(s, 0);
    QueueFirst(s', 0);
    assert Future(s', 0) == Future(s, 0);
    assert forall i: nat :: 0 < i ==> SameLink(s, s', i);
    hide Future, Inv;
    FutureAfter(s, s', 0, j);
  }

  // ---------------------------------------------------------------------------------------------
  // Every step keeps the invariant

  lemma StepFlow(s: State, k: nat, j: nat)
    requires Inv(s) && StageEnabled(s, k)
    ensures Flow(StageNext(s, k), j)
  {
    assert Flow(s, j) && StageOk(s, k);
    if Quiet(s, k) {
      QuietFuture(s, k, j);
      hide Inv, Future, Input;
    } else if Reads(s, k) {
      ReadFuture(s, k, j);
      hide Inv, Future, Input;
      if j == k {
        var b, rest := s.pipes[k].queue[0], Future(StageNext(s, k), k);
        assert s.stages[k].got + ([b] + rest) == (s.stages[k].got + [b]) + rest;
      }
    } else if s.stages[k].pc.Put? {
      PositivePrime(s, k);
      PutFuture(s, k, j);
      hide Inv, Future, Input;
    } else {
      SpawnFlow(s, k, j);
    }
  }

  lemma PositivePrime(s: State, k: nat)
    requires Inv(s) && k < |s.stages| && s.stages[k].got != []
    ensures s.stages[k].got[0] >= 2 && Input(s.n, k) != [] && Input(s.n, k)[0] == s.stages[k].got[0]
  {
    assert Flow(s, k);
    hide Inv, Future, Input;
    assert Input(s.n, k)[0] == s.stages[k].got[0];
  }

  /** Only a reader has less to read after its step. */
  lemma FutureKept(s: State, k: nat, j: nat)
    requires Inv(s) && StageEnabled(s, k) && j < |s.stages| && !(j == k && Reads(s, k))
    ensures Future(StageNext(s, k), j) == Future(s, j)
  {
    assert StageOk(s, k);
    if Quiet(s, k) {
      QuietFuture(s, k, j);
    } else if Reads(s, k) {
      ReadFuture(s, k, j);
    } else if s.stages[k].pc.Put? {
      PositivePrime(s, k);
      PutFuture(s, k, j);
    } else {
      SpawnLinks(s, k);
      hide Inv, StageOk, Future, StageNext;
      FutureBefore(s, StageNext(s, k), j);
    }
  }

  /** A stage that finds its pipe empty and closed has nothing more to read. */
  lemma DryFuture(s: State, k: nat)
    requires Inv(s) && k < |s.pipes| && s.pipes[k].queue == [] && s.pipes[k].closed
    ensures Future(s, k) == []
  {
    ClosedIsDry(s, k);
    QueueFirst(s, k);
  }

  lemma StepHere(s: State, k: nat)
    requires Inv(s) && StageEnabled(s, k)
    ensures StageOk(StageNext(s, k), k)
  {
    hide Inv, Future, Flow, PipeOk, Input;
    InvAt(s, k);
    if s.stages[k].pc.First? || s.stages[k].pc.Filter? {
      if s.pipes[k].queue == [] {
        DryFuture(s, k);
        FutureKept(s, k, k);
      }
    } else {
      FutureKept(s, k, k);
    }
  }

  /** The place and the history of every other stage stay as they were. */
  lemma StageFrame(s: State, k: nat, j: nat)
    requires Inv(s) && StageEnabled(s, k) && j != k && j < |s.stages|
    ensures var s' := StageNext(s, k);
      && j < |s'.stages| && s'.stages[j] == s.stages[j] && Future(s', j) == Future(s, j)
      && (j + 1 == |s'.stages| <==> j + 1 == |s.stages|)
      && (j + 1 < |s.stages| && s.stages[j + 1].pc.Done? ==> s'.stages[j + 1].pc.Done?)
  {
    hide Inv, Future, Flow, PipeOk, Input;
    InvAt(s, k);
    FutureKept(s, k, j);
  }

  lemma StepThere(s: State, k: nat, j: nat)
    requires Inv(s) && StageEnabled(s, k) && j != k
    ensures StageOk(StageNext(s, k), j)
  {
    hide Inv, Future, Flow, PipeOk, Input;
    InvAt(s, j);
    InvAt(s, k);
    if j < |s.stages| {
      StageFrame(s, k, j);
      hide StageNext;
    }
  }

  lemma StepPipe(s: State, k: nat, j: nat)
    requires Inv(s) && StageEnabled(s, k)
    ensures PipeOk(StageNext(s, k), j)
  {
    hide Inv, Future, Flow, Input;
    InvAt(s, j);
    InvAt(s, k);
  }

  lemma StepOutput(s: State, k: nat)
    requires Inv(s) && StageEnabled(s, k)
    ensures StageNext(s, k).output == Heads(s.n, Printed(StageNext(s, k)))
  {
    hide Inv, Future, Flow, Input, PipeOk;
    InvAt(s, k);
    if s.stages[k].pc.Announce? {
      PositivePrime(s, k);
    } else {
      hide Heads;
    }
  }

  lemma StepCount(s: State, k: nat)
    requires Inv(s) && StageEnabled(s, k)
    ensures 0 < |StageNext(s, k).stages| == |StageNext(s, k).pipes| <= s.n
    ensures s.gen.Finished? ==> StageNext(s, k).stages[0].pc.Done?
  {
    assert StageOk(s, k);
    if s.stages[k].pc.Spawn? {
      PositivePrime(s, k);
      InputAscending(s.n, k);
    }
    hide Future;
  }

  lemma StageInv(s: State, k: nat)
    requires Inv(s) && StageEnabled(s, k)
    ensures Inv(StageNext(s, k))
  {
    var s' := StageNext(s, k);
    assert s'.n == s.n && s'.cap == s.cap && s'.gen == s.gen;
    StepOutput(s, k);
    StepCount(s, k);
    hide StageNext, Future, Input, Flow, StageOk, PipeOk;
    forall j: nat ensures Flow(s', j) && StageOk(s', j) && PipeOk(s', j) {
      StepFlow(s, k, j);
      StepPipe(s, k, j);
      if j == k { StepHere(s, k); } else { StepThere(s, k, j); }
    }
  }

  lemma GeneratorInv(s: State)
    requires Inv(s) && GeneratorEnabled(s)
    ensures Inv(GeneratorNext(s))
  {
    var s' := GeneratorNext(s);
    forall j: nat ensures Flow(s', j) && StageOk(s', j) && PipeOk(s', j) {
      assert Flow(s, j) && StageOk(s, j) && PipeOk(s, j);
      GeneratorFuture(s, j);
      hide Inv, Future, Input;
    }
    hide Future;
  }

  lemma StepInv(s: State, i: nat)
    requires Inv(s) && Enabled(s, i)
    ensures Inv(Next(s, i))
  {
    hide Inv, StageNext, GeneratorNext;
    if i == 0 { GeneratorInv(s); } else { StageInv(s, i - 1); }
  }

  lemma InitInv(s: State)
    requires Init(s) && s.n < UINT_MAX
    ensures Inv(s)
  {
    forall k: nat ensures Flow(s, k) && StageOk(s, k) && PipeOk(s, k) {
      if k == 0 {
        QueueFirst(s, 0);
        assert [] + Range(2, s.n + 1) == Range(2, s.n + 1);
      }
    }
  }

  // ---------------------------------------------------------------------------------------------
  // No deadlock

  predicate AllDone(s: State) {
    s.gen.Finished? && forall k :: 0 <= k < |s.stages| ==> s.stages[k].pc.Done?
  }

  /** While a pipe is open and empty, its writer or somebody before it can move. */
  lemma {:induction false} UpstreamMoves(s: State, k: nat) returns (i: nat)
    requires Inv(s) && k < |s.pipes| && s.pipes[k].queue == [] && !s.pipes[k].closed
    ensures Enabled(s, i)
    decreases k
  {
    hide Future, Input, Flow;
    InvAt(s, k);
    if k == 0 {
      i := 0;
    } else {
      InvAt(s, k - 1);
      if StageEnabled(s, k - 1) {
        i := k;
      } else {
        if s.stages[k - 1].pc.Filter? { PositivePrime(s, k - 1); }
        i := UpstreamMoves(s, k - 1);
      }
    }
  }

  /** The stage after the last one that is done, counting back, can move when all behind it are. */
  lemma {:induction false} ParentMoves(s: State, k: nat) returns (i: nat)
    requires Inv(s) && k < |s.stages| && s.stages[k].pc.Done? && !AllDone(s)
    requires forall j :: k <= j < |s.stages| ==> s.stages[j].pc.Done?
    ensures Enabled(s, i)
    decreases k
  {
    hide Future, Input, Flow;
    InvAt(s, k);
    if k == 0 {
      i := 0;
    } else {
      InvAt(s, k - 1);
      if s.stages[k - 1].pc.Done? {
        i := ParentMoves(s, k - 1);
      } else {
        i := k;
      }
    }
  }

  /** Until all processes have ended, one of them can move. */
  lemma NoDeadlock(s: State)
    requires Inv(s) && !AllDone(s)
    ensures exists i :: Enabled(s, i)
  {
    hide Future, Input, Flow, PipeOk;
    var last := |s.stages| - 1;
    InvAt(s, last);
    if s.stages[last].pc.Done? {
      var i := ParentMoves(s, last);
    } else if StageEnabled(s, last) {
      assert Enabled(s, last + 1);
    } else {
      var i := UpstreamMoves(s, last);
    }
  }

  // ---------------------------------------------------------------------------------------------
  // Every run ends

  function Times(count: nat, w: nat): nat {
    if count == 0 then 0 else w + Times(count - 1, w)
  }

  function PcWork(pc: Pc): nat {
    match pc
    case First => 6
    case Announce(_) => 5
    case Spawn(_) => 4
    case Filter(_) => 3
    case Put(_, _) => 3
    case CloseOut(_) => 2
    case Wait(_) => 1
    case Exit => 1
    case Done => 0
  }

  function ItemWork(s: State, k: nat): nat {
    if k <= s.n then 2 * (s.n - k) + 2 else 0
  }

  /** The steps left in a stage, its pipe, and the number it is writing. */
  function StageWork(s: State, k: nat): nat {
    if k < |s.stages| then
      Times(|Queue(s, k)|, ItemWork(s, k)) + PcWork(s.stages[k].pc) + (if s.stages[k].pc.Put? && ItemWork(s, k) > 0 then ItemWork(s, k) - 1 else 0)
    else 0
  }

  function TotalWork(s: State, m: nat): nat {
    if m == 0 then 0 else TotalWork(s, m - 1) + StageWork(s, m - 1)
  }

  function GeneratorWork(s: State): nat {
    match s.gen
    case Emit(next) => Times(if next <= s.n then s.n + 1 - next else 0, 2 * s.n + 3) + 2
    case Waiting => 1
    case Finished => 0
  }

  /** A bound on the steps left in the whole system. */
  function Work(s: State): nat {
    GeneratorWork(s) + TotalWork(s, s.n) + (if |s.stages| <= s.n then 10 * (s.n - |s.stages|) else 0)
  }

  /** Only the work of stages `a` and `a + 1` changes. */
  lemma {:induction false} WorkChange(s: State, s': State, a: nat, m: nat)
    requires forall j: nat :: j != a && j != a + 1 ==> StageWork(s', j) == StageWork(s, j)
    ensures TotalWork(s', m) - TotalWork(s, m) ==
      (if a < m then StageWork(s', a) - StageWork(s, a) else 0) + (if a + 1 < m then StageWork(s', a + 1) - StageWork(s, a + 1) else 0)
    decreases m
  {
    hide StageWork;
    if m > 0 { WorkChange(s, s', a, m - 1); }
  }

  lemma WorkFrame(s: State, k: nat)
    requires StageEnabled(s, k) && !s.stages[k].pc.Spawn?
    ensures var s' := StageNext(s, k);
      && (forall j: nat :: j != k && j != k + 1 ==> StageWork(s', j) == StageWork(s, j))
      && |s'.stages| == |s.stages| && s'.n == s.n && s'.gen == s.gen && |s'.pipes| == |s.pipes|
  {
    var s' := StageNext(s, k);
    assert |s'.stages| == |s.stages| && s'.n == s.n;
    forall j: nat | j != k && j != k + 1 ensures StageWork(s', j) == StageWork(s, j) {
      assert Queue(s', j) == Queue(s, j) && (j < |s.stages| ==> s'.stages[j] == s.stages[j]);
      hide StageNext, Queue;
    }
  }

  /** The numbers a step moves. */
  lemma MovedNumbers(s: State, k: nat)
    requires StageEnabled(s, k) && !s.stages[k].pc.Spawn?
    ensures var s' := StageNext(s, k);
      && |Queue(s', k)| == |Queue(s, k)| - (if Reads(s, k) then 1 else 0)
      && |Queue(s', k + 1)| == |Queue(s, k + 1)| + (if s.stages[k].pc.Put? then 1 else 0)
      && (k + 1 < |s.stages| ==> s'.stages[k + 1] == s.stages[k + 1])
      && (s'.stages[k].pc.Put? ==> Reads(s, k) && s.stages[k].pc.Filter?)
      && PcWork(s'.stages[k].pc) <= PcWork(s.stages[k].pc)
      && (!Reads(s, k) && !s.stages[k].pc.Put? ==> PcWork(s'.stages[k].pc) < PcWork(s.stages[k].pc))
  {}

  /** A step of a stage moves work from its own pipe to the next, and loses some. */
  lemma StageLosesWork(s: State, k: nat)
    requires Inv(s) && StageEnabled(s, k) && !s.stages[k].pc.Spawn?
    ensures var s' := StageNext(s, k);
      && StageWork(s', k) + StageWork(s', k + 1) < StageWork(s, k) + StageWork(s, k + 1)
      && (forall j: nat :: j != k && j != k + 1 ==> StageWork(s', j) == StageWork(s, j))
      && |s'.stages| == |s.stages| && s'.n == s.n && s'.gen == s.gen
  {
    InvAt(s, k);
    StageCount(s);
    WorkFrame(s, k);
    MovedNumbers(s, k);
    assert ItemWork(s, k + 1) == ItemWork(s, k) - 2;
    hide Inv, Future, Input, Flow, PipeOk, StageNext, Queue, Reads, ItemWork, PcWork;
    assert ItemWork(StageNext(s, k), k) == ItemWork(s, k) && ItemWork(StageNext(s, k), k + 1) == ItemWork(s, k + 1) by { SameItemWork(s, StageNext(s, k), k); SameItemWork(s, StageNext(s, k), k + 1); }
  }

  lemma SameItemWork(s: State, s': State, k: nat)
    requires s'.n == s.n
    ensures ItemWork(s', k) == ItemWork(s, k)
  {}

  lemma StageCount(s: State)
    requires Inv(s)
    ensures |s.stages| <= s.n < UINT_MAX
  {}

  lemma SpawnLosesWork(s: State, k: nat)
    requires Inv(s) && StageEnabled(s, k) && s.stages[k].pc.Spawn?
    ensures var s' := StageNext(s, k);
      && StageWork(s', k) + StageWork(s', k + 1) == StageWork(s, k) + StageWork(s, k + 1) + 5
      && (forall j: nat :: j != k && j != k + 1 ==> StageWork(s', j) == StageWork(s, j))
      && |s'.stages| == |s.stages| + 1 <= s.n && |s.stages| == k + 1 && s'.n == s.n && s'.gen == s.gen
  {
    InvAt(s, k);
    StepCount(s, k);
    assert |s.stages| == k + 1 == |s.pipes|;
    hide Inv, Future, Input, Flow, PipeOk, StageOk, StageEnabled, Times;
  }

  lemma GeneratorMoves(s: State)
    requires GeneratorEnabled(s)
    ensures var s' := GeneratorNext(s);
      && s'.n == s.n && s'.stages == s.stages
      && (forall j: nat :: j > 0 ==> Queue(s', j) == Queue(s, j))
      && |Queue(s', 0)| == |Queue(s, 0)| + (if s.gen.Emit? && s.gen.next <= s.n then 1 else 0)
  {}

  lemma GeneratorGives(s: State)
    requires GeneratorEnabled(s) && s.n < UINT_MAX
    ensures GeneratorWork(GeneratorNext(s)) + (if s.gen.Emit? && s.gen.next <= s.n then 2 * s.n + 3 else 1) <= GeneratorWork(s)
  {}

  lemma GeneratorLosesWork(s: State)
    requires Inv(s) && GeneratorEnabled(s)
    ensures Work(GeneratorNext(s)) < Work(s)
  {
    hide Inv, Future, Input, Flow, PipeOk, StageOk, GeneratorNext, Queue, GeneratorWork;
    InvAt(s, 0);
    var s' := GeneratorNext(s);
    StageCount(s);
    GeneratorMoves(s);
    GeneratorGives(s);
    WorkChange(s, s', 0, s.n);
  }

  /** Every step of any process lowers the bound. */
  lemma StepLosesWork(s: State, i: nat)
    requires Inv(s) && Enabled(s, i)
    ensures Work(Next(s, i)) < Work(s)
  {
    hide Future, Input, Flow, PipeOk, StageOk, StageWork, TotalWork;
    if i == 0 {
      GeneratorLosesWork(s);
    } else {
      var k := i - 1;
      var s' := StageNext(s, k);
      if s.stages[k].pc.Spawn? {
        SpawnLosesWork(s, k);
      } else {
        StageLosesWork(s, k);
        NoWork(s, k + 1);
        NoWork(s', k + 1);
      }
      WorkChange(s, s', k, s.n);
    }
  }

  lemma NoWork(s: State, k: nat)
    ensures k >= |s.stages| ==> StageWork(s, k) == 0
  {}

  // ---------------------------------------------------------------------------------------------
  // Runs

  predicate Runs(s: State, steps: seq<nat>, s': State)
    decreases |steps|
  {
    if steps == [] then s' == s else Enabled(s, steps[0]) && Runs(Next(s, steps[0]), steps[1..], s')
  }

  /** However the processes are interleaved, a run stays within the bound. */
  lemma {:induction false} RunInv(s: State, steps: seq<nat>, s': State)
    requires Inv(s) && Runs(s, steps, s')
    ensures Inv(s') && s'.n == s.n && Work(s') + |steps| <= Work(s)
    decreases |steps|
  {
    if steps != [] {
      SameNumber(s, steps[0]);
      hide Inv, Enabled, Next, Work;
      StepInv(s, steps[0]);
      StepLosesWork(s, steps[0]);
      RunInv(Next(s, steps[0]), steps[1..], s');
    }
  }

  lemma SameNumber(s: State, i: nat)
    requires Enabled(s, i)
    ensures Next(s, i).n == s.n
  {}

  /** At every moment of every run the output is the first primes, in order. */
  lemma OutputIsPrefix(s: State, steps: seq<nat>, s': State)
    requires Init(s) && s.n < UINT_MAX && Runs(s, steps, s')
    ensures s'.output <= PrimesUpTo(s.n)
  {
    InitInv(s);
    RunInv(s, steps, s');
    PrintedHeads(s');
    HeadsArePrefix(s'.n, Printed(s'));
  }

  lemma PrintedHeads(s: State)
    requires Inv(s)
    ensures Printed(s) > 0 ==> Input(s.n, Printed(s) - 1) != []
    ensures s.output == Heads(s.n, Printed(s))
  {
    hide Future, Input, Flow, PipeOk, Heads;
    var m := Printed(s);
    if m > 0 {
      InvAt(s, m - 1);
      PositivePrime(s, m - 1);
    }
  }

  /** Stage `k` has read, and will read, numbers that none of the first `k` primes divides. */
  lemma StageReadsSifted(s: State, steps: seq<nat>, s': State, k: nat, x: nat)
    requires Init(s) && s.n < UINT_MAX && Runs(s, steps, s') && k < |s'.stages| && x in s'.stages[k].got
    ensures 2 <= x <= s.n && Survives(s.n, k, x)
  {
    InitInv(s);
    RunInv(s, steps, s');
    InvAt(s', k);
    assert x in s'.stages[k].got + Future(s', k);
    InputElements(s.n, k, x);
  }

  /** When all processes have ended, each stage has read exactly its input. */
  lemma StageReadsAll(s: State, steps: seq<nat>, s': State, k: nat, x: nat)
    requires Init(s) && s.n < UINT_MAX && Runs(s, steps, s') && AllDone(s') && k < |s'.stages|
    ensures s'.stages[k].got == Input(s.n, k)
    ensures x in s'.stages[k].got <==> 2 <= x <= s.n && Survives(s.n, k, x)
  {
    hide Runs, Future, Input, PipeOk;
    InitInv(s);
    RunInv(s, steps, s');
    InvAt(s', k);
    InputElements(s.n, k, x);
  }

  /** A run that can go no further has ended every process and printed exactly the primes up to `n`. */
  lemma RunsPrintThePrimes(s: State, steps: seq<nat>, s': State)
    requires Init(s) && s.n < UINT_MAX && Runs(s, steps, s') && forall i :: !Enabled(s', i)
    ensures AllDone(s') && s'.output == PrimesUpTo(s.n)
  {
    hide Enabled, Runs;
    InitInv(s);
    RunInv(s, steps, s');
    if !AllDone(s') { NoDeadlock(s'); }
    DoneOutput(s');
  }

  lemma DoneOutput(s: State)
    requires Inv(s) && AllDone(s)
    ensures s.output == PrimesUpTo(s.n)
  {
    hide Future, Input, PipeOk, Heads, PrimesUpTo;
    var last := |s.stages| - 1;
    InvAt(s, last);
    assert [] + Future(s, last) == [];
    PrintedHeads(s);
    HeadsArePrimes(s.n, last);
  }

  // ---------------------------------------------------------------------------------------------
  // The largest number

  /** At the largest unsigned number the counter starts over before it can exceed it: whatever the
      other processes do, the generator never closes its pipe. */
  lemma {:induction false} NeverCloses(s: State, steps: seq<nat>, s': State)
    requires s.n == UINT_MAX && s.gen.Emit? && s.gen.next <= UINT_MAX && Runs(s, steps, s')
    ensures s'.gen.Emit?
    decreases |steps|
  {
    if steps != [] {
      CounterWraps(s, steps[0]);
      hide Enabled, Next;
      NeverCloses(Next(s, steps[0]), steps[1..], s');
    }
  }

  lemma CounterWraps(s: State, i: nat)
    requires Enabled(s, i) && s.n == UINT_MAX && s.gen.Emit? && s.gen.next <= UINT_MAX
    ensures var s' := Next(s, i); s'.n == UINT_MAX && s'.gen.Emit? && s'.gen.next <= UINT_MAX
  {}

  /** From any good state the processes can be run to their end. */
  lemma {:induction false} RunOn(s: State) returns (steps: seq<nat>, s': State)
    requires Inv(s)
    ensures Runs(s, steps, s') && AllDone(s')
    decreases Work(s)
  {
    hide Inv, Enabled, Next, Work, AllDone;
    if AllDone(s) {
      steps, s' := [], s;
    } else {
      NoDeadlock(s);
      var i: nat :| Enabled(s, i);
      StepInv(s, i);
      StepLosesWork(s, i);
      var rest;
      rest, s' := RunOn(Next(s, i));
      steps := [i] + rest;
      assert steps[1..] == rest;
    }
  }

  predicate RunsToEnd(s: State, steps: seq<nat>, s': State) {
    Runs(s, steps, s') && AllDone(s')
  }

  /** The sieve can finish exactly for the numbers below the largest. */
  lemma FinishesExactly(s: State)
    requires Init(s)
    ensures (exists steps, s' :: RunsToEnd(s, steps, s')) <==> s.n < UINT_MAX
  {
    if s.n < UINT_MAX {
      InitInv(s);
      var steps, s' := RunOn(s);
      assert RunsToEnd(s, steps, s');
    } else {
      forall steps, s' | Runs(s, steps, s') ensures !AllDone(s') {
        NeverCloses(s, steps, s');
      }
    }
  }
}
