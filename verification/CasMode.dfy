/** The lock-free bodies of my_atomic.h, run by any number of threads in any interleaving.

    A header of the `atomic` directory supplies a compare-and-swap and possibly single-instruction bodies for
    the other operations; what it does not supply is built from compare-and-swap by my_atomic.h.  One step of
    a thread is one access to the shared cell. */
module CasMode {
  import opened AtomicCell
  import opened Ranges

  /** Which operations have a single-instruction body. */
  datatype Mode = Mode(add: bool, fas: bool, load: bool, store: bool)

  const CAS_ONLY := Mode(false, false, false, false)
  const GCC_BUILTINS := Mode(true, false, true, true)
  const MSVC := Mode(true, false, true, false)
  const X86_GCC := Mode(true, true, true, true)

  /** Where a thread is.  `Loop` carries the local `tmp`: the value the next compare-and-swap expects. */
  datatype Pc = Idle | Start(op: Op) | Loop(op: Op, tmp: Word) | Finish(op: Op, ret: Ret)

  /** `retries` counts the failed compare-and-swaps of the loops, `changes` the writes that changed the cell. */
  datatype State = State(cell: Word, pcs: seq<Pc>, retries: nat, changes: nat)

  /** The effect of `my_atomic_cas` on the cell and on the caller's `*cmp`. */
  function CasBody(cell: Word, cmp: Word, desired: Word): (r: (bool, Word, Word))
    ensures r.1 == Next(cell, Cas(cmp, desired)) && Outcome(r.0, r.2) == Result(cell, Cas(cmp, desired))
  {
    if cell == cmp then (true, desired, cmp) else (false, cell, cell)
  }

  /** Does `op` run as a retry loop?  A store without a body of its own is a fetch-and-store. */
  predicate Loops(m: Mode, op: Op) {
    match op
    case Add(_) => !m.add
    case Fas(_) => !m.fas
    case Store(_) => !m.store && !m.fas
    case Load => false
    case Cas(_, _) => false
  }

  /** What is left to a loop by each header.  Two of them define a swap body, and not a fetch-and-store body, so that
      fetch-and-store is a loop there. */
  lemma LoopsPerHeader(op: Op)
    ensures Loops(CAS_ONLY, op) <==> op.Add? || op.Fas? || op.Store?
    ensures Loops(GCC_BUILTINS, op) <==> op.Fas?
    ensures Loops(MSVC, op) <==> op.Fas? || op.Store?
    ensures !Loops(X86_GCC, op)
  {
  }

  /** The value a retry loop tries to install when it last saw `tmp`. */
  function Desired(op: Op, tmp: Word): Word {
    match op
    case Add(v) => (tmp + v) % WORD
    case Fas(v) => v
    case Store(v) => v
    case Cas(_, desired) => desired
    case Load => tmp
  }

  /** One access to the cell: the new cell and where the thread is afterwards. */
  function Micro(m: Mode, cell: Word, pc: Pc): (r: (Word, Pc))
    requires pc.Start? || pc.Loop?
  {
    var op := pc.op;
    if pc.Loop? then
      var (ok, cell', tmp) := CasBody(cell, pc.tmp, Desired(op, pc.tmp));
      (cell', if !ok then Loop(op, tmp) else Finish(op, if op.Store? then Done else Old(tmp)))
    else if Loops(m, op) then
      (cell, Loop(op, cell))
    else match op
      case Add(v) => ((cell + v) % WORD, Finish(op, Old(cell)))
      case Fas(v) => (v, Finish(op, Old(cell)))
      case Store(v) => (v, Finish(op, Done))
      case Load =>
        var (_, cell', ret) := CasBody(cell, 0, 0);
        if m.load then (cell, Finish(op, Old(cell))) else (cell', Finish(op, Old(ret)))
      case Cas(cmp, desired) =>
        var (ok, cell', cmp') := CasBody(cell, cmp, desired);
        (cell', Finish(op, Outcome(ok, cmp')))
  }

  /** The next access of thread `t`. */
  function AccessCell(m: Mode, s: State, t: nat): State
    requires t < |s.pcs| && (s.pcs[t].Start? || s.pcs[t].Loop?)
  {
    var (cell, pc) := Micro(m, s.cell, s.pcs[t]);
    State(cell, s.pcs[t := pc],
          s.retries + (if s.pcs[t].Loop? && pc.Loop? then 1 else 0),
          s.changes + (if cell == s.cell then 0 else 1))
  }

  ghost predicate Step(m: Mode, s: State, l: Label, s': State) {
    l.t < |s.pcs| &&
    match l
    case Invoke(t, op) => s.pcs[t].Idle? && s' == s.(pcs := s.pcs[t := Start(op)])
    case Access(t) => (s.pcs[t].Start? || s.pcs[t].Loop?) && s' == AccessCell(m, s, t)
    case Return(t, ret) => s.pcs[t].Finish? && s.pcs[t].ret == ret && s' == s.(pcs := s.pcs[t := Pc.Idle])
  }

  function Initial(n: nat, init: Word): State {
    State(init, seq(n, _ => Pc.Idle), 0, 0)
  }

  ghost predicate StepAt(m: Mode, states: seq<State>, labels: seq<Label>, i: nat)
    requires |states| == |labels| + 1 && i < |labels|
  {
    Step(m, states[i], labels[i], states[i + 1])
  }

  /** A run of `n` threads: the states it passes through and the step taken from each to the next. */
  ghost predicate IsRun(m: Mode, n: nat, init: Word, states: seq<State>, labels: seq<Label>) {
    && |states| == |labels| + 1
    && states[0] == Initial(n, init)
    && forall i {:trigger StepAt(m, states, labels, i)} :: 0 <= i < |labels| ==> StepAt(m, states, labels, i)
  }

  lemma RunPrefix(m: Mode, n: nat, init: Word, states: seq<State>, labels: seq<Label>)
    requires IsRun(m, n, init, states, labels) && labels != []
    ensures IsRun(m, n, init, states[..|labels|], labels[..|labels| - 1])
    ensures Step(m, states[|labels| - 1], labels[|labels| - 1], states[|labels|])
  {
    var k := |labels| - 1;
    assert StepAt(m, states, labels, k);
    RunUpTo(m, n, init, states, labels, k);
  }

  // ---------- Refinement of the atomic object ----------

  /** The thread is in the same phase of the same call; a loop has not taken effect yet. */
  predicate SamePhase(pc: Pc, p: Phase) {
    match pc
    case Idle => p == Phase.Idle
    case Start(op) => p == Called(op)
    case Loop(op, _) => p == Called(op)
    case Finish(op, ret) => p == Took(op, ret)
  }

  predicate WellTyped(m: Mode, pc: Pc) {
    pc.Loop? ==> Loops(m, pc.op)
  }

  ghost predicate Represents(m: Mode, s: State, cell: Word, phases: seq<Phase>) {
    && s.cell == cell && |s.pcs| == |phases|
    && forall t :: 0 <= t < |s.pcs| ==> SamePhase(s.pcs[t], phases[t]) && WellTyped(m, s.pcs[t])
  }

  lemma MicroStep(m: Mode, cell: Word, pc: Pc)
    requires (pc.Start? || pc.Loop?) && WellTyped(m, pc)
    ensures var (cell', pc') := Micro(m, cell, pc);
            if pc'.Finish? then cell' == Next(cell, pc.op) && pc' == Finish(pc.op, Result(cell, pc.op))
            else cell' == cell && pc' == Loop(pc.op, cell) && Loops(m, pc.op)
                 && (pc.Loop? ==> pc.tmp != cell)
  {
  }

  /** An access either takes effect atomically or, when it is a first read or a failed compare-and-swap,
      changes nothing that the atomic object can see. */
  lemma AccessMatches(m: Mode, s: State, t: nat, phases: seq<Phase>)
    requires Represents(m, s, s.cell, phases)
    requires t < |s.pcs| && (s.pcs[t].Start? || s.pcs[t].Loop?)
    ensures phases[t] == Called(s.pcs[t].op)
    ensures var s' := AccessCell(m, s, t);
            var op := s.pcs[t].op;
            if s'.pcs[t].Finish?
            then Represents(m, s', Next(s.cell, op), phases[t := Took(op, Result(s.cell, op))])
            else Represents(m, s', s.cell, phases)
  {
    assert SamePhase(s.pcs[t], phases[t]) && WellTyped(m, s.pcs[t]);
    MicroStep(m, s.cell, s.pcs[t]);
  }

  lemma AccessRefines(m: Mode, s: State, t: nat, init: Word, a: Atomic) returns (b: Atomic)
    requires Represents(m, s, a.cell, a.phases) && AtomicInv(init, a)
    requires t < |s.pcs| && (s.pcs[t].Start? || s.pcs[t].Loop?)
    ensures Represents(m, AccessCell(m, s, t), b.cell, b.phases) && AtomicInv(init, b) && b.h == a.h
  {
    AccessMatches(m, s, t, a.phases);
    if AccessCell(m, s, t).pcs[t].Finish? {
      TakeEffectInv(init, a, t);
      b := TakeEffect(a, t);
    } else {
      b := a;
    }
  }

  lemma {:induction false} RunRefines(m: Mode, n: nat, init: Word, states: seq<State>, labels: seq<Label>)
    returns (a: Atomic)
    requires IsRun(m, n, init, states, labels)
    ensures Represents(m, states[|labels|], a.cell, a.phases) && AtomicInv(init, a) && a.h == History(labels)
  {
    if labels == [] {
      BeginInv(n, init);
      a := Begin(n, init);
    } else {
      var k := |labels| - 1;
      RunPrefix(m, n, init, states, labels);
      var b := RunRefines(m, n, init, states[..k + 1], labels[..k]);
      var s, l := states[k], labels[k];
      assert SamePhase(s.pcs[l.t], b.phases[l.t]);
      match l {
        case Invoke(t, op) =>
          CallInv(init, b, t, op);
          a := Call(b, t, op);
        case Access(t) =>
          a := AccessRefines(m, s, t, init, b);
        case Return(t, ret) =>
          ReplyInv(init, b, t);
          a := Reply(b, t);
      }
    }
  }

  /** Main result: whatever the header supplies, every run of every number of threads is linearizable. */
  lemma EveryRunIsLinearizable(m: Mode, n: nat, init: Word, states: seq<State>, labels: seq<Label>)
    requires IsRun(m, n, init, states, labels)
    ensures WellFormed(History(labels)) && Linearizable(History(labels), init)
  {
    var a := RunRefines(m, n, init, states, labels);
    assert Linearizes(History(labels), init, a.log);
  }

  // ---------- Lock-freedom ----------

  /** A thread whose next compare-and-swap is bound to fail. */
  predicate Stale(s: State, t: nat)
    requires t < |s.pcs|
  {
    s.pcs[t].Loop? && s.pcs[t].tmp != s.cell
  }

  ghost function StaleThreads(s: State): set<nat> {
    set t | 0 <= t < |s.pcs| && Stale(s, t)
  }

  /** A change of the cell makes at most the other threads stale. */
  lemma FewStale(s: State, t: nat)
    requires t < |s.pcs| && !s.pcs[t].Loop?
    ensures |StaleThreads(s)| <= |s.pcs| - 1
  {
    CardUpTo(StaleThreads(s), Below(|s.pcs|) - {t});
  }

  /** Each change of the cell is paid for by at most one retry of each other thread. */
  ghost predicate RetriesPaid(s: State) {
    s.retries + |StaleThreads(s)| <= if s.pcs == [] then 0 else (|s.pcs| - 1) * s.changes
  }

  lemma AccessPays(m: Mode, s: State, t: nat)
    requires t < |s.pcs| && (s.pcs[t].Start? || s.pcs[t].Loop?) && WellTyped(m, s.pcs[t]) && RetriesPaid(s)
    ensures RetriesPaid(AccessCell(m, s, t))
  {
    var s' := AccessCell(m, s, t);
    MicroStep(m, s.cell, s.pcs[t]);
    if s'.changes == s.changes {
      assert s'.cell == s.cell;
      if s'.retries > s.retries {
        assert StaleThreads(s') == StaleThreads(s) - {t};
      } else {
        CardUpTo(StaleThreads(s'), StaleThreads(s));
      }
    } else {
      FewStale(s', t);
      assert (|s.pcs| - 1) * s'.changes == (|s.pcs| - 1) * s.changes + (|s.pcs| - 1);
    }
  }

  /** A compare-and-swap of a loop that fails. */
  predicate IsFailure(s: State, l: Label, s': State) {
    l.Access? && l.t < |s.pcs| && l.t < |s'.pcs| && s.pcs[l.t].Loop? && s'.pcs[l.t].Loop?
  }

  function Failures(states: seq<State>, labels: seq<Label>): nat
    requires |states| == |labels| + 1
  {
    if labels == [] then 0
    else
      var k := |labels| - 1;
      Failures(states[..k + 1], labels[..k]) + if IsFailure(states[k], labels[k], states[k + 1]) then 1 else 0
  }

  /** The steps that change the cell. */
  function Changes(states: seq<State>, labels: seq<Label>): nat
    requires |states| == |labels| + 1
  {
    if labels == [] then 0
    else
      var k := |labels| - 1;
      Changes(states[..k + 1], labels[..k]) + if states[k + 1].cell != states[k].cell then 1 else 0
  }

  lemma {:induction false} CountersCount(m: Mode, n: nat, init: Word, states: seq<State>, labels: seq<Label>)
    requires IsRun(m, n, init, states, labels)
    ensures states[|labels|].retries == Failures(states, labels) && states[|labels|].changes == Changes(states, labels)
  {
    if labels != [] {
      var k := |labels| - 1;
      RunPrefix(m, n, init, states, labels);
      CountersCount(m, n, init, states[..k + 1], labels[..k]);
    }
  }

  lemma {:induction false} RunPays(m: Mode, n: nat, init: Word, states: seq<State>, labels: seq<Label>)
    requires IsRun(m, n, init, states, labels)
    ensures |states[|labels|].pcs| == n && RetriesPaid(states[|labels|])
  {
    if labels == [] {
      assert StaleThreads(states[0]) == {};
    } else {
      var k := |labels| - 1;
      RunPrefix(m, n, init, states, labels);
      RunWellTyped(m, n, init, states[..k + 1], labels[..k]);
      RunPays(m, n, init, states[..k + 1], labels[..k]);
      if labels[k].Access? {
        AccessPays(m, states[k], labels[k].t);
      } else {
        CardUpTo(StaleThreads(states[k + 1]), StaleThreads(states[k]));
      }
    }
  }

  /** Over a whole run of `n` threads at most (n - 1) compare-and-swaps of the loops fail for each step that changes the
      cell. */
  lemma RetriesAreBounded(m: Mode, n: nat, init: Word, states: seq<State>, labels: seq<Label>)
    requires IsRun(m, n, init, states, labels)
    ensures Failures(states, labels) <= if n == 0 then 0 else (n - 1) * Changes(states, labels)
  {
    RunPays(m, n, init, states, labels);
    CountersCount(m, n, init, states, labels);
  }

  /** Where a thread in a loop got the value it expects: its last access read it from the cell. */
  lemma {:induction false} LastRead(m: Mode, n: nat, init: Word, states: seq<State>, labels: seq<Label>, t: nat)
    returns (j: nat)
    requires IsRun(m, n, init, states, labels) && t < |states[|labels|].pcs| && states[|labels|].pcs[t].Loop?
    ensures j < |labels| && labels[j] == Access(t) && states[j + 1].cell == states[|labels|].pcs[t].tmp
    ensures forall i :: j < i < |labels| ==> labels[i].t != t
  {
    assert labels != [];
    var k := |labels| - 1;
    RunPrefix(m, n, init, states, labels);
    RunWellTyped(m, n, init, states[..k + 1], labels[..k]);
    EntersLoop(m, states[k], labels[k], states[k + 1], t);
    if labels[k].t == t {
      j := k;
    } else {
      j := LastRead(m, n, init, states[..k + 1], labels[..k], t);
    }
  }

  /** A thread enters or goes round a loop by an access of its own, which reads the cell. */
  lemma EntersLoop(m: Mode, s: State, l: Label, s': State, t: nat)
    requires Step(m, s, l, s') && t < |s'.pcs| && s'.pcs[t].Loop?
    requires forall u :: 0 <= u < |s.pcs| ==> WellTyped(m, s.pcs[u])
    ensures t < |s.pcs|
    ensures if l.t == t then l == Access(t) && s'.cell == s'.pcs[t].tmp else s.pcs[t] == s'.pcs[t]
  {
    if l.Access? {
      MicroStep(m, s.cell, s.pcs[l.t]);
    }
  }

  lemma RunWellTyped(m: Mode, n: nat, init: Word, states: seq<State>, labels: seq<Label>)
    requires IsRun(m, n, init, states, labels)
    ensures forall t :: 0 <= t < |states[|labels|].pcs| ==> WellTyped(m, states[|labels|].pcs[t])
  {
    var a := RunRefines(m, n, init, states, labels);
  }

  /** Between two different values of the cell some step changed it. */
  lemma {:induction false} Changed(states: seq<State>, from: nat, until: nat) returns (i: nat)
    requires from <= until < |states| && states[from].cell != states[until].cell
    ensures from <= i < until && states[i + 1].cell != states[i].cell
    decreases until
  {
    if states[until - 1].cell != states[until].cell {
      i := until - 1;
    } else {
      i := Changed(states, from, until - 1);
    }
  }

  /** Every failed compare-and-swap of every run has a culprit: since the access by which the thread last read the
      cell, a step of another thread has changed it. */
  lemma FailureHasCulprit(m: Mode, n: nat, init: Word, states: seq<State>, labels: seq<Label>, k: nat, t: nat)
    returns (j: nat, i: nat)
    requires IsRun(m, n, init, states, labels) && k < |labels| && labels[k] == Access(t)
    requires t < |states[k].pcs| && states[k].pcs[t].Loop?
    requires t < |states[k + 1].pcs| && states[k + 1].pcs[t].Loop?
    ensures j < i < k && labels[j] == Access(t) && states[j + 1].cell == states[k].pcs[t].tmp
    ensures labels[i].t != t && states[i + 1].cell != states[i].cell
  {
    RunUpTo(m, n, init, states, labels, k);
    assert StepAt(m, states, labels, k);
    RunWellTyped(m, n, init, states[..k + 1], labels[..k]);
    MicroStep(m, states[k].cell, states[k].pcs[t]);
    j := LastRead(m, n, init, states[..k + 1], labels[..k], t);
    i := Changed(states, j + 1, k);
    assert labels[..k][i].t != t;
  }

  /** A run stopped after `k` steps is a run. */
  lemma RunUpTo(m: Mode, n: nat, init: Word, states: seq<State>, labels: seq<Label>, k: nat)
    requires IsRun(m, n, init, states, labels) && k <= |labels|
    ensures IsRun(m, n, init, states[..k + 1], labels[..k])
  {
    forall i {:trigger StepAt(m, states[..k + 1], labels[..k], i)} | 0 <= i < k
      ensures StepAt(m, states[..k + 1], labels[..k], i)
    {
      assert StepAt(m, states, labels, i);
    }
  }
}
