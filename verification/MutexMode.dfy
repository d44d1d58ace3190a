/** The mutex bodies of rwlock.h: several plain reads and writes of the cell between lock and unlock.

    One step of a thread is one access to the cell or to the mutex.  `locking` says whether callers take the
    lock, as my_atomic.h demands, or the lock macros are empty, as in the mode that rwlock.h calls broken. */
module MutexMode {
  import opened AtomicCell
  import opened Tickets

  /** `Mid` follows the first read (kept in `sav`), `Ready` the second one, which computes what to write. */
  datatype Pc =
    | Idle
    | Wanting(op: Op)
    | Inside(op: Op)
    | Mid(op: Op, sav: Word)
    | Ready(op: Op, sav: Word, write: Word)
    | Leaving(op: Op, ret: Ret)
    | Finish(op: Op, ret: Ret)

  datatype State = State(cell: Word, pcs: seq<Pc>, locked: bool)

  predicate Critical(pc: Pc) {
    pc.Inside? || pc.Mid? || pc.Ready? || pc.Leaving?
  }

  /** One access to the cell by a thread inside the critical section. */
  function Micro(cell: Word, pc: Pc): (r: (Word, Pc))
    requires pc.Inside? || pc.Mid? || pc.Ready?
  {
    match pc
    case Inside(op) =>
      (match op
       case Add(_) => (cell, Mid(op, cell))
       case Fas(_) => (cell, Mid(op, cell))
       case Cas(_, _) => (cell, Mid(op, cell))
       case Load => (cell, Leaving(op, Old(cell)))
       case Store(v) => (v, Leaving(op, Done)))
    case Mid(op, sav) =>
      (match op
       case Add(v) => (cell, Ready(op, sav, (cell + v) % WORD))
       case Fas(v) => (v, Leaving(op, Old(sav)))
       case Cas(cmp, desired) =>
         if sav == cmp then (desired, Leaving(op, Outcome(true, cmp)))
         else (cell, Leaving(op, Outcome(false, cell)))
       case _ => (cell, pc))
    case Ready(op, sav, write) => (write, Leaving(op, Old(sav)))
  }

  ghost predicate Step(locking: bool, s: State, l: Label, s': State) {
    l.t < |s.pcs| &&
    match l
    case Invoke(t, op) => s.pcs[t].Idle? && s' == s.(pcs := s.pcs[t := Wanting(op)])
    case Access(t) =>
      (match s.pcs[t]
       case Wanting(op) => (locking ==> !s.locked) && s' == State(s.cell, s.pcs[t := Inside(op)], locking)
       case Leaving(op, ret) => s' == State(s.cell, s.pcs[t := Finish(op, ret)], false)
       case Idle => false
       case Finish(_, _) => false
       case pc => var (cell, pc') := Micro(s.cell, pc);
                  s' == State(cell, s.pcs[t := pc'], s.locked))
    case Return(t, ret) => s.pcs[t].Finish? && s.pcs[t].ret == ret && s' == s.(pcs := s.pcs[t := Pc.Idle])
  }

  function Initial(n: nat, init: Word): State {
    State(init, seq(n, _ => Pc.Idle), false)
  }

  ghost predicate StepAt(locking: bool, states: seq<State>, labels: seq<Label>, i: nat)
    requires |states| == |labels| + 1 && i < |labels|
  {
    Step(locking, states[i], labels[i], states[i + 1])
  }

  ghost predicate IsRun(locking: bool, n: nat, init: Word, states: seq<State>, labels: seq<Label>) {
    && |states| == |labels| + 1
    && states[0] == Initial(n, init)
    && forall i {:trigger StepAt(locking, states, labels, i)} :: 0 <= i < |labels| ==> StepAt(locking, states, labels, i)
  }

  lemma RunPrefix(locking: bool, n: nat, init: Word, states: seq<State>, labels: seq<Label>)
    requires IsRun(locking, n, init, states, labels) && labels != []
    ensures IsRun(locking, n, init, states[..|labels|], labels[..|labels| - 1])
    ensures Step(locking, states[|labels| - 1], labels[|labels| - 1], states[|labels|])
  {
    var k := |labels| - 1;
    assert StepAt(locking, states, labels, k);
    RunUpTo(locking, n, init, states, labels, k);
  }

  /** A run stopped after `k` steps is a run. */
  lemma RunUpTo(locking: bool, n: nat, init: Word, states: seq<State>, labels: seq<Label>, k: nat)
    requires IsRun(locking, n, init, states, labels) && k <= |labels|
    ensures IsRun(locking, n, init, states[..k + 1], labels[..k])
  {
    forall i {:trigger StepAt(locking, states[..k + 1], labels[..k], i)} | 0 <= i < k
      ensures StepAt(locking, states[..k + 1], labels[..k], i)
    {
      assert StepAt(locking, states, labels, i);
    }
  }

  // ---------- Refinement of the atomic object ----------

  /** Inside the critical section a thread's locals agree with the cell. */
  predicate LocalsOk(cell: Word, pc: Pc) {
    match pc
    case Mid(op, sav) => sav == cell && (op.Add? || op.Fas? || op.Cas?)
    case Ready(op, sav, write) => op.Add? && sav == cell && write == Next(cell, op)
    case _ => true
  }

  predicate SamePhase(pc: Pc, p: Phase) {
    match pc
    case Idle => p == Phase.Idle
    case Wanting(op) => p == Called(op)
    case Inside(op) => p == Called(op)
    case Mid(op, _) => p == Called(op)
    case Ready(op, _, _) => p == Called(op)
    case Leaving(op, ret) => p == Took(op, ret)
    case Finish(op, ret) => p == Took(op, ret)
  }

  /** At most one thread is in the critical section, with locking only while the mutex is locked. */
  ghost predicate Exclusive(locking: bool, s: State) {
    && (forall t :: 0 <= t < |s.pcs| && Critical(s.pcs[t]) && locking ==> s.locked)
    && (forall t, u :: 0 <= t < |s.pcs| && 0 <= u < |s.pcs| && Critical(s.pcs[t]) && Critical(s.pcs[u]) ==> t == u)
  }

  ghost predicate Represents(s: State, cell: Word, phases: seq<Phase>) {
    && s.cell == cell && |s.pcs| == |phases|
    && forall t :: 0 <= t < |s.pcs| ==> SamePhase(s.pcs[t], phases[t]) && LocalsOk(s.cell, s.pcs[t])
  }

  lemma MicroStep(cell: Word, pc: Pc)
    requires (pc.Inside? || pc.Mid? || pc.Ready?) && LocalsOk(cell, pc)
    ensures var (cell', pc') := Micro(cell, pc);
            LocalsOk(cell', pc') && Critical(pc') && pc'.op == pc.op
            && if pc'.Leaving? then cell' == Next(cell, pc.op) && pc'.ret == Result(cell, pc.op) else cell' == cell
  {
  }

  /** Locked, or alone. */
  predicate Safe(locking: bool, n: nat) {
    locking || n <= 1
  }

  lemma AccessMatches(locking: bool, s: State, l: Label, s': State, phases: seq<Phase>)
    requires Safe(locking, |s.pcs|) && Step(locking, s, l, s') && l.Access?
    requires Exclusive(locking, s) && Represents(s, s.cell, phases)
    ensures Exclusive(locking, s')
    ensures var t, op := l.t, s.pcs[l.t].op;
            if s'.pcs[t].Leaving?
            then phases[t] == Called(op)
                 && Represents(s', Next(s.cell, op), phases[t := Took(op, Result(s.cell, op))])
            else Represents(s', s.cell, phases)
  {
    var t := l.t;
    assert SamePhase(s.pcs[t], phases[t]) && LocalsOk(s.cell, s.pcs[t]);
    if !s.pcs[t].Wanting? && !s.pcs[t].Leaving? {
      MicroStep(s.cell, s.pcs[t]);
      forall u | 0 <= u < |s.pcs| && u != t
        ensures LocalsOk(s'.cell, s.pcs[u])
      {
        assert !Critical(s.pcs[u]);
      }
    }
  }

  lemma CallerMatches(locking: bool, s: State, l: Label, s': State, phases: seq<Phase>)
    requires Step(locking, s, l, s') && !l.Access?
    requires Exclusive(locking, s) && Represents(s, s.cell, phases)
    ensures Exclusive(locking, s')
    ensures l.Invoke? ==> phases[l.t] == Phase.Idle && Represents(s', s.cell, phases[l.t := Called(l.op)])
    ensures l.Return? ==> phases[l.t].Took? && phases[l.t].ret == l.ret
                          && Represents(s', s.cell, phases[l.t := Phase.Idle])
  {
    assert SamePhase(s.pcs[l.t], phases[l.t]);
  }

  lemma AccessRefines(locking: bool, s: State, l: Label, s': State, init: Word, a: Atomic) returns (b: Atomic)
    requires Safe(locking, |s.pcs|) && Step(locking, s, l, s') && l.Access?
    requires Exclusive(locking, s) && Represents(s, a.cell, a.phases) && AtomicInv(init, a)
    ensures |s'.pcs| == |s.pcs| && Exclusive(locking, s')
    ensures Represents(s', b.cell, b.phases) && AtomicInv(init, b) && b.h == a.h
  {
    AccessMatches(locking, s, l, s', a.phases);
    if s'.pcs[l.t].Leaving? {
      TakeEffectInv(init, a, l.t);
      b := TakeEffect(a, l.t);
    } else {
      b := a;
    }
  }

  lemma StepRefines(locking: bool, s: State, l: Label, s': State, init: Word, a: Atomic) returns (b: Atomic)
    requires Safe(locking, |s.pcs|) && Step(locking, s, l, s')
    requires Exclusive(locking, s) && Represents(s, a.cell, a.phases) && AtomicInv(init, a)
    ensures |s'.pcs| == |s.pcs| && Exclusive(locking, s')
    ensures Represents(s', b.cell, b.phases) && AtomicInv(init, b) && b.h == a.h + Seen(l)
  {
    match l {
      case Invoke(t, op) =>
        CallerMatches(locking, s, l, s', a.phases);
        CallInv(init, a, t, op);
        b := Call(a, t, op);
      case Access(t) =>
        b := AccessRefines(locking, s, l, s', init, a);
      case Return(t, ret) =>
        CallerMatches(locking, s, l, s', a.phases);
        ReplyInv(init, a, t);
        b := Reply(a, t);
    }
  }

  lemma {:induction false} RunRefines(locking: bool, n: nat, init: Word, states: seq<State>, labels: seq<Label>)
    returns (a: Atomic)
    requires Safe(locking, n) && IsRun(locking, n, init, states, labels)
    ensures |states[|labels|].pcs| == n && Exclusive(locking, states[|labels|])
    ensures Represents(states[|labels|], a.cell, a.phases) && AtomicInv(init, a) && a.h == History(labels)
  {
    if labels == [] {
      BeginInv(n, init);
      a := Begin(n, init);
    } else {
      var k := |labels| - 1;
      RunPrefix(locking, n, init, states, labels);
      var b := RunRefines(locking, n, init, states[..k + 1], labels[..k]);
      a := StepRefines(locking, states[k], labels[k], states[k + 1], init, b);
    }
  }

  /** Under the mutex, or with no more than one thread, the multi-step bodies refine the same atomic cell and exclude
      each other. */
  lemma EverySafeRunIsLinearizable(locking: bool, n: nat, init: Word, states: seq<State>, labels: seq<Label>)
    requires Safe(locking, n) && IsRun(locking, n, init, states, labels)
    ensures WellFormed(History(labels)) && Linearizable(History(labels), init)
    ensures Exclusive(locking, states[|labels|])
  {
    var a := RunRefines(locking, n, init, states, labels);
    assert Linearizes(History(labels), init, a.log);
  }

  // ---------- Why the mutex is needed ----------

  /** Two threads add 1 to a cell that holds `w`, and both are told that this was the old value. */
  function LostUpdate(w: Word): seq<Event> {
    [Inv(0, Add(1)), Inv(1, Add(1)), Res(0, Old(w)), Res(1, Old(w))]
  }

  lemma LostUpdateHasFewTickets(w: Word, log: seq<Entry>)
    requires Legal(w, log) && ListsCalls(LostUpdate(w), log)
    ensures DistinctReturns(log)
  {
    assert AddsIn(log) <= 2 by {
      assert AddIndices(LostUpdate(w)) == {0, 1};
      LogIsShort(LostUpdate(w), log);
    }
    UnitAddsDistinctIff(w, log);
  }

  lemma LostUpdateRepeatsATicket(w: Word, log: seq<Entry>)
    requires ListsCalls(LostUpdate(w), log) && ExplainsReturns(LostUpdate(w), log)
    ensures !DistinctReturns(log)
  {
    var h := LostUpdate(w);
    assert h[..3][..2] == h[..2] && h[..2][..1] == h[..1];
    assert CallOf(h, 2) == 0 && CallOf(h, 3) == 1;
    assert Explains(log, 0, Old(w)) && Explains(log, 1, Old(w));
    assert h[0].op == h[1].op == Add(1);
    var k :| 0 <= k < |log| && log[k].call == 0 && log[k].ret == Old(w);
    var l :| 0 <= l < |log| && log[l].call == 1 && log[l].ret == Old(w);
    assert k < l || l < k;
  }

  lemma LostUpdateIsNotLinearizable(w: Word)
    ensures !Linearizable(LostUpdate(w), w)
  {
    forall log: seq<Entry> | Legal(w, log) && ListsCalls(LostUpdate(w), log)
      ensures !ExplainsReturns(LostUpdate(w), log)
    {
      LostUpdateHasFewTickets(w, log);
      if ExplainsReturns(LostUpdate(w), log) {
        LostUpdateRepeatsATicket(w, log);
      }
    }
  }

  lemma HistoryStep(labels: seq<Label>, k: nat)
    requires k < |labels|
    ensures History(labels[..k + 1]) == History(labels[..k]) + Seen(labels[k])
  {
    assert labels[..k + 1][..k] == labels[..k];
  }

  function LostLabels(w: Word): (labels: seq<Label>)
    ensures |labels| == 14
  {
    [Invoke(0, Add(1)), Invoke(1, Add(1)), Access(0), Access(1),
     Access(0), Access(1), Access(0), Access(1), Access(0), Access(1), Access(0), Access(1),
     Return(0, Old(w)), Return(1, Old(w))]
  }

  /** How far a thread is after `k` steps of its own. */
  function LostPc(w: Word, k: nat): Pc {
    var op := Add(1);
    match k
    case 1 => Wanting(op)
    case 2 => Inside(op)
    case 3 => Mid(op, w)
    case 4 => Ready(op, w, (w + 1) % WORD)
    case 5 => Leaving(op, Old(w))
    case 6 => Finish(op, Old(w))
    case _ => Pc.Idle
  }

  /** The first two of `n` threads take turns; the first write is the ninth step. */
  function LostState(w: Word, n: nat, i: nat): State
    requires n >= 2
  {
    State(if i < 9 then w else (w + 1) % WORD,
          [LostPc(w, (i + 1) / 2), LostPc(w, i / 2)] + seq(n - 2, _ => Pc.Idle), false)
  }

  lemma LostStep(w: Word, n: nat, i: nat)
    requires n >= 2 && i < 14
    ensures Step(false, LostState(w, n, i), LostLabels(w)[i], LostState(w, n, i + 1))
  {
    var k := i / 2;
    var s, s' := LostState(w, n, i), LostState(w, n, i + 1);
    var t := i - 2 * k;
    assert s'.pcs == s.pcs[t := LostPc(w, k + 1)];
    assert k == 0 || k == 1 || k == 2 || k == 3 || k == 4 || k == 5 || k == 6;
  }

  lemma LostHistory(w: Word)
    ensures History(LostLabels(w)) == LostUpdate(w)
  {
    var i, labels := 0, LostLabels(w);
    while i < 14
      invariant 0 <= i <= 14
      invariant History(labels[..i]) == LostUpdate(w)[..if i < 2 then i else if i <= 12 then 2 else i - 10]
    {
      HistoryStep(labels, i);
      i := i + 1;
    }
    assert labels[..14] == labels;
  }

  /** Without the lock such a run of any two or more threads exists, from every value of the cell. */
  lemma UnlockedRunLosesAnUpdate(n: nat, init: Word)
    requires n >= 2
    ensures exists states :: IsRun(false, n, init, states, LostLabels(init))
    ensures !Linearizable(History(LostLabels(init)), init)
  {
    LostUpdateIsNotLinearizable(init);
    LostHistory(init);
    var labels := LostLabels(init);
    var states := seq(15, i requires 0 <= i < 15 => LostState(init, n, i));
    forall i {:trigger StepAt(false, states, labels, i)} | 0 <= i < 14
      ensures StepAt(false, states, labels, i)
    {
      LostStep(init, n, i);
    }
    assert states[0].pcs == Initial(n, init).pcs;
    assert IsRun(false, n, init, states, labels);
  }

  ghost predicate AllRunsLinearizable(locking: bool, n: nat, init: Word) {
    forall states, labels :: IsRun(locking, n, init, states, labels) ==> Linearizable(History(labels), init)
  }

  /** The bodies are atomic exactly under the lock, or where there is no second thread: the mode that rwlock.h calls
      broken is so for every number of threads from two on, and from every value of the cell. */
  lemma LinearizableIff(locking: bool, n: nat, init: Word)
    ensures AllRunsLinearizable(locking, n, init) <==> locking || n <= 1
  {
    if locking || n <= 1 {
      forall states, labels | IsRun(locking, n, init, states, labels)
        ensures Linearizable(History(labels), init)
      {
        EverySafeRunIsLinearizable(locking, n, init, states, labels);
      }
    } else {
      UnlockedRunLosesAnUpdate(n, init);
    }
  }
}
