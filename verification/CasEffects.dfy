/** What callers get in concurrent runs of the lock-free bodies, said without the functions of the atomic object. */
module CasEffects {
  import opened AtomicCell
  import opened CasMode

  /** The thread has done what the call does to the cell. */
  predicate TookEffect(pc: Pc) {
    pc.Finish?
  }

  /** One step, seen from the thread that takes it and from another one. */
  lemma ThreadStep(m: Mode, s: State, l: Label, s': State, t: nat)
    requires Step(m, s, l, s') && t < |s'.pcs| && t < |s.pcs| && WellTyped(m, s.pcs[t])
    ensures l.t != t ==> s'.pcs[t] == s.pcs[t]
    ensures l.t == t && l.Invoke? ==> !TookEffect(s'.pcs[t]) && !s'.pcs[t].Idle? && s'.pcs[t].op == l.op
    ensures l.t == t && l.Return? ==> s'.pcs[t].Idle? && s.pcs[t].Finish? && s.pcs[t].ret == l.ret
    ensures l == Access(t) ==> !s.pcs[t].Idle? && !s'.pcs[t].Idle? && s'.pcs[t].op == s.pcs[t].op
    ensures l == Access(t) ==> !TookEffect(s.pcs[t])
    ensures l == Access(t) && TookEffect(s'.pcs[t]) ==> Documented(s.pcs[t].op, s.cell, s'.cell, s'.pcs[t].ret)
  {
    if l == Access(t) {
      MicroStep(m, s.cell, s.pcs[t]);
      OnlyMeaning(s.pcs[t].op, s.cell, Next(s.cell, s.pcs[t].op), Result(s.cell, s.pcs[t].op));
    }
  }

  /** The call that a thread is in began at `c`, and if it has taken effect, it did so at its access `i`. */
  ghost predicate InCall(states: seq<State>, labels: seq<Label>, t: nat, pc: Pc, c: nat, i: nat)
    requires |states| == |labels| + 1
  {
    && !pc.Idle? && c < |labels| && labels[c] == Invoke(t, pc.op)
    && (forall j :: c < j < |labels| && labels[j].t == t ==> labels[j].Access?)
    && (TookEffect(pc) ==>
          c < i < |labels| && labels[i] == Access(t) && Documented(pc.op, states[i].cell, states[i + 1].cell, pc.ret))
  }

  lemma {:induction false} EveryCallBegins(m: Mode, n: nat, init: Word, states: seq<State>, labels: seq<Label>, t: nat)
    returns (c: nat, i: nat)
    requires IsRun(m, n, init, states, labels) && t < |states[|labels|].pcs|
    requires !states[|labels|].pcs[t].Idle?
    ensures InCall(states, labels, t, states[|labels|].pcs[t], c, i)
  {
    assert labels != [];
    var k := |labels| - 1;
    var l, before := labels[k], states[..k + 1];
    RunPrefix(m, n, init, states, labels);
    RunWellTyped(m, n, init, before, labels[..k]);
    ThreadStep(m, states[k], l, states[k + 1], t);
    if l.t == t && l.Invoke? {
      c, i := k, 0;
    } else {
      c, i := EveryCallBegins(m, n, init, before, labels[..k], t);
      if l == Access(t) && !TookEffect(states[k].pcs[t]) {
        i := k;
      }
    }
  }

  /** Every call that returns, in every run, has taken effect in one access of its own between its begin and its return,
      with the effect that my_atomic.h describes.  In particular a load returns what the cell held in between, and a
      store has left its argument there. */
  lemma EveryCallTakesEffect(m: Mode, n: nat, init: Word, states: seq<State>, labels: seq<Label>,
                             k: nat, t: nat, ret: Ret) returns (c: nat, i: nat)
    requires IsRun(m, n, init, states, labels) && k < |labels| && labels[k] == Return(t, ret)
    ensures c < i < k && labels[c].Invoke? && labels[c].t == t && labels[i] == Access(t)
    ensures forall j :: c < j < k && labels[j].t == t ==> labels[j].Access?
    ensures Documented(labels[c].op, states[i].cell, states[i + 1].cell, ret)
    ensures labels[c].op.Load? ==> ret == Old(states[i].cell) && states[i + 1].cell == states[i].cell
    ensures labels[c].op.Store? ==> states[i + 1].cell == labels[c].op.v
  {
    var before := labels[..k];
    RunUpTo(m, n, init, states, labels, k);
    assert StepAt(m, states, labels, k);
    c, i := EveryCallBegins(m, n, init, states[..k + 1], before, t);
    assert InCall(states[..k + 1], before, t, states[k].pcs[t], c, i);
    forall j | c < j < k && labels[j].t == t
      ensures labels[j].Access?
    {
      assert before[j] == labels[j];
    }
  }
}
