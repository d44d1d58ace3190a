/** What the five operations of my_atomic.h mean, and what it is for concurrent calls of them to be atomic.

    A shared 32-bit cell is used by threads 0, 1, 2, ...  A history records only what callers can see: calls
    and returns.  It is linearizable when the calls can be put into one sequential order that explains every
    returned value and never moves a call before one that had already returned when it began. */
module AtomicCell {

  const WORD := 0x1_0000_0000

  type Word = n: nat | n < WORD

  datatype Op = Add(v: Word) | Fas(v: Word) | Cas(cmp: Word, desired: Word) | Load | Store(v: Word)

  /** `Old` is the previous value of the cell; a `Cas` returns its verdict and the caller's updated `cmp`. */
  datatype Ret = Old(w: Word) | Outcome(ok: bool, cmp: Word) | Done

  function Next(cell: Word, op: Op): Word {
    match op
    case Add(v) => (cell + v) % WORD
    case Fas(v) => v
    case Cas(cmp, desired) => if cell == cmp then desired else cell
    case Load => cell
    case Store(v) => v
  }

  function Result(cell: Word, op: Op): Ret {
    match op
    case Add(_) => Old(cell)
    case Fas(_) => Old(cell)
    case Cas(cmp, _) => Outcome(cell == cmp, cell)
    case Load => Old(cell)
    case Store(_) => Done
  }

  /** What my_atomic.h says of each operation, for 32 bits: the content before and after, and what the caller gets. */
  predicate Documented(op: Op, before: Word, after: Word, ret: Ret) {
    match op
    case Add(v) => ret == Old(before) && (after == before + v || after == before + v - 0x1_0000_0000)
    case Fas(v) => ret == Old(before) && after == v
    case Cas(cmp, desired) =>
      if before == cmp then ret == Outcome(true, cmp) && after == desired
      else ret == Outcome(false, before) && after == before
    case Load => ret == Old(before) && after == before
    case Store(v) => ret == Done && after == v
  }

  /** The two functions are the one meaning that the description allows. */
  lemma OnlyMeaning(op: Op, before: Word, after: Word, ret: Ret)
    ensures Documented(op, before, after, ret) <==> after == Next(before, op) && ret == Result(before, op)
  {
  }

  // ---------- Histories ----------

  datatype Event = Inv(t: nat, op: Op) | Res(t: nat, ret: Ret)

  /** The index of the call that thread `t` has open at the end of `h`, or -1. */
  ghost function OpenCall(h: seq<Event>, t: nat): (i: int)
    ensures -1 <= i < |h|
    ensures i >= 0 ==> h[i].Inv? && h[i].t == t
  {
    if h == [] then -1
    else if h[|h| - 1].t == t then (if h[|h| - 1].Inv? then |h| - 1 else -1)
    else OpenCall(h[..|h| - 1], t)
  }

  /** The call that the return at index `j` answers. */
  ghost function CallOf(h: seq<Event>, j: nat): (i: int)
    requires j < |h|
    ensures -1 <= i < j
  {
    OpenCall(h[..j], h[j].t)
  }

  /** Every thread alternates between calling and returning. */
  ghost predicate WellFormed(h: seq<Event>) {
    forall j :: 0 <= j < |h| ==> (h[j].Res? <==> CallOf(h, j) >= 0)
  }

  // ---------- Linearizability ----------

  /** One entry of a sequential order: the call at index `call` of the history took effect here. */
  datatype Entry = Entry(call: nat, op: Op, ret: Ret)

  ghost function Final(init: Word, log: seq<Entry>): Word {
    if log == [] then init else Next(Final(init, log[..|log| - 1]), log[|log| - 1].op)
  }

  /** Run one after the other from `init`, the operations return what the log says. */
  ghost predicate Legal(init: Word, log: seq<Entry>) {
    forall k :: 0 <= k < |log| ==> log[k].ret == Result(Final(init, log[..k]), log[k].op)
  }

  /** The log lists calls of the history, each at most once. */
  ghost predicate ListsCalls(h: seq<Event>, log: seq<Entry>) {
    && (forall k :: 0 <= k < |log| ==>
          log[k].call < |h| && h[log[k].call].Inv? && h[log[k].call].op == log[k].op)
    && (forall k, l :: 0 <= k < l < |log| ==> log[k].call != log[l].call)
  }

  ghost predicate Explains(log: seq<Entry>, call: int, ret: Ret) {
    exists k :: 0 <= k < |log| && log[k].call == call && log[k].ret == ret
  }

  /** The call at index `call` is among the first `k` entries of the log. */
  ghost predicate Before(log: seq<Entry>, call: int, k: nat)
    requires k <= |log|
  {
    exists l :: 0 <= l < k && log[l].call == call
  }

  ghost predicate ExplainsReturns(h: seq<Event>, log: seq<Entry>) {
    forall j :: 0 <= j < |h| && h[j].Res? ==> Explains(log, CallOf(h, j), h[j].ret)
  }

  /** A call that had returned when another began is earlier in the log. */
  ghost predicate KeepsRealTime(h: seq<Event>, log: seq<Entry>) {
    forall j, k :: 0 <= j < |h| && h[j].Res? && 0 <= k < |log| && j < log[k].call ==>
      Before(log, CallOf(h, j), k)
  }

  ghost predicate Linearizes(h: seq<Event>, init: Word, log: seq<Entry>) {
    Legal(init, log) && ListsCalls(h, log) && ExplainsReturns(h, log) && KeepsRealTime(h, log)
  }

  ghost predicate Linearizable(h: seq<Event>, init: Word) {
    exists log :: Linearizes(h, init, log)
  }

  // ---------- Threads ----------

  /** The steps of a thread: a call, an access to shared memory, a return. */
  datatype Label = Invoke(t: nat, op: Op) | Access(t: nat) | Return(t: nat, ret: Ret)

  /** What callers see of a step, and of a run. */
  function Seen(l: Label): seq<Event> {
    match l
    case Invoke(t, op) => [Inv(t, op)]
    case Access(_) => []
    case Return(t, ret) => [Res(t, ret)]
  }

  function History(labels: seq<Label>): seq<Event> {
    if labels == [] then [] else History(labels[..|labels| - 1]) + Seen(labels[|labels| - 1])
  }

  // ---------- The atomic object ----------

  datatype Phase = Idle | Called(op: Op) | Took(op: Op, ret: Ret)

  /** The reference implementation: a cell on which a called operation takes effect in one indivisible step.
      The history and the log are kept for the proofs. */
  datatype Atomic = Atomic(cell: Word, phases: seq<Phase>, h: seq<Event>, log: seq<Entry>)

  ghost predicate PhaseOk(a: Atomic, t: nat)
    requires t < |a.phases|
  {
    var i := OpenCall(a.h, t);
    match a.phases[t]
    case Idle => i == -1
    case Called(op) => i >= 0 && a.h[i].op == op && !Before(a.log, i, |a.log|)
    case Took(op, ret) => i >= 0 && a.h[i].op == op && Explains(a.log, i, ret)
  }

  ghost predicate AtomicInv(init: Word, a: Atomic) {
    && WellFormed(a.h)
    && Linearizes(a.h, init, a.log)
    && a.cell == Final(init, a.log)
    && (forall t :: 0 <= t < |a.phases| ==> PhaseOk(a, t))
    && (forall t :: t >= |a.phases| ==> OpenCall(a.h, t) == -1)
  }

  function Begin(n: nat, init: Word): Atomic {
    Atomic(init, seq(n, _ => Idle), [], [])
  }

  function Call(a: Atomic, t: nat, op: Op): Atomic
    requires t < |a.phases|
  {
    a.(phases := a.phases[t := Called(op)], h := a.h + [Inv(t, op)])
  }

  ghost function TakeEffect(a: Atomic, t: nat): Atomic
    requires t < |a.phases| && a.phases[t].Called? && OpenCall(a.h, t) >= 0
  {
    var op := a.phases[t].op;
    a.(cell := Next(a.cell, op),
       phases := a.phases[t := Took(op, Result(a.cell, op))],
       log := a.log + [Entry(OpenCall(a.h, t), op, Result(a.cell, op))])
  }

  function Reply(a: Atomic, t: nat): Atomic
    requires t < |a.phases| && a.phases[t].Took?
  {
    a.(phases := a.phases[t := Idle], h := a.h + [Res(t, a.phases[t].ret)])
  }

  // ---------- The invariant is kept by every step ----------

  lemma BeginInv(n: nat, init: Word)
    ensures AtomicInv(init, Begin(n, init))
  {
  }

  lemma ExtendHistory(h: seq<Event>, e: Event)
    ensures forall t: nat :: OpenCall(h + [e], t) == if e.t != t then OpenCall(h, t) else if e.Inv? then |h| else -1
    ensures forall j :: 0 <= j < |h| ==> CallOf(h + [e], j) == CallOf(h, j)
    ensures CallOf(h + [e], |h|) == OpenCall(h, e.t)
  {
    assert (h + [e])[..|h|] == h;
    forall j | 0 <= j < |h|
      ensures CallOf(h + [e], j) == CallOf(h, j)
    {
      assert (h + [e])[..j] == h[..j];
    }
  }

  lemma ExtendLinearizes(h: seq<Event>, e: Event, init: Word, log: seq<Entry>)
    requires WellFormed(h) && Linearizes(h, init, log)
    requires e.Res? <==> OpenCall(h, e.t) >= 0
    requires e.Res? ==> Explains(log, OpenCall(h, e.t), e.ret)
    ensures WellFormed(h + [e]) && Linearizes(h + [e], init, log)
  {
    ExtendHistory(h, e);
  }

  lemma CallInv(init: Word, a: Atomic, t: nat, op: Op)
    requires AtomicInv(init, a) && t < |a.phases| && a.phases[t].Idle?
    ensures AtomicInv(init, Call(a, t, op))
  {
    var b := Call(a, t, op);
    assert PhaseOk(a, t);
    ExtendLinearizes(a.h, Inv(t, op), init, a.log);
    ExtendHistory(a.h, Inv(t, op));
    assert !Before(a.log, |a.h|, |a.log|);
    forall u | 0 <= u < |b.phases|
      ensures PhaseOk(b, u)
    {
      if u != t {
        PhaseKept(a, b, u);
      }
    }
  }

  /** A thread that has neither called nor returned is where it was. */
  lemma PhaseKept(a: Atomic, b: Atomic, u: nat)
    requires u < |a.phases| && u < |b.phases| && PhaseOk(a, u) && b.phases[u] == a.phases[u]
    requires b.log == a.log && a.h <= b.h && OpenCall(b.h, u) == OpenCall(a.h, u)
    ensures PhaseOk(b, u)
  {
  }

  lemma ReplyInv(init: Word, a: Atomic, t: nat)
    requires AtomicInv(init, a) && t < |a.phases| && a.phases[t].Took?
    ensures AtomicInv(init, Reply(a, t))
  {
    var b := Reply(a, t);
    assert PhaseOk(a, t);
    ExtendLinearizes(a.h, Res(t, a.phases[t].ret), init, a.log);
    ExtendHistory(a.h, Res(t, a.phases[t].ret));
    forall u | 0 <= u < |b.phases|
      ensures PhaseOk(b, u)
    {
      if u != t {
        PhaseKept(a, b, u);
      }
    }
  }

  lemma ExtendLog(init: Word, log: seq<Entry>, e: Entry)
    ensures Final(init, log + [e]) == Next(Final(init, log), e.op)
    ensures Legal(init, log) && e.ret == Result(Final(init, log), e.op) ==> Legal(init, log + [e])
    ensures forall call, ret :: Explains(log, call, ret) ==> Explains(log + [e], call, ret)
    ensures forall call, k: nat :: k <= |log| ==> (Before(log + [e], call, k) <==> Before(log, call, k))
  {
    var log' := log + [e];
    assert log'[..|log|] == log;
    forall k | 0 <= k < |log|
      ensures log'[..k] == log[..k] && log'[k] == log[k]
    {
    }
    forall call, ret | Explains(log, call, ret)
      ensures Explains(log', call, ret)
    {
      var k :| 0 <= k < |log| && log[k].call == call && log[k].ret == ret;
      assert log'[k] == log[k];
    }
    forall call, k: nat | k <= |log|
      ensures Before(log', call, k) <==> Before(log, call, k)
    {
      if Before(log, call, k) {
        var l :| 0 <= l < k && log[l].call == call;
        assert log'[l] == log[l];
      }
      if Before(log', call, k) {
        var l :| 0 <= l < k && log'[l].call == call;
        assert log'[l] == log[l];
      }
    }
  }

  /** Appending to the log a pending call with the result it has now keeps the log a linearization. */
  lemma AppendLinearizes(h: seq<Event>, init: Word, log: seq<Entry>, call: nat)
    requires Linearizes(h, init, log)
    requires call < |h| && h[call].Inv? && !Before(log, call, |log|)
    ensures var op := h[call].op;
            Linearizes(h, init, log + [Entry(call, op, Result(Final(init, log), op))])
  {
    var op := h[call].op;
    var e := Entry(call, op, Result(Final(init, log), op));
    var log' := log + [e];
    ExtendLog(init, log, e);
    forall k | 0 <= k < |log|
      ensures log[k].call != call
    {
      assert Before(log, log[k].call, |log|);
    }
    assert ListsCalls(h, log');
    forall j, k | 0 <= j < |h| && h[j].Res? && 0 <= k < |log'| && j < log'[k].call
      ensures Before(log', CallOf(h, j), k)
    {
      assert Explains(log, CallOf(h, j), h[j].ret);
      assert k < |log| ==> log'[k] == log[k];
    }
  }

  lemma TakeEffectInv(init: Word, a: Atomic, t: nat)
    requires AtomicInv(init, a) && t < |a.phases| && a.phases[t].Called?
    ensures PhaseOk(a, t) && AtomicInv(init, TakeEffect(a, t))
  {
    assert PhaseOk(a, t);
    var b := TakeEffect(a, t);
    var call := OpenCall(a.h, t);
    var e := b.log[|a.log|];
    AppendLinearizes(a.h, init, a.log, call);
    ExtendLog(init, a.log, e);
    assert b.log[|a.log|] == e;
    forall u | 0 <= u < |b.phases|
      ensures PhaseOk(b, u)
    {
      assert PhaseOk(a, u);
      if u != t && b.phases[u].Called? {
        StillPending(a.log, e, OpenCall(a.h, u));
      }
    }
  }

  lemma StillPending(log: seq<Entry>, e: Entry, call: int)
    requires !Before(log, call, |log|) && call != e.call
    ensures !Before(log + [e], call, |log + [e]|)
  {
    forall l | 0 <= l < |log|
      ensures (log + [e])[l].call != call
    {
      assert Before(log, log[l].call, |log|);
    }
  }
}
