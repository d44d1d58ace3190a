/** What concurrent runs of the lock-free bodies conserve: a fetch-and-store never loses or duplicates a value,
    an add never loses an increment, and unit adds hand out distinct tickets. */
module CasConservation {
  import opened AtomicCell
  import opened CasMode
  import opened Tickets

  // ---------- Fetch-and-store ----------

  /** The value a thread holds for a fetch-and-store: its argument until it takes effect, then the old value. */
  function Token(pc: Pc): multiset<Word> {
    match pc
    case Start(Fas(v)) => multiset{v}
    case Loop(Fas(v), _) => multiset{v}
    case Finish(Fas(_), Old(w)) => multiset{w}
    case _ => multiset{}
  }

  function Held(pcs: seq<Pc>): multiset<Word> {
    if pcs == [] then multiset{} else Held(pcs[..|pcs| - 1]) + Token(pcs[|pcs| - 1])
  }

  lemma Exchange(x: multiset<Word>, p: multiset<Word>, q: multiset<Word>)
    ensures (x + p) + q == (x + q) + p
  {
  }

  lemma {:induction false} HeldUpdate(pcs: seq<Pc>, t: nat, pc: Pc)
    requires t < |pcs|
    ensures Held(pcs[t := pc]) + Token(pcs[t]) == Held(pcs) + Token(pc)
  {
    var k := |pcs| - 1;
    var front, updated := pcs[..k], pcs[t := pc];
    if t == k {
      assert updated[..k] == front && updated[k] == pc;
      Exchange(Held(front), Token(pc), Token(pcs[k]));
    } else {
      HeldUpdate(front, t, pc);
      assert updated[..k] == front[t := pc] && updated[k] == pcs[k];
      var last := Token(pcs[k]);
      calc {
        Held(updated) + Token(pcs[t]);
        Held(front[t := pc]) + last + Token(pcs[t]);
        { Exchange(Held(front[t := pc]), last, Token(pcs[t])); }
        Held(front) + Token(pc) + last;
        { Exchange(Held(front), Token(pc), last); }
        Held(pcs) + Token(pc);
      }
    }
  }

  ghost predicate SwapLabel(l: Label) {
    l.Invoke? ==> l.op.Fas? || l.op.Load?
  }

  /** What a step hands to fetch-and-store ... */
  function Stores(l: Label): multiset<Word> {
    if l.Invoke? && l.op.Fas? then multiset{l.op.v} else multiset{}
  }

  /** ... and what a fetch-and-store hands back. */
  function Returns(s: State, l: Label): multiset<Word> {
    if l.Return? && l.ret.Old? && l.t < |s.pcs| && s.pcs[l.t].Finish? && s.pcs[l.t].op.Fas? then multiset{l.ret.w}
    else multiset{}
  }

  function Stored(labels: seq<Label>): multiset<Word> {
    if labels == [] then multiset{} else Stored(labels[..|labels| - 1]) + Stores(labels[|labels| - 1])
  }

  function Returned(states: seq<State>, labels: seq<Label>): multiset<Word>
    requires |states| == |labels| + 1
  {
    if labels == [] then multiset{}
    else
      var k := |labels| - 1;
      Returned(states[..k + 1], labels[..k]) + Returns(states[k], labels[k])
  }

  predicate SwapPc(m: Mode, pc: Pc) {
    && WellTyped(m, pc)
    && (!pc.Idle? ==> pc.op.Fas? || pc.op.Load?)
    && (pc.Finish? ==> pc.ret.Old?)
  }

  lemma AccessConserves(m: Mode, cell: Word, pc: Pc)
    requires (pc.Start? || pc.Loop?) && SwapPc(m, pc)
    ensures var (cell', pc') := Micro(m, cell, pc);
            multiset{cell} + Token(pc) == multiset{cell'} + Token(pc') && SwapPc(m, pc')
  {
    MicroStep(m, cell, pc);
  }

  /** The stepping thread alone: its token and the cell absorb what comes in and give what goes out. */
  lemma ThreadConserves(m: Mode, s: State, l: Label, s': State)
    requires Step(m, s, l, s') && SwapLabel(l) && SwapPc(m, s.pcs[l.t])
    ensures |s'.pcs| == |s.pcs| && s'.pcs == s.pcs[l.t := s'.pcs[l.t]] && SwapPc(m, s'.pcs[l.t])
    ensures multiset{s.cell} + Token(s.pcs[l.t]) + Stores(l)
         == multiset{s'.cell} + Token(s'.pcs[l.t]) + Returns(s, l)
  {
    if l.Access? {
      AccessConserves(m, s.cell, s.pcs[l.t]);
    }
  }

  lemma StepConserves(m: Mode, s: State, l: Label, s': State)
    requires Step(m, s, l, s') && SwapLabel(l)
    requires forall t :: 0 <= t < |s.pcs| ==> SwapPc(m, s.pcs[t])
    ensures forall t :: 0 <= t < |s'.pcs| ==> SwapPc(m, s'.pcs[t])
    ensures multiset{s.cell} + Held(s.pcs) + Stores(l) == multiset{s'.cell} + Held(s'.pcs) + Returns(s, l)
  {
    ThreadConserves(m, s, l, s');
    HeldUpdate(s.pcs, l.t, s'.pcs[l.t]);
    Balance(multiset{s.cell}, Token(s.pcs[l.t]), Stores(l), multiset{s'.cell}, Token(s'.pcs[l.t]), Returns(s, l),
            Held(s.pcs), Held(s'.pcs));
  }

  lemma Balance(c: multiset<Word>, k: multiset<Word>, i: multiset<Word>,
                c': multiset<Word>, k': multiset<Word>, o: multiset<Word>, h: multiset<Word>, h': multiset<Word>)
    requires c + k + i == c' + k' + o && h' + k == h + k'
    ensures c + h + i == c' + h' + o
  {
    forall w: Word
      ensures (c + h + i)[w] == (c' + h' + o)[w]
    {
      assert (c + k + i)[w] == (c' + k' + o)[w] && (h' + k)[w] == (h + k')[w];
    }
  }

  lemma Chain(x: multiset<Word>, i: multiset<Word>, r: multiset<Word>, ch: multiset<Word>,
              i': multiset<Word>, r': multiset<Word>, ch': multiset<Word>)
    requires x + i == r + ch && ch + i' == ch' + r'
    ensures x + (i + i') == (r + r') + ch'
  {
    forall w: Word
      ensures (x + (i + i'))[w] == ((r + r') + ch')[w]
    {
      assert (x + i)[w] == (r + ch)[w] && (ch + i')[w] == (ch' + r')[w];
    }
  }

  /** In every state of every run, the initial value and the stored values are the returned values, the
      current value and the values the threads hold in between: nothing is lost and nothing is made up. */
  lemma {:induction false} SwapsConserveValues(m: Mode, n: nat, init: Word, states: seq<State>, labels: seq<Label>)
    requires IsRun(m, n, init, states, labels)
    requires forall i :: 0 <= i < |labels| ==> SwapLabel(labels[i])
    ensures var s := states[|labels|];
            multiset{init} + Stored(labels) == Returned(states, labels) + (multiset{s.cell} + Held(s.pcs))
    ensures forall t :: 0 <= t < |states[|labels|].pcs| ==> SwapPc(m, states[|labels|].pcs[t])
  {
    if labels == [] {
      NothingHeld(n);
    } else {
      var k := |labels| - 1;
      var l, s, s' := labels[k], states[k], states[k + 1];
      RunPrefix(m, n, init, states, labels);
      SwapsConserveValues(m, n, init, states[..k + 1], labels[..k]);
      StepConserves(m, s, l, s');
      Chain(multiset{init}, Stored(labels[..k]), Returned(states[..k + 1], labels[..k]),
            multiset{s.cell} + Held(s.pcs), Stores(l), Returns(s, l), multiset{s'.cell} + Held(s'.pcs));
    }
  }

  lemma {:induction false} NothingHeld(n: nat)
    ensures Held(seq(n, _ => Pc.Idle)) == multiset{}
  {
    if n > 0 {
      NothingHeld(n - 1);
      assert seq(n, _ => Pc.Idle)[..n - 1] == seq(n - 1, _ => Pc.Idle);
    }
  }

  lemma {:induction false} IdleHoldsNothing(pcs: seq<Pc>)
    requires forall t :: 0 <= t < |pcs| ==> pcs[t].Idle?
    ensures Held(pcs) == multiset{}
  {
    if pcs != [] {
      IdleHoldsNothing(pcs[..|pcs| - 1]);
    }
  }

  /** When every call has returned, the returned values and the final value are the initial value and the
      stored values, each as often. */
  lemma CompletedSwaps(m: Mode, n: nat, init: Word, states: seq<State>, labels: seq<Label>)
    requires IsRun(m, n, init, states, labels)
    requires forall i :: 0 <= i < |labels| ==> SwapLabel(labels[i])
    requires forall t :: 0 <= t < |states[|labels|].pcs| ==> states[|labels|].pcs[t].Idle?
    ensures multiset{init} + Stored(labels) == Returned(states, labels) + multiset{states[|labels|].cell}
  {
    SwapsConserveValues(m, n, init, states, labels);
    IdleHoldsNothing(states[|labels|].pcs);
  }

  // ---------- Add ----------

  /** The increment of a called add that has not taken effect. */
  function Owed(pc: Pc): nat {
    match pc
    case Start(Add(v)) => v
    case Loop(Add(v), _) => v
    case _ => 0
  }

  function OwedSum(pcs: seq<Pc>): nat {
    if pcs == [] then 0 else OwedSum(pcs[..|pcs| - 1]) + Owed(pcs[|pcs| - 1])
  }

  lemma {:induction false} OwedUpdate(pcs: seq<Pc>, t: nat, pc: Pc)
    requires t < |pcs|
    ensures OwedSum(pcs[t := pc]) + Owed(pcs[t]) == OwedSum(pcs) + Owed(pc)
  {
    var k := |pcs| - 1;
    if t == k {
      assert pcs[t := pc][..k] == pcs[..k];
    } else {
      OwedUpdate(pcs[..k], t, pc);
      assert pcs[t := pc][..k] == pcs[..k][t := pc];
    }
  }

  ghost predicate CountLabel(l: Label) {
    l.Invoke? ==> l.op.Add? || l.op.Load?
  }

  /** The increment a step hands to an add. */
  function Adds(l: Label): nat {
    if l.Invoke? && l.op.Add? then l.op.v else 0
  }

  function Added(labels: seq<Label>): nat {
    if labels == [] then 0 else Added(labels[..|labels| - 1]) + Adds(labels[|labels| - 1])
  }

  predicate CountPc(m: Mode, pc: Pc) {
    WellTyped(m, pc) && (!pc.Idle? ==> pc.op.Add? || pc.op.Load?)
  }

  lemma StepAdds(m: Mode, s: State, l: Label, s': State)
    requires Step(m, s, l, s') && CountLabel(l) && CountPc(m, s.pcs[l.t])
    ensures |s'.pcs| == |s.pcs| && s'.pcs == s.pcs[l.t := s'.pcs[l.t]] && CountPc(m, s'.pcs[l.t])
    ensures (s'.cell + Owed(s'.pcs[l.t])) % WORD == (s.cell + Owed(s.pcs[l.t]) + Adds(l)) % WORD
  {
    if l.Access? {
      MicroStep(m, s.cell, s.pcs[l.t]);
      ModAdd(s.cell + Owed(s.pcs[l.t]), 0);
    }
  }

  /** The cell and the increments still owed make up `total`, modulo 2^32. */
  predicate AddsUpTo(s: State, total: nat) {
    (s.cell + OwedSum(s.pcs)) % WORD == total % WORD
  }

  lemma StepAddsUp(m: Mode, s: State, l: Label, s': State, total: nat)
    requires Step(m, s, l, s') && CountLabel(l)
    requires forall t :: 0 <= t < |s.pcs| ==> CountPc(m, s.pcs[t])
    requires AddsUpTo(s, total)
    ensures forall t :: 0 <= t < |s'.pcs| ==> CountPc(m, s'.pcs[t])
    ensures AddsUpTo(s', total + Adds(l))
  {
    StepAdds(m, s, l, s');
    OwedStep(s.cell, s.pcs, l.t, s'.cell, s'.pcs[l.t], Adds(l), total);
  }

  lemma OwedStep(cell: Word, pcs: seq<Pc>, t: nat, cell': Word, pc: Pc, a: nat, x: int)
    requires t < |pcs|
    requires (cell' + Owed(pc)) % WORD == (cell + Owed(pcs[t]) + a) % WORD
    requires (cell + OwedSum(pcs)) % WORD == x % WORD
    ensures (cell' + OwedSum(pcs[t := pc])) % WORD == (x + a) % WORD
  {
    OwedUpdate(pcs, t, pc);
    Carry(cell, Owed(pcs[t]), a, cell', Owed(pc), OwedSum(pcs), OwedSum(pcs[t := pc]), x);
  }

  lemma Carry(c: int, o: int, a: int, c': int, o': int, h: int, h': int, x: int)
    requires (c' + o') % WORD == (c + o + a) % WORD && h' + o == h + o' && (c + h) % WORD == x % WORD
    ensures (c' + h') % WORD == (x + a) % WORD
  {
    ModAdd(c' + o', h - o);
    ModAdd(c + o + a, h - o);
    ModAdd(c + h, a);
    ModAdd(x, a);
    assert (c' + o') + (h - o) == c' + h' && (c + o + a) + (h - o) == (c + h) + a;
  }

  /** In every state the cell is the initial value plus the increments that have taken effect, modulo 2^32. */
  lemma {:induction false} AddsAreNotLost(m: Mode, n: nat, init: Word, states: seq<State>, labels: seq<Label>)
    requires IsRun(m, n, init, states, labels)
    requires forall i :: 0 <= i < |labels| ==> CountLabel(labels[i])
    ensures AddsUpTo(states[|labels|], init + Added(labels))
    ensures forall t :: 0 <= t < |states[|labels|].pcs| ==> CountPc(m, states[|labels|].pcs[t])
  {
    if labels == [] {
      NothingOwed(n);
    } else {
      var k := |labels| - 1;
      var l, s, s' := labels[k], states[k], states[k + 1];
      RunPrefix(m, n, init, states, labels);
      AddsAreNotLost(m, n, init, states[..k + 1], labels[..k]);
      StepAddsUp(m, s, l, s', init + Added(labels[..k]));
    }
  }

  lemma {:induction false} NothingOwed(n: nat)
    ensures OwedSum(seq(n, _ => Pc.Idle)) == 0
  {
    if n > 0 {
      NothingOwed(n - 1);
      assert seq(n, _ => Pc.Idle)[..n - 1] == seq(n - 1, _ => Pc.Idle);
    }
  }

  // ---------- Unit adds as tickets ----------

  /** If the only writers are unit adds and at most 2^32 of them are called, no two of them return the same value,
      however many loads there are besides. */
  lemma UnitAddsReturnDistinct(m: Mode, n: nat, init: Word, states: seq<State>, labels: seq<Label>)
    requires IsRun(m, n, init, states, labels)
    requires forall e :: e in History(labels) && e.Inv? ==> UnitAddOrLoad(e.op)
    requires |AddIndices(History(labels))| <= WORD
    ensures var h := History(labels);
            forall i, j :: 0 <= i < j < |h| && AddReturns(h, i) && AddReturns(h, j) ==> h[i].ret != h[j].ret
  {
    var h := History(labels);
    var a := RunRefines(m, n, init, states, labels);
    LogIsShort(h, a.log);
    forall k | 0 <= k < |a.log|
      ensures UnitAddOrLoad(a.log[k].op)
    {
      assert h[a.log[k].call] in h;
    }
    DistinctTickets(h, init, a.log);
  }
}
