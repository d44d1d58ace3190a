/** The macro bodies of my_atomic.h, gcc_builtins.h, generic-msvc.h and rwlock.h as code on a cell.

    The compare-and-swap bodies and the single-instruction bodies are one indivisible access, and the bodies of
    rwlock.h run under a mutex; they are proved against the meaning of their operations.  The retry loops are
    proved under interference, as walks through the program counters of module CasMode. */
module AtomicBodies {
  import opened AtomicCell
  import CasMode

  /** Where a thread is in the call of `op`, built from compare-and-swap, after accesses that found the values `seen`. */
  function PcAfter(op: Op, seen: seq<Word>): CasMode.Pc {
    if seen == [] then CasMode.Start(op)
    else
      var k := |seen| - 1;
      var pc := PcAfter(op, seen[..k]);
      if pc.Start? || pc.Loop? then CasMode.Micro(CasMode.CAS_ONLY, seen[k], pc).1 else pc
  }

  lemma LoopBegins(op: Op, found: Word)
    requires op.Add? || op.Fas?
    ensures PcAfter(op, [found]) == CasMode.Loop(op, found)
  {
    assert [found][..0] == [];
  }

  lemma LoopGoesOn(op: Op, seen: seq<Word>, tmp: Word, found: Word)
    requires (op.Add? || op.Fas?) && PcAfter(op, seen) == CasMode.Loop(op, tmp)
    ensures PcAfter(op, seen + [found]) == if found == tmp then CasMode.Finish(op, Old(found)) else CasMode.Loop(op, found)
  {
    assert (seen + [found])[..|seen|] == seen;
    CasMode.MicroStep(CasMode.CAS_ONLY, found, CasMode.Loop(op, tmp));
  }

  /** What the access `i` finds: what other threads have put there just before, or what was there. */
  predicate FoundAt(init: Word, others: seq<Word>, seen: seq<Word>, i: nat)
    requires i < |seen|
  {
    seen[i] == if i < |others| then others[i] else if i == 0 then init else seen[i - 1]
  }

  ghost predicate Found(init: Word, others: seq<Word>, seen: seq<Word>) {
    forall i {:trigger FoundAt(init, others, seen, i)} :: 0 <= i < |seen| ==> FoundAt(init, others, seen, i)
  }

  lemma FoundNext(init: Word, others: seq<Word>, seen: seq<Word>, found: Word)
    requires Found(init, others, seen)
    requires found == if |seen| < |others| then others[|seen|] else if seen == [] then init else seen[|seen| - 1]
    ensures Found(init, others, seen + [found])
  {
    forall i {:trigger FoundAt(init, others, seen + [found], i)} | 0 <= i < |seen| + 1
      ensures FoundAt(init, others, seen + [found], i)
    {
      if i < |seen| {
        assert FoundAt(init, others, seen, i);
      }
    }
  }

  /** A store without a body of its own passes through the places of a fetch-and-store. */
  lemma {:induction false} StoreIsFas(v: Word, seen: seq<Word>)
    ensures var f, s := PcAfter(Fas(v), seen), PcAfter(Store(v), seen);
      match f
      case Start(_) => s == CasMode.Start(Store(v))
      case Loop(_, tmp) => s == CasMode.Loop(Store(v), tmp)
      case Finish(_, ret) => s == CasMode.Finish(Store(v), Done)
      case Idle => false
    ensures PcAfter(Fas(v), seen).op == Fas(v)
  {
    if seen != [] {
      StoreIsFas(v, seen[..|seen| - 1]);
    }
  }

  class Cell {
    var a: Word

    constructor (init: Word)
      ensures a == init
    {
      a := init;
    }

    // ---------- Hardware primitives ----------

    /** `InterlockedCompareExchange` and `__sync_val_compare_and_swap`: returns the previous value. */
    method CompareExchange(desired: Word, cmp: Word) returns (previous: Word)
      modifies this
      ensures previous == old(a) && a == Next(old(a), Cas(cmp, desired))
    {
      previous := a;
      if a == cmp {
        a := desired;
      }
    }

    method ExchangeAdd(v: Word) returns (previous: Word)
      modifies this
      ensures previous == old(a) && a == Next(old(a), Add(v))
    {
      previous := a;
      a := (a + v) % WORD;
    }

    // ---------- generic-msvc.h and gcc_builtins.h ----------

    method AddMsvc(v: Word) returns (w: Word)
      modifies this
      ensures Documented(Add(v), old(a), a, Old(w))
    {
      w := ExchangeAdd(v);
    }

    method CasMsvc(cmp: Word, desired: Word) returns (ret: bool, cmp': Word)
      modifies this
      ensures Documented(Cas(cmp, desired), old(a), a, Outcome(ret, cmp'))
    {
      var initialCmp := cmp;
      cmp' := cmp;
      var initialA := CompareExchange(desired, initialCmp);
      ret := initialA == initialCmp;
      if !ret {
        cmp' := initialA;
      }
    }

    method CasGcc(cmp: Word, desired: Word) returns (ret: bool, cmp': Word)
      modifies this
      ensures Documented(Cas(cmp, desired), old(a), a, Outcome(ret, cmp'))
    {
      cmp' := cmp;
      var sav := CompareExchange(desired, cmp');
      ret := sav == cmp';
      if !ret {
        cmp' := sav;
      }
    }

    method LoadMsvc() returns (ret: Word)
      modifies this
      ensures ret == old(a) && a == old(a)
    {
      ret := 0;
      ret := CompareExchange(ret, ret);
    }

    // ---------- Fallbacks of my_atomic.h ----------

    /** What other threads do before the access `i`. */
    method Meddle(others: seq<Word>, i: nat)
      modifies this
      ensures a == if i < |others| then others[i] else old(a)
    {
      if i < |others| {
        a := others[i];
      }
    }

    /** The retry loop takes effect in its last access, whatever other threads do to the cell in between. */
    method AddByCas(v: Word, others: seq<Word>) returns (w: Word, ghost seen: seq<Word>)
      modifies this
      ensures |seen| >= 2 && Found(old(a), others, seen)
      ensures PcAfter(Add(v), seen) == CasMode.Finish(Add(v), Old(w))
      ensures Documented(Add(v), seen[|seen| - 1], a, Old(w))
    {
      var i := 1;
      Meddle(others, 0);
      var tmp := a;
      FoundNext(old(a), others, [], a);
      LoopBegins(Add(v), a);
      seen := [a];
      var ok := false;
      while !ok
        invariant i == |seen| && (ok ==> i >= 2) && Found(old(a), others, seen)
        invariant !ok ==> a == tmp == seen[i - 1] && PcAfter(Add(v), seen) == CasMode.Loop(Add(v), tmp)
        invariant ok ==> tmp == seen[i - 1] && a == Next(tmp, Add(v))
        invariant ok ==> PcAfter(Add(v), seen) == CasMode.Finish(Add(v), Old(tmp))
        decreases if ok then 0 else 1 + if i < |others| then |others| - i else 0
      {
        Meddle(others, i);
        FoundNext(old(a), others, seen, a);
        LoopGoesOn(Add(v), seen, tmp, a);
        seen := seen + [a];
        ok, tmp := CasMsvc(tmp, (tmp + v) % WORD);
        i := i + 1;
      }
      w := tmp;
      OnlyMeaning(Add(v), w, a, Old(w));
    }

    /** The same loop with the argument as the new value. */
    method FasByCas(v: Word, others: seq<Word>) returns (w: Word, ghost seen: seq<Word>)
      modifies this
      ensures |seen| >= 2 && Found(old(a), others, seen)
      ensures PcAfter(Fas(v), seen) == CasMode.Finish(Fas(v), Old(w))
      ensures Documented(Fas(v), seen[|seen| - 1], a, Old(w))
    {
      var i := 1;
      Meddle(others, 0);
      var tmp := a;
      FoundNext(old(a), others, [], a);
      LoopBegins(Fas(v), a);
      seen := [a];
      var ok := false;
      while !ok
        invariant i == |seen| && (ok ==> i >= 2) && Found(old(a), others, seen)
        invariant !ok ==> a == tmp == seen[i - 1] && PcAfter(Fas(v), seen) == CasMode.Loop(Fas(v), tmp)
        invariant ok ==> tmp == seen[i - 1] && a == Next(tmp, Fas(v))
        invariant ok ==> PcAfter(Fas(v), seen) == CasMode.Finish(Fas(v), Old(tmp))
        decreases if ok then 0 else 1 + if i < |others| then |others| - i else 0
      {
        Meddle(others, i);
        FoundNext(old(a), others, seen, a);
        LoopGoesOn(Fas(v), seen, tmp, a);
        seen := seen + [a];
        ok, tmp := CasMsvc(tmp, v);
        i := i + 1;
      }
      w := tmp;
      OnlyMeaning(Fas(v), w, a, Old(w));
    }

    method LoadByCas() returns (ret: Word)
      modifies this
      ensures ret == old(a) && a == old(a)
    {
      ret := 0;
      var ok;
      ok, ret := CasMsvc(ret, ret);
    }

    method StoreByFas(v: Word, others: seq<Word>) returns (ghost seen: seq<Word>)
      modifies this
      ensures |seen| >= 2 && Found(old(a), others, seen)
      ensures PcAfter(Store(v), seen) == CasMode.Finish(Store(v), Done)
      ensures Documented(Store(v), seen[|seen| - 1], a, Done)
    {
      var ignored;
      ignored, seen := FasByCas(v, others);
      StoreIsFas(v, seen);
    }

    // ---------- rwlock.h, between lock and unlock ----------

    method AddLocked(v: Word) returns (w: Word)
      modifies this
      ensures Documented(Add(v), old(a), a, Old(w))
    {
      var sav := a;
      a := (a + v) % WORD;
      w := sav;
    }

    method FasLocked(v: Word) returns (w: Word)
      modifies this
      ensures Documented(Fas(v), old(a), a, Old(w))
    {
      var sav := a;
      a := v;
      w := sav;
    }

    method CasLocked(cmp: Word, desired: Word) returns (ret: bool, cmp': Word)
      modifies this
      ensures Documented(Cas(cmp, desired), old(a), a, Outcome(ret, cmp'))
    {
      cmp' := cmp;
      ret := a == cmp';
      if ret {
        a := desired;
      } else {
        cmp' := a;
      }
    }
  }
}
