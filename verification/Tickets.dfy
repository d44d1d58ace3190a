/** Unit adds as a ticket dispenser that may also be looked at, and facts about logs that hold whatever implements the cell. */
module Tickets {
  import opened AtomicCell
  import opened Ranges

  lemma ModAdd(x: int, y: int)
    ensures (x % WORD + y) % WORD == (x + y) % WORD
  {
    var q := x / WORD;
    assert x == q * WORD + x % WORD;
    assert (x % WORD + y) % WORD == (x % WORD + y + q * WORD) % WORD;
  }

  predicate UnitAddOrLoad(op: Op) {
    op == Add(1) || op.Load?
  }

  ghost predicate UnitAdds(log: seq<Entry>) {
    forall k :: 0 <= k < |log| ==> UnitAddOrLoad(log[k].op)
  }

  function AddsIn(log: seq<Entry>): (n: nat)
    ensures n <= |log|
  {
    if log == [] then 0 else AddsIn(log[..|log| - 1]) + if log[|log| - 1].op.Add? then 1 else 0
  }

  lemma {:induction false} UnitAddsCount(init: Word, log: seq<Entry>)
    requires UnitAdds(log)
    ensures Final(init, log) == (init + AddsIn(log)) % WORD
  {
    if log != [] {
      UnitAddsCount(init, log[..|log| - 1]);
      ModAdd(init + AddsIn(log[..|log| - 1]), 1);
      ModAdd(init + AddsIn(log), 0);
    }
  }

  lemma {:induction false} AddsBefore(log: seq<Entry>, k: nat, l: nat)
    requires k <= l <= |log|
    ensures AddsIn(log[..k]) + (if k < l && log[k].op.Add? then 1 else 0) <= AddsIn(log[..l])
    decreases l
  {
    if k < l {
      AddsBefore(log, k, l - 1);
      assert log[..l][..l - 1] == log[..l - 1];
    }
  }

  /** The add with `m` adds before it. */
  lemma {:induction false} NthAdd(log: seq<Entry>, m: nat) returns (k: nat)
    requires m < AddsIn(log)
    ensures k < |log| && log[k].op.Add? && AddsIn(log[..k]) == m
  {
    var init := log[..|log| - 1];
    if m < AddsIn(init) {
      k := NthAdd(init, m);
      assert init[..k] == log[..k];
    } else {
      k := |log| - 1;
    }
  }

  /** No two adds return the same value. */
  ghost predicate DistinctReturns(log: seq<Entry>) {
    forall k, l :: 0 <= k < l < |log| && log[k].op.Add? && log[l].op.Add? ==> log[k].ret != log[l].ret
  }

  /** Unit adds return distinct values for exactly as long as the counter has not wrapped around. */
  lemma TicketsDiffer(init: Word, k: nat, l: nat)
    requires k < l < k + WORD
    ensures Ticket(init, k) != Ticket(init, l)
  {
    var x, y := (init + k) / WORD, (init + l) / WORD;
    assert init + k == x * WORD + (init + k) % WORD && init + l == y * WORD + (init + l) % WORD;
    assert y == x || y == x + 1;
  }

  lemma UnitAddsDistinctIff(init: Word, log: seq<Entry>)
    requires Legal(init, log) && UnitAdds(log)
    ensures DistinctReturns(log) <==> AddsIn(log) <= WORD
  {
    EachHasItsNumber(init, log);
    if AddsIn(log) > WORD {
      var first, again := RepeatedTicket(init, log);
      assert first < again || again < first;
    } else {
      forall k, l | 0 <= k < l < |log| && log[k].op.Add? && log[l].op.Add?
        ensures log[k].ret != log[l].ret
      {
        TwoTickets(init, log, k, l);
      }
    }
  }

  function Ticket(init: Word, n: nat): Ret {
    Old((init + n) % WORD)
  }

  /** Every add returns the number of adds before it, counted from the initial value. */
  ghost predicate Numbered(init: Word, log: seq<Entry>) {
    forall k :: 0 <= k < |log| && log[k].op.Add? ==> log[k].ret == Ticket(init, AddsIn(log[..k]))
  }

  lemma EachHasItsNumber(init: Word, log: seq<Entry>)
    requires Legal(init, log) && UnitAdds(log)
    ensures Numbered(init, log)
  {
    forall k | 0 <= k < |log| && log[k].op.Add?
      ensures log[k].ret == Ticket(init, AddsIn(log[..k]))
    {
      NumberOf(init, log, k);
    }
  }

  lemma NumberOf(init: Word, log: seq<Entry>, k: nat)
    requires Legal(init, log) && UnitAdds(log) && k < |log| && log[k].op.Add?
    ensures log[k].ret == Ticket(init, AddsIn(log[..k]))
  {
    LegalAt(init, log, k);
    UnitAddsCount(init, log[..k]);
  }

  lemma LegalAt(init: Word, log: seq<Entry>, k: nat)
    requires Legal(init, log) && k < |log|
    ensures log[k].ret == Result(Final(init, log[..k]), log[k].op)
  {
  }

  lemma TwoTickets(init: Word, log: seq<Entry>, k: nat, l: nat)
    requires Numbered(init, log) && AddsIn(log) <= WORD
    requires k < l < |log| && log[k].op.Add? && log[l].op.Add?
    ensures log[k].ret != log[l].ret
  {
    AddsApart(log, k, l);
    TicketsDiffer(init, AddsIn(log[..k]), AddsIn(log[..l]));
  }

  lemma RepeatedTicket(init: Word, log: seq<Entry>) returns (first: nat, again: nat)
    requires Numbered(init, log) && AddsIn(log) > WORD
    ensures first < |log| && again < |log| && first != again
    ensures log[first].op.Add? && log[again].op.Add? && log[first].ret == log[again].ret
  {
    first := NthAdd(log, 0);
    again := NthAdd(log, WORD);
    ModAdd(init + WORD, 0);
  }

  /** Two adds have different numbers of adds before them. */
  lemma AddsApart(log: seq<Entry>, k: nat, l: nat)
    requires k < l < |log| && log[k].op.Add? && log[l].op.Add?
    ensures AddsIn(log[..k]) < AddsIn(log[..l]) < AddsIn(log)
  {
    AddsBefore(log, k, l);
    AddsBefore(log, l, |log|);
    assert log[..|log|] == log;
  }

  ghost function AddIndices(h: seq<Event>): set<nat> {
    set i | 0 <= i < |h| && h[i].Inv? && h[i].op.Add?
  }

  function AddCalls(log: seq<Entry>): set<nat> {
    if log == [] then {}
    else AddCalls(log[..|log| - 1]) + if log[|log| - 1].op.Add? then {log[|log| - 1].call} else {}
  }

  lemma {:induction false} InAddCalls(log: seq<Entry>, c: nat)
    requires c in AddCalls(log)
    ensures exists k :: 0 <= k < |log| && log[k].call == c
  {
    var k := |log| - 1;
    if log[k].call != c {
      InAddCalls(log[..k], c);
      var l :| 0 <= l < k && log[..k][l].call == c;
      assert log[l].call == c;
    }
  }

  /** A log that lists calls of a history has no more adds than the history has calls of them. */
  lemma {:induction false} LogIsShort(h: seq<Event>, log: seq<Entry>)
    requires ListsCalls(h, log)
    ensures |AddCalls(log)| == AddsIn(log) && AddCalls(log) <= AddIndices(h)
    ensures AddsIn(log) <= |AddIndices(h)|
  {
    if log != [] {
      var k := |log| - 1;
      LogIsShort(h, log[..k]);
      if log[k].call in AddCalls(log[..k]) {
        InAddCalls(log[..k], log[k].call);
      }
    }
    CardUpTo(AddCalls(log), AddIndices(h));
  }

  /** After a thread has returned, its next open call is a later one. */
  lemma {:induction false} OpenAfterReturn(h: seq<Event>, i: nat, j: nat)
    requires i < j <= |h| && h[i].Res?
    ensures OpenCall(h[..j], h[i].t) == -1 || OpenCall(h[..j], h[i].t) > i
  {
    assert h[..j][..j - 1] == h[..j - 1];
    if j - 1 > i {
      OpenAfterReturn(h, i, j - 1);
    }
  }

  /** No call is answered twice. */
  lemma ReturnsAnswerDifferentCalls(h: seq<Event>, i: nat, j: nat)
    requires WellFormed(h) && i < j < |h| && h[i].Res? && h[j].Res?
    ensures CallOf(h, i) != CallOf(h, j)
  {
    OpenAfterReturn(h, i, j);
    assert CallOf(h, i) >= 0 && CallOf(h, j) >= 0;
    assert h[..i][CallOf(h, i)] == h[CallOf(h, i)] && h[..j][CallOf(h, j)] == h[CallOf(h, j)];
  }

  /** The event is the return of an add. */
  ghost predicate AddReturns(h: seq<Event>, j: nat)
    requires j < |h|
  {
    h[j].Res? && CallOf(h, j) >= 0 && h[CallOf(h, j)].op.Add?
  }

  lemma DistinctTickets(h: seq<Event>, init: Word, log: seq<Entry>)
    requires WellFormed(h) && Linearizes(h, init, log)
    requires UnitAdds(log) && AddsIn(log) <= WORD
    ensures forall i, j :: 0 <= i < j < |h| && AddReturns(h, i) && AddReturns(h, j) ==> h[i].ret != h[j].ret
  {
    UnitAddsDistinctIff(init, log);
    forall i, j | 0 <= i < j < |h| && AddReturns(h, i) && AddReturns(h, j)
      ensures h[i].ret != h[j].ret
    {
      ReturnsAnswerDifferentCalls(h, i, j);
      var k := EntryOf(h, init, log, i);
      var l := EntryOf(h, init, log, j);
      assert k < l || l < k;
    }
  }

  lemma EntryOf(h: seq<Event>, init: Word, log: seq<Entry>, j: nat) returns (k: nat)
    requires Linearizes(h, init, log) && j < |h| && AddReturns(h, j)
    ensures k < |log| && log[k].call == CallOf(h, j) && log[k].ret == h[j].ret && log[k].op.Add?
  {
    assert Explains(log, CallOf(h, j), h[j].ret);
    k :| 0 <= k < |log| && log[k].call == CallOf(h, j) && log[k].ret == h[j].ret;
  }
}
