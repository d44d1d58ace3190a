/** The buffered stream macros of my_sys.h as operations on a plain stream.  The slow paths that they fall back to are
    functions elsewhere; here each has a contract, and a body that leaves everything open that the contract does. */
module IoCache {
  import opened Bytes

  const MY_B_EOF: int := -0x8000_0000

  // ---------- A plain reader ----------

  datatype ReadOp = Read(count: nat) | Get | FillCache | Tell

  datatype Answer = Data(bytes: seq<Byte>) | Char(c: int) | Position(p: nat) | Done | Failed

  /** What a reader of the whole file with a cursor `c` answers, and where its cursor goes.  A reliable device fails only
      where the file has too few bytes; after a failure the cursor may be anywhere. */
  ghost predicate ReadStep(file: seq<Byte>, reliable: bool, c: nat, op: ReadOp, answer: Answer, c': nat) {
    && c <= |file| && c' <= |file|
    && match op
       case Read(count) =>
         || (c + count <= |file| && answer == Data(file[c..c + count]) && c' == c + count)
         || (answer == Failed && (reliable ==> c + count > |file|))
       case Get =>
         || (c < |file| && answer == Char(file[c]) && c' == c + 1)
         || (answer == Char(MY_B_EOF) && (reliable ==> c == |file|))
       case FillCache => (answer == Done && c' == c) || (answer == Failed && !reliable)
       case Tell => answer == Position(c) && c' == c
  }

  // ---------- Runs of the plain reader ----------

  datatype Event = Event(op: ReadOp, answer: Answer, cursor: nat)

  /** The cursor before the event `i`. */
  function CursorAt(start: nat, run: seq<Event>, i: nat): nat
    requires i <= |run|
  {
    if i == 0 then start else run[i - 1].cursor
  }

  ghost predicate EventOk(file: seq<Byte>, reliable: bool, start: nat, run: seq<Event>, i: nat)
    requires i < |run|
  {
    ReadStep(file, reliable, CursorAt(start, run, i), run[i].op, run[i].answer, run[i].cursor)
  }

  ghost predicate IsRun(file: seq<Byte>, reliable: bool, start: nat, run: seq<Event>) {
    start <= |file| && forall i {:trigger EventOk(file, reliable, start, run, i)} ::
      0 <= i < |run| ==> EventOk(file, reliable, start, run, i)
  }

  lemma ExtendRun(file: seq<Byte>, reliable: bool, start: nat, run: seq<Event>, e: Event)
    requires IsRun(file, reliable, start, run)
    requires ReadStep(file, reliable, CursorAt(start, run, |run|), e.op, e.answer, e.cursor)
    ensures IsRun(file, reliable, start, run + [e]) && CursorAt(start, run + [e], |run| + 1) == e.cursor
  {
    forall i {:trigger EventOk(file, reliable, start, run + [e], i)} | 0 <= i < |run| + 1
      ensures EventOk(file, reliable, start, run + [e], i)
    {
      if i < |run| {
        assert EventOk(file, reliable, start, run, i);
      }
    }
  }

  predicate Breaks(answer: Answer) {
    answer == Failed || answer == Char(MY_B_EOF)
  }

  /** Nothing between the events `i` and `j` ended in a failure or at the end of the file. */
  ghost predicate Unbroken(run: seq<Event>, i: nat, j: nat) {
    forall k :: i <= k < j && k < |run| ==> !Breaks(run[k].answer)
  }

  function Delivered(answer: Answer): seq<int> {
    match answer
    case Data(bytes) => Ints(bytes)
    case Char(c) => if c == MY_B_EOF then [] else [c]
    case _ => []
  }

  function AllDelivered(run: seq<Event>): seq<int> {
    if run == [] then [] else AllDelivered(run[..|run| - 1]) + Delivered(run[|run| - 1].answer)
  }

  function Ints(s: seq<Byte>): (r: seq<int>)
    ensures |r| == |s| && forall i :: 0 <= i < |s| ==> r[i] == s[i]
  {
    seq(|s|, i requires 0 <= i < |s| => s[i])
  }

  /** Whatever the mixture of calls, and whatever failed before, an unbroken part of a run delivers one stretch of the
      file, from the cursor at its begin to the cursor at its end. */
  lemma {:induction false} RunsDeliverTheFile(file: seq<Byte>, reliable: bool, start: nat, run: seq<Event>, i: nat, j: nat)
    requires IsRun(file, reliable, start, run) && i <= j <= |run| && Unbroken(run, i, j)
    ensures CursorAt(start, run, i) <= CursorAt(start, run, j) <= |file|
    ensures AllDelivered(run[i..j]) == Ints(file)[CursorAt(start, run, i)..CursorAt(start, run, j)]
    decreases j
  {
    if i < j {
      RunsDeliverTheFile(file, reliable, start, run, i, j - 1);
      EventDelivers(file, reliable, start, run, j - 1);
      DeliveredStep(run, i, j);
      Joined(AllDelivered(run[i..j - 1]), Delivered(run[j - 1].answer), Ints(file),
             CursorAt(start, run, i), CursorAt(start, run, j - 1), CursorAt(start, run, j));
    } else {
      CursorInFile(file, reliable, start, run, i);
      assert run[i..j] == [];
    }
  }

  lemma CursorInFile(file: seq<Byte>, reliable: bool, start: nat, run: seq<Event>, i: nat)
    requires IsRun(file, reliable, start, run) && i <= |run|
    ensures CursorAt(start, run, i) <= |file|
  {
    if i > 0 {
      assert EventOk(file, reliable, start, run, i - 1);
    }
  }

  lemma DeliveredStep(run: seq<Event>, i: nat, j: nat)
    requires i < j <= |run|
    ensures AllDelivered(run[i..j]) == AllDelivered(run[i..j - 1]) + Delivered(run[j - 1].answer)
  {
    assert run[i..j][..j - 1 - i] == run[i..j - 1];
  }

  lemma EventDelivers(file: seq<Byte>, reliable: bool, start: nat, run: seq<Event>, i: nat)
    requires IsRun(file, reliable, start, run) && i < |run| && !Breaks(run[i].answer)
    ensures CursorAt(start, run, i) <= CursorAt(start, run, i + 1) <= |file|
    ensures Delivered(run[i].answer) == Ints(file)[CursorAt(start, run, i)..CursorAt(start, run, i + 1)]
  {
    assert EventOk(file, reliable, start, run, i);
  }

  lemma Joined(x: seq<int>, y: seq<int>, s: seq<int>, a: nat, b: nat, c: nat)
    requires a <= b <= c <= |s| && x == s[a..b] && y == s[b..c]
    ensures x + y == s[a..c]
  {
  }

  /** my_b_tell() answers the place that the bytes delivered before it lead to. */
  lemma TellCountsTheDelivered(file: seq<Byte>, reliable: bool, start: nat, run: seq<Event>, i: nat, k: nat)
    requires IsRun(file, reliable, start, run) && i <= k < |run| && Unbroken(run, i, k) && run[k].op == Tell
    ensures run[k].answer == Position(CursorAt(start, run, i) + |AllDelivered(run[i..k])|)
  {
    RunsDeliverTheFile(file, reliable, start, run, i, k);
    assert EventOk(file, reliable, start, run, k);
  }

  // ---------- Reading ----------

  /** memcpy() */
  method Copy(src: array<Byte>, from: nat, dst: array<Byte>, to: nat, count: nat)
    requires src != dst && from + count <= src.Length && to + count <= dst.Length
    modifies dst
    ensures dst[..] == old(dst[..to]) + src[from..from + count] + old(dst[to + count..])
  {
    forall i | 0 <= i < count {
      dst[to + i] := src[from + i];
    }
  }

  lemma SameWithin(a: seq<Byte>, from: nat, end: nat, b: seq<Byte>, at: nat, p: nat, q: nat)
    requires from <= p <= q <= end <= |a| && at + (end - from) <= |b|
    requires a[from..end] == b[at..at + (end - from)]
    ensures a[p..q] == b[at + (p - from)..at + (q - from)]
  {
    Within(a, from, end, p - from, q - from);
    Within(b, at, at + (end - from), p - from, q - from);
  }

  lemma Within(s: seq<Byte>, lo: nat, hi: nat, x: nat, y: nat)
    requires lo <= hi <= |s| && x <= y <= hi - lo
    ensures s[lo + x..lo + y] == s[lo..hi][x..y]
  {
    var t := s[lo..hi];
    assert forall k :: 0 <= k < y - x ==> s[lo + x..lo + y][k] == t[x..y][k];
  }

  class ReadCache {
    const file: seq<Byte>
    const reliable: bool
    const start: nat
    const buffer: array<Byte>
    var posInFile: nat
    var requestPos: nat
    var readPos: nat
    var readEnd: nat
    ghost var run: seq<Event>    // the calls so far and their answers

    /** The bytes from `requestPos` to `readEnd` are those of the file at `posInFile`. */
    ghost predicate BufferOk()
      reads this, buffer
    {
      && requestPos <= readPos <= readEnd <= buffer.Length
      && posInFile + (readEnd - requestPos) <= |file|
      && buffer[requestPos..readEnd] == file[posInFile..posInFile + (readEnd - requestPos)]
    }

    ghost function Cursor(): nat
      reads this
      requires requestPos <= readPos
    {
      posInFile + (readPos - requestPos)
    }

    /** All calls so far have answered as the plain reader, and its cursor is here. */
    ghost predicate Valid()
      reads this, buffer
    {
      BufferOk() && IsRun(file, reliable, start, run) && CursorAt(start, run, |run|) == Cursor()
    }

    constructor (file: seq<Byte>, reliable: bool, at: nat, size: nat)
      requires at <= |file|
      ensures Valid() && fresh(buffer) && this.file == file && this.reliable == reliable
      ensures start == at && Cursor() == at && run == []
    {
      this.file, this.reliable, this.start, this.run := file, reliable, at, [];
      this.buffer := new Byte[size];
      this.posInFile, this.requestPos, this.readPos, this.readEnd := at, 0, 0, 0;
    }

    /** Bytes of the buffer ahead of the cursor are the next bytes of the file. */
    lemma AheadInFile(count: nat)
      requires BufferOk() && readPos + count <= readEnd
      ensures Cursor() + count <= |file| && buffer[readPos..readPos + count] == file[Cursor()..Cursor() + count]
    {
      SameWithin(buffer[..], requestPos, readEnd, file, posInFile, readPos, readPos + count);
    }

    /** All that an unbroken run of calls has delivered is the file from where the cache began to its cursor. */
    lemma EverythingDelivered()
      requires Valid() && Unbroken(run, 0, |run|)
      ensures start <= Cursor() <= |file| && AllDelivered(run) == Ints(file)[start..Cursor()]
    {
      RunsDeliverTheFile(file, reliable, start, run, 0, |run|);
      assert run[0..|run|] == run;
    }

    ghost method Record(op: ReadOp, answer: Answer)
      requires BufferOk() && IsRun(file, reliable, start, run)
      requires ReadStep(file, reliable, CursorAt(start, run, |run|), op, answer, Cursor())
      modifies this`run
      ensures Valid() && run == old(run) + [Event(op, answer, Cursor())]
    {
      ExtendRun(file, reliable, start, run, Event(op, answer, Cursor()));
      run := run + [Event(op, answer, Cursor())];
    }

    /** What the buffer has is read without failure. */
    method MyBRead(dest: array<Byte>, count: nat) returns (error: int)
      requires Valid() && dest != buffer && count <= dest.Length
      modifies this, buffer, dest
      ensures Valid()
      ensures run == old(run) + [Event(Read(count), if error == 0 then Data(dest[..count]) else Failed, Cursor())]
      ensures old(readPos) + count <= old(readEnd) ==> error == 0
      ensures dest[count..] == old(dest[count..])
    {
      if readPos + count <= readEnd {
        ReadBuffered(dest, count);
        error := 0;
      } else {
        error := ReadFunction(dest, count);
      }
      Record(Read(count), if error == 0 then Data(dest[..count]) else Failed);
    }

    method ReadBuffered(dest: array<Byte>, count: nat)
      requires BufferOk() && dest != buffer && count <= dest.Length && readPos + count <= readEnd
      modifies this`readPos, dest
      ensures BufferOk() && ReadStep(file, reliable, old(Cursor()), Read(count), Data(dest[..count]), Cursor())
      ensures dest[count..] == old(dest[count..])
    {
      AheadInFile(count);
      Copy(buffer, readPos, dest, 0, count);
      assert dest[..count] == buffer[readPos..readPos + count];
      readPos := readPos + count;
    }

    method MyBGet() returns (c: int)
      requires Valid()
      modifies this, buffer
      ensures Valid() && run == old(run) + [Event(Get, Char(c), Cursor())]
      ensures old(readPos) != old(readEnd) ==> c != MY_B_EOF
    {
      if readPos != readEnd {
        AheadInFile(1);
        assert buffer[readPos] == buffer[readPos..readPos + 1][0];
        readPos := readPos + 1;
        c := buffer[readPos - 1];
      } else {
        c := SlowGet();
      }
      Record(Get, Char(c));
    }

    /** The rest of the buffer is dropped and the read function called for no bytes. */
    method MyBFillCache() returns (error: int)
      requires Valid()
      modifies this, buffer
      ensures Valid() && run == old(run) + [Event(FillCache, if error == 0 then Done else Failed, Cursor())]
    {
      SameWithin(buffer[..], requestPos, readEnd, file, posInFile, requestPos, readPos);
      readEnd := readPos;
      var none := new Byte[0];
      error := ReadFunction(none, 0);
      Record(FillCache, if error == 0 then Done else Failed);
    }

    method MyBTell() returns (p: nat)
      requires Valid()
      modifies this`run
      ensures Valid() && p == Cursor() == old(Cursor()) && run == old(run) + [Event(Tell, Position(p), Cursor())]
    {
      p := posInFile + (readPos - requestPos);
      Record(Tell, Position(p));
    }

    /** The contract of the read function: all of the bytes or a failure, the latter only for want of bytes if the
        device is reliable. */
    method ReadFunction(dest: array<Byte>, count: nat) returns (error: int)
      requires BufferOk() && dest != buffer && count <= dest.Length
      modifies this, buffer, dest
      ensures BufferOk() && run == old(run)
      ensures ReadStep(file, reliable, old(Cursor()), Read(count), if error == 0 then Data(dest[..count]) else Failed, Cursor())
      ensures dest[count..] == old(dest[count..])
    {
      var c := posInFile + (readPos - requestPos);
      var broken: bool := *;
      if c + count > |file| || (!reliable && broken) {
        var c': nat :| c' <= |file|;
        Refill(c');
        return 1;
      }
      forall i | 0 <= i < count {
        dest[i] := file[c + i];
      }
      assert dest[..count] == file[c..c + count];
      Refill(c + count);
      return 0;
    }

    /** The contract of _my_b_get(): a read of one byte. */
    method SlowGet() returns (c: int)
      requires BufferOk()
      modifies this, buffer
      ensures BufferOk() && run == old(run)
      ensures ReadStep(file, reliable, old(Cursor()), Get, Char(c), Cursor())
    {
      var one := new Byte[1];
      var error := ReadFunction(one, 1);
      assert error == 0 ==> one[..1][0] == one[0];
      c := if error == 0 then one[0] else MY_B_EOF;
    }

    /** The buffer takes as many bytes of the file at `c` as it likes. */
    method Refill(c: nat)
      requires c <= |file|
      modifies this, buffer
      ensures BufferOk() && Cursor() == c && run == old(run)
    {
      var n: nat :| n <= buffer.Length && c + n <= |file|;
      forall i | 0 <= i < n {
        buffer[i] := file[c + i];
      }
      assert buffer[0..n] == file[c..c + n];
      posInFile, requestPos, readPos, readEnd := c, 0, 0, n;
    }
  }

  // ---------- Runs of a plain writer ----------

  /** A write takes all of its argument if it succeeds, and else some first part of it. */
  datatype WriteEvent = Wrote(argument: seq<Byte>, taken: nat, ok: bool) | Told(p: nat)

  function Taken(e: WriteEvent): seq<Byte> {
    if e.Wrote? && e.taken <= |e.argument| then e.argument[..e.taken] else []
  }

  function AllTaken(run: seq<WriteEvent>): seq<Byte> {
    if run == [] then [] else AllTaken(run[..|run| - 1]) + Taken(run[|run| - 1])
  }

  ghost predicate WriteOk(start: nat, run: seq<WriteEvent>, i: nat)
    requires i < |run|
  {
    match run[i]
    case Wrote(argument, taken, ok) => taken <= |argument| && (ok ==> taken == |argument|)
    case Told(p) => p == start + |AllTaken(run[..i])|
  }

  ghost predicate IsWriteRun(start: nat, run: seq<WriteEvent>) {
    forall i {:trigger WriteOk(start, run, i)} :: 0 <= i < |run| ==> WriteOk(start, run, i)
  }

  lemma ExtendWriteRun(start: nat, run: seq<WriteEvent>, e: WriteEvent)
    requires IsWriteRun(start, run)
    requires if e.Wrote? then e.taken <= |e.argument| && (e.ok ==> e.taken == |e.argument|) else e.p == start + |AllTaken(run)|
    ensures IsWriteRun(start, run + [e]) && AllTaken(run + [e]) == AllTaken(run) + Taken(e)
  {
    assert (run + [e])[..|run|] == run;
    forall i {:trigger WriteOk(start, run + [e], i)} | 0 <= i < |run| + 1
      ensures WriteOk(start, run + [e], i)
    {
      if i < |run| {
        assert WriteOk(start, run, i);
        assert (run + [e])[..i] == run[..i];
      }
    }
  }

  function AllArguments(run: seq<WriteEvent>): seq<Byte> {
    if run == [] then []
    else AllArguments(run[..|run| - 1]) + if run[|run| - 1].Wrote? then run[|run| - 1].argument else []
  }

  /** Where no write failed, what is taken is all of the arguments, one after the other, and every my_b_tell() answers
      the start plus the length of those before it. */
  lemma {:induction false} SuccessfulWritesAddUp(start: nat, run: seq<WriteEvent>)
    requires IsWriteRun(start, run) && forall i :: 0 <= i < |run| && run[i].Wrote? ==> run[i].ok
    ensures AllTaken(run) == AllArguments(run)
    ensures forall i :: 0 <= i < |run| && run[i].Told? ==> run[i].p == start + |AllArguments(run[..i])|
  {
    if run != [] {
      var k := |run| - 1;
      var init, last := run[..k], run[k];
      forall i {:trigger WriteOk(start, init, i)} | 0 <= i < k
        ensures WriteOk(start, init, i)
      {
        assert WriteOk(start, run, i);
        assert init[..i] == run[..i];
      }
      SuccessfulWritesAddUp(start, init);
      assert WriteOk(start, run, k);
      forall i | 0 <= i < |run| && run[i].Told?
        ensures run[i].p == start + |AllArguments(run[..i])|
      {
        if i < k {
          assert init[i].Told? && init[..i] == run[..i];
        }
      }
    }
  }

  // ---------- Writing ----------

  /** The contract of the slow paths for writing.  A success takes the whole argument, and leaves room if it was a mere
      flush; a failure takes a first part of it.  How much room a failure leaves is open. */
  ghost predicate SlowWrite(content: seq<Byte>, argument: seq<Byte>, error: int, taken: nat, content': seq<Byte>, room: nat) {
    && taken <= |argument| && content' == content + argument[..taken]
    && (error == 0 ==> taken == |argument|)
    && (error == 0 && argument == [] ==> room > 0)
  }

  /** The place that a byte is stored to after the slow path, if it was needed, is in the buffer whatever the slow path
      does if and only if there was room before. */
  lemma NeverOverrunsIff(content: seq<Byte>, room: nat)
    ensures (forall error, taken, content', left: nat :: SlowWrite(content, [], error, taken, content', left) ==> room > 0 || left > 0)
       <==> room > 0
  {
    assert SlowWrite(content, [], 1, 0, content + [][..0], 0);
  }

  class WriteCache {
    const start: nat                // where in the file writing began
    const buffer: array<Byte>
    var disk: seq<Byte>             // what has been written to the file since
    var posInFile: nat
    var requestPos: nat
    var writePos: nat
    var writeEnd: nat
    ghost var run: seq<WriteEvent>  // the calls so far

    ghost predicate BufferOk()
      reads this
    {
      requestPos <= writePos <= writeEnd <= buffer.Length && requestPos < writeEnd && posInFile == start + |disk|
    }

    /** What is on disk and then what is in the buffer. */
    ghost function Content(): seq<Byte>
      reads this, buffer
      requires BufferOk()
    {
      disk + buffer[requestPos..writePos]
    }

    ghost function Room(): nat
      reads this
      requires BufferOk()
    {
      writeEnd - writePos
    }

    /** Flushed bytes and buffered bytes are everything that the calls so far have taken. */
    ghost predicate Valid()
      reads this, buffer
    {
      BufferOk() && IsWriteRun(start, run) && Content() == AllTaken(run)
    }

    constructor (start: nat, size: nat)
      requires size > 0
      ensures Valid() && fresh(buffer) && this.start == start && Content() == [] && run == []
    {
      this.start, this.run := start, [];
      this.buffer := new Byte[size];
      this.disk := [];
      this.posInFile, this.requestPos, this.writePos, this.writeEnd := start, 0, 0, size;
    }

    /** After calls that all succeeded, the content is their arguments, one after the other. */
    lemma EverythingWritten()
      requires Valid() && forall i :: 0 <= i < |run| && run[i].Wrote? ==> run[i].ok
      ensures Content() == AllArguments(run)
      ensures forall i :: 0 <= i < |run| && run[i].Told? ==> run[i].p == start + |AllArguments(run[..i])|
    {
      SuccessfulWritesAddUp(start, run);
    }

    ghost method Record(e: WriteEvent)
      requires BufferOk() && IsWriteRun(start, run) && Content() == AllTaken(run) + Taken(e)
      requires if e.Wrote? then e.taken <= |e.argument| && (e.ok ==> e.taken == |e.argument|) else e.p == start + |AllTaken(run)|
      modifies this`run
      ensures Valid() && run == old(run) + [e]
    {
      ExtendWriteRun(start, run, e);
      run := run + [e];
    }

    /** Fills the room there is, or leaves the argument to the slow path. */
    method MyBWrite(src: array<Byte>, count: nat) returns (error: int, ghost taken: nat)
      requires Valid() && src != buffer && count <= src.Length
      modifies this, buffer
      ensures Valid() && run == old(run) + [Wrote(src[..count], taken, error == 0)]
      ensures Content() == old(Content()) + Taken(Wrote(src[..count], taken, error == 0))
      ensures error == 0 ==> taken == count
      ensures old(Room()) >= count ==> error == 0
    {
      ghost var argument := src[..count];
      if writePos + count <= writeEnd {
        StoreBytes(src, count);
        error, taken := 0, count;
        assert argument[..taken] == argument;
      } else {
        error, taken := WriteFunction(src[..count]);
      }
      Record(Wrote(argument, taken, error == 0));
    }

    method StoreBytes(src: array<Byte>, count: nat)
      requires BufferOk() && src != buffer && count <= src.Length && count <= Room()
      modifies this, buffer
      ensures BufferOk() && run == old(run) && Content() == old(Content()) + src[..count]
    {
      ghost var was, b, from := Content(), buffer[requestPos..writePos], writePos;
      Copy(src, 0, buffer, writePos, count);
      writePos := writePos + count;
      assert buffer[requestPos..from] == b && buffer[from..writePos] == src[..count];
      assert buffer[requestPos..writePos] == b + src[..count];
      assert Content() == was + src[..count];
    }

    method StoreByte(chr: Byte)
      requires BufferOk() && Room() > 0
      modifies this, buffer
      ensures BufferOk() && run == old(run) && Content() == old(Content()) + [chr] && Room() == old(Room()) - 1
    {
      ghost var was, b := Content(), buffer[requestPos..writePos];
      buffer[writePos] := chr;
      writePos := writePos + 1;
      assert buffer[requestPos..writePos] == b + [chr];
      assert Content() == was + [chr];
    }

    /** The macro stores without looking at the outcome of the flush.  `overrun` says that the place it stores to is
        not in the buffer.  `room` is the room there was, or if there was none, the room that the flush left. */
    method MyBWriteByte(chr: Byte) returns (overrun: bool, ghost room: nat, ghost error: int)
      requires Valid()
      modifies this, buffer
      ensures Valid() && run == old(run) + [Wrote([chr], if overrun then 0 else 1, !overrun)]
      ensures Content() == if overrun then old(Content()) else old(Content()) + [chr]
      ensures overrun <==> room == 0
      ensures old(Room()) > 0 ==> room == old(Room())
      ensures old(Room()) == 0 ==> SlowWrite(old(Content()), [], error, 0, old(Content()), room)
      ensures Room() == if overrun then 0 else room - 1
    {
      ghost var was := Content();
      overrun, error := false, 0;
      if !(writePos < writeEnd) {
        ghost var taken;
        error, taken := WriteFunction([]);
        assert SlowWrite(was, [], error, 0, Content(), Room());
      }
      assert Content() == was;
      room := Room();
      if writePos == writeEnd {
        overrun := true;
        Record(Wrote([chr], 0, false));
      } else {
        StoreByte(chr);
        Record(Wrote([chr], 1, true));
      }
    }

    method MyBTell() returns (p: nat)
      requires Valid()
      modifies this`run
      ensures Valid() && p == start + |Content()| && Content() == old(Content()) && run == old(run) + [Told(p)]
    {
      p := posInFile + (writePos - requestPos);
      Record(Told(p));
    }

    /** The contract of the write function and of _my_b_write(). */
    method WriteFunction(argument: seq<Byte>) returns (error: int, ghost taken: nat)
      requires BufferOk()
      modifies this, buffer
      ensures BufferOk() && run == old(run)
      ensures SlowWrite(old(Content()), argument, error, taken, Content(), Room())
    {
      var failing: bool := *;
      var k: nat := |argument|;
      if failing {
        k :| k <= |argument|;
      }
      var buffered := buffer[requestPos..writePos];
      var pending := buffered + argument[..k];
      var all := disk + pending;
      assert all == old(Content()) + argument[..k];
      var n: nat, end: nat :| n <= |pending| && n <= end <= buffer.Length && end > 0 && (failing || n < end);
      disk := all[..|all| - n];
      forall i | 0 <= i < n {
        buffer[i] := pending[|pending| - n + i];
      }
      assert buffer[0..n] == all[|all| - n..];
      assert disk + buffer[0..n] == all;
      posInFile, requestPos, writePos, writeEnd := start + |disk|, 0, n, end;
      return if failing then 1 else 0, k;
    }
  }
}
