/** The SPI-RAM FIFO as a protocol: one writer and one reader thread over a mutex and two binary
    semaphores. Every mutex section, every semaphore operation and every chunk computation outside the
    mutex is one step; the scheduler may interleave the two threads' steps in any way. */
module SpiRamFifo {
  import opened RingLayout
  import opened Circular

  const CHUNK: nat := 64 // SPI_FIFO_SIZE

  // ---------- State ----------

  /** Where a thread stands in its loop. */
  datatype Pc =
    | Compute            // about to start a call or to compute the next chunk
    | Section(n: nat)    // about to take the mutex for a chunk of n bytes
    | Waiting            // blocked on its semaphore
    | Giving             // the chunk is through; about to wake the other thread

  /** The FIFO object, what each thread still has to do, and the history of both directions. */
  datatype State = State(
    ram: Bytes, readPos: nat, writePos: nat, fill: nat,
    readSem: bool, writeSem: bool,
    writer: Pc, data: Bytes, writes: seq<Bytes>,
    reader: Pc, need: nat, wanted: seq<nat>,
    sent: Bytes, got: Bytes)

  function Total(s: State): nat { |s.ram| }

  function Min(a: nat, b: nat): nat { if a < b then a else b }

  /** Chunks are clipped at 64 bytes and at the physical end of the buffer. */
  function WriteChunk(s: State): nat
    requires s.writePos <= |s.ram|
  {
    Min(Min(|s.data|, CHUNK), Total(s) - s.writePos)
  }

  function ReadChunk(s: State): nat
    requires s.readPos <= |s.ram|
  {
    Min(Min(s.need, CHUNK), Total(s) - s.readPos)
  }

  // ---------- Steps ----------

  datatype Option<T> = None | Some(value: T)

  predicate Positions(s: State) {
    s.readPos < |s.ram| && s.writePos < |s.ram| && s.fill <= |s.ram|
    && (s.writer.Section? ==> s.writer.n == WriteChunk(s) && s.data != [])
    && (s.reader.Section? ==> s.reader.n == ReadChunk(s) && s.need > 0)
  }

  /** The mutex section of spi_ram_fifo_write: copy the chunk, or find too little room. */
  function WriteSection(s: State): State
    requires Positions(s) && s.writer.Section?
  {
    var n := s.writer.n;
    if Total(s) - s.fill < n then s.(writer := Waiting)
    else
      var end := s.writePos + n;
      s.(ram := s.ram[..s.writePos] + s.data[..n] + s.ram[end..],
         data := s.data[n..], sent := s.sent + s.data[..n],
         fill := s.fill + n, writePos := if end >= Total(s) then 0 else end,
         writer := Giving)
  }

  /** The writer's next step; None when it is blocked or has nothing left to do. */
  function WriterStep(s: State): Option<State>
    requires Positions(s)
  {
    match s.writer
    case Compute =>
      if s.data != [] then Some(s.(writer := Section(WriteChunk(s))))
      else if s.writes != [] then Some(s.(data := s.writes[0], writes := s.writes[1..]))
      else None
    case Section(_) => Some(WriteSection(s))
    case Waiting => if s.writeSem then Some(s.(writeSem := false, writer := Compute)) else None
    case Giving => Some(s.(readSem := true, writer := Compute))
  }

  /** The mutex section of spi_ram_fifo_read. */
  function ReadSection(s: State): State
    requires Positions(s) && s.reader.Section?
  {
    var n := s.reader.n;
    if s.fill < n then s.(reader := Waiting)
    else
      var end := s.readPos + n;
      s.(got := s.got + s.ram[s.readPos..end], need := s.need - n,
         fill := s.fill - n, readPos := if end >= Total(s) then 0 else end,
         reader := Giving)
  }

  function ReaderStep(s: State): Option<State>
    requires Positions(s)
  {
    match s.reader
    case Compute =>
      if s.need > 0 then Some(s.(reader := Section(ReadChunk(s))))
      else if s.wanted != [] then Some(s.(need := s.wanted[0], wanted := s.wanted[1..]))
      else None
    case Section(_) => Some(ReadSection(s))
    case Waiting => if s.readSem then Some(s.(readSem := false, reader := Compute)) else None
    case Giving => Some(s.(writeSem := true, reader := Compute))
  }

  ghost predicate Step(s: State, t: State) {
    Positions(s) && (WriterStep(s) == Some(t) || ReaderStep(s) == Some(t))
  }

  /** A new FIFO of the given size, and the calls the two threads are going to make. */
  ghost predicate Init(s: State) {
    && |s.ram| >= 1 && s.readPos == s.writePos == s.fill == 0
    && !s.readSem && !s.writeSem
    && s.writer == Compute && s.data == [] && s.reader == Compute && s.need == 0
    && s.sent == [] && s.got == []
  }

  // ---------- The invariant ----------

  /** The RAM holds, circularly from the read position on, the bytes sent and not yet received. */
  ghost predicate Queue(s: State) {
    && Positions(s)
    && s.got <= s.sent && s.fill == |s.sent| - |s.got|
    && s.writePos == Wrap(Total(s), s.readPos + s.fill)
    && Around(s.ram, s.readPos, s.sent[|s.got|..])
  }

  /** No wakeup is lost: a waiting thread still has to wait, or a token is there for it, or the other
      thread is about to give one. */
  ghost predicate Tokens(s: State) {
    && Positions(s)
    && (s.writer.Waiting? ==> s.data != [] && (Total(s) - s.fill < WriteChunk(s) || s.writeSem || s.reader.Giving?))
    && (s.reader.Waiting? ==> s.need > 0 && (s.fill < ReadChunk(s) || s.readSem || s.writer.Giving?))
  }

  ghost predicate Inv(s: State) { Queue(s) && Tokens(s) }

  lemma {:induction false} InitInv(s: State)
    requires Init(s)
    ensures Inv(s)
  {
  }

  lemma {:induction false} CopyQueue(s: State)
    requires Queue(s) && s.writer.Section? && Total(s) - s.fill >= s.writer.n
    ensures Queue(WriteSection(s))
  {
    hide Around;
    var t := WriteSection(s);
    var queue, chunk := s.sent[|s.got|..], s.data[..s.writer.n];
    AroundAppend(s.ram, t.ram, s.readPos, queue, chunk);
    assert t.sent[|t.got|..] == queue + chunk;
    assert t.got <= t.sent;
  }

  lemma {:induction false} WriterQueue(s: State, t: State)
    requires Queue(s) && WriterStep(s) == Some(t)
    ensures Queue(t)
  {
    hide Around;
    if s.writer.Section? && Total(s) - s.fill >= s.writer.n {
      CopyQueue(s);
    }
  }

  lemma {:induction false} TakeFromSent(sent: Bytes, got: Bytes, n: nat)
    requires got <= sent && |got| + n <= |sent|
    ensures got + sent[|got|..][..n] <= sent
    ensures sent[|got + sent[|got|..][..n]|..] == sent[|got|..][n..]
  {
    assert got + sent[|got|..][..n] == sent[..|got| + n];
  }

  lemma {:induction false} TakeQueue(s: State)
    requires Queue(s) && s.reader.Section? && s.fill >= s.reader.n
    ensures Queue(ReadSection(s))
  {
    hide Around;
    var t := ReadSection(s);
    var queue, n := s.sent[|s.got|..], s.reader.n;
    AroundSlice(s.ram, s.readPos, queue, n);
    AroundDrop(s.ram, s.readPos, queue, n);
    TakeFromSent(s.sent, s.got, n);
  }

  lemma {:induction false} ReaderQueue(s: State, t: State)
    requires Queue(s) && ReaderStep(s) == Some(t)
    ensures Queue(t)
  {
    hide Around;
    if s.reader.Section? && s.fill >= s.reader.n {
      TakeQueue(s);
    }
  }

  lemma {:induction false} WriterTokens(s: State, t: State)
    requires Inv(s) && WriterStep(s) == Some(t) && Queue(t)
    ensures Tokens(t)
  {
    hide Queue, Around;
    QueuePositions(s);
    QueuePositions(t);
  }

  lemma {:induction false} QueuePositions(s: State)
    requires Queue(s)
    ensures Positions(s)
  {
  }

  lemma {:induction false} ReaderTokens(s: State, t: State)
    requires Inv(s) && ReaderStep(s) == Some(t) && Queue(t)
    ensures Tokens(t)
  {
    hide Queue;
  }

  lemma {:induction false} StepInv(s: State, t: State)
    requires Inv(s) && Step(s, t)
    ensures Inv(t)
  {
    hide Queue, Tokens, Positions;
    if WriterStep(s) == Some(t) {
      WriterQueue(s, t);
      WriterTokens(s, t);
    } else {
      ReaderQueue(s, t);
      ReaderTokens(s, t);
    }
  }

  // ---------- No deadlock ----------

  /** Because chunks are clipped at the physical end, the two wait conditions exclude each other. */
  lemma {:induction false} NotBothShort(s: State)
    requires Queue(s)
    ensures !(Total(s) - s.fill < WriteChunk(s) && s.fill < ReadChunk(s))
  {
  }

  ghost predicate WriterBlocked(s: State) { s.writer.Waiting? && !s.writeSem }

  ghost predicate ReaderBlocked(s: State) { s.reader.Waiting? && !s.readSem }

  /** The two threads never block each other. */
  lemma {:induction false} NoDeadlock(s: State)
    requires Inv(s)
    ensures !(WriterBlocked(s) && ReaderBlocked(s))
  {
    NotBothShort(s);
  }

  /** A thread about to take the mutex has set itself a chunk of at least one and at most 64 bytes, none of
      them beyond its call or past the physical end, and as many as that allows. */
  lemma {:induction false} ChunkExact(s: State)
    requires Inv(s)
    ensures s.writer.Section? ==>
              && 1 <= s.writer.n <= 64 && s.writer.n <= |s.data| && s.writePos + s.writer.n <= |s.ram|
              && (s.writer.n == 64 || s.writer.n == |s.data| || s.writePos + s.writer.n == |s.ram|)
    ensures s.reader.Section? ==>
              && 1 <= s.reader.n <= 64 && s.reader.n <= s.need && s.readPos + s.reader.n <= |s.ram|
              && (s.reader.n == 64 || s.reader.n == s.need || s.readPos + s.reader.n == |s.ram|)
  {
    hide Queue;
    QueuePositions(s);
  }

  /** A blocked writer lacks room for a chunk, and a blocked reader lacks one, unless the other thread is about
      to wake it: there are fewer than 64 bytes of room, or of data, and fewer than it still has to transfer. */
  lemma {:induction false} BlockedForAReason(s: State)
    requires Inv(s)
    ensures WriterBlocked(s) && !s.reader.Giving? ==> |s.ram| - s.fill < 64 && |s.ram| - s.fill < |s.data|
    ensures ReaderBlocked(s) && !s.writer.Giving? ==> s.fill < 64 && s.fill < s.need
  {
    hide Queue;
    QueuePositions(s);
  }

  // ---------- Whole runs ----------

  function SumWrites(w: seq<Bytes>): nat { if w == [] then 0 else |w[0]| + SumWrites(w[1..]) }

  function SumReads(r: seq<nat>): nat { if r == [] then 0 else r[0] + SumReads(r[1..]) }

  function Concat(w: seq<Bytes>): Bytes { if w == [] then [] else w[0] + Concat(w[1..]) }

  /** Bytes still to be written and read. */
  function ToWrite(s: State): nat { |s.data| + SumWrites(s.writes) }

  function ToRead(s: State): nat { s.need + SumReads(s.wanted) }

  function Rank(p: Pc): nat {
    match p
    case Compute => 3
    case Section(_) => 2
    case Waiting => 1
    case Giving => 9
  }

  /** Decreases with every step of either thread: no run goes on for ever, however it is scheduled. */
  function Measure(s: State): nat {
    8 * (ToWrite(s) + ToRead(s)) + 4 * ((if s.writeSem then 1 else 0) + (if s.readSem then 1 else 0))
    + |s.writes| + |s.wanted| + Rank(s.writer) + Rank(s.reader)
  }

  lemma {:induction false} WriterDecreases(s: State, t: State)
    requires Inv(s) && WriterStep(s) == Some(t)
    ensures Measure(t) < Measure(s)
  {
    hide Queue;
    QueuePositions(s);
  }

  lemma {:induction false} ReaderDecreases(s: State, t: State)
    requires Inv(s) && ReaderStep(s) == Some(t)
    ensures Measure(t) < Measure(s)
  {
    hide Around;
  }

  lemma {:induction false} StepDecreases(s: State, t: State)
    requires Inv(s) && Step(s, t)
    ensures Measure(t) < Measure(s)
  {
    hide Measure;
    if WriterStep(s) == Some(t) { WriterDecreases(s, t); } else { ReaderDecreases(s, t); }
  }

  /** What the writer has been asked to write in all, and how much the reader is asked to read. */
  function AllInput(s: State): Bytes { s.sent + s.data + Concat(s.writes) }

  lemma {:induction false} ConcatFirst(w: seq<Bytes>)
    requires w != []
    ensures Concat(w) == w[0] + Concat(w[1..])
  {
  }

  lemma {:induction false} MoveBytes(sent: Bytes, data: Bytes, n: nat, rest: Bytes)
    requires n <= |data|
    ensures (sent + data[..n]) + data[n..] + rest == sent + data + rest
    ensures sent + [] + (data + rest) == sent + data + rest
  {
    assert data[..n] + data[n..] == data;
  }

  lemma {:induction false} WriterConserves(s: State, t: State)
    requires Positions(s) && WriterStep(s) == Some(t)
    ensures AllInput(t) == AllInput(s) && t.got == s.got && ToRead(t) == ToRead(s)
  {
    hide SumReads, Concat;
    if s.writer.Section? && t.writer.Giving? {
      MoveBytes(s.sent, s.data, s.writer.n, Concat(s.writes));
    } else if s.writer.Compute? && s.data == [] && s.writes != [] {
      ConcatFirst(s.writes);
      MoveBytes(s.sent, t.data, 0, Concat(t.writes));
    }
  }

  lemma {:induction false} ReaderConserves(s: State, t: State)
    requires Positions(s) && ReaderStep(s) == Some(t)
    ensures AllInput(t) == AllInput(s) && |t.got| + ToRead(t) == |s.got| + ToRead(s)
  {
    hide Concat;
  }

  lemma {:induction false} StepConserves(s: State, t: State)
    requires Inv(s) && Step(s, t)
    ensures AllInput(t) == AllInput(s)
    ensures |t.got| + ToRead(t) == |s.got| + ToRead(s)
  {
    hide AllInput, ToRead, WriterStep, ReaderStep;
    if WriterStep(s) == Some(t) { WriterConserves(s, t); } else { ReaderConserves(s, t); }
  }

  /** A run: consecutive states are one step apart. */
  ghost predicate IsRun(run: seq<State>) {
    |run| >= 1 && Init(run[0]) && forall i :: 0 <= i < |run| - 1 ==> Step(run[i], run[i + 1])
  }

  lemma {:induction false} RunFacts(run: seq<State>, i: nat)
    requires IsRun(run) && i < |run|
    ensures Inv(run[i])
    ensures i + Measure(run[i]) <= Measure(run[0])
    ensures AllInput(run[i]) == Concat(run[0].writes)
    ensures |run[i].got| + ToRead(run[i]) == SumReads(run[0].wanted)
  {
    hide Inv, Step, Init, Measure, AllInput, ToRead, Concat, SumReads;
    if i == 0 {
      InitInv(run[0]);
      InitTotals(run[0]);
    } else {
      assert Step(run[i - 1], run[i]);
      hide IsRun;
      RunFacts(run, i - 1);
      StepInv(run[i - 1], run[i]);
      StepDecreases(run[i - 1], run[i]);
      StepConserves(run[i - 1], run[i]);
    }
  }

  lemma {:induction false} InitTotals(s: State)
    requires Init(s)
    ensures AllInput(s) == Concat(s.writes) && |s.got| + ToRead(s) == SumReads(s.wanted)
  {
  }

  /** At every moment of every run, what has been read is a prefix of what has been written, which is a
      prefix of the input; the fill level is the circular distance from the read to the write position;
      and the two threads do not block each other. */
  lemma {:induction false} EveryMoment(run: seq<State>, i: nat)
    requires IsRun(run) && i < |run|
    ensures var s := run[i];
            && s.got <= s.sent <= Concat(run[0].writes)
            && (if s.readPos == s.writePos then s.fill == 0 || s.fill == Total(s)
                else s.fill == (if s.writePos > s.readPos then s.writePos - s.readPos
                                else Total(s) - (s.readPos - s.writePos)))
            && !(WriterBlocked(s) && ReaderBlocked(s))
    ensures i <= Measure(run[0])
  {
    RunFacts(run, i);
    NoDeadlock(run[i]);
    assert run[i].sent <= AllInput(run[i]);
  }

  /** No step is possible. */
  ghost predicate Stuck(s: State) {
    Positions(s) && WriterStep(s).None? && ReaderStep(s).None?
  }

  lemma {:induction false} ConcatLength(w: seq<Bytes>)
    ensures |Concat(w)| == SumWrites(w)
  {
    if w != [] { ConcatLength(w[1..]); }
  }

  /** Whatever the totals, a run can only end with one thread through with all its calls; the other is
      through as well, or waits for a chunk that is not there: the writer for room, the reader for data. */
  lemma {:induction false} EndsWithOneFinished(run: seq<State>)
    requires IsRun(run) && Stuck(run[|run| - 1])
    ensures var s := run[|run| - 1];
            && (WriterDone(s) || ReaderDone(s))
            && (WriterDone(s) || (s.writer.Waiting? && s.data != [] && Total(s) - s.fill < WriteChunk(s)))
            && (ReaderDone(s) || (s.reader.Waiting? && s.need > 0 && s.fill < ReadChunk(s)))
  {
    hide Queue;
    RunFacts(run, |run| - 1);
    NoDeadlock(run[|run| - 1]);
    QueuePositions(run[|run| - 1]);
  }

  predicate WriterDone(s: State) { s.writer == Compute && s.data == [] && s.writes == [] }

  predicate ReaderDone(s: State) { s.reader == Compute && s.need == 0 && s.wanted == [] }

  /** If the reader asks for no more than the writer writes, a run can only end with the reader through, with
      exactly the first bytes of the input; if it asks for no less, with the writer through and the whole input
      sent; and if both, with everything transferred. */
  lemma {:induction false} EndsComplete(run: seq<State>)
    requires IsRun(run) && Stuck(run[|run| - 1])
    ensures var s, input, total := run[|run| - 1], Concat(run[0].writes), SumReads(run[0].wanted);
            && |input| == SumWrites(run[0].writes)
            && (total <= |input| ==> ReaderDone(s) && s.got == input[..total])
            && (total >= |input| ==> WriterDone(s) && s.sent == input)
  {
    hide Queue, Concat, SumReads, SumWrites;
    var s := run[|run| - 1];
    RunFacts(run, |run| - 1);
    EndsWithOneFinished(run);
    ConcatLength(run[0].writes);
    ConcatLength(s.writes);
    NothingLeftToDo(s);
    QueueOrder(s);
    QueuePositions(s);
    assert |AllInput(s)| == |s.sent| + ToWrite(s);
    assert |s.sent| + ToWrite(s) == |Concat(run[0].writes)|;
    assert |s.got| + ToRead(s) == SumReads(run[0].wanted);
    if WriterDone(s) { assert AllInput(s) == s.sent; }
    assert s.got <= AllInput(s);
  }

  lemma {:induction false} NothingLeftToDo(s: State)
    ensures WriterDone(s) ==> ToWrite(s) == 0 && Concat(s.writes) == []
    ensures ReaderDone(s) ==> ToRead(s) == 0
  {
  }

  lemma {:induction false} QueueOrder(s: State)
    requires Queue(s)
    ensures s.got <= s.sent && s.fill == |s.sent| - |s.got|
  {
  }
}
