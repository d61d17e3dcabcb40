/**
 * Double-buffered logging as a state machine: any number of threads append lines under the mutex
 * while one thread takes full buffers away, writes them and hands empty ones back.
 */
module AsyncLogging {
  import LogBuffer
  import opened Options

  type Line = string

  /** A buffer by the lines in it; its bytes are the lines run together. */
  type Buffer = seq<Line>

  datatype Chunk = Data(bytes: string) | Notice(text: string)

  /** Where the logging thread is. */
  datatype PC = Head | Waiting | Taken | Writing(i: nat) | Resizing | Recycling1 | Recycling2 | Clearing | Exited

  /** accepted, batches and batch are history: every line that went in, and every vector of buffers taken out. */
  datatype State = State(
    size: nat, running: bool, current: Buffer, next: Option<Buffer>, buffers: seq<Buffer>,
    pc: PC, new1: Option<Buffer>, new2: Option<Buffer>, toWrite: seq<Buffer>, file: seq<Chunk>,
    accepted: seq<Line>, batches: seq<seq<Buffer>>, batch: seq<Buffer>)

  datatype Step = Append(line: Line) | Log(notice: string) | Stop

  const MAX_QUEUED := 25

  // ---------------------------------------------------------------- bytes and lines

  ghost function Bytes(b: Buffer): (s: string) {
    if b == [] then "" else Bytes(b[..|b| - 1]) + b[|b| - 1]
  }

  ghost function Lines(bs: seq<Buffer>): (ls: seq<Line>) {
    if bs == [] then [] else Lines(bs[..|bs| - 1]) + bs[|bs| - 1]
  }

  /** What is kept of a batch: all of it, or the first two buffers when more than 25 had piled up. */
  function Kept(batch: seq<Buffer>): (k: seq<Buffer>)
    ensures k <= batch && |k| == if |batch| > 25 then 2 else |batch|
  {
    if |batch| > MAX_QUEUED then batch[..2] else batch
  }

  ghost function AllLines(batches: seq<seq<Buffer>>): (ls: seq<Line>) {
    if batches == [] then [] else AllLines(batches[..|batches| - 1]) + Lines(batches[|batches| - 1])
  }

  ghost function KeptLines(batches: seq<seq<Buffer>>): (ls: seq<Line>) {
    if batches == [] then [] else KeptLines(batches[..|batches| - 1]) + Lines(Kept(batches[|batches| - 1]))
  }

  /** The log proper: the file without the notices about dropped buffers. */
  ghost function DataOf(file: seq<Chunk>): (s: string) {
    if file == [] then "" else
      DataOf(file[..|file| - 1]) + (match file[|file| - 1] case Data(bytes) => bytes case Notice(_) => "")
  }

  // ---------------------------------------------------------------- steps

  /** FixedBuffer::append on a buffer of lines. */
  ghost function Fit(b: Buffer, line: Line, size: nat): (r: Buffer) {
    if |Bytes(b)| <= size && size - |Bytes(b)| > |line| then b + [line] else b
  }

  ghost predicate Enabled(s: State, step: Step) {
    step.Log? ==> !s.pc.Exited?
  }

  /** A line is taken in if a buffer can hold it at all. */
  ghost predicate Fits(s: State, line: Line) {
    |line| < s.size
  }

  ghost function AfterAppend(s: State, line: Line): State {
    var s := s.(accepted := if Fits(s, line) then s.accepted + [line] else s.accepted);
    if |Bytes(s.current)| <= s.size && s.size - |Bytes(s.current)| > |line| then
      s.(current := Fit(s.current, line, s.size))
    else
      var spare := if s.next.Some? then s.next.value else [];
      s.(buffers := s.buffers + [s.current], current := Fit(spare, line, s.size), next := None)
  }

  /** The end of the logging thread's critical section: everything collected is taken, spare buffers are left. */
  ghost function AfterSwap(s: State): State
    requires s.new1.Some? && s.new2.Some?
  {
    var taken := s.buffers + [s.current];
    s.(current := s.new1.value, new1 := None, buffers := [], toWrite := taken, batch := taken, pc := Taken,
       next := if s.next.None? then s.new2 else s.next,
       new2 := if s.next.None? then None else s.new2)
  }

  /** The asserts of the logging thread, each where the source makes it. */
  ghost predicate AssertsHold(s: State) {
    match s.pc
    case Head => s.new1 == Some([]) && s.new2 == Some([]) && s.toWrite == []
    case Waiting => s.new1 == Some([]) && s.new2 == Some([]) && s.toWrite == []
    case Taken => s.toWrite != []
    case Recycling1 => s.new1.None? ==> s.toWrite != []
    case Recycling2 => s.new2.None? ==> s.toWrite != []
    case _ => true
  }

  ghost function AfterLog(s: State, notice: string): State
    requires !s.pc.Exited? && AssertsHold(s)
  {
    match s.pc
    case Head =>
      if !s.running then s.(pc := Exited)
      else if s.buffers == [] then s.(pc := Waiting)
      else AfterSwap(s)
    case Waiting => AfterSwap(s)
    case Taken =>
      if |s.toWrite| > MAX_QUEUED then s.(file := s.file + [Notice(notice)], toWrite := s.toWrite[..2], pc := Writing(0))
      else s.(pc := Writing(0))
    case Writing(i) =>
      if i < |s.toWrite| then s.(file := s.file + [Data(Bytes(s.toWrite[i]))], pc := Writing(i + 1))
      else s.(pc := Resizing)
    case Resizing =>
      s.(toWrite := if |s.toWrite| > 2 then s.toWrite[..2] else s.toWrite, pc := Recycling1,
         batches := s.batches + [s.batch], batch := [])
    case Recycling1 =>
      if s.new1.None? then s.(new1 := Some([]), toWrite := s.toWrite[..|s.toWrite| - 1], pc := Recycling2)
      else s.(pc := Recycling2)
    case Recycling2 =>
      if s.new2.None? then s.(new2 := Some([]), toWrite := s.toWrite[..|s.toWrite| - 1], pc := Clearing)
      else s.(pc := Clearing)
    case Clearing => s.(toWrite := [], pc := Head)
  }

  ghost function Apply(s: State, step: Step): State
    requires AssertsHold(s) && Enabled(s, step)
  {
    match step
    case Append(line) => AfterAppend(s, line)
    case Log(notice) => AfterLog(s, notice)
    case Stop => s.(running := false)
  }

  // ---------------------------------------------------------------- the invariant

  ghost predicate Sized(b: Buffer, size: nat) {
    b == [] || |Bytes(b)| < size
  }

  /** The asserts of the source and what they rest on. */
  ghost predicate Spares(s: State) {
    && (s.next.Some? ==> s.next.value == [])
    && (s.new1.Some? ==> s.new1.value == []) && (s.new2.Some? ==> s.new2.value == [])
    && (s.next.None? ==> s.buffers != [])
    && match s.pc
       case Head => s.new1.Some? && s.new2.Some? && s.toWrite == []
       case Waiting => s.new1.Some? && s.new2.Some? && s.toWrite == []
       case Exited => s.new1.Some? && s.new2.Some? && s.toWrite == []
       case Recycling2 => s.new1.Some? && (s.new2.None? ==> s.toWrite != [])
       case Clearing => s.new1.Some? && s.new2.Some?
       case _ => s.new1.None? && s.toWrite != [] && (s.new2.None? ==> |s.toWrite| >= 2)
  }

  /** The part of the current batch that the thread is still going to write, and what it has written. */
  ghost function Done(s: State): nat {
    if s.pc.Writing? then s.pc.i else if s.pc.Resizing? then |s.toWrite| else 0
  }

  ghost predicate Vectors(s: State) {
    match s.pc
    case Taken => s.toWrite == s.batch
    case Writing(i) => s.toWrite == Kept(s.batch) && i <= |s.toWrite|
    case Resizing => s.toWrite == Kept(s.batch)
    case _ => s.batch == []
  }

  /** Nothing lost, nothing twice, nothing out of order. */
  ghost predicate Conserved(s: State) {
    AllLines(s.batches) + Lines(s.batch) + Lines(s.buffers) + s.current == s.accepted
  }

  ghost predicate Logged(s: State) {
    Done(s) <= |s.toWrite| && DataOf(s.file) == Bytes(KeptLines(s.batches) + Lines(s.toWrite[..Done(s)]))
  }

  ghost predicate NoOverflow(s: State) {
    && Sized(s.current, s.size)
    && (forall i :: 0 <= i < |s.buffers| ==> Sized(s.buffers[i], s.size))
    && (forall i :: 0 <= i < |s.toWrite| ==> Sized(s.toWrite[i], s.size))
  }

  ghost predicate Inv(s: State) {
    Spares(s) && Vectors(s) && Conserved(s) && Logged(s) && NoOverflow(s)
  }

  ghost predicate Init(s: State) {
    && s.current == [] && s.next == Some([]) && s.buffers == [] && s.running
    && s.pc == Head && s.new1 == Some([]) && s.new2 == Some([]) && s.toWrite == [] && s.file == []
    && s.accepted == [] && s.batches == [] && s.batch == []
  }

  lemma InitInv(s: State)
    requires Init(s)
    ensures Inv(s)
  {
  }

  // ---------------------------------------------------------------- appending

  /** The line model of a buffer agrees with the bytes of the array it stands for. */
  lemma FitIsAppend(b: Buffer, line: Line, size: nat)
    ensures Bytes(Fit(b, line, size)) == LogBuffer.Appended(Bytes(b), line, size)
    ensures Sized(b, size) ==> Sized(Fit(b, line, size), size)
  {
    assert (b + [line])[..|b|] == b;
  }

  lemma LinesSnoc(bs: seq<Buffer>, b: Buffer)
    ensures Lines(bs + [b]) == Lines(bs) + b
  {
    assert (bs + [b])[..|bs|] == bs;
  }

  lemma {:induction false} BytesConcat(a: Buffer, b: Buffer)
    ensures Bytes(a + b) == Bytes(a) + Bytes(b)
  {
    if b == [] {
      assert a + b == a;
    } else {
      BytesConcat(a, b[..|b| - 1]);
      assert (a + b)[..|a + b| - 1] == a + b[..|b| - 1];
    }
  }

  lemma AppendConserves(s: State, line: Line)
    requires Inv(s)
    ensures Conserved(AfterAppend(s, line))
  {
    hide Vectors, Logged, AllLines, Bytes, Lines;
    LinesSnoc(s.buffers, s.current);
    var s' := AfterAppend(s, line);
    if |Bytes(s.current)| <= s.size && s.size - |Bytes(s.current)| > |line| {
      assert s'.current == s.current + [line];
    } else {
      BytesNone();
      assert s.next.Some? ==> s.next.value == [];
      assert s'.current == if Fits(s, line) then [line] else [];
    }
  }

  lemma BytesNone()
    ensures Bytes([]) == ""
  {
  }

  lemma AppendInv(s: State, line: Line)
    requires Inv(s)
    ensures Inv(AfterAppend(s, line))
  {
    hide Conserved, AllLines, Bytes, Lines, KeptLines, DataOf;
    AppendConserves(s, line);
    BytesNone();
    FitIsAppend(s.current, line, s.size);
    FitIsAppend([], line, s.size);
  }

  // ---------------------------------------------------------------- logging

  lemma SwapInv(s: State)
    requires Inv(s) && (s.pc.Head? || s.pc.Waiting?)
    ensures Inv(AfterSwap(s))
  {
    hide AllLines, Bytes, Lines, KeptLines, DataOf;
    LinesSnoc(s.buffers, s.current);
    NoLines();
    var s' := AfterSwap(s);
    assert Lines(s'.batch) == Lines(s.buffers) + s.current;
    assert s'.toWrite[..0] == [] && s.toWrite[..0] == [];
  }

  lemma NoLines()
    ensures Lines([]) == [] && Bytes([]) == ""
  {
  }

  lemma DataSnoc(file: seq<Chunk>, c: Chunk)
    ensures DataOf(file + [c]) == DataOf(file) + (match c case Data(bytes) => bytes case Notice(_) => "")
  {
    assert (file + [c])[..|file|] == file;
  }

  lemma DropInv(s: State, notice: string)
    requires Inv(s) && s.pc.Taken?
    ensures Inv(AfterLog(s, notice))
  {
    hide AllLines, Bytes, Lines, KeptLines, DataOf, Conserved;
    DataSnoc(s.file, Notice(notice));
    var s' := AfterLog(s, notice);
    KeepConserved(s, s');
    assert s'.toWrite[..0] == [] && s.toWrite[..0] == [];
    assert DataOf(s.file) + "" == DataOf(s.file);
  }

  lemma KeepConserved(s: State, s': State)
    requires Conserved(s) && s'.batches == s.batches && s'.batch == s.batch && s'.buffers == s.buffers
    requires s'.current == s.current && s'.accepted == s.accepted
    ensures Conserved(s')
  {
  }

  lemma WriteInv(s: State, notice: string)
    requires Inv(s) && s.pc.Writing?
    ensures Inv(AfterLog(s, notice))
  {
    hide AllLines, Bytes, Lines, KeptLines, DataOf, Conserved, Kept;
    var s' := AfterLog(s, notice);
    KeepConserved(s, s');
    var i := s.pc.i;
    if i < |s.toWrite| {
      var b := s.toWrite[i];
      DataSnoc(s.file, Data(Bytes(b)));
      LinesSnoc(s.toWrite[..i], b);
      assert s.toWrite[..i + 1] == s.toWrite[..i] + [b];
      var before := KeptLines(s.batches) + Lines(s.toWrite[..i]);
      BytesConcat(before, b);
      assert KeptLines(s.batches) + Lines(s.toWrite[..i + 1]) == before + b;
    }
  }

  lemma ResizeInv(s: State, notice: string)
    requires Inv(s) && s.pc.Resizing?
    ensures Inv(AfterLog(s, notice))
  {
    hide Bytes, Lines, DataOf, Kept;
    var s' := AfterLog(s, notice);
    assert s'.batches[..|s.batches|] == s.batches;
    NoLines();
    assert s.toWrite[..|s.toWrite|] == s.toWrite;
    assert s'.toWrite[..0] == [];
    KeptEnough(s.batch);
    assert AllLines(s'.batches) == AllLines(s.batches) + Lines(s.batch);
    assert KeptLines(s'.batches) + Lines([]) == KeptLines(s.batches) + Lines(s.toWrite);
  }

  lemma KeptEnough(batch: seq<Buffer>)
    ensures |Kept(batch)| >= 2 <==> |batch| >= 2
    ensures Kept(batch) <= batch
  {
  }

  lemma RecycleInv(s: State, notice: string)
    requires Inv(s) && (s.pc.Recycling1? || s.pc.Recycling2? || s.pc.Clearing?)
    ensures Inv(AfterLog(s, notice))
  {
    hide AllLines, Bytes, Lines, KeptLines, DataOf, Conserved, Kept;
    var s' := AfterLog(s, notice);
    KeepConserved(s, s');
    assert s'.toWrite[..0] == [] && s.toWrite[..0] == [];
  }

  lemma LogInv(s: State, notice: string)
    requires Inv(s) && !s.pc.Exited?
    ensures Inv(AfterLog(s, notice))
  {
    hide Conserved, NoOverflow, AllLines, Bytes, Lines, KeptLines, DataOf, Kept, AfterSwap;
    match s.pc
    case Head =>
      if s.running && s.buffers != [] {
        SwapInv(s);
      } else {
        var s' := AfterLog(s, notice);
        KeepConserved(s, s');
        SameBuffers(s, s');
      }
    case Waiting => SwapInv(s);
    case Taken => DropInv(s, notice);
    case Writing(_) => WriteInv(s, notice);
    case Resizing => ResizeInv(s, notice);
    case _ => RecycleInv(s, notice);
  }

  lemma SameBuffers(s: State, s': State)
    requires NoOverflow(s) && s'.current == s.current && s'.buffers == s.buffers && s'.toWrite == s.toWrite && s'.size == s.size
    ensures NoOverflow(s')
  {
  }

  // ---------------------------------------------------------------- runs

  lemma StepInv(s: State, step: Step)
    requires Inv(s) && Enabled(s, step)
    ensures Inv(Apply(s, step))
  {
    hide AfterLog, AfterAppend, AllLines, Bytes, Lines, KeptLines, DataOf, Kept;
    match step
    case Append(line) => AppendInv(s, line);
    case Log(notice) => LogInv(s, notice);
    case Stop =>
  }

  /** Any interleaving of appends, steps of the logging thread and a stop. */
  ghost predicate Run(states: seq<State>, steps: seq<Step>) {
    && |states| == |steps| + 1
    && Init(states[0])
    && forall i :: 0 <= i < |steps| ==> Goes(states[i], steps[i], states[i + 1])
  }

  /** What follows a failed assert is left open. */
  ghost predicate Goes(s: State, step: Step, s': State) {
    Enabled(s, step) && (AssertsHold(s) ==> s' == Apply(s, step))
  }

  lemma {:induction false} RunInv(states: seq<State>, steps: seq<Step>, i: nat)
    requires Run(states, steps) && i < |states|
    ensures Inv(states[i]) && AssertsHold(states[i])
    decreases i
  {
    hide Inv, Init, Apply, Enabled, AssertsHold;
    if i == 0 {
      InitInv(states[0]);
    } else {
      RunInv(states, steps, i - 1);
      assert Goes(states[i - 1], steps[i - 1], states[i]);
      StepInv(states[i - 1], steps[i - 1]);
    }
    SparesMeanAsserts(states[i]);
  }

  lemma SparesMeanAsserts(s: State)
    requires Inv(s)
    ensures AssertsHold(s)
  {
    hide Vectors, Conserved, Logged, NoOverflow;
  }

  // ---------------------------------------------------------------- what the callers did

  /** The lines of the append calls that a buffer of that size can hold, in the order of the calls. */
  ghost function Appended(steps: seq<Step>, size: nat): (ls: seq<Line>) {
    if steps == [] then [] else
      var last := steps[|steps| - 1];
      Appended(steps[..|steps| - 1], size) + (if last.Append? && |last.line| < size then [last.line] else [])
  }

  lemma AppendedSnoc(steps: seq<Step>, step: Step, size: nat)
    ensures Appended(steps + [step], size) == Appended(steps, size) + (if step.Append? && |step.line| < size then [step.line] else [])
  {
    assert (steps + [step])[..|steps|] == steps;
  }

  lemma StepHistory(s: State, step: Step)
    requires AssertsHold(s) && Enabled(s, step)
    ensures var s' := Apply(s, step);
      && s'.accepted == s.accepted + (if step.Append? && |step.line| < s.size then [step.line] else [])
      && s'.size == s.size && s'.running == (s.running && !step.Stop?)
  {
    hide Fit, Bytes;
  }

  /** Every line of an append call that fits is accepted, whole and in order; the logger runs until it is told to stop. */
  lemma {:induction false} RunAccepted(states: seq<State>, steps: seq<Step>, i: nat)
    requires Run(states, steps) && i < |states|
    ensures states[i].size == states[0].size && states[i].accepted == Appended(steps[..i], states[0].size)
    ensures states[i].running <==> Stop !in steps[..i]
    decreases i
  {
    hide Inv, Apply, Enabled, AssertsHold, Appended;
    if i == 0 {
      assert steps[..0] == [] && Appended([], states[0].size) == [] by { NoneAppended(states[0].size); }
    } else {
      RunAccepted(states, steps, i - 1);
      RunInv(states, steps, i - 1);
      assert Goes(states[i - 1], steps[i - 1], states[i]);
      StepHistory(states[i - 1], steps[i - 1]);
      assert steps[..i] == steps[..i - 1] + [steps[i - 1]];
      AppendedSnoc(steps[..i - 1], steps[i - 1], states[0].size);
    }
  }

  lemma NoneAppended(size: nat)
    ensures Appended([], size) == []
  {
  }

  // ---------------------------------------------------------------- what ends up in the file

  /** Lines that are on their way: the rest of the batch being written, the full buffers, the current one. */
  ghost function Pending(s: State): Buffer
    requires Done(s) <= |s.toWrite|
  {
    var rest := if s.pc.Taken? || s.pc.Writing? then s.toWrite[Done(s)..] else [];
    Lines(rest) + Lines(s.buffers) + s.current
  }

  ghost predicate NeverOverrun(s: State) {
    |s.batch| <= 25 && forall i :: 0 <= i < |s.batches| ==> |s.batches[i]| <= 25
  }

  lemma {:induction false} LinesConcat(a: seq<Buffer>, b: seq<Buffer>)
    ensures Lines(a + b) == Lines(a) + Lines(b)
  {
    if b == [] {
      assert a + b == a;
    } else {
      LinesConcat(a, b[..|b| - 1]);
      assert (a + b)[..|a + b| - 1] == a + b[..|b| - 1];
    }
  }

  lemma {:induction false} AllKept(batches: seq<seq<Buffer>>)
    requires forall i :: 0 <= i < |batches| ==> |batches[i]| <= 25
    ensures KeptLines(batches) == AllLines(batches)
  {
    if batches == [] {
    } else {
      AllKept(batches[..|batches| - 1]);
    }
  }

  /** Unless more than 25 buffers piled up at once, file and pending lines are exactly the lines appended, in order. */
  lemma NothingLost(states: seq<State>, steps: seq<Step>, i: nat)
    requires Run(states, steps) && i < |states| && NeverOverrun(states[i])
    ensures Done(states[i]) <= |states[i].toWrite|
    ensures DataOf(states[i].file) + Bytes(Pending(states[i])) == Bytes(Appended(steps[..i], states[0].size))
  {
    hide Run, DataOf, Bytes, Lines, KeptLines, AllLines, NoOverflow, Appended;
    RunInv(states, steps, i);
    RunAccepted(states, steps, i);
    var s := states[i];
    AllKept(s.batches);
    NoLines();
    var d := Done(s);
    var written := KeptLines(s.batches) + Lines(s.toWrite[..d]);
    BytesConcat(written, Pending(s));
    if s.pc.Taken? || s.pc.Writing? || s.pc.Resizing? {
      LinesConcat(s.toWrite[..d], s.toWrite[d..]);
      assert s.toWrite[..d] + s.toWrite[d..] == s.toWrite == s.batch;
    } else {
      assert s.toWrite[..d] == [];
    }
    assert written + Pending(s) == s.accepted;
  }

  /**
   * In every state the file is what is kept of the batches taken so far, and of the current one as far as it has been
   * written: only buffers from the third on of a batch of more than 25 are ever missing.
   */
  lemma OnlyOverrunLost(states: seq<State>, steps: seq<Step>, i: nat)
    requires Run(states, steps) && i < |states|
    ensures var s := states[i];
      && Done(s) <= |Kept(s.batch)|
      && DataOf(s.file) == Bytes(KeptLines(s.batches) + Lines(Kept(s.batch)[..Done(s)]))
      && Appended(steps[..i], states[0].size) == AllLines(s.batches) + Lines(s.batch) + Lines(s.buffers) + s.current
  {
    hide Run, DataOf, Bytes, KeptLines, AllLines, NoOverflow, Lines, Appended;
    RunInv(states, steps, i);
    RunAccepted(states, steps, i);
    var s := states[i];
    if s.pc.Writing? || s.pc.Resizing? {
      assert s.toWrite == Kept(s.batch);
    } else {
      assert Done(s) == 0 && s.toWrite[..0] == Kept(s.batch)[..0];
    }
  }

  ghost function Notices(file: seq<Chunk>): (n: nat) {
    if file == [] then 0 else Notices(file[..|file| - 1]) + (if file[|file| - 1].Notice? then 1 else 0)
  }

  ghost function Overruns(batches: seq<seq<Buffer>>): (n: nat) {
    if batches == [] then 0 else Overruns(batches[..|batches| - 1]) + (if |batches[|batches| - 1]| > 25 then 1 else 0)
  }

  lemma NoNotices()
    ensures Notices([]) == 0 && Overruns([]) == 0
  {
  }

  /** One notice for each batch of more than 25 buffers, written when the rest of it is dropped. */
  ghost predicate Noticed(s: State) {
    Notices(s.file) == Overruns(s.batches) + (if (s.pc.Writing? || s.pc.Resizing?) && |s.batch| > 25 then 1 else 0)
  }

  lemma StepNotices(s: State, step: Step)
    requires Inv(s) && AssertsHold(s) && Enabled(s, step) && Noticed(s)
    ensures Noticed(Apply(s, step))
  {
    hide Fit, Bytes, Conserved, Logged, NoOverflow, Spares, Kept;
    var s' := Apply(s, step);
    assert s'.file != s.file ==> s'.file[..|s.file|] == s.file;
    assert s'.batches != s.batches ==> s'.batches[..|s.batches|] == s.batches;
  }

  /** The drops are on record in every state. */
  lemma {:induction false} OneNoticeEach(states: seq<State>, steps: seq<Step>, i: nat)
    requires Run(states, steps) && i < |states|
    ensures Noticed(states[i])
    decreases i
  {
    hide Inv, Apply, Enabled, AssertsHold, Notices, Overruns;
    if i == 0 {
      NoNotices();
    } else {
      OneNoticeEach(states, steps, i - 1);
      RunInv(states, steps, i - 1);
      assert Goes(states[i - 1], steps[i - 1], states[i]);
      StepNotices(states[i - 1], steps[i - 1]);
    }
  }

  // ---------------------------------------------------------------- how soon

  ghost predicate InBatch(s: State) {
    s.pc.Taken? || s.pc.Writing? || s.pc.Resizing?
  }

  /** At most so many steps of the logging thread until it has finished with its batch. */
  ghost function BatchSteps(s: State): int {
    if s.pc.Taken? then 28 else if s.pc.Writing? then |s.toWrite| - s.pc.i + 2 else 1
  }

  /** And so many until it has finished with the next one that it takes. */
  ghost function NextBatchSteps(pc: PC): int {
    match pc
    case Recycling1 => 33
    case Recycling2 => 32
    case Clearing => 31
    case Head => 30
    case Waiting => 29
    case _ => 33
  }

  /** At most so many until the first m lines have gone out with batches that are finished. */
  ghost function StepsLeft(s: State, m: nat): int {
    if |AllLines(s.batches)| >= m then 0
    else if !InBatch(s) then NextBatchSteps(s.pc)
    else if |AllLines(s.batches)| + |Lines(s.batch)| >= m then BatchSteps(s)
    else BatchSteps(s) + 33
  }

  lemma StepsLeftBound(s: State, m: nat)
    requires Inv(s)
    ensures 0 <= StepsLeft(s, m) <= 61
    ensures StepsLeft(s, m) == 0 <==> |AllLines(s.batches)| >= m
  {
    hide Spares, Conserved, Logged, NoOverflow, AllLines, Lines, Kept;
  }

  /** Every step of a running logging thread brings it nearer, however much has been appended meanwhile. */
  lemma LogProgress(s: State, notice: string, m: nat)
    requires Inv(s) && AssertsHold(s) && !s.pc.Exited? && s.running && m <= |s.accepted| && StepsLeft(s, m) > 0
    ensures StepsLeft(AfterLog(s, notice), m) <= StepsLeft(s, m) - 1
  {
    hide Spares, Logged, NoOverflow, AllLines, Lines, Bytes, Kept;
    LinesSnoc(s.buffers, s.current);
    BatchesSnoc(s.batches, s.batch);
    NoLines();
  }

  lemma BatchesSnoc(batches: seq<seq<Buffer>>, batch: seq<Buffer>)
    ensures AllLines(batches + [batch]) == AllLines(batches) + Lines(batch)
  {
    assert (batches + [batch])[..|batches|] == batches;
  }

  lemma StepProgress(s: State, step: Step, m: nat)
    requires Inv(s) && AssertsHold(s) && Enabled(s, step) && s.running && m <= |s.accepted|
    ensures StepsLeft(Apply(s, step), m) <= (if step.Log? && StepsLeft(s, m) > 0 then StepsLeft(s, m) - 1 else StepsLeft(s, m))
  {
    hide Inv, AllLines, Lines, Bytes, Fit, AfterSwap;
    if step.Log? && StepsLeft(s, m) > 0 {
      LogProgress(s, step.notice, m);
    } else if step.Log? {
      StepsLeftBound(s, m);
      NeverFewer(s, step.notice);
    }
  }

  lemma NeverFewer(s: State, notice: string)
    requires AssertsHold(s) && !s.pc.Exited?
    ensures |AllLines(s.batches)| <= |AllLines(AfterLog(s, notice).batches)|
  {
    hide AllLines, Lines, Bytes;
    BatchesSnoc(s.batches, s.batch);
  }

  /** How many of the steps are the logging thread's. */
  ghost function Logs(steps: seq<Step>): (n: nat) {
    if steps == [] then 0 else Logs(steps[..|steps| - 1]) + (if steps[|steps| - 1].Log? then 1 else 0)
  }

  lemma LogsSnoc(steps: seq<Step>, i: nat, j: nat)
    requires i < j <= |steps|
    ensures Logs(steps[i..j]) == Logs(steps[i..j - 1]) + (if steps[j - 1].Log? then 1 else 0)
  {
    assert steps[i..j][..j - 1 - i] == steps[i..j - 1];
  }

  /** Appends only add behind what there is. */
  lemma {:induction false} AppendedGrows(steps: seq<Step>, i: nat, j: nat, size: nat)
    requires i <= j <= |steps|
    ensures Appended(steps[..i], size) <= Appended(steps[..j], size)
    decreases j
  {
    if i < j {
      AppendedGrows(steps, i, j - 1, size);
      assert steps[..j] == steps[..j - 1] + [steps[j - 1]];
      AppendedSnoc(steps[..j - 1], steps[j - 1], size);
    }
  }

  lemma {:induction false} RunProgress(states: seq<State>, steps: seq<Step>, i: nat, j: nat)
    requires Run(states, steps) && i <= j < |states| && states[j].running
    ensures var m := |states[i].accepted|;
      StepsLeft(states[j], m) <= if Logs(steps[i..j]) <= 61 then 61 - Logs(steps[i..j]) else 0
    decreases j
  {
    hide Inv, Init, Apply, Enabled, AssertsHold, StepsLeft, Appended, Logs;
    RunInv(states, steps, i);
    var m := |states[i].accepted|;
    if i == j {
      StepsLeftBound(states[i], m);
      NoLogs(steps, i);
    } else {
      RunInv(states, steps, j - 1);
      RunAccepted(states, steps, j - 1);
      RunAccepted(states, steps, j);
      RunAccepted(states, steps, i);
      AppendedGrows(steps, i, j - 1, states[0].size);
      assert Goes(states[j - 1], steps[j - 1], states[j]);
      assert states[j - 1].running by { assert steps[..j - 1] <= steps[..j]; }
      RunProgress(states, steps, i, j - 1);
      LogsSnoc(steps, i, j);
      StepProgress(states[j - 1], steps[j - 1], m);
      StepsLeftBound(states[j - 1], m);
    }
  }

  lemma NoLogs(steps: seq<Step>, i: nat)
    requires i <= |steps|
    ensures Logs(steps[i..i]) == 0
  {
  }

  /**
   * No line waits long: after 61 steps of the logging thread, with any appends between them, everything appended
   * before has gone out with a batch; unless buffers were dropped, it is in the file.
   */
  lemma WrittenSoon(states: seq<State>, steps: seq<Step>, i: nat, j: nat)
    requires Run(states, steps) && i <= j < |states| && states[j].running && Logs(steps[i..j]) >= 61
    ensures Appended(steps[..i], states[0].size) <= AllLines(states[j].batches)
    ensures NeverOverrun(states[j]) ==> Bytes(Appended(steps[..i], states[0].size)) <= DataOf(states[j].file)
  {
    hide Init, Goes, Logs, Appended, AllLines, Lines, KeptLines, Bytes, DataOf, Spares, NoOverflow, StepsLeft;
    var size := states[0].size;
    var s, early := states[j], Appended(steps[..i], size);
    RunProgress(states, steps, i, j);
    RunInv(states, steps, j);
    RunAccepted(states, steps, i);
    RunAccepted(states, steps, j);
    AppendedGrows(steps, i, j, size);
    StepsLeftBound(s, |early|);
    var out := AllLines(s.batches);
    assert out <= s.accepted;
    assert early <= out;
    if NeverOverrun(s) {
      AllKept(s.batches);
      var rest := Lines(s.toWrite[..Done(s)]);
      assert out + rest == early + (out[|early|..] + rest);
      BytesConcat(early, out[|early|..] + rest);
    }
  }
}
