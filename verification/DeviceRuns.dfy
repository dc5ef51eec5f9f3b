/**
 * Whole runs of the character device: any sequence of writes, reads and seeks over any number of
 * open files, each call one atomic step because it holds the device lock.
 */
module DeviceRuns {
  import opened Bytes
  import opened Window
  import opened DeviceModel

  /** One call. A file is identified by a number; its position starts at 0. */
  datatype Op =
    | Write(data: seq<byte>, env: WriteEnv)
    | Read(file: nat, count: nat, interrupted: bool, copyOk: bool)
    | Seek(file: nat, off: Loff, whence: int, interrupted: bool)
    | SeekTo(file: nat, cmd: nat, to: Place, interrupted: bool, copyOk: bool)

  datatype Sys = Sys(dev: Dev, pos: map<nat, nat>) {
    function Pos(file: nat): nat {
      if file in pos then pos[file] else 0
    }
  }

  /** What a call that is not a write does to its file. */
  function FileOp(s: Sys, op: Op): FileStep
    requires !op.Write?
  {
    var p := s.Pos(op.file);
    match op
    case Read(_, count, interrupted, copyOk) => ReadStep(s.dev.Live(), p, count, interrupted, copyOk)
    case Seek(_, off, whence, interrupted) => SeekStep(|Flatten(s.dev.Live())|, p, off, whence, interrupted)
    case SeekTo(_, cmd, to, interrupted, copyOk) => SeekToStep(s.dev.Live(), p, cmd, to, interrupted, copyOk)
  }

  function Step(s: Sys, op: Op): Sys {
    if op.Write? then s.(dev := WriteStep(s.dev, op.data, op.env).dev)
    else s.(pos := s.pos[op.file := FileOp(s, op).pos])
  }

  function Run(ops: seq<Op>): Sys {
    if ops == [] then Sys(FRESH, map[]) else Step(Run(ops[..|ops| - 1]), ops[|ops| - 1])
  }

  // ---- conservation ----

  /** The bytes that a call copies into the working buffer, whatever it returns. */
  function Taken(op: Op): seq<byte> {
    if op.Write? && op.env.TakesInput() && op.env.growOk then op.data else []
  }

  function Accepted(ops: seq<Op>): seq<byte> {
    if ops == [] then [] else Accepted(ops[..|ops| - 1]) + Taken(ops[|ops| - 1])
  }

  /** A write whose krealloc fails while there are bytes that only its old block holds. */
  predicate Loses(d: Dev, op: Op) {
    && op.Write? && op.env.TakesInput() && op.data != []
    && if !op.env.growOk then d.work.Size() > 0
       else ShrinkLoses(Recovered(d.work, op.env.garbage) + op.data, op.env)
  }

  ghost predicate Lossless(ops: seq<Op>) {
    ops == [] || (Lossless(ops[..|ops| - 1]) && !Loses(Run(ops[..|ops| - 1]).dev, ops[|ops| - 1]))
  }

  /** Committed lines followed by the working buffer are exactly the bytes taken in. */
  ghost predicate Conserved(d: Dev, accepted: seq<byte>) {
    d.work.Held? && Flatten(d.lines) + d.work.bytes == accepted
  }

  lemma MoveAcross(lines: seq<seq<byte>>, l: seq<byte>, rest: seq<byte>)
    ensures Flatten(lines + [l]) + rest == Flatten(lines) + (l + rest)
  {
    FlattenSnoc(lines, l);
  }

  /** What any commit keeps: the bytes, their order, and that committed lines are lines. */
  lemma CommitKeeps(lines: seq<seq<byte>>, w: seq<byte>, env: WriteEnv)
    requires AllLines(lines)
    ensures var d := CommitStep(lines, w, env).dev;
            && AllLines(d.lines)
            && |Flatten(d.lines)| + d.work.Size() == |Flatten(lines)| + |w|
            && (d.work.Held? ==> Flatten(d.lines) + d.work.bytes == Flatten(lines) + w)
            && (d.work.Dropped? <==> ShrinkLoses(w, env))
  {
    if FirstNewline(w) < |w| && env.entryOk {
      var l, rest := CutFirstLine(w);
      MoveAcross(lines, l, rest);
      FlattenSnoc(lines, l);
    }
  }

  lemma WriteKeeps(d: Dev, op: Op)
    requires op.Write? && AllLines(d.lines)
    ensures var d' := WriteStep(d, op.data, op.env).dev;
            && AllLines(d'.lines)
            && |Flatten(d'.lines)| + d'.work.Size() == |Flatten(d.lines)| + d.work.Size() + |Taken(op)|
  {
    if op.env.TakesInput() && op.data != [] && op.env.growOk {
      CommitKeeps(d.lines, Recovered(d.work, op.env.garbage) + op.data, op.env);
    }
  }

  /** A write keeps every byte it met or brought, unless it is one that loses, and then it does not. */
  lemma WriteConserves(d: Dev, op: Op, accepted: seq<byte>)
    requires op.Write? && AllLines(d.lines) && Conserved(d, accepted)
    ensures var d' := WriteStep(d, op.data, op.env).dev;
            && (Loses(d, op) ==> d'.work.Dropped?)
            && (!Loses(d, op) ==> Conserved(d', accepted + Taken(op)))
  {
    if op.env.TakesInput() && op.data != [] && op.env.growOk {
      CommitKeeps(d.lines, d.work.bytes + op.data, op.env);
      assert Flatten(d.lines) + (d.work.bytes + op.data) == accepted + op.data;
    } else {
      assert accepted + Taken(op) == accepted;
    }
  }

  /** In every run, failures included: committed lines are lines, and no byte count is lost or invented. */
  lemma {:induction false} RunKeepsCount(ops: seq<Op>)
    ensures AllLines(Run(ops).dev.lines)
    ensures |Flatten(Run(ops).dev.lines)| + Run(ops).dev.work.Size() == |Accepted(ops)|
  {
    if ops != [] {
      var ops0, op := ops[..|ops| - 1], ops[|ops| - 1];
      RunKeepsCount(ops0);
      if op.Write? {
        WriteKeeps(Run(ops0).dev, op);
      }
    }
  }

  lemma {:induction false} RunConserves(ops: seq<Op>)
    requires Lossless(ops)
    ensures Conserved(Run(ops).dev, Accepted(ops))
  {
    if ops != [] {
      var ops0, op := ops[..|ops| - 1], ops[|ops| - 1];
      RunConserves(ops0);
      RunKeepsCount(ops0);
      if op.Write? {
        WriteConserves(Run(ops0).dev, op, Accepted(ops0));
      } else {
        assert Accepted(ops) == Accepted(ops0);
      }
    }
  }

  lemma {:induction false} LosslessPrefix(ops: seq<Op>, j: nat)
    requires Lossless(ops) && j <= |ops|
    ensures Lossless(ops[..j])
  {
    if j == |ops| {
      assert ops[..j] == ops;
    } else {
      LosslessPrefix(ops[..|ops| - 1], j);
      assert ops[..|ops| - 1][..j] == ops[..j];
    }
  }

  /** Bytes are conserved after every call of a run exactly when no call of it loses any. */
  lemma {:induction false} ConservationExact(ops: seq<Op>)
    ensures Lossless(ops) <==>
            forall j :: 0 <= j <= |ops| ==> Conserved(Run(ops[..j]).dev, Accepted(ops[..j]))
  {
    if Lossless(ops) {
      forall j | 0 <= j <= |ops| ensures Conserved(Run(ops[..j]).dev, Accepted(ops[..j])) {
        LosslessPrefix(ops, j);
        RunConserves(ops[..j]);
      }
    } else {
      var j := FirstLoss(ops);
    }
  }

  lemma LossDrops(s: Sys, op: Op)
    requires Loses(s.dev, op)
    ensures Step(s, op).dev.work.Dropped?
  {
  }

  /** A run that is not lossless has a call after which bytes are missing. */
  lemma {:induction false} FirstLoss(ops: seq<Op>) returns (j: nat)
    requires !Lossless(ops)
    ensures j <= |ops| && !Conserved(Run(ops[..j]).dev, Accepted(ops[..j]))
  {
    var ops0, op := ops[..|ops| - 1], ops[|ops| - 1];
    if Lossless(ops0) {
      LossDrops(Run(ops0), op);
      j := |ops|;
      assert ops[..j] == ops;
    } else {
      j := FirstLoss(ops0);
      assert ops0[..j] == ops[..j];
    }
  }

  /** A write of one byte to the fresh device, then one whose krealloc fails. */
  lemma LossyPair(ok: WriteEnv)
    requires ok.TakesInput() && ok.growOk
    ensures var ops := [Write([65], ok), Write([66], ok.(growOk := false))];
            && Run(ops).dev == Dev([], Dropped(1)) && Accepted(ops) == [65] && !Lossless(ops)
            && OrphanTotal(ops) == 1
  {
    var op1, op2 := Write([65], ok), Write([66], ok.(growOk := false));
    assert [op1, op2][..1] == [op1];
    FirstByte(ok);
  }

  lemma FirstByte(ok: WriteEnv)
    requires ok.TakesInput() && ok.growOk
    ensures var ops := [Write([65], ok)];
            Run(ops).dev == Dev([], Held([65])) && Accepted(ops) == [65] && OrphanTotal(ops) == 0
  {
    var op := Write([65], ok);
    assert [op][..0] == [] && [] + [65] == [65];
    FirstNewlineAbsent([65]);
    assert WriteStep(FRESH, [65], ok).dev == Dev([], Held([65]));
    assert WriteOrphans(FRESH, [65], ok) == 0;
  }

  /** Such a loss shows: a byte of a committed line is replaced by whatever memory held. */
  lemma LossExample(junk: byte)
    requires junk != NEWLINE
    ensures var ok := WriteEnv(false, true, true, true, true, true, [junk]);
            var ops := [Write([65], ok), Write([66], ok.(growOk := false)), Write([NEWLINE], ok)];
            !Lossless(ops) && Accepted(ops) == [65, NEWLINE] && Run(ops).dev.lines == [[junk, NEWLINE]]
  {
    var ok := WriteEnv(false, true, true, true, true, true, [junk]);
    LossyPair(ok);
    var op1, op2, op3 := Write([65], ok), Write([66], ok.(growOk := false)), Write([NEWLINE], ok);
    assert [op1, op2, op3][..2] == [op1, op2];
    var w := Fill([junk], 1) + [NEWLINE];
    assert w == [junk, NEWLINE] == [junk, NEWLINE] + [];
    FirstNewlineOfLine(w, []);
  }

  /** The blocks that a call leaves without a pointer. */
  function Orphans(s: Sys, op: Op): nat {
    if op.Write? then WriteOrphans(s.dev, op.data, op.env) else 0
  }

  /** The blocks that the failed krealloc calls of a run have left without a pointer. */
  function OrphanTotal(ops: seq<Op>): nat {
    if ops == [] then 0
    else
      var before, op := ops[..|ops| - 1], ops[|ops| - 1];
      OrphanTotal(before) + Orphans(Run(before), op)
  }

  /** They are one for each call that loses bytes, unless their block was without a pointer already. */
  lemma OrphansExact(s: Sys, op: Op)
    ensures Orphans(s, op) == if Loses(s.dev, op) && (op.env.growOk || s.dev.work.Held?) then 1 else 0
  {
  }

  /** There are none in a run that loses no byte. */
  lemma {:induction false} LosslessHasNoOrphans(ops: seq<Op>)
    requires Lossless(ops)
    ensures OrphanTotal(ops) == 0
  {
    if ops != [] {
      LosslessHasNoOrphans(ops[..|ops| - 1]);
    }
  }

  // ---- writes that fail ----

  /** A size without bytes is never 0. */
  lemma {:induction false} DroppedHasSize(ops: seq<Op>)
    ensures Run(ops).dev.work != Dropped(0)
  {
    if ops != [] {
      DroppedHasSize(ops[..|ops| - 1]);
    }
  }

  /**
   * A write that fails has left the device as it was exactly when its input never got in, or when
   * the krealloc that failed had no bytes to lose.
   */
  lemma {:induction false} FailedWriteUnchanged(ops: seq<Op>, op: Op)
    requires op.Write? && WriteStep(Run(ops).dev, op.data, op.env).reply.Fail?
    ensures var d := Run(ops).dev;
            Run(ops + [op]).dev == d <==>
            !op.env.TakesInput() || (!op.env.growOk && (d.work.Dropped? || d.work.bytes == []))
  {
    assert (ops + [op])[..|ops|] == ops;
    DroppedHasSize(ops);
    var d := Run(ops).dev;
    if op.env.TakesInput() && op.env.growOk {
      assert |Recovered(d.work, op.env.garbage) + op.data| > d.work.Size();
    }
  }

  /** A run of one write. */
  lemma OneWrite(op: Op)
    requires op.Write?
    ensures Run([op]).dev == WriteStep(FRESH, op.data, op.env).dev && Accepted([op]) == Taken(op)
    ensures op.env.shrinkOk ==> Lossless([op])
  {
    assert [op][..0] == [] && [] + Taken(op) == Taken(op);
  }

  /** A line and more bytes behind it, added to an empty working buffer. */
  lemma FirstWrite(line: seq<byte>, more: seq<byte>, env: WriteEnv)
    requires IsLine(line) && env.TakesInput() && env.growOk && env.shrinkOk
    ensures WriteStep(FRESH, line + more, env)
            == if env.entryOk then DevStep(Dev([line], Held(more)), Count(|line + more|))
               else DevStep(Dev([], Held(line + more)), Fail(ENOMEM))
  {
    assert [] + (line + more) == line + more;
    FirstCommit(line, more, env);
  }

  lemma FirstCommit(line: seq<byte>, more: seq<byte>, env: WriteEnv)
    requires IsLine(line) && env.shrinkOk
    ensures CommitStep([], line + more, env)
            == if env.entryOk then CommitResult(Dev([line], Held(more)), true)
               else CommitResult(Dev([], Held(line + more)), false)
  {
    FirstNewlineOfLine(line, more);
    assert (line + more)[..|line|] == line && (line + more)[|line|..] == more;
    assert [] + [line] == [line];
  }

  /** A write whose line finds no memory replies ENOMEM with all its bytes taken in: a retry takes them in again. */
  lemma RetryDuplicates(line: seq<byte>)
    requires IsLine(line)
    ensures var failing := Write(line, GOOD.(entryOk := false));
            && WriteStep(FRESH, line, failing.env) == DevStep(Dev([], Held(line)), Fail(ENOMEM))
            && Run([failing, Write(line, GOOD)]).dev == Dev([line], Held(line))
  {
    var failing := Write(line, GOOD.(entryOk := false));
    assert line + [] == line;
    FirstWrite(line, [], failing.env);
    OneWrite(failing);
    assert [failing, Write(line, GOOD)][..1] == [failing];
    SecondWrite(line);
  }

  lemma SecondWrite(line: seq<byte>)
    requires IsLine(line)
    ensures WriteStep(Dev([], Held(line)), line, GOOD).dev == Dev([line], Held(line))
  {
    FirstNewlineOfLine(line, line);
    assert (line + line)[..|line|] == line && (line + line)[|line|..] == line;
    assert [] + [line] == [line];
  }

  // ---- the committed lines are the front of the stream's lines ----

  /** Committed lines, then the complete lines still waiting, are the lines of the stream. */
  lemma CommittedArePrefix(ops: seq<Op>)
    requires Lossless(ops)
    ensures Run(ops).dev.work.Held?
    ensures Lines(Accepted(ops)) == Run(ops).dev.lines + Lines(Run(ops).dev.work.bytes)
    ensures Newlines(Accepted(ops)) == |Run(ops).dev.lines| + Newlines(Run(ops).dev.work.bytes)
    ensures Tail(Accepted(ops)) == Tail(Run(ops).dev.work.bytes)
  {
    RunConserves(ops);
    RunKeepsCount(ops);
    var d := Run(ops).dev;
    SplitOfLines(d.lines, d.work.bytes);
    LinesCountNewlines(Accepted(ops));
    LinesCountNewlines(d.work.bytes);
  }

  // ---- one line per call ----

  /** 1 when the call could move a line into the ring. */
  function Serves(op: Op): nat {
    if op.Write? && op.env.TakesInput() && op.env.growOk && op.env.entryOk && op.data != [] then 1 else 0
  }

  function Service(ops: seq<Op>): nat {
    if ops == [] then 0 else Service(ops[..|ops| - 1]) + Serves(ops[|ops| - 1])
  }

  /** Newlines that arrived in the first `j` calls, and calls after those that could move a line. */
  function Bound(ops: seq<Op>, j: nat): int
    requires j <= |ops|
  {
    Newlines(Accepted(ops[..j])) + Service(ops) - Service(ops[..j])
  }

  lemma CommitStepCount(lines: seq<seq<byte>>, w: seq<byte>, env: WriteEnv)
    ensures |CommitStep(lines, w, env).dev.lines| == |lines| + Min(if env.entryOk then 1 else 0, Newlines(w))
  {
    FirstNewlineAbsent(w);
    assert Newlines(w) == 0 <==> NEWLINE !in w;
  }

  lemma WriteCount(d: Dev, op: Op)
    requires op.Write? && d.work.Held?
    ensures |WriteStep(d, op.data, op.env).dev.lines|
            == |d.lines| + Min(Serves(op), Newlines(d.work.bytes + Taken(op)))
  {
    if op.env.TakesInput() && op.data != [] && op.env.growOk {
      CommitStepCount(d.lines, d.work.bytes + op.data, op.env);
    }
  }

  lemma StepCount(s: Sys, op: Op)
    requires s.dev.work.Held?
    ensures |Step(s, op).dev.lines|
            == |s.dev.lines| + Min(Serves(op), Newlines(s.dev.work.bytes) + Newlines(Taken(op)))
  {
    if op.Write? {
      WriteCount(s.dev, op);
      assert Newlines(s.dev.work.bytes + Taken(op)) == Newlines(s.dev.work.bytes) + Newlines(Taken(op));
    }
  }

  /** The newlines that have arrived are in committed lines or still in the working buffer. */
  lemma NewlinesSplit(ops: seq<Op>)
    requires Lossless(ops)
    ensures Run(ops).dev.work.Held?
    ensures Newlines(Accepted(ops)) == |Run(ops).dev.lines| + Newlines(Run(ops).dev.work.bytes)
  {
    CommittedArePrefix(ops);
  }

  lemma AcceptedNewlines(ops: seq<Op>)
    requires ops != []
    ensures Newlines(Accepted(ops)) == Newlines(Accepted(ops[..|ops| - 1])) + Newlines(Taken(ops[|ops| - 1]))
  {
  }

  /** One more call commits at most one more line, and never more than have arrived. */
  lemma CommitCount(ops: seq<Op>)
    requires ops != [] && Lossless(ops)
    ensures |Run(ops).dev.lines| ==
            Min(|Run(ops[..|ops| - 1]).dev.lines| + Serves(ops[|ops| - 1]), Newlines(Accepted(ops)))
  {
    var ops0, op := ops[..|ops| - 1], ops[|ops| - 1];
    NewlinesSplit(ops0);
    AcceptedNewlines(ops);
    StepCount(Run(ops0), op);
  }

  /** The committed lines as a queue: one departure per service, and no more than have arrived. */
  function Departed(ops: seq<Op>): nat {
    if ops == [] then 0 else Min(Departed(ops[..|ops| - 1]) + Serves(ops[|ops| - 1]), Newlines(Accepted(ops)))
  }

  lemma DepartedStep(ops: seq<Op>, before: nat, now: nat)
    requires ops != [] && before == Departed(ops[..|ops| - 1])
    requires now == Min(before + Serves(ops[|ops| - 1]), Newlines(Accepted(ops)))
    ensures now == Departed(ops)
  {
  }

  lemma LosslessFront(ops: seq<Op>)
    requires ops != [] && Lossless(ops)
    ensures Lossless(ops[..|ops| - 1])
  {
  }

  lemma QueueStep(ops: seq<Op>)
    requires ops != [] && Lossless(ops)
    requires |Run(ops[..|ops| - 1]).dev.lines| == Departed(ops[..|ops| - 1])
    ensures |Run(ops).dev.lines| == Departed(ops)
  {
    CommitCount(ops);
    DepartedStep(ops, |Run(ops[..|ops| - 1]).dev.lines|, |Run(ops).dev.lines|);
  }

  lemma {:induction false} CommitsQueue(ops: seq<Op>)
    requires Lossless(ops)
    ensures |Run(ops).dev.lines| == Departed(ops)
  {
    if ops != [] {
      LosslessFront(ops);
      CommitsQueue(ops[..|ops| - 1]);
      QueueStep(ops);
    }
  }

  lemma BoundStep(ops: seq<Op>, j: nat)
    requires j < |ops|
    ensures Bound(ops, j) == Bound(ops[..|ops| - 1], j) + Serves(ops[|ops| - 1])
  {
    assert ops[..j] == ops[..|ops| - 1][..j];
  }

  lemma BoundLast(ops: seq<Op>)
    ensures Bound(ops, |ops|) == Newlines(Accepted(ops))
  {
    assert ops[..|ops|] == ops;
  }

  lemma {:induction false} DepartedAtMost(ops: seq<Op>, j: nat)
    requires j <= |ops|
    ensures Departed(ops) <= Bound(ops, j)
  {
    if j == |ops| {
      BoundLast(ops);
    } else {
      DepartedAtMost(ops[..|ops| - 1], j);
      BoundStep(ops, j);
    }
  }

  lemma {:induction false} DepartedReached(ops: seq<Op>) returns (j: nat)
    ensures j <= |ops| && Departed(ops) == Bound(ops, j)
  {
    if Departed(ops) == Newlines(Accepted(ops)) {
      j := |ops|;
      BoundLast(ops);
    } else {
      j := DepartedReached(ops[..|ops| - 1]);
      BoundStep(ops, j);
    }
  }

  /**
   * The service law: the number of committed lines is the minimum, over all points of the run,
   * of the newlines that had arrived by then plus the calls after it that could commit one.
   */
  lemma ServiceLaw(ops: seq<Op>)
    requires Lossless(ops)
    ensures forall j :: 0 <= j <= |ops| ==> |Run(ops).dev.lines| <= Bound(ops, j)
    ensures exists j :: 0 <= j <= |ops| && |Run(ops).dev.lines| == Bound(ops, j)
  {
    CommitsQueue(ops);
    forall j | 0 <= j <= |ops| ensures |Run(ops).dev.lines| <= Bound(ops, j) {
      DepartedAtMost(ops, j);
    }
    var j := DepartedReached(ops);
  }

  /** A non-empty write for which every kernel service succeeds. */
  predicate GoodWrite(op: Op) {
    Serves(op) == 1 && op.env.shrinkOk
  }

  lemma {:induction false} GoodWrites(ops: seq<Op>)
    requires forall i :: 0 <= i < |ops| ==> GoodWrite(ops[i])
    ensures Lossless(ops) && Service(ops) == |ops|
  {
    if ops != [] {
      GoodWrites(ops[..|ops| - 1]);
    }
  }

  /** For n good writes: the minimum, over j from 0 to n, of the newlines in the first j writes plus n - j. */
  lemma ServiceLawForWrites(ops: seq<Op>)
    requires forall i :: 0 <= i < |ops| ==> GoodWrite(ops[i])
    ensures forall j :: 0 <= j <= |ops| ==> |Run(ops).dev.lines| <= Newlines(Accepted(ops[..j])) + |ops| - j
    ensures exists j :: 0 <= j <= |ops| && |Run(ops).dev.lines| == Newlines(Accepted(ops[..j])) + |ops| - j
  {
    GoodWrites(ops);
    forall j | 0 <= j <= |ops| ensures Bound(ops, j) == Newlines(Accepted(ops[..j])) + |ops| - j {
      GoodWrites(ops[..j]);
    }
    ServiceLaw(ops);
  }

  /**
   * Every complete line of the stream is committed exactly when, after each point of the run, enough
   * calls that could commit a line follow for all the newlines that arrive after it.
   */
  lemma AllLinesCommittedExactly(ops: seq<Op>)
    requires Lossless(ops)
    ensures Run(ops).dev == Dev(Lines(Accepted(ops)), Held(Tail(Accepted(ops)))) <==>
            forall j :: 0 <= j <= |ops| ==> Newlines(Accepted(ops)) <= Bound(ops, j)
  {
    CommittedExactly(ops);
    ServiceLaw(ops);
    BoundLast(ops);
  }

  /** The committed lines are all lines of the stream as soon as there are as many of them as newlines. */
  lemma CommittedExactly(ops: seq<Op>)
    requires Lossless(ops)
    ensures |Run(ops).dev.lines| <= Newlines(Accepted(ops))
    ensures Run(ops).dev == Dev(Lines(Accepted(ops)), Held(Tail(Accepted(ops)))) <==>
            |Run(ops).dev.lines| == Newlines(Accepted(ops))
  {
    CommittedArePrefix(ops);
    LinesCountNewlines(Accepted(ops));
    var w := Run(ops).dev.work.bytes;
    LinesCountNewlines(w);
    SplitRestores(w);
    if Lines(w) == [] {
      assert Flatten(Lines(w)) + Tail(w) == Tail(w);
      assert Run(ops).dev.lines + [] == Run(ops).dev.lines;
    }
  }

  /** Two lines in one write: the second one is complete, but waits in the working buffer. */
  lemma TwoLinesInOneWrite(a: seq<byte>, b: seq<byte>)
    requires IsLine(a) && IsLine(b)
    ensures var ops := [Write(a + b, GOOD)];
            Lossless(ops) && Lines(Accepted(ops)) == [a, b] && Run(ops).dev == Dev([a], Held(b))
  {
    OneWrite(Write(a + b, GOOD));
    FirstWrite(a, b, GOOD);
    LinesOfTwo(a, b);
  }

  lemma LinesOfTwo(a: seq<byte>, b: seq<byte>)
    requires IsLine(a) && IsLine(b)
    ensures Lines(a + b) == [a, b]
  {
    SplitAfterLine(a, b);
    SplitAfterLine(b, []);
    assert b + [] == b;
  }

  /** When no call brings two newlines, or one that it cannot commit, every complete line is committed. */
  lemma AllLinesCommitted(ops: seq<Op>)
    requires Lossless(ops)
    requires forall i :: 0 <= i < |ops| ==> Newlines(Taken(ops[i])) <= Serves(ops[i])
    ensures Run(ops).dev == Dev(Lines(Accepted(ops)), Held(Tail(Accepted(ops))))
  {
    CommittedExactly(ops);
    NoBacklog(ops);
  }

  lemma NoBacklog(ops: seq<Op>)
    requires Lossless(ops)
    requires forall i :: 0 <= i < |ops| ==> Newlines(Taken(ops[i])) <= Serves(ops[i])
    ensures |Run(ops).dev.lines| == Newlines(Accepted(ops))
  {
    CommitsQueue(ops);
    QueueKeepsUp(ops);
  }

  lemma {:induction false} QueueKeepsUp(ops: seq<Op>)
    requires forall i :: 0 <= i < |ops| ==> Newlines(Taken(ops[i])) <= Serves(ops[i])
    ensures Departed(ops) == Newlines(Accepted(ops))
  {
    if ops != [] {
      QueueKeepsUp(ops[..|ops| - 1]);
      AcceptedNewlines(ops);
    }
  }

  /** Good writes that each bring exactly one newline commit a line each. */
  lemma {:induction false} OneLineEach(ops: seq<Op>)
    requires forall i :: 0 <= i < |ops| ==> GoodWrite(ops[i]) && Newlines(Taken(ops[i])) == 1
    ensures Lossless(ops) && |Run(ops).dev.lines| == |ops|
  {
    GoodWrites(ops);
    NoBacklog(ops);
    NewlinesOfEach(ops);
  }

  lemma {:induction false} NewlinesOfEach(ops: seq<Op>)
    requires forall i :: 0 <= i < |ops| ==> Newlines(Taken(ops[i])) == 1
    ensures Newlines(Accepted(ops)) == |ops|
  {
    if ops != [] {
      NewlinesOfEach(ops[..|ops| - 1]);
    }
  }
}
