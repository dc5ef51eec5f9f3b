/**
 * What every call on the character device answers and what it changes, for all arguments and all
 * failures of the kernel services, stated without the functions that compute it.
 */
module DeviceAnswers {
  import opened Bytes
  import opened Window
  import opened Ring
  import opened DeviceModel
  import opened DeviceRuns
  import opened DeviceReads
  import opened DeviceReplay

  // ---- write ----

  /** The working buffer once `data` has been added to it has a complete line. */
  predicate Complete(d: Dev, data: seq<byte>, env: WriteEnv) {
    NEWLINE in Recovered(d.work, env.garbage) + data
  }

  /** The service that runs out of memory, if any, and only after the input has been copied in where it matters. */
  predicate OutOfMemory(d: Dev, data: seq<byte>, env: WriteEnv) {
    || !env.kbufOk
    || (env.copyOk && data != [] && !env.growOk)
    || (env.copyOk && data != [] && Complete(d, data, env) && !env.entryOk)
  }

  /** A write replies the number of all its bytes, or the error of the first service that fails. */
  ghost predicate WriteReply(d: Dev, data: seq<byte>, env: WriteEnv, reply: Reply) {
    && (reply == Fail(ERESTARTSYS) <==> env.interrupted)
    && (reply == Fail(ENOMEM) <==> !env.interrupted && OutOfMemory(d, data, env))
    && (reply == Fail(EFAULT) <==> !env.interrupted && env.kbufOk && !env.copyOk)
    && (reply == Count(|data|) <==>
          env.TakesInput() && (data == [] || (env.growOk && (env.entryOk || !Complete(d, data, env)))))
    && (reply.Fail? || reply == Count(|data|))
  }

  lemma WriteReplies(d: Dev, data: seq<byte>, env: WriteEnv)
    ensures WriteReply(d, data, env, WriteStep(d, data, env).reply)
  {
    FirstNewlineAbsent(Recovered(d.work, env.garbage) + data);
  }

  /** `w`, the working bytes and the data, is divided into the new last line and the working buffer. */
  ghost predicate OneLineMoved(d: Dev, w: seq<byte>, env: WriteEnv, d': Dev) {
    && |d'.lines| == |d.lines| + 1 && d'.lines[..|d.lines|] == d.lines
    && var line := d'.lines[|d.lines|];
       && IsLine(line) && line <= w
       && d'.work.Size() == |w| - |line|
       && (d'.work.Held? ==> line + d'.work.bytes == w)
       && (d'.work.Held? <==> env.shrinkOk || line == w)
  }

  ghost predicate WriteEffect(d: Dev, data: seq<byte>, env: WriteEnv, d': Dev) {
    var w := Recovered(d.work, env.garbage) + data;
    if !env.TakesInput() || data == [] then d' == d
    else if !env.growOk then
      d'.lines == d.lines && d'.work.Size() == d.work.Size() && (d'.work.Dropped? <==> d.work.Size() > 0)
    else if Complete(d, data, env) && env.entryOk then OneLineMoved(d, w, env, d')
    else d' == Dev(d.lines, Held(w))
  }

  lemma CommitEffect(d: Dev, w: seq<byte>, env: WriteEnv)
    ensures var d' := CommitStep(d.lines, w, env).dev;
            if NEWLINE in w && env.entryOk then OneLineMoved(d, w, env, d') else d' == Dev(d.lines, Held(w))
  {
    FirstNewlineAbsent(w);
    if NEWLINE in w && env.entryOk {
      var line, rest := CutFirstLine(w);
      assert (d.lines + [line])[..|d.lines|] == d.lines;
      assert rest == [] <==> line == w;
    }
  }

  lemma WriteEffects(d: Dev, data: seq<byte>, env: WriteEnv)
    ensures WriteEffect(d, data, env, WriteStep(d, data, env).dev)
  {
    CommitEffect(d, Recovered(d.work, env.garbage) + data, env);
  }

  // ---- read, llseek, ioctl ----

  /** Where the entry that a position falls in ends. */
  function EndOfEntry(live: seq<seq<byte>>, pos: nat): nat
    requires pos < Sum(Sizes(live))
  {
    Position(Sizes(live), Place(Locate(Sizes(live), pos).value.index + 1, 0))
  }

  ghost predicate ReadAnswer(live: seq<seq<byte>>, pos: nat, count: nat, interrupted: bool, copyOk: bool, s: FileStep) {
    if interrupted then s == FileStep(pos, Fail(ERESTARTSYS))
    else if pos >= Sum(Sizes(live)) then s == FileStep(pos, Data([]))
    else if !copyOk then s == FileStep(pos, Fail(EFAULT))
    else
      && pos <= s.pos <= |Flatten(live)| && s.reply == Data(Flatten(live)[pos..s.pos])
      && s.pos == Min(pos + count, EndOfEntry(live, pos))
  }

  lemma ReadAnswers(live: seq<seq<byte>>, pos: nat, count: nat, interrupted: bool, copyOk: bool)
    ensures ReadAnswer(live, pos, count, interrupted, copyOk, ReadStep(live, pos, count, interrupted, copyOk))
  {
    SumOfSizes(live);
    if pos < Sum(Sizes(live)) && !interrupted && copyOk {
      ReadIsSlice(live, pos, count);
      ReadFillsOrStops(live, pos, count);
      assert count == 0 ==> Flatten(live)[pos..pos] == [];
    }
  }

  /** llseek moves exactly when it gets the lock, the whence is known and the target is a position. */
  ghost predicate SeekAnswer(total: nat, pos: nat, off: Loff, whence: int, interrupted: bool, s: FileStep) {
    var base := if whence == SEEK_SET then 0 else if whence == SEEK_CUR then pos else total;
    if interrupted then s == FileStep(pos, Fail(ERESTARTSYS))
    else if whence in {SEEK_SET, SEEK_CUR, SEEK_END} && 0 <= base + off < LOFF_MAX then
      s == FileStep(base + off, Moved(base + off))
    else s == FileStep(pos, Fail(EINVAL))
  }

  lemma SeekAnswers(total: nat, pos: nat, off: Loff, whence: int, interrupted: bool)
    requires total < LOFF_MAX && pos < LOFF_MAX
    ensures SeekAnswer(total, pos, off, whence, interrupted, SeekStep(total, pos, off, whence, interrupted))
  {
    SeekExact(total, pos, off, whence);
  }

  /**
   * The seek command moves the file to the byte it names, exactly when that is a byte of a live entry
   * and nothing fails; any other command is refused. A call that does not succeed moves nothing.
   */
  ghost predicate SeekToAnswer(live: seq<seq<byte>>, pos: nat, cmd: nat, to: Place, interrupted: bool, copyOk: bool,
                               s: FileStep) {
    && (s.reply == Done <==>
          && cmd == AESDCHAR_IOCSEEKTO && copyOk && !interrupted
          && to.index < |live| && to.offset < |live[to.index]|)
    && (s.reply == Done ==> Locate(Sizes(live), s.pos) == Some(to))
    && (s.reply != Done ==> s.pos == pos)
    && (s.reply == Fail(ENOTTY) <==> cmd != AESDCHAR_IOCSEEKTO)
    && (s.reply == Fail(EFAULT) <==> cmd == AESDCHAR_IOCSEEKTO && !copyOk)
    && (s.reply == Fail(ERESTARTSYS) <==>
          cmd == AESDCHAR_IOCSEEKTO && copyOk && to.index < SLOTS && interrupted)
    && (s.reply == Fail(EINVAL) <==>
          && cmd == AESDCHAR_IOCSEEKTO && copyOk
          && (to.index >= SLOTS || (!interrupted && !(to.index < |live| && to.offset < |live[to.index]|))))
  }

  lemma SeekToAnswers(live: seq<seq<byte>>, pos: nat, cmd: nat, to: Place, interrupted: bool, copyOk: bool)
    requires |live| <= SLOTS
    ensures SeekToAnswer(live, pos, cmd, to, interrupted, copyOk, SeekToStep(live, pos, cmd, to, interrupted, copyOk))
  {
    if Inside(Sizes(live), to) {
      LocateInverse(Sizes(live), Position(Sizes(live), to), to);
    }
  }

  // ---- whole runs ----

  /** What a call that is not a write answers, and where it leaves its file. */
  ghost predicate FileAnswer(s: Sys, op: Op, step: FileStep)
    requires !op.Write?
  {
    var p, live := s.Pos(op.file), s.dev.Live();
    match op
    case Read(_, count, interrupted, copyOk) => ReadAnswer(live, p, count, interrupted, copyOk, step)
    case Seek(_, off, whence, interrupted) => SeekAnswer(|Flatten(live)|, p, off, whence, interrupted, step)
    case SeekTo(_, cmd, to, interrupted, copyOk) => SeekToAnswer(live, p, cmd, to, interrupted, copyOk, step)
  }

  /** One call: a write changes the device and no file, any other call its own file and nothing else. */
  ghost predicate CallAnswer(s: Sys, op: Op, s': Sys, reply: Reply) {
    if op.Write? then
      && WriteReply(s.dev, op.data, op.env, reply) && WriteEffect(s.dev, op.data, op.env, s'.dev)
      && forall file :: s'.Pos(file) == s.Pos(file)
    else
      && s'.dev == s.dev && FileAnswer(s, op, FileStep(s'.Pos(op.file), reply))
      && forall file :: file != op.file ==> s'.Pos(file) == s.Pos(file)
  }

  lemma FileAnswers(s: Sys, op: Op)
    requires !op.Write? && s.Pos(op.file) < LOFF_MAX && |Flatten(s.dev.Live())| < LOFF_MAX
    ensures FileAnswer(s, op, FileOp(s, op))
    ensures FileOp(s, op).pos < LOFF_MAX
  {
    var p, live := s.Pos(op.file), s.dev.Live();
    match op
    case Read(_, count, interrupted, copyOk) => ReadAnswers(live, p, count, interrupted, copyOk);
    case Seek(_, off, whence, interrupted) => SeekAnswers(|Flatten(live)|, p, off, whence, interrupted);
    case SeekTo(_, cmd, to, interrupted, copyOk) =>
      SeekToAnswers(live, p, cmd, to, interrupted, copyOk);
      SumOfSizes(live);
  }

  lemma CallAnswers(s: Sys, op: Op)
    requires !op.Write? ==> s.Pos(op.file) < LOFF_MAX && |Flatten(s.dev.Live())| < LOFF_MAX
    ensures CallAnswer(s, op, Step(s, op), Answer(s, op))
  {
    if op.Write? {
      WriteReplies(s.dev, op.data, op.env);
      WriteEffects(s.dev, op.data, op.env);
    } else {
      FileAnswers(s, op);
    }
  }

  lemma {:induction false} PositionsFit(ops: seq<Op>, files: nat, k: nat, file: nat)
    requires Playable(ops, files) && k <= |ops|
    ensures Run(ops[..k]).Pos(file) < LOFF_MAX
  {
    if k > 0 {
      PositionsFit(ops, files, k - 1, file);
      CallSnoc(ops, k - 1);
      var s, op := Run(ops[..k - 1]), ops[k - 1];
      if !op.Write? && op.file == file {
        FileAnswers(s, op);
      }
    }
  }

  lemma {:induction false} OneReplyEach(ops: seq<Op>, n: nat)
    requires n <= |ops|
    ensures |Replies(ops, n)| == n
  {
    if n > 0 {
      OneReplyEach(ops, n - 1);
    }
  }

  lemma {:induction false} ReplyAt(ops: seq<Op>, n: nat, k: nat)
    requires k < n <= |ops|
    ensures |Replies(ops, n)| == n && Replies(ops, n)[k] == Answer(Run(ops[..k]), ops[k])
  {
    OneReplyEach(ops, n - 1);
    if k < n - 1 {
      ReplyAt(ops, n - 1, k);
    }
  }

  /** In every run on the device object, every call of it is answered so. */
  lemma EveryCallAnswered(ops: seq<Op>, files: nat, k: nat)
    requires Playable(ops, files) && k < |ops|
    ensures |Replies(ops, |ops|)| == |ops|
    ensures CallAnswer(Run(ops[..k]), ops[k], Run(ops[..k + 1]), Replies(ops, |ops|)[k])
  {
    ReplyAt(ops, |ops|, k);
    CallSnoc(ops, k);
    if !ops[k].Write? {
      PositionsFit(ops, files, k, ops[k].file);
    }
    CallAnswers(Run(ops[..k]), ops[k]);
  }
}
