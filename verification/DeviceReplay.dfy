/** The device object, driven through any run of calls, does what the run model says. */
module DeviceReplay {
  import opened Bytes
  import opened Ring
  import opened DeviceModel
  import opened DeviceRuns
  import opened Device

  function Answer(s: Sys, op: Op): Reply {
    if op.Write? then WriteStep(s.dev, op.data, op.env).reply else FileOp(s, op).reply
  }

  /** The replies to the first `k` calls of a run. */
  function Replies(ops: seq<Op>, k: nat): seq<Reply>
    requires k <= |ops|
  {
    if k == 0 then [] else Replies(ops, k - 1) + [Answer(Run(ops[..k - 1]), ops[k - 1])]
  }

  /** The device object is in state `d`, and `lost` blocks have no pointer left. */
  ghost predicate DevMatches(dev: Device, d: Dev, lost: nat)
    reads dev, dev.ring, dev.ring.entry
  {
    dev.Valid() && dev.Abs() == d && |dev.orphans| == lost
  }

  /** The files are different objects, each at its position. */
  ghost predicate FilesMatch(files: seq<File>, s: Sys)
    reads files
  {
    && (forall i, j :: 0 <= i < j < |files| ==> files[i] != files[j])
    && (forall i {:trigger files[i].fPos} :: 0 <= i < |files| ==> files[i].fPos == s.Pos(i) < LOFF_MAX)
  }

  lemma StepPositions(s: Sys, op: Op)
    requires !op.Write?
    ensures Step(s, op).dev == s.dev
    ensures forall i :: Step(s, op).Pos(i) == if i == op.file then FileOp(s, op).pos else s.Pos(i)
  {
  }

  method FileCall(dev: Device, f: File, op: Op, ghost s: Sys) returns (r: Reply)
    requires dev.Valid() && dev.Abs() == s.dev && dev.Fits()
    requires !op.Write? && f.fPos == s.Pos(op.file) < LOFF_MAX
    modifies f
    ensures f.fPos == FileOp(s, op).pos < LOFF_MAX && r == FileOp(s, op).reply
  {
    match op
    case Read(_, count, interrupted, copyOk) => r := dev.Read(f, count, interrupted, copyOk);
    case Seek(_, off, whence, interrupted) => r := dev.Llseek(f, off, whence, interrupted);
    case SeekTo(_, cmd, to, interrupted, copyOk) => r := dev.Ioctl(f, cmd, to, interrupted, copyOk);
  }

  /** A call that is not a write moves at most its own file. */
  method MoveFile(dev: Device, files: seq<File>, op: Op, ghost s: Sys) returns (r: Reply)
    requires dev.Valid() && dev.Abs() == s.dev && dev.Fits() && FilesMatch(files, s)
    requires !op.Write? && op.file < |files|
    modifies files
    ensures FilesMatch(files, Step(s, op)) && r == Answer(s, op)
  {
    StepPositions(s, op);
    var f := files[op.file];
    r := FileCall(dev, f, op, s);
    forall i | 0 <= i < |files| ensures files[i].fPos == Step(s, op).Pos(i) < LOFF_MAX {
      assert i != op.file ==> files[i] != f && files[i].fPos == s.Pos(i);
    }
  }

  /** A write moves no file. */
  method WriteCall(dev: Device, files: seq<File>, op: Op, ghost s: Sys, ghost lost: nat) returns (r: Reply)
    requires DevMatches(dev, s.dev, lost) && FilesMatch(files, s) && op.Write?
    modifies dev, dev.ring, dev.ring.entry
    ensures DevMatches(dev, Step(s, op).dev, lost + Orphans(s, op))
    ensures FilesMatch(files, Step(s, op))
    ensures r == Answer(s, op)
  {
    r := dev.Write(op.data, op.env);
  }

  /** Any call. */
  method Execute(dev: Device, files: seq<File>, op: Op, ghost s: Sys, ghost lost: nat) returns (r: Reply)
    requires DevMatches(dev, s.dev, lost) && FilesMatch(files, s)
    requires !op.Write? ==> op.file < |files| && dev.Fits()
    modifies dev, dev.ring, dev.ring.entry, files
    ensures DevMatches(dev, Step(s, op).dev, lost + Orphans(s, op))
    ensures FilesMatch(files, Step(s, op))
    ensures r == Answer(s, op)
  {
    if op.Write? {
      r := WriteCall(dev, files, op, s, lost);
    } else {
      StepPositions(s, op);
      r := MoveFile(dev, files, op, s);
    }
  }

  lemma {:induction false} AcceptedPrefix(ops: seq<Op>, i: nat)
    requires i <= |ops|
    ensures |Accepted(ops[..i])| <= |Accepted(ops)|
  {
    if i == |ops| {
      assert ops[..i] == ops;
    } else {
      AcceptedPrefix(ops[..|ops| - 1], i);
      assert ops[..|ops| - 1][..i] == ops[..i];
    }
  }

  /** Each call that is not a write is on an open file and finds fewer than 2^63 live bytes. */
  ghost predicate Playable(ops: seq<Op>, files: nat) {
    forall i :: 0 <= i < |ops| && !ops[i].Write? ==>
      ops[i].file < files && |Flatten(Run(ops[..i]).dev.Live())| < LOFF_MAX
  }

  /** In particular, a run that takes in fewer than 2^63 bytes in all. */
  lemma FewBytesPlayable(ops: seq<Op>, files: nat)
    requires |Accepted(ops)| < LOFF_MAX
    requires forall i :: 0 <= i < |ops| && !ops[i].Write? ==> ops[i].file < files
    ensures Playable(ops, files)
  {
    forall i | 0 <= i < |ops| ensures |Flatten(Run(ops[..i]).dev.Live())| < LOFF_MAX {
      LiveFits(ops, i);
    }
  }

  lemma LiveFits(ops: seq<Op>, i: nat)
    requires i <= |ops| && |Accepted(ops)| < LOFF_MAX
    ensures |Flatten(Run(ops[..i]).dev.Live())| < LOFF_MAX
  {
    var d := Run(ops[..i]).dev;
    RunKeepsCount(ops[..i]);
    AcceptedPrefix(ops, i);
    FlattenAppend(Evicted(d.lines), d.Live());
  }

  lemma CallSnoc(ops: seq<Op>, k: nat)
    requires k < |ops|
    ensures Run(ops[..k + 1]) == Step(Run(ops[..k]), ops[k])
    ensures OrphanTotal(ops[..k + 1]) == OrphanTotal(ops[..k]) + Orphans(Run(ops[..k]), ops[k])
  {
    assert ops[..k + 1][..k] == ops[..k];
  }

  /** Any run from a fresh device and fresh files: every reply, the final device and the final positions. */
  method Replay(dev: Device, files: seq<File>, ops: seq<Op>) returns (replies: seq<Reply>)
    requires DevMatches(dev, FRESH, 0) && FilesMatch(files, Run([]))
    requires Playable(ops, |files|)
    modifies dev, dev.ring, dev.ring.entry, files
    ensures DevMatches(dev, Run(ops).dev, OrphanTotal(ops))
    ensures FilesMatch(files, Run(ops))
    ensures replies == Replies(ops, |ops|)
  {
    replies := [];
    var k := 0;
    ghost var s, lost := Run([]), 0;
    assert ops[..0] == [] && ops[..|ops|] == ops;
    while k < |ops|
      invariant k <= |ops|
      invariant s == Run(ops[..k]) && lost == OrphanTotal(ops[..k])
      invariant DevMatches(dev, s.dev, lost) && FilesMatch(files, s)
      invariant replies == Replies(ops, k)
    {
      CallSnoc(ops, k);
      var r := Execute(dev, files, ops[k], s, lost);
      s, lost := Step(s, ops[k]), lost + Orphans(s, ops[k]);
      replies := replies + [r];
      k := k + 1;
    }
  }

  /** Unloading the module after any run: what stays allocated, to the block. */
  method Unload(dev: Device, ghost ops: seq<Op>)
    requires DevMatches(dev, Run(ops).dev, OrphanTotal(ops))
    modifies dev, dev.ring.entry
    ensures |dev.heap| == |Evicted(Run(ops).dev.lines)| + (if dev.buffer.Block? then 1 else 0) + OrphanTotal(ops)
  {
    dev.Cleanup();
  }

  /** One more file, at position 0. */
  lemma OneMoreFile(files: seq<File>, f: File)
    requires FilesMatch(files, Run([])) && f !in files && f.fPos == 0
    ensures FilesMatch(files + [f], Run([]))
  {
    var more := files + [f];
    forall i | 0 <= i < |more| ensures more[i].fPos == Run([]).Pos(i) {
      assert i < |files| ==> more[i] == files[i] && files[i].fPos == Run([]).Pos(i);
    }
  }

  /** `n` times open: the files that a run starts with. */
  method OpenFiles(n: nat) returns (files: seq<File>)
    ensures |files| == n && FilesMatch(files, Run([])) && fresh(files)
  {
    files := [];
    while |files| < n
      invariant |files| <= n && fresh(files)
      invariant FilesMatch(files, Run([]))
    {
      var f := new File();
      OneMoreFile(files, f);
      files := files + [f];
    }
  }

  /**
   * From loading to unloading: any run on `n` open files, every reply, and what is left allocated.
   * Nothing is left exactly when the init buffer was not allocated, no line was evicted and no
   * pointer was lost.
   */
  method Lifetime(ops: seq<Op>, n: nat, bufferOk: bool, garbage: seq<byte>) returns (dev: Device, replies: seq<Reply>)
    requires Playable(ops, n)
    ensures replies == Replies(ops, |ops|)
    ensures |dev.heap| == |Evicted(Run(ops).dev.lines)| + (if bufferOk then 1 else 0) + OrphanTotal(ops)
    ensures dev.heap == map[] <==> !bufferOk && |Run(ops).dev.lines| <= SLOTS && OrphanTotal(ops) == 0
  {
    dev := new Device(bufferOk, garbage);
    var files := OpenFiles(n);
    replies := Replay(dev, files, ops);
    Unload(dev, ops);
  }

  /** Eleven one-line writes, and every allocation succeeds. */
  function ElevenLines(): seq<Op> {
    seq(SLOTS + 1, i => Write([NEWLINE], GOOD))
  }

  lemma ElevenLinesEvictOne()
    ensures Lossless(ElevenLines()) && OrphanTotal(ElevenLines()) == 0
    ensures |Run(ElevenLines()).dev.lines| == SLOTS + 1 && |Evicted(Run(ElevenLines()).dev.lines)| == 1
  {
    OneLineEach(ElevenLines());
    LosslessHasNoOrphans(ElevenLines());
  }

  /** Then two blocks are still allocated when the module is gone: the first line's and the init buffer. */
  method ElevenLinesLeak() returns (dev: Device)
    ensures |dev.heap| == 2
  {
    ElevenLinesEvictOne();
    var replies;
    dev, replies := Lifetime(ElevenLines(), 0, true, []);
  }

  /** An empty run already leaves the init buffer. */
  method EmptyRunLeaks() returns (dev: Device)
    ensures |dev.heap| == 1
  {
    var replies;
    dev, replies := Lifetime([], 0, true, []);
  }
}
