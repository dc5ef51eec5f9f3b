/** What one call on the character device does, on values: the specification of `main.c`. */
module DeviceModel {
  import opened Bytes
  import opened Window
  import opened Ring

  datatype Errno = ERESTARTSYS | ENOMEM | EFAULT | EINVAL | ENOTTY

  datatype Reply =
    | Count(n: nat)
    | Data(bytes: seq<byte>)
    | Moved(pos: nat)
    | Done
    | Fail(errno: Errno)

  /**
   * The unfinished line. A failed krealloc loses the pointer but keeps the size: what is left
   * then is a size without bytes.
   */
  datatype Work = Held(bytes: seq<byte>) | Dropped(size: nat) {
    function Size(): nat {
      if Held? then |bytes| else size
    }
  }

  /** Every line ever committed, and the unfinished one. */
  datatype Dev = Dev(lines: seq<seq<byte>>, work: Work) {
    /** The lines that the ring still holds. */
    function Live(): seq<seq<byte>> {
      Last(lines, SLOTS)
    }
  }

  /** What a call does to the device, and what it returns. */
  datatype DevStep = DevStep(dev: Dev, reply: Reply)

  /** What a call does to the position of the file it is made on, and what it returns. */
  datatype FileStep = FileStep(pos: nat, reply: Reply)

  const FRESH := Dev([], Held([]))

  // ---- write ----

  /** Which of the kernel services that one write asks for succeed, and what uninitialised memory holds. */
  datatype WriteEnv = WriteEnv(interrupted: bool, kbufOk: bool, copyOk: bool,
                               growOk: bool, entryOk: bool, shrinkOk: bool, garbage: seq<byte>) {
    predicate TakesInput() {
      !interrupted && kbufOk && copyOk
    }
  }

  /** All kernel services succeed. */
  const GOOD := WriteEnv(false, true, true, true, true, true, [])

  function Fill(garbage: seq<byte>, n: nat): (s: seq<byte>)
    ensures |s| == n
  {
    seq(n, i requires 0 <= i < n => if i < |garbage| then garbage[i] else 0)
  }

  /** The working bytes when a reallocation succeeds. */
  function Recovered(w: Work, garbage: seq<byte>): (s: seq<byte>)
    ensures |s| == w.Size()
  {
    if w.Held? then w.bytes else Fill(garbage, w.size)
  }

  function DropPointer(size: nat): (w: Work)
    ensures w.Size() == size
  {
    if size == 0 then Held([]) else Dropped(size)
  }

  datatype CommitResult = CommitResult(dev: Dev, ok: bool)

  /** Moves the first complete line of `w`, if any, into the ring. */
  function CommitStep(lines: seq<seq<byte>>, w: seq<byte>, env: WriteEnv): CommitResult {
    var k := FirstNewline(w);
    if k == |w| then CommitResult(Dev(lines, Held(w)), true)
    else if !env.entryOk then CommitResult(Dev(lines, Held(w)), false)
    else
      var rest := w[k + 1..];
      CommitResult(Dev(lines + [w[..k + 1]], if env.shrinkOk then Held(rest) else DropPointer(|rest|)), true)
  }

  function WriteStep(d: Dev, data: seq<byte>, env: WriteEnv): DevStep {
    if env.interrupted then DevStep(d, Fail(ERESTARTSYS))
    else if !env.kbufOk then DevStep(d, Fail(ENOMEM))
    else if !env.copyOk then DevStep(d, Fail(EFAULT))
    else if data == [] then DevStep(d, Count(0))
    else if !env.growOk then DevStep(Dev(d.lines, DropPointer(d.work.Size())), Fail(ENOMEM))
    else
      var c := CommitStep(d.lines, Recovered(d.work, env.garbage) + data, env);
      DevStep(c.dev, if c.ok then Count(|data|) else Fail(ENOMEM))
  }

  /** A commit that leaves bytes behind the line it moves, in a block whose shrinking fails. */
  predicate ShrinkLoses(w: seq<byte>, env: WriteEnv) {
    FirstNewline(w) + 1 < |w| && env.entryOk && !env.shrinkOk
  }

  /** How many blocks a commit leaves without a pointer: the old working block, when shrinking it fails. */
  function CommitOrphans(w: seq<byte>, env: WriteEnv): nat {
    if ShrinkLoses(w, env) then 1 else 0
  }

  /** How many blocks a write leaves without a pointer. */
  function WriteOrphans(d: Dev, data: seq<byte>, env: WriteEnv): nat {
    if !env.TakesInput() || data == [] then 0
    else if !env.growOk then (if d.work.Held? && d.work.bytes != [] then 1 else 0)
    else CommitOrphans(Recovered(d.work, env.garbage) + data, env)
  }

  // ---- read, llseek, ioctl ----

  function Min(a: nat, b: nat): nat {
    if a < b then a else b
  }

  /** New file position and reply of a read: never more than the rest of one entry. */
  function ReadStep(live: seq<seq<byte>>, pos: nat, count: nat, interrupted: bool, copyOk: bool): FileStep {
    if interrupted then FileStep(pos, Fail(ERESTARTSYS))
    else
      match Locate(Sizes(live), pos)
      case None => FileStep(pos, Data([]))
      case Some(at) =>
        var n := Min(count, |live[at.index]| - at.offset);
        if !copyOk then FileStep(pos, Fail(EFAULT))
        else FileStep(pos + n, Data(live[at.index][at.offset..at.offset + n]))
  }

  /** A read of the entry that a position falls in; it ends inside the concatenation. */
  lemma ReadHit(live: seq<seq<byte>>, pos: nat, count: nat, at: Place)
    requires Locate(Sizes(live), pos) == Some(at)
    ensures Inside(Sizes(live), at)
    ensures var n := Min(count, |live[at.index]| - at.offset);
            && ReadStep(live, pos, count, false, true)
               == FileStep(pos + n, Data(live[at.index][at.offset..at.offset + n]))
            && pos + n <= |Flatten(live)|
  {
    var sizes := Sizes(live);
    LocateInverse(sizes, pos, at);
    SumPrefix(sizes, at.index);
    SumOfSizes(live);
  }

  /** loff_t is a signed 64-bit integer. */
  const LOFF_MAX: int := 0x8000_0000_0000_0000

  type Loff = x: int | -LOFF_MAX <= x < LOFF_MAX

  /** The loff_t value with the same 64 bits as `x`. */
  function ToLoff(x: int): (r: Loff)
    ensures -LOFF_MAX <= x < LOFF_MAX ==> r == x
    decreases if x >= 0 then 2 * x + 1 else -2 * x
  {
    if x >= LOFF_MAX then ToLoff(x - SIZE_MOD)
    else if x < -LOFF_MAX then ToLoff(x + SIZE_MOD)
    else x
  }

  /** POSIX whence values. */
  const SEEK_SET := 0
  const SEEK_CUR := 1
  const SEEK_END := 2

  function SeekStep(total: nat, pos: nat, off: Loff, whence: int, interrupted: bool): FileStep {
    if interrupted then FileStep(pos, Fail(ERESTARTSYS))
    else if whence != SEEK_SET && whence != SEEK_CUR && whence != SEEK_END then FileStep(pos, Fail(EINVAL))
    else
      var base := if whence == SEEK_SET then 0 else if whence == SEEK_CUR then pos else total;
      var newpos := ToLoff(base + off);
      if newpos < 0 then FileStep(pos, Fail(EINVAL)) else FileStep(newpos, Moved(newpos))
  }

  /** _IOWR(0x16, 1, struct aesd_seekto), the structure being eight bytes. */
  const AESDCHAR_IOCSEEKTO: nat := 0xC008_1601

  function SeekToStep(live: seq<seq<byte>>, pos: nat, cmd: nat, to: Place, interrupted: bool, copyOk: bool)
    : FileStep
  {
    if cmd != AESDCHAR_IOCSEEKTO then FileStep(pos, Fail(ENOTTY))
    else if !copyOk then FileStep(pos, Fail(EFAULT))
    else if to.index >= SLOTS then FileStep(pos, Fail(EINVAL))
    else if interrupted then FileStep(pos, Fail(ERESTARTSYS))
    else if !Inside(Sizes(live), to) then FileStep(pos, Fail(EINVAL))
    else FileStep(Position(Sizes(live), to), Done)
  }
}
