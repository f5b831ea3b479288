/** Any run of file operations on a volume of many files. */
module SfsRuns {
  import opened SfsLayout
  import opened SfsTree
  import opened SfsMap
  import opened SfsVolume
  import opened SfsIo
  import opened SfsTruncate
  import opened SfsFile
  import opened UioModel

  /** An inode in memory. */
  datatype Cached = Cached(inode: Inode, dirty: bool)

  /** The disk, the owners of its blocks, the freemap, and the inodes of all files. */
  datatype Files = Files(disk: Disk, owner: Owner, freemap: FreeMap, inodes: map<nat, Cached>) {
    ghost predicate Ok() {
      forall ino | ino in inodes :: Of(ino).Ok(ino)
    }

    function Of(ino: nat): Snap
      requires ino in inodes
    {
      Snap(disk, owner, freemap, inodes[ino].inode, inodes[ino].dirty)
    }

    ghost predicate TailsZero()
      requires Ok()
    {
      forall ino | ino in inodes :: TailZero(Of(ino))
    }

    /** What the volume means: a sequence of bytes for each file. */
    ghost function View(): (v: map<nat, seq<byte>>)
      requires Ok()
    {
      map ino | ino in inodes :: Contents(Of(ino))
    }
  }

  datatype Call = Call(ino: nat, op: FileOp)

  /** One call on one file; no other inode is touched. */
  ghost predicate Step(f: Files, g: Files, c: Call) {
    && c.ino in f.inodes && c.ino in g.inodes
    && g.inodes == f.inodes[c.ino := g.inodes[c.ino]]
    && FileStep(f.Of(c.ino), g.Of(c.ino), c.ino, c.op)
  }

  // ----- other files

  lemma TruncatedFrames(a: Snap, b: Snap, ino: nat, len: nat, ino2: nat, n2: Inode)
    requires Truncated(a, b, ino, len) && ino2 != ino && TreeOk(ImageOf(a.disk), a.owner, ino2, n2)
    ensures TreeOk(ImageOf(b.disk), b.owner, ino2, n2)
    ensures forall s | ValidSlot(s) :: Ptr(ImageOf(b.disk), n2, s) == Ptr(ImageOf(a.disk), n2, s)
    ensures forall i: nat :: FileByte(b.disk, n2, i) == FileByte(a.disk, n2, i)
  {
    FrameTree(ImageOf(a.disk), ImageOf(b.disk), a.owner, b.owner, ino2, n2);
    forall i: nat
      ensures FileByte(b.disk, n2, i) == FileByte(a.disk, n2, i)
    {
      var p := PlaceOf(i / BLOCKSIZE);
      if p.At? && Ptr(ImageOf(a.disk), n2, p.slot) != 0 {
        SlotInVolume(Snap(a.disk, a.owner, a.freemap, n2, false), ino2, p.slot);
      }
    }
  }

  /** A call on one file leaves the tree and every byte of every other file alone. */
  lemma StepFrames(a: Snap, b: Snap, ino: nat, op: FileOp, ino2: nat, n2: Inode)
    requires FileStep(a, b, ino, op) && ino2 != ino && TreeOk(ImageOf(a.disk), a.owner, ino2, n2)
    ensures TreeOk(ImageOf(b.disk), b.owner, ino2, n2)
    ensures forall s | ValidSlot(s) :: Ptr(ImageOf(b.disk), n2, s) == Ptr(ImageOf(a.disk), n2, s)
    ensures forall i: nat :: FileByte(b.disk, n2, i) == FileByte(a.disk, n2, i)
  {
    hide TreeOk, OnlyFile, Truncated;
    if op.Truncate? {
      TruncatedFrames(a, b, ino, op.len, ino2, n2);
    } else {
      OnlyFileFrames(a, b, ino, ino2, n2);
    }
  }

  // ----- the specification

  /** What a call makes of the bytes of its file. */
  function Apply(file: seq<byte>, op: FileOp): (f: seq<byte>)
    requires WellFormedOp(op)
  {
    match op
    case Read(_, _, _, _) => file
    case Write(off, data, sent, _) => WriteAt(file, off, data[..sent])
    case Truncate(len) => CutTo(file, len)
  }

  /** A read delivers the slice of the file at its offset, all of it up to the end of the file if it succeeds. */
  predicate Delivers(file: seq<byte>, op: FileOp) {
    op.Read? ==>
      && (op.got != [] ==> op.off + |op.got| <= |file| && op.got == file[op.off..op.off + |op.got|])
      && (op.done ==> |op.got| == if op.off >= |file| then 0 else Min(op.want, |file| - op.off))
  }

  /** Truncations that leave nothing behind the new end. */
  ghost predicate Clean(a: Snap, op: FileOp)
    requires a.inode.Shape()
  {
    op.Truncate? ==> |a.disk| > 0 && CleanCut(a, op.len)
  }

  /** One call refines its specification on its own file. */
  lemma FileStepRefines(a: Snap, b: Snap, ino: nat, op: FileOp)
    requires FileStep(a, b, ino, op) && TailZero(a)
    ensures Contents(b) == Apply(Contents(a), op) && Delivers(Contents(a), op)
    ensures TailZero(b) <==> Clean(a, op)
  {
    hide TreeOk, OnlyFile, Truncated, CleanCut, ByteAt;
    match op {
      case Read(off, want, got, done) =>
        ReadContents(a, off, |got|);
        assert Contents(b) == Contents(a);
      case Write(off, data, sent, done) =>
        WriteContents(a, b, off, data[..sent]);
      case Truncate(len) =>
        TruncateContents(a, b, ino, len);
        TruncateTail(a, b, ino, len);
    }
  }

  lemma SameData(a: Snap, b: Snap)
    requires a.inode.Shape() && b.inode.Shape() && b.inode.size == a.inode.size
    requires forall i: nat :: ByteAt(b, i) == ByteAt(a, i)
    ensures DataOf(b) == DataOf(a)
  {
    assert TailZero(a) <==> TailZero(b) by {
      assert forall i: nat :: ByteAt(b, i) == ByteAt(a, i);
    }
  }

  lemma SameFileBytes(a: Snap, b: Snap)
    requires a.inode.Shape() && b.inode == a.inode
    requires forall i: nat :: FileByte(b.disk, a.inode, i) == FileByte(a.disk, a.inode, i)
    ensures DataOf(b) == DataOf(a)
  {
    hide FileByte;
    SameData(a, b);
  }

  /** One call on a volume: its file changes as specified, and no other file changes. */
  lemma StepRefines(f: Files, g: Files, c: Call)
    requires f.Ok() && f.TailsZero() && Step(f, g, c) && Clean(f.Of(c.ino), c.op)
    ensures g.Ok() && g.TailsZero()
    ensures g.View() == f.View()[c.ino := Apply(f.View()[c.ino], c.op)]
    ensures Delivers(f.View()[c.ino], c.op)
  {
    hide TreeOk, FileStep, CleanCut, FileByte, Apply, Delivers, Clean;
    FileStepRefines(f.Of(c.ino), g.Of(c.ino), c.ino, c.op);
    StepKeepsFile(f, g, c);
    forall ino | ino in f.inodes && ino != c.ino
      ensures g.Of(ino).Ok(ino) && TailZero(g.Of(ino)) && Contents(g.Of(ino)) == Contents(f.Of(ino))
    {
      assert f.Of(ino).Ok(ino);
      StepFrames(f.Of(c.ino), g.Of(c.ino), c.ino, c.op, ino, f.inodes[ino].inode);
      SameFileBytes(f.Of(ino), g.Of(ino));
    }
  }

  lemma StepKeepsFile(f: Files, g: Files, c: Call)
    requires Step(f, g, c)
    ensures g.Of(c.ino).Ok(c.ino) && WellFormedOp(c.op)
  {
  }

  // ----- runs

  ghost predicate Run(trace: seq<Files>, calls: seq<Call>) {
    && |trace| == |calls| + 1
    && forall i: nat | i < |calls| :: Step(trace[i], trace[i + 1], calls[i])
  }

  /** Every truncation of the run is clean. */
  ghost predicate CleanRun(trace: seq<Files>, calls: seq<Call>)
    requires |trace| == |calls| + 1
  {
    forall i: nat | i < |calls| ::
      && calls[i].ino in trace[i].inodes && trace[i].Of(calls[i].ino).inode.Shape()
      && Clean(trace[i].Of(calls[i].ino), calls[i].op)
  }

  predicate OnFiles(v: map<nat, seq<byte>>, calls: seq<Call>) {
    forall i: nat | i < |calls| :: calls[i].ino in v && WellFormedOp(calls[i].op)
  }

  /** The first `k` calls of the specification run, on files that are sequences of bytes. */
  function Replay(v: map<nat, seq<byte>>, calls: seq<Call>, k: nat): (w: map<nat, seq<byte>>)
    requires OnFiles(v, calls) && k <= |calls|
    ensures w.Keys == v.Keys
  {
    if k == 0 then v
    else
      var before := Replay(v, calls, k - 1);
      before[calls[k - 1].ino := Apply(before[calls[k - 1].ino], calls[k - 1].op)]
  }

  lemma {:induction false} RunInodes(trace: seq<Files>, calls: seq<Call>, k: nat)
    requires Run(trace, calls) && k <= |calls|
    ensures trace[k].inodes.Keys == trace[0].inodes.Keys
  {
    if k > 0 {
      RunInodes(trace, calls, k - 1);
      assert Step(trace[k - 1], trace[k], calls[k - 1]);
    }
  }

  lemma RunCalls(trace: seq<Files>, calls: seq<Call>)
    requires Run(trace, calls) && trace[0].Ok()
    ensures OnFiles(trace[0].View(), calls)
  {
    hide FileStep, Files.Ok;
    forall i: nat | i < |calls|
      ensures calls[i].ino in trace[0].View() && WellFormedOp(calls[i].op)
    {
      RunInodes(trace, calls, i);
      StepKeepsFile(trace[i], trace[i + 1], calls[i]);
    }
  }

  /**
   * Any run of reads, writes and clean truncations, successful or not, on any files, is a run over plain
   * sequences of bytes: after every call the files hold what the specification holds.
   */
  lemma {:induction false} RunRefines(trace: seq<Files>, calls: seq<Call>, k: nat)
    requires Run(trace, calls) && trace[0].Ok() && trace[0].TailsZero() && CleanRun(trace, calls) && k <= |calls|
    ensures OnFiles(trace[0].View(), calls)
    ensures trace[k].Ok() && trace[k].TailsZero() && trace[k].View() == Replay(trace[0].View(), calls, k)
  {
    hide Files.Ok, Step, Apply, Clean, Files.TailsZero;
    RunCalls(trace, calls);
    if k > 0 {
      RunRefines(trace, calls, k - 1);
      StepRefines(trace[k - 1], trace[k], calls[k - 1]);
    }
  }

  /** So every read delivers what the specification holds at that moment. */
  lemma RunReads(trace: seq<Files>, calls: seq<Call>, k: nat)
    requires Run(trace, calls) && trace[0].Ok() && trace[0].TailsZero() && CleanRun(trace, calls) && k < |calls|
    ensures OnFiles(trace[0].View(), calls)
    ensures Delivers(Replay(trace[0].View(), calls, k)[calls[k].ino], calls[k].op)
  {
    hide Files.Ok, Step, Apply, Clean, Files.TailsZero, Delivers;
    RunRefines(trace, calls, k);
    StepRefines(trace[k], trace[k + 1], calls[k]);
  }

  // ----- runs in which a truncation may leave bytes behind the end

  /** The call neither writes byte `i` nor cuts it off. */
  predicate Spares(op: FileOp, i: nat) {
    match op
    case Read(_, _, _, _) => true
    case Write(off, _, sent, _) => !(off <= i < off + sent)
    case Truncate(len) => i < len
  }

  lemma OpSpares(a: Snap, b: Snap, ino: nat, op: FileOp, i: nat)
    requires FileStep(a, b, ino, op) && Spares(op, i)
    ensures ByteAt(b, i) == ByteAt(a, i) && (i < a.inode.size ==> i < b.inode.size)
  {
    hide TreeOk, OnlyFile, ByteAt, Truncated;
    if op.Truncate? {
      TruncatedSize(a, b, ino, op.len);
      TruncatedBytes(a, b, ino, op.len);
      KeptPrefix(a, ino, op.len, i);
    }
  }

  lemma TruncatedSize(a: Snap, b: Snap, ino: nat, len: nat)
    requires Truncated(a, b, ino, len)
    ensures |a.disk| > 0 && b.inode.size == len
  {
  }

  lemma StepSpares(f: Files, g: Files, c: Call, ino: nat, i: nat)
    requires f.Ok() && Step(f, g, c) && ino in f.inodes && (c.ino == ino ==> Spares(c.op, i))
    ensures g.Ok() && ino in g.inodes && ByteAt(g.Of(ino), i) == ByteAt(f.Of(ino), i)
    ensures i < f.inodes[ino].inode.size ==> i < g.inodes[ino].inode.size
  {
    hide TreeOk, FileStep, FileByte, Spares;
    StepKeepsFile(f, g, c);
    forall x | x in f.inodes && x != c.ino
      ensures g.Of(x).Ok(x) && ByteAt(g.Of(x), i) == ByteAt(f.Of(x), i)
    {
      assert f.Of(x).Ok(x);
      StepFrames(f.Of(c.ino), g.Of(c.ino), c.ino, c.op, x, f.inodes[x].inode);
    }
    if c.ino == ino {
      OpSpares(f.Of(ino), g.Of(ino), ino, c.op, i);
    }
  }

  /** From call `j` to call `k` no call on the file touches the byte. */
  predicate SparedBetween(calls: seq<Call>, ino: nat, i: nat, j: nat, k: nat)
    requires k <= |calls|
  {
    forall m: nat | j <= m < k && calls[m].ino == ino :: Spares(calls[m].op, i)
  }

  lemma {:induction false} ByteStays(trace: seq<Files>, calls: seq<Call>, ino: nat, i: nat, j: nat, k: nat)
    requires Run(trace, calls) && j <= k <= |calls| && trace[j].Ok() && ino in trace[j].inodes
             && SparedBetween(calls, ino, i, j, k)
    ensures trace[k].Ok() && ino in trace[k].inodes && ByteAt(trace[k].Of(ino), i) == ByteAt(trace[j].Of(ino), i)
    ensures i < trace[j].inodes[ino].inode.size ==> i < trace[k].inodes[ino].inode.size
    decreases k - j
  {
    hide Files.Ok, Step, ByteAt, Spares;
    if j < k {
      ByteStays(trace, calls, ino, i, j, k - 1);
      StepSpares(trace[k - 1], trace[k], calls[k - 1], ino, i);
    }
  }

  lemma {:induction false} RunOk(trace: seq<Files>, calls: seq<Call>, k: nat)
    requires Run(trace, calls) && trace[0].Ok() && k <= |calls|
    ensures trace[k].Ok()
  {
    hide Step;
    if k > 0 {
      RunOk(trace, calls, k - 1);
      StepKeepsOk(trace[k - 1], trace[k], calls[k - 1]);
    }
  }

  lemma StepKeepsOk(f: Files, g: Files, c: Call)
    requires f.Ok() && Step(f, g, c)
    ensures g.Ok()
  {
    hide TreeOk, FileStep;
    StepKeepsFile(f, g, c);
    forall x | x in f.inodes && x != c.ino
      ensures g.Of(x).Ok(x)
    {
      assert f.Of(x).Ok(x);
      StepFrames(f.Of(c.ino), g.Of(c.ino), c.ino, c.op, x, f.inodes[x].inode);
    }
  }

  /**
   * In any run, clean or not: a byte that was written is in the file with its value until it is written again or
   * cut off, whatever else happens to this file and to others, and whether the calls succeed or fail.
   */
  lemma LastWriteStands(trace: seq<Files>, calls: seq<Call>, ino: nat, i: nat, j: nat, k: nat)
    requires Run(trace, calls) && trace[0].Ok() && j < k <= |calls| && calls[j].ino == ino && calls[j].op.Write?
    requires var w := calls[j].op; WellFormedOp(w) && w.off <= i < w.off + w.sent
    requires SparedBetween(calls, ino, i, j + 1, k)
    ensures ino in trace[k].inodes && trace[k].Of(ino).inode.Shape() && i < |Contents(trace[k].Of(ino))|
    ensures Contents(trace[k].Of(ino))[i] == calls[j].op.data[i - calls[j].op.off]
  {
    hide Files.Ok, TreeOk, OnlyFile, ByteAt, Spares;
    RunOk(trace, calls, j);
    RunOk(trace, calls, j + 1);
    assert Step(trace[j], trace[j + 1], calls[j]);
    WriteLands(trace[j].Of(ino), trace[j + 1].Of(ino), ino, calls[j].op, i);
    ByteStays(trace, calls, ino, i, j + 1, k);
    RunShape(trace[k], ino);
    assert Contents(trace[k].Of(ino))[i] == ByteAt(trace[k].Of(ino), i);
  }

  lemma WriteLands(a: Snap, b: Snap, ino: nat, op: FileOp, i: nat)
    requires FileStep(a, b, ino, op) && op.Write? && op.off <= i < op.off + op.sent
    ensures ByteAt(b, i) == op.data[i - op.off] && i < b.inode.size
  {
    hide TreeOk, OnlyFile, ByteAt;
  }

  lemma RunShape(f: Files, ino: nat)
    requires f.Ok() && ino in f.inodes
    ensures f.Of(ino).inode.Shape()
  {
    hide TreeOk;
  }
}
