/** The buffered writer between libtar and the archive file. */
module TarBuffer {
  import opened Words

  const BLOCK := 512
  /** sizeof(char *), by which the buffer is over-allocated */
  const POINTER_SIZE := 8

  /** file: bytes written to archives; pending: bytes in the buffer; eot: -1 before the end of the archive is
      announced, then the number of blocks received since; connected: the pipe's descriptor is set; pipe: what has been
      sent to the parent. */
  datatype State = State(size: nat, file: seq<byte>, pending: seq<byte>, eot: int, connected: bool, pipe: seq<nat>)

  datatype Written = Written(state: State, result: int)

  /** A report to a descriptor that is not set goes nowhere. */
  function Report(s: State, n: nat): State {
    if s.connected then s.(pipe := s.pipe + [n]) else s
  }

  /** One call of the buffered writer; ok says whether the write to the file, if there is one, succeeds. */
  function Write(s: State, data: seq<byte>, ok: bool): Written {
    var pending := s.pending + data;
    var eot := if 0 <= s.eot < 2 then s.eot + 1 else s.eot;
    if |pending| >= s.size || eot >= 2 then
      if |pending| == 0 then Written(s.(eot := eot), 0)
      else if !ok then Written(s.(pending := [], eot := eot), -1)
      else Written(Report(s, |pending|).(file := s.file + pending, pending := [], eot := eot), |data|)
    else Written(s.(pending := pending, eot := eot), |data|)
  }

  function Flush(s: State): State {
    s.(eot := 0)
  }

  /** One call of the unbuffered writer, which reports before it writes. */
  function WritePlain(s: State, data: seq<byte>, ok: bool): Written {
    var r := Report(s, BLOCK);
    if ok then Written(r.(file := s.file + data), |data|) else Written(r, -1)
  }

  function OpenBuffered(s: State, newSize: nat): State {
    s.(size := if newSize == 0 then s.size else newSize, pending := [], eot := -1, connected := true)
  }

  function OpenPlain(s: State): State {
    s.(size := BLOCK, connected := true)
  }

  function Release(s: State): State {
    s.(connected := false)
  }

  function WriteAll(s: State, blocks: seq<seq<byte>>): State
    decreases |blocks|
  {
    if blocks == [] then s else WriteAll(Write(s, blocks[0], true).state, blocks[1..])
  }

  function Join(blocks: seq<seq<byte>>): seq<byte> {
    if blocks == [] then [] else blocks[0] + Join(blocks[1..])
  }

  function Sum(ns: seq<nat>): nat {
    if ns == [] then 0 else ns[0] + Sum(ns[1..])
  }

  lemma {:induction false} SumConcat(a: seq<nat>, b: seq<nat>)
    ensures Sum(a + b) == Sum(a) + Sum(b)
    decreases |a|
  {
    if a == [] {
      assert a + b == b;
    } else {
      assert (a + b)[0] == a[0] && (a + b)[1..] == a[1..] + b;
      SumConcat(a[1..], b);
    }
  }

  ghost predicate AllBlocks(blocks: seq<seq<byte>>) {
    forall i :: 0 <= i < |blocks| ==> |blocks[i]| == BLOCK
  }

  /** What holds between calls of the buffered writer: the buffer is below its size and holds whole blocks, and the
      reports add up to the bytes written, none of them zero. */
  ghost predicate Steady(s: State) {
    s.connected && s.size > 0 && |s.pending| < s.size && |s.pending| % BLOCK == 0 && Sum(s.pipe) == |s.file| &&
    forall i :: 0 <= i < |s.pipe| ==> s.pipe[i] > 0
  }

  lemma WriteKeeps(s: State, data: seq<byte>)
    requires Steady(s) && |data| == BLOCK
    ensures var w := Write(s, data, true);
            Steady(w.state) && w.result == BLOCK && w.state.file + w.state.pending == s.file + s.pending + data
  {
    var pending := s.pending + data;
    SumConcat(s.pipe, [|pending|]);
    assert [|pending|][1..] == [];
    assert s.file + pending == s.file + s.pending + data;
    assert s.file + pending + [] == s.file + pending;
  }

  /** What the result of a call tells: the length of the data exactly when it is written or in the buffer, behind what
      was there; -1 exactly when a write was due and failed, and then what was in the buffer is lost too and nothing is
      reported. */
  lemma ResultTells(s: State, data: seq<byte>, ok: bool)
    requires data != []
    ensures var w := Write(s, data, ok);
            (w.result == |data| || w.result == -1) &&
            (w.result == |data| ==> w.state.file + w.state.pending == s.file + s.pending + data) &&
            (w.result == -1 <==> !ok && (|s.pending + data| >= s.size || s.eot >= 1)) &&
            (w.result == -1 ==> w.state.file == s.file && w.state.pending == [] && w.state.pipe == s.pipe)
  {
    var pending := s.pending + data;
    assert s.file + pending == s.file + s.pending + data && (s.file + pending) + [] == s.file + pending;
  }

  /** The unbuffered writer reports a block even if the write fails. */
  lemma PlainResultTells(s: State, data: seq<byte>, ok: bool)
    requires data != []
    ensures var w := WritePlain(s, data, ok);
            (w.result == |data| <==> ok) && w.state.file == s.file + (if ok then data else []) &&
            w.state.pipe == s.pipe + (if s.connected then [BLOCK] else [])
  {
    assert s.file + [] == s.file && s.pipe + [] == s.pipe;
  }

  /** Written and pending bytes together are always the bytes handed in. */
  lemma {:induction false} StreamConserved(s: State, blocks: seq<seq<byte>>)
    requires Steady(s) && AllBlocks(blocks)
    ensures var t := WriteAll(s, blocks);
            Steady(t) && t.file + t.pending == s.file + s.pending + Join(blocks) &&
            (s.eot == -1 ==> t.eot == -1) && t.size == s.size
    decreases |blocks|
  {
    if blocks != [] {
      WriteKeeps(s, blocks[0]);
      var s' := Write(s, blocks[0], true).state;
      StreamConserved(s', blocks[1..]);
      assert s.file + s.pending + Join(blocks) == (s.file + s.pending + blocks[0]) + Join(blocks[1..]);
    } else {
      assert s.file + s.pending + [] == s.file + s.pending;
    }
  }

  /** An archive of any length, closed by a flush and the two end blocks: everything is in the file, whatever the
      buffer held, and the parent has been told of every byte. */
  lemma ArchiveComplete(s: State, blocks: seq<seq<byte>>, end: seq<byte>)
    requires Steady(s) && s.eot == -1 && AllBlocks(blocks) && |end| == BLOCK
    ensures var t := WriteAll(Flush(WriteAll(s, blocks)), [end, end]);
            t.pending == [] && t.file == s.file + s.pending + Join(blocks) + end + end && Sum(t.pipe) == |t.file|
  {
    StreamConserved(s, blocks);
    var f := Flush(WriteAll(s, blocks));
    var g := Write(f, end, true).state;
    WriteKeeps(f, end);
    WriteKeeps(g, end);
    var t := Write(g, end, true).state;
    assert [end, end][1..] == [end] && [end][1..] == [];
    assert WriteAll(f, [end, end]) == WriteAll(g, [end]) == WriteAll(t, []) == t;
    assert t.file + t.pending == t.file;
  }

  /** The over-allocated buffer holds every block exactly when the nominal size is at least 64 bytes. */
  lemma BufferLargeEnough(size: nat)
    requires size > 0
    ensures (forall fill: nat :: fill < size && fill % BLOCK == 0 ==> fill + BLOCK <= POINTER_SIZE * size)
            <==> size >= 64
  {
    if size < 64 {
      var fill: nat := 0;
      assert fill < size && fill % BLOCK == 0;
    } else {
      forall fill: nat | fill < size && fill % BLOCK == 0
        ensures fill + BLOCK <= POINTER_SIZE * size
      {
        assert size <= BLOCK ==> fill == 0;
      }
    }
  }

  /** The writer's global variables, the archive file and the progress pipe. */
  class LibtarBuffer {
    var flush: bool
    var eotCount: int
    var bufferSize: nat
    var bufferLoc: nat
    var bufferStatus: nat
    /** prog_pipe is a descriptor rather than -1 */
    var progPipe: bool
    var writeBuffer: array<byte>
    var file: seq<byte>
    var pipe: seq<nat>

    /** A buffer is allocated and its fill level is that of whole blocks. */
    ghost predicate Valid()
      reads this
    {
      !flush && bufferSize >= 64 && writeBuffer.Length == POINTER_SIZE * bufferSize &&
      bufferLoc < bufferSize && bufferLoc % BLOCK == 0 && bufferStatus > 0
    }

    ghost function Abs(): State
      requires bufferLoc <= writeBuffer.Length
      reads this, writeBuffer
    {
      State(bufferSize, file, writeBuffer[..bufferLoc], eotCount, progPipe, pipe)
    }

    /** The globals as the program starts with them. */
    constructor (file: seq<byte>, pipe: seq<nat>)
      ensures bufferLoc == 0 && bufferStatus == 0 && Abs() == State(4096, file, [], -1, false, pipe)
    {
      progPipe := false;
      flush, eotCount, bufferSize, bufferLoc, bufferStatus := false, -1, 4096, 0, 0;
      writeBuffer := new byte[0];
      this.file, this.pipe := file, pipe;
    }

    /** init_libtar_buffer: a zero size keeps the one in force, which init_libtar_no_buffer may have set. */
    method Init(newSize: nat)
      requires bufferLoc <= writeBuffer.Length && (if newSize == 0 then bufferSize else newSize) >= 64
      modifies this
      ensures Valid() && fresh(writeBuffer)
      ensures Abs() == OpenBuffered(old(Abs()), newSize)
    {
      if newSize != 0 {
        bufferSize := newSize;
      }
      flush, eotCount, bufferLoc, bufferStatus, progPipe := false, -1, 0, 1, true;
      writeBuffer := new byte[POINTER_SIZE * bufferSize];
    }

    method WriteBlock(data: seq<byte>, ok: bool) returns (result: int)
      requires Valid() && |data| == BLOCK
      modifies this, writeBuffer
      ensures Valid() && writeBuffer == old(writeBuffer) && Written(Abs(), result) == Write(old(Abs()), data, ok)
    {
      BufferLargeEnough(bufferSize);
      forall i | 0 <= i < |data| {
        writeBuffer[bufferLoc + i] := data[i];
      }
      assert writeBuffer[..bufferLoc + |data|] == old(writeBuffer[..bufferLoc]) + data;
      bufferLoc := bufferLoc + |data|;
      if 0 <= eotCount < 2 {
        eotCount := eotCount + 1;
      }
      if bufferLoc >= bufferSize || eotCount >= 2 {
        flush := true;
      }
      if flush {
        flush := false;
        if !ok {
          bufferLoc := 0;
          return -1;
        }
        file := file + writeBuffer[..bufferLoc];
        if progPipe {
          pipe := pipe + [bufferLoc];
        }
        bufferLoc := 0;
      }
      return |data|;
    }

    method FlushBuffer()
      requires Valid()
      modifies this`eotCount, this`bufferStatus
      ensures Valid() && Abs() == Flush(old(Abs()))
    {
      eotCount := 0;
      if bufferStatus != 0 {
        bufferStatus := 2;
      }
    }

    method InitNoBuffer()
      requires bufferLoc <= writeBuffer.Length
      modifies this`bufferSize, this`bufferStatus, this`progPipe
      ensures bufferStatus == 0 && Abs() == OpenPlain(old(Abs()))
    {
      bufferSize, progPipe, bufferStatus := BLOCK, true, 0;
    }

    method WriteNoBuffer(data: seq<byte>, ok: bool) returns (result: int)
      requires bufferLoc <= writeBuffer.Length
      modifies this`pipe, this`file
      ensures Written(Abs(), result) == WritePlain(old(Abs()), data, ok)
    {
      if progPipe {
        pipe := pipe + [BLOCK];
      }
      if !ok {
        return -1;
      }
      file := file + data;
      return |data|;
    }

    /** free_libtar_buffer: the descriptor is unset, whoever else writes through it. */
    method FreeBuffer()
      requires bufferLoc <= writeBuffer.Length
      modifies this`bufferStatus, this`progPipe
      ensures bufferStatus == 0 && Abs() == Release(old(Abs()))
    {
      bufferStatus, progPipe := 0, false;
    }
  }
}
