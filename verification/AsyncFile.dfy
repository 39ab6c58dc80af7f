/** The buffered writer of the crash log: `writen`, `file_write` and `file_flush`. */
module AsyncFile {
  import opened Common

  const BUFFER_SIZE := 256

  /**
   * How the descriptor answers one write(): it takes `extra + 1` bytes if there are as many, or reports EINTR, or
   * fails.
   */
  datatype Reply = Takes(extra: nat) | Interrupted | Fails

  /** A descriptor: the bytes it has taken, and its answers to come. After those it fails. */
  datatype Disk = Disk(bytes: seq<uint8>, replies: seq<Reply>)

  datatype Written = Written(disk: Disk, ok: bool)

  function Taken(extra: nat, available: nat): (n: nat)
    requires available > 0
    ensures 0 < n <= available
  {
    if extra + 1 < available then extra + 1 else available
  }

  /** Writing all of `data`, whatever the answers are. */
  function WriteAll(d: Disk, data: seq<uint8>): (w: Written)
    decreases |d.replies|
  {
    if data == [] then Written(d, true)
    else if d.replies == [] then Written(d, false)
    else
      match d.replies[0]
      case Takes(extra) =>
        var n := Taken(extra, |data|);
        WriteAll(Disk(d.bytes + data[..n], d.replies[1..]), data[n..])
      case Interrupted => WriteAll(Disk(d.bytes, d.replies[1..]), data)
      case Fails => Written(Disk(d.bytes, d.replies[1..]), false)
  }

  /** A limit of 0 stands for none. */
  datatype File = File(disk: Disk, buffer: seq<uint8>, total: nat, limit: nat) {
    predicate Valid() {
      |buffer| <= BUFFER_SIZE && (limit != 0 ==> total <= limit)
    }
  }

  datatype Outcome = Outcome(file: File, ok: bool)

  predicate OverLimit(f: File, data: seq<uint8>) {
    f.limit != 0 && |data| + f.total > f.limit
  }

  function Flushed(f: File): Outcome {
    var w := WriteAll(f.disk, f.buffer);
    Outcome(f.(disk := w.disk, buffer := if w.ok then [] else f.buffer), w.ok)
  }

  function Store(f: File, data: seq<uint8>): Outcome {
    if |f.buffer| + |data| <= BUFFER_SIZE then Outcome(f.(buffer := f.buffer + data), true)
    else
      var w := WriteAll(f.disk, data);
      Outcome(f.(disk := w.disk), w.ok)
  }

  /** What a write does: the limit first, then room in the buffer, then the data. */
  function WriteData(f: File, data: seq<uint8>): Outcome {
    if OverLimit(f, data) then Outcome(f, false)
    else
      var counted := f.(total := if f.limit != 0 then f.total + |data| else f.total);
      if |f.buffer| + |data| > BUFFER_SIZE then
        var flushed := Flushed(counted);
        if flushed.ok then Store(flushed.file, data) else flushed
      else Store(counted, data)
  }

  class AsyncFile {
    /** Stands for the open descriptor. */
    var disk: Disk
    const buffer: array<uint8>
    var buflen: nat
    var totalBytes: nat
    const limitBytes: nat

    ghost predicate Valid()
      reads this
    {
      buffer.Length == BUFFER_SIZE && buflen <= BUFFER_SIZE && (limitBytes != 0 ==> totalBytes <= limitBytes)
    }

    ghost function Model(): File
      requires Valid()
      reads this, buffer
    {
      File(disk, buffer[..buflen], totalBytes, limitBytes)
    }

    constructor (disk: Disk, outputLimit: nat)
      ensures Valid() && fresh(buffer) && Model() == File(disk, [], 0, outputLimit)
    {
      this.disk := disk;
      buffer := new uint8[BUFFER_SIZE](_ => 0);
      buflen, totalBytes, limitBytes := 0, 0, outputLimit;
    }

    /** write(): the number of bytes taken, or -1 with EINTR or another error. */
    method Write(data: seq<uint8>) returns (n: int, interrupted: bool)
      requires Valid() && data != []
      modifies this`disk
      ensures Valid() && (n == -1 || 0 < n <= |data|)
      ensures
        if old(disk).replies == [] then n == -1 && !interrupted && disk == old(disk)
        else
          var rest := old(disk).replies[1..];
          match old(disk).replies[0]
          case Takes(extra) => n == Taken(extra, |data|) && disk == Disk(old(disk).bytes + data[..n], rest)
          case Interrupted => n == -1 && interrupted && disk == Disk(old(disk).bytes, rest)
          case Fails => n == -1 && !interrupted && disk == Disk(old(disk).bytes, rest)
    {
      if disk.replies == [] {
        return -1, false;
      }
      var reply := disk.replies[0];
      disk := disk.(replies := disk.replies[1..]);
      match reply {
        case Takes(extra) =>
          n := Taken(extra, |data|);
          disk := disk.(bytes := disk.bytes + data[..n]);
          interrupted := false;
        case Interrupted => return -1, true;
        case Fails => return -1, false;
      }
    }

    /** `writen`: a negative result is an error. */
    method Writen(data: seq<uint8>) returns (written: int)
      requires Valid()
      modifies this`disk
      ensures Valid() && disk == WriteAll(old(disk), data).disk
      ensures written >= 0 <==> WriteAll(old(disk), data).ok
    {
      written := 0;
      var p := 0;
      while p < |data|
        invariant Valid() && 0 <= p <= |data| && written >= 0
        invariant WriteAll(old(disk), data) == WriteAll(disk, data[p..])
        decreases |disk.replies|, |data| - p
      {
        var left := data[p..];
        var interrupted;
        written, interrupted := Write(left);
        if written <= 0 {
          if !interrupted {
            return -1;
          }
          written := 0;
        }
        assert left[written..] == data[p + written..];
        p := p + written;
      }
    }

    /** `memcpy` to the end of the buffer. */
    method Append(data: seq<uint8>)
      requires Valid() && buflen + |data| <= BUFFER_SIZE
      modifies this`buflen, buffer
      ensures Valid() && Model() == old(Model()).(buffer := old(Model()).buffer + data)
    {
      for i := 0 to |data|
        modifies buffer
        invariant buffer[..buflen + i] == old(buffer[..buflen]) + data[..i]
      {
        buffer[buflen + i] := data[i];
      }
      buflen := buflen + |data|;
    }

    method FileWrite(data: seq<uint8>) returns (ok: bool)
      requires Valid()
      modifies this, buffer
      ensures Valid() && Outcome(Model(), ok) == WriteData(old(Model()), data)
    {
      if limitBytes != 0 && |data| + totalBytes > limitBytes {
        return false;
      } else if limitBytes != 0 {
        totalBytes := totalBytes + |data|;
      }
      if buflen + |data| > buffer.Length {
        var written := Writen(buffer[..buflen]);
        if written < 0 {
          return false;
        }
        buflen := 0;
      }
      if |data| + buflen <= buffer.Length {
        Append(data);
        return true;
      } else {
        var written := Writen(data);
        return written >= 0;
      }
    }

    method FileFlush() returns (ok: bool)
      requires Valid()
      modifies this, buffer
      ensures Valid() && Outcome(Model(), ok) == Flushed(old(Model()))
    {
      if buflen == 0 {
        assert buffer[..buflen] == [];
        return true;
      }
      var written := Writen(buffer[..buflen]);
      if written < 0 {
        return false;
      }
      buflen := 0;
      return true;
    }
  }

  // What a run of calls leaves behind

  lemma {:induction false} AllWritten(d: Disk, data: seq<uint8>)
    ensures
      var w := WriteAll(d, data);
      && d.bytes <= w.disk.bytes <= d.bytes + data
      && (w.ok ==> w.disk.bytes == d.bytes + data)
    decreases |d.replies|
  {
    if data != [] && d.replies != [] {
      match d.replies[0]
      case Takes(extra) =>
        var n := Taken(extra, |data|);
        AllWritten(Disk(d.bytes + data[..n], d.replies[1..]), data[n..]);
        assert d.bytes + data[..n] + data[n..] == d.bytes + data;
      case Interrupted => AllWritten(Disk(d.bytes, d.replies[1..]), data);
      case Fails =>
    }
  }

  /** The bytes on the descriptor and those waiting in the buffer. */
  function Contents(f: File): seq<uint8> {
    f.disk.bytes + f.buffer
  }

  lemma FlushedContents(f: File)
    ensures
      var o := Flushed(f);
      && o.file.total == f.total && o.file.limit == f.limit && |o.file.buffer| <= |f.buffer|
      && (o.ok ==> o.file.buffer == [] && Contents(o.file) == Contents(f))
      && f.disk.bytes <= o.file.disk.bytes <= Contents(f)
  {
    hide WriteAll;
    AllWritten(f.disk, f.buffer);
  }

  lemma WrittenContents(f: File, data: seq<uint8>)
    requires f.Valid()
    ensures
      var o := WriteData(f, data);
      && o.file.Valid()
      && (o.ok ==> Contents(o.file) == Contents(f) + data)
      && (!o.ok && OverLimit(f, data) ==> o.file == f)
      && f.disk.bytes <= o.file.disk.bytes <= Contents(f) + data
  {
    hide WriteAll, Flushed, Store, Contents;
    var counted := f.(total := if f.limit != 0 then f.total + |data| else f.total);
    SameContents(f, counted);
    if !OverLimit(f, data) {
      if |f.buffer| + |data| > BUFFER_SIZE {
        FlushedContents(counted);
        if Flushed(counted).ok {
          StoredContents(Flushed(counted).file, data);
        }
      } else {
        StoredContents(counted, data);
      }
    }
  }

  lemma SameContents(f: File, g: File)
    requires g.disk == f.disk && g.buffer == f.buffer
    ensures Contents(g) == Contents(f) && f.disk.bytes <= Contents(f)
  {
  }

  lemma StoredContents(f: File, data: seq<uint8>)
    requires |f.buffer| <= BUFFER_SIZE && (f.buffer == [] || |f.buffer| + |data| <= BUFFER_SIZE)
    ensures
      var o := Store(f, data);
      && |o.file.buffer| <= BUFFER_SIZE && o.file.total == f.total && o.file.limit == f.limit
      && (o.ok ==> Contents(o.file) == Contents(f) + data)
      && f.disk.bytes <= o.file.disk.bytes <= Contents(f) + data
  {
    hide WriteAll;
    if |f.buffer| + |data| <= BUFFER_SIZE {
      assert f.disk.bytes + (f.buffer + data) == Contents(f) + data;
    } else {
      AllWritten(f.disk, data);
      assert Contents(f) == f.disk.bytes;
    }
  }

  datatype Op = Write(data: seq<uint8>) | Flush

  function Perform(f: File, op: Op): Outcome {
    if op.Write? then WriteData(f, op.data) else Flushed(f)
  }

  datatype History = History(file: File, accepted: seq<uint8>, ioFailed: bool)

  function AfterCall(h: History, op: Op): History {
    var o := Perform(h.file, op);
    History(o.file, if o.ok && op.Write? then h.accepted + op.data else h.accepted,
            h.ioFailed || (!o.ok && !(op.Write? && OverLimit(h.file, op.data))))
  }

  function AfterCalls(h: History, ops: seq<Op>): History
    decreases ops
  {
    if ops == [] then h else AfterCalls(AfterCall(h, ops[0]), ops[1..])
  }

  /** While no write has failed, descriptor and buffer together hold exactly the accepted data, within the limit. */
  ghost predicate Sound(h: History) {
    && h.file.Valid()
    && (!h.ioFailed ==> Contents(h.file) == h.accepted)
    && (h.file.limit != 0 ==> |h.accepted| <= h.file.total)
  }

  lemma CallKeepsSound(h: History, op: Op)
    requires Sound(h)
    ensures Sound(AfterCall(h, op)) && AfterCall(h, op).file.limit == h.file.limit
  {
    hide WriteAll;
    if op.Write? {
      WrittenContents(h.file, op.data);
    } else {
      FlushedContents(h.file);
    }
  }

  /**
   * For any pattern of short writes and interruptions, after any run of calls none of which has failed for an I/O
   * error: descriptor and buffer hold the concatenation of all accepted data. That never exceeds a limit, failed or
   * not.
   */
  lemma {:induction false} RunsKeepData(h: History, ops: seq<Op>)
    requires Sound(h)
    ensures
      var h' := AfterCalls(h, ops);
      && Sound(h') && (!h'.ioFailed ==> Contents(h'.file) == h'.accepted)
      && (h.file.limit != 0 ==> |h'.accepted| <= h.file.limit)
    decreases ops
  {
    hide AfterCall, Sound;
    if ops != [] {
      CallKeepsSound(h, ops[0]);
      RunsKeepData(AfterCall(h, ops[0]), ops[1..]);
    } else {
      SoundLimit(h);
    }
  }

  lemma SoundLimit(h: History)
    requires Sound(h)
    ensures !h.ioFailed ==> Contents(h.file) == h.accepted
    ensures h.file.limit != 0 ==> |h.accepted| <= h.file.limit
  {
  }

  /** A successful flush leaves nothing pending: all accepted data is on the descriptor. */
  lemma FlushLeavesNothing(h: History)
    requires Sound(h) && !AfterCall(h, Flush).ioFailed
    ensures AfterCall(h, Flush).file.buffer == [] && AfterCall(h, Flush).file.disk.bytes == h.accepted
  {
    hide WriteAll;
    FlushedContents(h.file);
  }

  /** How often the descriptor takes bytes before it fails. */
  function Takings(replies: seq<Reply>): nat {
    if replies == [] || replies[0].Fails? then 0
    else (if replies[0].Takes? then 1 else 0) + Takings(replies[1..])
  }

  /** Interruptions and short writes do not make a writing fail: as many answers as there are bytes are enough. */
  lemma {:induction false} WritingSucceeds(d: Disk, data: seq<uint8>)
    requires Takings(d.replies) >= |data|
    ensures WriteAll(d, data).ok
    ensures Takings(WriteAll(d, data).disk.replies) >= Takings(d.replies) - |data|
    decreases |d.replies|
  {
    if data != [] {
      match d.replies[0]
      case Takes(extra) =>
        var n := Taken(extra, |data|);
        WritingSucceeds(Disk(d.bytes + data[..n], d.replies[1..]), data[n..]);
      case Interrupted => WritingSucceeds(Disk(d.bytes, d.replies[1..]), data);
      case Fails =>
    }
  }

  /**
   * When a write is accepted: data over the limit changes nothing; data that fits in the buffer is always accepted;
   * and for other data what is pending, and data larger than the buffer itself, has to be written.
   */
  lemma AcceptedIff(f: File, data: seq<uint8>)
    requires f.Valid()
    ensures
      var o := WriteData(f, data);
      if f.limit > 0 && f.total + |data| > f.limit then o == Outcome(f, false)
      else
        && o.file.limit == f.limit && o.file.total == (if f.limit > 0 then f.total + |data| else f.total)
        && if |f.buffer| + |data| <= 256 then o.ok && o.file.disk == f.disk && o.file.buffer == f.buffer + data
           else
             var flushed := WriteAll(f.disk, f.buffer);
             && (o.ok <==> flushed.ok && (|data| <= 256 || WriteAll(flushed.disk, data).ok))
             && (o.ok ==> o.file.buffer == if |data| <= 256 then data else [])
             && (o.ok && |data| <= 256 ==> o.file.disk == flushed.disk)
  {
    hide WriteAll;
    assert [] + data == data;
  }

  function DataOf(ops: seq<Op>): seq<uint8>
    decreases ops
  {
    if ops == [] then [] else (if ops[0].Write? then ops[0].data else []) + DataOf(ops[1..])
  }

  lemma StoreTakings(f: File, data: seq<uint8>)
    requires Takings(f.disk.replies) >= |f.buffer| + |data|
    ensures
      var o := Store(f, data);
      o.ok && Takings(o.file.disk.replies) >= |o.file.buffer| + Takings(f.disk.replies) - |f.buffer| - |data|
  {
    hide WriteAll, Takings;
    if |f.buffer| + |data| > BUFFER_SIZE {
      WritingSucceeds(f.disk, data);
    }
  }

  lemma CallTakings(f: File, op: Op)
    requires f.limit == 0 && Takings(f.disk.replies) >= |f.buffer| + (if op.Write? then |op.data| else 0)
    ensures
      var o, n := Perform(f, op), if op.Write? then |op.data| else 0;
      o.ok && o.file.limit == 0 && Takings(o.file.disk.replies) >= |o.file.buffer| + Takings(f.disk.replies) - |f.buffer| - n
  {
    hide WriteAll, Takings, Store;
    WritingSucceeds(f.disk, f.buffer);
    if op.Write? {
      var room := |f.buffer| + |op.data| <= BUFFER_SIZE;
      StoreTakings(if room then f else Flushed(f).file, op.data);
      StoreKeeps(if room then f else Flushed(f).file, op.data);
    }
  }

  lemma StoreKeeps(f: File, data: seq<uint8>)
    ensures Store(f, data).file.limit == f.limit
  {
  }

  /**
   * Over a whole run: without a limit, and as long as the descriptor takes bytes as often as there are bytes, no call
   * fails, whatever the short writes and interruptions are, and all data of the run is accepted.
   */
  lemma {:induction false} RunSucceeds(h: History, ops: seq<Op>)
    requires h.file.limit == 0 && !h.ioFailed
    requires Takings(h.file.disk.replies) >= |h.file.buffer| + |DataOf(ops)|
    ensures !AfterCalls(h, ops).ioFailed && AfterCalls(h, ops).accepted == h.accepted + DataOf(ops)
    decreases ops
  {
    hide Takings, Perform;
    if ops != [] {
      CallTakings(h.file, ops[0]);
      RunSucceeds(AfterCall(h, ops[0]), ops[1..]);
    }
  }

  // Calls that fail and are repeated

  /** How many bytes of `data` a writing has brought to the descriptor. */
  function Progress(d: Disk, data: seq<uint8>): (k: nat)
    ensures k <= |data|
  {
    AllWritten(d, data);
    |WriteAll(d, data).disk.bytes| - |d.bytes|
  }

  lemma WrittenPart(d: Disk, data: seq<uint8>)
    ensures WriteAll(d, data).disk.bytes == d.bytes + data[..Progress(d, data)]
    ensures WriteAll(d, data).ok ==> Progress(d, data) == |data|
  {
    hide WriteAll;
    AllWritten(d, data);
    var k := Progress(d, data);
    assert (d.bytes + data)[..|d.bytes| + k] == d.bytes + data[..k];
  }

  lemma RepeatedPart(before: seq<uint8>, data: seq<uint8>, k: nat, rest: seq<uint8>)
    requires k <= |data|
    ensures before + data[..k] + data + rest == before + data + rest <==> k == 0
  {
    if k == 0 {
      assert before + data[..k] == before;
    } else {
      assert |before + data[..k] + data + rest| != |before + data + rest|;
    }
  }

  /**
   * A flush that fails keeps the whole buffer, so a flush after it writes the first `k` bytes again that were written
   * already: the descriptor holds what it should if and only if the failing attempt had not written any.
   */
  lemma FlushRetried(f: File)
    requires !Flushed(f).ok && Flushed(Flushed(f).file).ok
    ensures
      var bytes := Flushed(Flushed(f).file).file.disk.bytes;
      var k := Progress(f.disk, f.buffer);
      && bytes == f.disk.bytes + f.buffer[..k] + f.buffer
      && (bytes == f.disk.bytes + f.buffer <==> k == 0)
  {
    hide WriteAll;
    var g := Flushed(f).file;
    WrittenPart(f.disk, f.buffer);
    WrittenPart(g.disk, g.buffer);
    RepeatedPart(f.disk.bytes, f.buffer, Progress(f.disk, f.buffer), []);
    assert f.disk.bytes + f.buffer[..Progress(f.disk, f.buffer)] + f.buffer + [] ==
           f.disk.bytes + f.buffer[..Progress(f.disk, f.buffer)] + f.buffer;
    assert f.disk.bytes + f.buffer + [] == f.disk.bytes + f.buffer;
  }

  /** The file when a write comes to its direct write, or to the flush before it. */
  function Counted(f: File, data: seq<uint8>): File {
    f.(total := if f.limit != 0 then f.total + |data| else f.total)
  }

  /** The bytes that a failing write has brought to the descriptor and does not take off what is pending. */
  function Repeated(f: File, data: seq<uint8>): seq<uint8> {
    if |f.buffer| + |data| <= BUFFER_SIZE then []
    else if Flushed(f).ok then data[..Progress(Flushed(f).file.disk, data)]
    else f.buffer[..Progress(f.disk, f.buffer)]
  }

  /** What a failing write leaves behind. */
  lemma FailedContents(f: File, data: seq<uint8>)
    requires !OverLimit(f, data) && !WriteData(f, data).ok
    ensures
      var g := WriteData(f, data).file;
      && |f.buffer| + |data| > BUFFER_SIZE
      && Contents(g) == (if Flushed(f).ok then f.disk.bytes + f.buffer + Repeated(f, data)
                         else f.disk.bytes + Repeated(f, data) + f.buffer)
  {
    hide WriteAll;
    var counted := Counted(f, data);
    WrittenPart(f.disk, f.buffer);
    if Flushed(f).ok {
      var d := Flushed(counted).file.disk;
      WrittenPart(d, data);
      assert d.bytes + data[..Progress(d, data)] + [] == d.bytes + data[..Progress(d, data)];
    }
  }

  /**
   * A write that fails in its flush or in its direct write, and is repeated with success, leaves what it should if
   * and only if the failing attempt had not written a byte of what it failed to write. Otherwise those bytes are
   * there twice.
   */
  lemma WriteRetried(f: File, data: seq<uint8>)
    requires f.Valid() && !OverLimit(f, data) && !WriteData(f, data).ok && WriteData(WriteData(f, data).file, data).ok
    ensures
      var h := WriteData(WriteData(f, data).file, data).file;
      && Contents(h) == (if Flushed(f).ok then f.disk.bytes + f.buffer + Repeated(f, data)
                         else f.disk.bytes + Repeated(f, data) + f.buffer) + data
      && (Contents(h) == Contents(f) + data <==> Repeated(f, data) == [])
  {
    hide WriteAll, WriteData, Contents, Repeated;
    FailedContents(f, data);
    WrittenContents(f, data);
    WrittenContents(WriteData(f, data).file, data);
    LongerContents(f, Repeated(f, data), data, Flushed(f).ok);
  }

  lemma LongerContents(f: File, part: seq<uint8>, data: seq<uint8>, after: bool)
    ensures
      (if after then f.disk.bytes + f.buffer + part else f.disk.bytes + part + f.buffer) + data == Contents(f) + data
      <==> part == []
  {
    var all := (if after then f.disk.bytes + f.buffer + part else f.disk.bytes + part + f.buffer) + data;
    if part == [] {
      assert f.disk.bytes + part + f.buffer == f.disk.bytes + f.buffer == f.disk.bytes + f.buffer + part;
    } else {
      assert |all| == |Contents(f) + data| + |part|;
    }
  }

  /**
   * An I/O error loses the invariant: a flush that has written a part keeps the whole buffer, and the next one writes
   * that part again.
   */
  lemma RetryDuplicates(a: uint8, b: uint8)
    ensures
      var h := History(File(Disk([], [Takes(0), Fails, Takes(1)]), [a, b], 2, 2), [a, b], false);
      var h' := AfterCalls(h, [Flush, Flush]);
      Sound(h) && h'.ioFailed && h'.file.disk.bytes == [a, a, b] && |h'.file.disk.bytes| > h.file.limit
  {
    var d := Disk([], [Takes(0), Fails, Takes(1)]);
    var d1, d2 := Disk([a], [Fails, Takes(1)]), Disk([a], [Takes(1)]);
    assert [a, b][..1] == [a] && [a, b][1..] == [b];
    assert WriteAll(d, [a, b]) == WriteAll(d1, [b]) == Written(d2, false);
    assert WriteAll(d2, [a, b]) == WriteAll(Disk([a] + [a, b], []), []) by {
      assert [a, b][..2] == [a, b] && [a, b][2..] == [];
    }
    var h := History(File(d, [a, b], 2, 2), [a, b], false);
    assert AfterCalls(h, [Flush, Flush]) == AfterCalls(AfterCall(h, Flush), [Flush]) by {
      assert [Flush, Flush][1..] == [Flush];
    }
    assert [Flush][1..] == [];
  }
}
