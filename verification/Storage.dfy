/** The storage manager's own methods, and the file a whole run of its threads leaves behind. */
module Storage {
  import opened Packets
  import opened RingBuffers
  import Csv
  import F = Formatter
  import P = StorageProtocol

  class StorageManager {
    const path: string
    const buffer: RingBuffer<Packet>
    const formatter: F.CsvFormatter
    var droppedPackets: nat
    var writtenPackets: nat

    ghost predicate Valid()
      reads this, buffer
    {
      buffer.Valid()
    }

    constructor (path: string, capacity: nat, formatter: F.CsvFormatter)
      ensures Valid() && this.path == path && this.formatter == formatter && buffer.capacity == capacity
      ensures buffer.Contents() == [] && droppedPackets == writtenPackets == 0
      ensures fresh(buffer) && fresh(buffer.buffer)
    {
      this.path, this.formatter := path, formatter;
      buffer := new RingBuffer(capacity);
      droppedPackets, writtenPackets := 0, 0;
    }

    /** A packet is either buffered behind the others or counted as dropped. */
    method Push(packet: Packet) returns (ok: bool)
      requires Valid()
      modifies this`droppedPackets, buffer, buffer.buffer
      ensures Valid()
      ensures ok <==> |old(buffer.Contents())| < buffer.capacity
      ensures buffer.Contents() == old(buffer.Contents()) + (if ok then [packet] else [])
      ensures droppedPackets == old(droppedPackets) + (if ok then 0 else 1)
    {
      ok := buffer.TryPush(packet);
      if !ok {
        droppedPackets := droppedPackets + 1;
      }
    }

    /** The buffer is emptied in any case; its packets are counted exactly when write_packets returned true. */
    method FlushNow(disk: F.Disk)
      requires Valid()
      modifies this`writtenPackets, buffer, formatter
      ensures Valid() && buffer.Contents() == []
      ensures var packets, before := old(buffer.Contents()), old(formatter.Now());
              && formatter.Now() == F.PacketsOn(before, path, packets, disk, formatter.separator)
              && writtenPackets == old(writtenPackets)
                                 + (if F.PacketsReturn(before, path, packets, disk, formatter.separator) then |packets| else 0)
    {
      hide F.HeaderReturns, F.HeaderOn, F.Appended;
      var packets := buffer.DrainNoWait();
      if packets == [] {
        return;
      }
      var ok := formatter.WritePackets(path, packets, disk);
      if ok {
        writtenPackets := writtenPackets + |packets|;
      }
    }
  }

  function HeaderCall(header: F.Stream, path: string): F.Call {
    F.Call(Csv.HeaderOp(path), F.Disk(header, header))
  }

  /** The write_packets calls behind a log of their results. */
  function RowCalls(log: seq<P.Entry<Packet>>, disks: seq<F.Disk>, path: string): (r: seq<F.Call>)
    requires |disks| == |log|
    ensures |r| == |log|
  {
    seq(|log|, i requires 0 <= i < |log| => F.Call(Csv.PacketsOp(path, log[i].batch), disks[i]))
  }

  /** All calls of a run: start() calls write_header once. */
  function Calls(log: seq<P.Entry<Packet>>, header: F.Stream, disks: seq<F.Disk>, path: string): (r: seq<F.Call>)
    requires |disks| == |log|
    ensures |r| == |log| + 1
  {
    [HeaderCall(header, path)] + RowCalls(log, disks, path)
  }

  /** The log holds what the calls returned. */
  ghost predicate Recorded(files: Csv.Files, log: seq<P.Entry<Packet>>, header: F.Stream, disks: seq<F.Disk>, path: string, sep: string)
    requires |disks| == |log|
  {
    var calls := Calls(log, header, disks, path);
    forall i :: 0 <= i < |log| ==>
      (log[i].ok <==> F.Returns(F.RunOn(Csv.State(files, {}), calls[..i + 1], sep), calls[i + 1], sep))
  }

  /** The streams of start() and of all batches were complete in the file when they were closed. */
  predicate AllFlushed(files: Csv.Files, log: seq<P.Entry<Packet>>, header: F.Stream, disks: seq<F.Disk>, path: string, sep: string)
    requires |disks| == |log|
  {
    F.HeaderFlushed(Csv.State(files, {}), path, header, sep) && RowsAllFlushed(log, disks, sep)
  }

  predicate RowsAllFlushed(log: seq<P.Entry<Packet>>, disks: seq<F.Disk>, sep: string)
    requires |disks| == |log|
  {
    forall i :: 0 <= i < |log| ==> log[i].batch == [] || F.RowsFlushed(log[i].batch, disks[i].rows, sep)
  }

  lemma {:induction false} NoneFailed<T>(log: seq<P.Entry<T>>)
    requires forall e :: e in log ==> e.ok
    ensures P.Total(log, false) == 0
  {
    if log != [] {
      NoneFailed(log[..|log| - 1]);
      assert log[|log| - 1] in log;
    }
  }


  /** The file after start() and a log of batches, whatever failed, when start() wrote the header. */
  lemma FileOfLog(files: Csv.Files, log: seq<P.Entry<Packet>>, header: F.Stream, disks: seq<F.Disk>, path: string, sep: string)
    requires |disks| == |log| && F.HeaderReturns(Csv.State(files, {}), path, header, sep)
    ensures var s, end := Csv.State(files, {}), F.RunOn(Csv.State(files, {}), Calls(log, header, disks, path), sep);
            && path in end.initialized && path in end.files
            && end.files[path] == F.HeaderOn(s, path, header, sep).files[path] + F.Chunks(RowCalls(log, disks, path), path, sep)
  {
    hide F.Chunks, F.HeaderOn, F.HeaderReturns;
    var s := Csv.State(files, {});
    F.HeaderLeavesFile(s, path, header, sep);
    F.RunOnCons(s, HeaderCall(header, path), RowCalls(log, disks, path), sep);
    F.AppendsAlways(F.HeaderOn(s, path, header, sep), RowCalls(log, disks, path), path, sep);
  }

  /** After a good header, a batch is recorded as written exactly when its stream stayed good. */
  lemma RecordedBatch(files: Csv.Files, log: seq<P.Entry<Packet>>, header: F.Stream, disks: seq<F.Disk>, path: string, sep: string, i: nat)
    requires |disks| == |log| && i < |log| && F.HeaderReturns(Csv.State(files, {}), path, header, sep)
    requires Recorded(files, log, header, disks, path, sep)
    ensures log[i].ok <==> log[i].batch == [] || (disks[i].rows.opens && disks[i].rows.good >= |log[i].batch|)
  {
    hide F.HeaderOn, F.HeaderReturns, F.RunOn;
    FileOfLog(files, log[..i], header, disks[..i], path, sep);
    assert Calls(log, header, disks, path)[..i + 1] == Calls(log[..i], header, disks[..i], path);
  }

  lemma {:induction false} RowsInFile(log: seq<P.Entry<Packet>>, disks: seq<F.Disk>, path: string, sep: string)
    requires |disks| == |log|
    requires forall i :: 0 <= i < |log| ==> log[i].batch == [] || (disks[i].rows.opens && disks[i].rows.good >= |log[i].batch|)
    ensures var chunks, all := F.Chunks(RowCalls(log, disks, path), path, sep), Csv.Rows(P.Batches(log), sep);
            && |chunks| <= |all| && (chunks == all <==> RowsAllFlushed(log, disks, sep)) && (chunks == all <==> |chunks| == |all|)
  {
    hide Csv.Rows, F.Reached, F.RowsFlushed;
    Csv.NoRows(sep);
    if log != [] {
      var n := |log| - 1;
      RowsInFile(log[..n], disks[..n], path, sep);
      assert RowCalls(log, disks, path)[..n] == RowCalls(log[..n], disks[..n], path);
      Csv.RowsConcat(P.Batches(log[..n]), log[n].batch, sep);
      if log[n].batch != [] { F.RowsReach(log[n].batch, disks[n].rows, sep); }
      assert RowsAllFlushed(log, disks, sep)
        <==> RowsAllFlushed(log[..n], disks[..n], sep) && (log[n].batch == [] || F.RowsFlushed(log[n].batch, disks[n].rows, sep));
    }
  }

  /**
   * The shutdown of main when every call returned true, in every interleaving: the file ends as what
   * it was opened with, a header and old rows, followed by one row per accepted packet, in order of
   * acceptance, if and only if all streams were flushed. The counters cover every push either way.
   * Once a row is written, the header is a line of its own exactly when the file did not start as
   * the bare header.
   */
  lemma WholeRun(capacity: nat, steps: seq<P.Step<Packet>>, header: F.Stream, disks: seq<F.Disk>,
                 files: Csv.Files, path: string, sep: string)
    requires P.Legal(P.Init(capacity), steps) && P.StopsAfterJoin(P.Init(capacity), steps)
    requires P.After(P.Init(capacity), steps).stopper.Stopped?
    requires |disks| == |P.After(P.Init(capacity), steps).log|
    requires Recorded(files, P.After(P.Init(capacity), steps).log, header, disks, path, sep)
    requires F.HeaderReturns(Csv.State(files, {}), path, header, sep)
    requires forall e :: e in P.After(P.Init(capacity), steps).log ==> e.ok
    ensures var s := P.After(P.Init(capacity), steps);
            && s.written == |s.accepted| && s.pushes == s.dropped + s.written
            && var end := F.RunOn(Csv.State(files, {}), Calls(s.log, header, disks, path), sep);
            && path in end.files
            && (end.files[path] == Csv.Fresh(files, path, sep) + Csv.Rows(s.accepted, sep)
                <==> AllFlushed(files, s.log, header, disks, path, sep))
            && (AllFlushed(files, s.log, header, disks, path, sep) && '\n' !in sep && s.accepted != [] ==>
                  (Csv.HeaderLine(end.files[path], sep) <==> Csv.CleanStart(files, path, sep)))
  {
    hide P.Legal, P.After, P.StopsAfterJoin, Csv.Rows, Csv.Fresh, F.RunOn, F.HeaderOn, F.HeaderReturns, F.Chunks, F.HeaderFlushed, Recorded, RowsAllFlushed;
    var s := P.After(P.Init(capacity), steps);
    P.NothingLeftBehind(capacity, steps);
    P.Conservation(capacity, steps);
    NoneFailed(s.log);
    FileOfLog(files, s.log, header, disks, path, sep);
    forall i | 0 <= i < |s.log|
      ensures s.log[i].batch == [] || (disks[i].rows.opens && disks[i].rows.good >= |s.log[i].batch|)
    {
      RecordedBatch(files, s.log, header, disks, path, sep, i);
      assert s.log[i] in s.log;
    }
    RowsInFile(s.log, disks, path, sep);
    HeaderInFile(files, header, path, sep);
    var base := F.HeaderOn(Csv.State(files, {}), path, header, sep).files[path];
    var chunks := F.Chunks(RowCalls(s.log, disks, path), path, sep);
    var opening, rows := Csv.Fresh(files, path, sep), Csv.Rows(s.accepted, sep);
    assert |base + chunks| == |base| + |chunks| && |opening + rows| == |opening| + |rows|;
    if '\n' !in sep && s.accepted != [] { Csv.OpeningThenRows(files, s.accepted, path, sep); }
  }

  lemma HeaderInFile(files: Csv.Files, header: F.Stream, path: string, sep: string)
    requires F.HeaderReturns(Csv.State(files, {}), path, header, sep)
    ensures var s := Csv.State(files, {});
            && path in F.HeaderOn(s, path, header, sep).files
            && var base, opening := F.HeaderOn(s, path, header, sep).files[path], Csv.Fresh(files, path, sep);
            if F.HeaderFlushed(s, path, header, sep) then base == opening else |base| < |opening|
  {
    hide F.HeaderReturns, F.HeaderOn, F.HeaderFlushed, Csv.Fresh;
    F.HeaderFlushDecides(Csv.State(files, {}), path, header, sep);
  }

  /**
   * Whatever fails, in every interleaving, after start() wrote the header: the file ends as what that
   * left in it followed by what reached it of each batch. Its rows are whole lines if and only if no
   * stream ended within a row; the last statement says which packets those are.
   */
  lemma RunWithFailures(capacity: nat, steps: seq<P.Step<Packet>>, header: F.Stream, disks: seq<F.Disk>,
                        files: Csv.Files, path: string, sep: string)
    requires P.Legal(P.Init(capacity), steps) && P.StopsAfterJoin(P.Init(capacity), steps)
    requires P.After(P.Init(capacity), steps).stopper.Stopped?
    requires |disks| == |P.After(P.Init(capacity), steps).log|
    requires Csv.FieldSafe(sep) && F.HeaderReturns(Csv.State(files, {}), path, header, sep)
    ensures var s := P.After(P.Init(capacity), steps);
            && P.Batches(s.log) == s.accepted
            && var end, rows := F.RunOn(Csv.State(files, {}), Calls(s.log, header, disks, path), sep), RowCalls(s.log, disks, path);
            && path in end.files
            && end.files[path] == F.HeaderOn(Csv.State(files, {}), path, header, sep).files[path] + F.Chunks(rows, path, sep)
            && (Csv.Split(F.Chunks(rows, path, sep), "\n") == Csv.RowTexts(F.Kept(rows, path, sep), sep) + [""]
                <==> forall i :: 0 <= i < |rows| ==> F.Aligned(rows[i], path, sep))
  {
    hide P.Legal, P.After, P.StopsAfterJoin, F.RunOn, F.HeaderOn, F.HeaderReturns, F.Chunks, F.Kept, F.Aligned, Csv.Split, Csv.RowTexts;
    var s := P.After(P.Init(capacity), steps);
    P.NothingLeftBehind(capacity, steps);
    FileOfLog(files, s.log, header, disks, path, sep);
    F.CutRowsSplit(RowCalls(s.log, disks, path), path, sep);
  }
}
