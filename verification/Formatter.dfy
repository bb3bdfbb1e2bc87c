/**
 * The methods of server/src/format/csv/csv_formatter.cpp on a file system that can fail. An output
 * stream is buffered: whether it is good after a write, which the source tests, says nothing about
 * what has reached the file, and the flush on closing goes unchecked.
 */
module Formatter {
  import opened Bytes
  import opened Csv
  import opened Packets

  /**
   * What becomes of one output stream: whether it opens, how many writes leave it good (the header
   * line is one, each row is one), and how many of the characters written are in the file once it is closed.
   */
  datatype Stream = Stream(opens: bool, good: nat, reaches: nat)

  /** The streams of one write_packets call; the first is used when the path still needs its header. */
  datatype Disk = Disk(header: Stream, rows: Stream)

  predicate SeesHeader(s: State, path: string, sep: string) {
    path in s.files && HasHeader(s.files[path], sep)
  }

  /** write_header returns true. */
  predicate HeaderReturns(s: State, path: string, w: Stream, sep: string) {
    SeesHeader(s, path, sep) || (w.opens && w.good >= 1)
  }

  /** What write_header leaves behind. */
  function HeaderOn(s: State, path: string, w: Stream, sep: string): State {
    if SeesHeader(s, path, sep) then s.(initialized := s.initialized + {path})
    else if !w.opens then s
    else State(s.files[path := Take(Header(sep) + "\n", w.reaches)], if w.good >= 1 then s.initialized + {path} else s.initialized)
  }

  /** The beginning of the rows that gets into the file; nothing is written after the write that fails. */
  function Reached(ps: seq<Packet>, w: Stream, sep: string): string {
    if w.opens then Take(Rows(ps[..Min(|ps|, w.good + 1)], sep), w.reaches) else ""
  }

  function Appended(files: Files, path: string, ps: seq<Packet>, w: Stream, sep: string): Files {
    if w.opens then files[path := (if path in files then files[path] else "") + Reached(ps, w, sep)] else files
  }

  /** write_packets returns true. */
  predicate PacketsReturn(s: State, path: string, ps: seq<Packet>, disk: Disk, sep: string) {
    ps == [] || ((path in s.initialized || HeaderReturns(s, path, disk.header, sep)) && disk.rows.opens && disk.rows.good >= |ps|)
  }

  /** What write_packets leaves behind. */
  function PacketsOn(s: State, path: string, ps: seq<Packet>, disk: Disk, sep: string): State {
    if ps == [] then s else
      var t := if path in s.initialized then s else HeaderOn(s, path, disk.header, sep);
      if path in t.initialized then t.(files := Appended(t.files, path, ps, disk.rows, sep)) else t
  }

  class CsvFormatter {
    const separator: string
    var initialized: set<string>
    var files: Files  // the file system

    constructor (separator: string, files: Files)
      ensures this.separator == separator && Now() == State(files, {})
    {
      this.separator, this.files, initialized := separator, files, {};
    }

    ghost function Now(): State
      reads this
    {
      State(files, initialized)
    }

    method WriteHeader(path: string, w: Stream) returns (ok: bool)
      modifies this`files, this`initialized
      ensures ok <==> HeaderReturns(old(Now()), path, w, separator)
      ensures Now() == HeaderOn(old(Now()), path, w, separator)
    {
      var header := Header(separator);
      if path in files && files[path] != "" && FirstLine(files[path]) == header {
        initialized := initialized + {path};
        return true;
      }
      if !w.opens {
        return false;
      }
      files := files[path := Take(header + "\n", w.reaches)];
      if w.good < 1 {
        return false;
      }
      initialized := initialized + {path};
      return true;
    }

    method WritePackets(path: string, packets: seq<Packet>, disk: Disk) returns (ok: bool)
      modifies this`files, this`initialized
      ensures ok <==> PacketsReturn(old(Now()), path, packets, disk, separator)
      ensures Now() == PacketsOn(old(Now()), path, packets, disk, separator)
    {
      hide Row, Rows, Header, HasHeader, FirstLine, Reached;
      if packets == [] {
        return true;
      }
      if path !in initialized {
        var headed := WriteHeader(path, disk.header);
        if !headed {
          return false;
        }
      }
      if !disk.rows.opens {
        return false;
      }
      ok := WriteRows(path, packets, disk.rows);
    }

    /** The loop over the rows, and the closing of the stream. */
    method WriteRows(path: string, packets: seq<Packet>, w: Stream) returns (ok: bool)
      requires w.opens
      modifies this`files
      ensures ok <==> w.good >= |packets|
      ensures files == Appended(old(files), path, packets, w, separator)
    {
      hide Row, Rows;
      var start := if path in files then files[path] else "";
      var written := "";
      NoRows(separator);
      ok := true;
      var i := 0;
      while i < |packets| && ok
        invariant 0 <= i <= |packets| && written == Rows(packets[..i], separator)
        invariant files == old(files)
        invariant if ok then i <= w.good else i == w.good + 1
        decreases |packets| - i, ok
      {
        RowsAppend(packets, i, separator);
        written := written + Row(packets[i], separator);
        ok := i < w.good;
        i := i + 1;
      }
      assert i == Min(|packets|, w.good + 1);
      assert written == Rows(packets[..Min(|packets|, w.good + 1)], separator);
      files := files[path := start + Take(written, w.reaches)];
    }
  }

  lemma RowsAppend(ps: seq<Packet>, i: nat, sep: string)
    requires i < |ps|
    ensures Rows(ps[..i + 1], sep) == Rows(ps[..i], sep) + Row(ps[i], sep)
  {
    hide Row;
    assert ps[..i + 1] == ps[..i] + [ps[i]];
    RowsConcat(ps[..i], [ps[i]], sep);
    OneRow(ps[i], sep);
  }

  // What a call that returned true has done.

  datatype Call = Call(op: Op, disk: Disk)

  predicate Returns(s: State, call: Call, sep: string) {
    match call.op
    case HeaderOp(path) => HeaderReturns(s, path, call.disk.header, sep)
    case PacketsOp(path, ps) => PacketsReturn(s, path, ps, call.disk, sep)
  }

  function Step(s: State, call: Call, sep: string): State {
    match call.op
    case HeaderOp(path) => HeaderOn(s, path, call.disk.header, sep)
    case PacketsOp(path, ps) => PacketsOn(s, path, ps, call.disk, sep)
  }

  predicate HeaderFlushed(s: State, path: string, w: Stream, sep: string) {
    SeesHeader(s, path, sep) || w.reaches > |Header(sep)|
  }

  predicate RowsFlushed(ps: seq<Packet>, w: Stream, sep: string) {
    w.reaches >= |Rows(ps, sep)|
  }

  /** The streams of the call were complete in their files when they were closed. */
  predicate Flushed(s: State, call: Call, sep: string) {
    match call.op
    case HeaderOp(path) => HeaderFlushed(s, path, call.disk.header, sep)
    case PacketsOp(path, ps) =>
      ps == [] || ((path in s.initialized || HeaderFlushed(s, path, call.disk.header, sep)) && RowsFlushed(ps, call.disk.rows, sep))
  }

  /** A call that returned true has its header and rows in the file if and only if its streams were flushed. */
  lemma FlushDecides(s: State, call: Call, sep: string)
    requires Returns(s, call, sep)
    ensures Step(s, call, sep) == Apply(s, call.op, sep) <==> Flushed(s, call, sep)
  {
    match call.op
    case HeaderOp(path) => HeaderFlushDecides(s, path, call.disk.header, sep);
    case PacketsOp(path, ps) =>
      hide Header, HasHeader, FirstLine, Rows;
      if ps != [] {
        var base := if path in s.initialized then s else HeaderOn(s, path, call.disk.header, sep);
        var meant := if path in s.initialized then s else AfterHeader(s, path, sep);
        if path !in s.initialized { HeaderFlushDecides(s, path, call.disk.header, sep); }
        RowsReach(ps, call.disk.rows, sep);
        assert ps[..|ps|] == ps;
        SameAppend(base, meant, path, Reached(ps, call.disk.rows, sep), Rows(ps, sep));
      }
  }

  /** What was kept of both parts is all of both when it is all of their sum. */
  lemma SameAppend(a: State, b: State, path: string, x: string, y: string)
    requires |x| <= |y| && a.initialized == b.initialized && (x == y <==> |x| == |y|)
    requires a == b || (path in a.files && path in b.files && |a.files[path]| < |b.files[path]|)
    ensures var p, q := if path in a.files then a.files[path] else "", if path in b.files then b.files[path] else "";
            a.(files := a.files[path := p + x]) == b.(files := b.files[path := q + y]) <==> a == b && x == y
  {
    var p, q := if path in a.files then a.files[path] else "", if path in b.files then b.files[path] else "";
    var f, g := a.files[path := p + x], b.files[path := q + y];
    if f == g {
      assert f[path] == g[path];
      assert |p + x| == |q + y| && |p| + |x| == |q| + |y|;
    }
  }

  lemma HeaderFlushDecides(s: State, path: string, w: Stream, sep: string)
    requires HeaderReturns(s, path, w, sep)
    ensures var a, b := HeaderOn(s, path, w, sep), AfterHeader(s, path, sep);
            && a.initialized == b.initialized && path in a.initialized && path in a.files && path in b.files
            && (if HeaderFlushed(s, path, w, sep) then a == b else |a.files[path]| < |b.files[path]|)
  {
    hide Header, HasHeader, FirstLine;
    if SeesHeader(s, path, sep) {
      assert s.files[path := s.files[path]] == s.files;
    } else {
      var line := Header(sep) + "\n";
      assert |line| == |Header(sep)| + 1 && Fresh(s.files, path, sep) == line;
      TakeAll(line, w.reaches);
    }
  }

  lemma RowsReach(ps: seq<Packet>, w: Stream, sep: string)
    requires w.opens && w.good >= |ps|
    ensures var r, all := Reached(ps, w, sep), Rows(ps, sep);
            |r| <= |all| && (r == all <==> RowsFlushed(ps, w, sep)) && (r == all <==> |r| == |all|)
  {
    assert ps[..|ps|] == ps;
  }

  /** A lost flush goes unnoticed: the call returns true, and the rows are not in the file. */
  lemma RowsCanBeLost(s: State, path: string, ps: seq<Packet>, sep: string)
    requires path in s.initialized && path in s.files
    ensures var disk := Disk(Stream(true, 1, 0), Stream(true, |ps|, 0));
            PacketsReturn(s, path, ps, disk, sep) && PacketsOn(s, path, ps, disk, sep) == s
  {
    hide Rows;
    assert s.files[path] + "" == s.files[path] && s.files[path := s.files[path]] == s.files;
  }

  /** Worse for the header: its path counts as initialized, and all later rows stand below none. */
  lemma HeaderCanBeLost(files: Files, path: string, ps: seq<Packet>, sep: string)
    requires !SeesHeader(State(files, {}), path, sep) && ps != []
    ensures var lost, kept := Stream(true, 1, 0), Stream(true, |ps|, |Rows(ps, sep)|);
            var s := HeaderOn(State(files, {}), path, lost, sep);
            && HeaderReturns(State(files, {}), path, lost, sep) && PacketsReturn(s, path, ps, Disk(lost, kept), sep)
            && PacketsOn(s, path, ps, Disk(lost, kept), sep).files[path] == Rows(ps, sep)
  {
    hide Rows;
    assert ps[..|ps|] == ps;
    assert "" + Rows(ps, sep) == Rows(ps, sep);
  }

  /** A file that holds its header only grows, whatever fails. */
  lemma HeadedFileGrows(s: State, call: Call, path: string, sep: string)
    requires SeesHeader(s, path, sep) || (path in s.initialized && path in s.files && call.op != HeaderOp(path))
    ensures var t := Step(s, call, sep); path in t.files && s.files[path] <= t.files[path]
  {
    hide Header, HasHeader, FirstLine, Rows, Reached;
  }

  // Whole runs.

  function RunOn(s: State, calls: seq<Call>, sep: string): State {
    if calls == [] then s else Step(RunOn(s, calls[..|calls| - 1], sep), calls[|calls| - 1], sep)
  }

  function Ops(calls: seq<Call>): (r: seq<Op>)
    ensures |r| == |calls|
  {
    if calls == [] then [] else Ops(calls[..|calls| - 1]) + [calls[|calls| - 1].op]
  }

  /** Every call returned true and was flushed. */
  predicate NothingLost(s: State, calls: seq<Call>, sep: string) {
    calls == [] ||
    var before, last := calls[..|calls| - 1], calls[|calls| - 1];
    NothingLost(s, before, sep) && Returns(RunOn(s, before, sep), last, sep) && Flushed(RunOn(s, before, sep), last, sep)
  }

  lemma {:induction false} NothingLostIsIntended(s: State, calls: seq<Call>, sep: string)
    requires NothingLost(s, calls, sep)
    ensures RunOn(s, calls, sep) == Run(s, Ops(calls), sep)
  {
    hide Step, Returns, Flushed, Apply;
    if calls != [] {
      var before, last := calls[..|calls| - 1], calls[|calls| - 1];
      NothingLostIsIntended(s, before, sep);
      FlushDecides(RunOn(s, before, sep), last, sep);
      assert Ops(calls)[..|calls| - 1] == Ops(before);
    }
  }

  /**
   * After a series of calls that returned true and were flushed, a file is its opening content
   * followed by one row per packet in call order, if and only if no header was written again below
   * rows, or the separator has no newline and the file did not start as the bare header.
   */
  lemma FileContents(files: Files, calls: seq<Call>, path: string, sep: string)
    requires NothingLost(State(files, {}), calls, sep)
    ensures InStep(RunOn(State(files, {}), calls, sep), files, path, Given(Ops(calls), path), Opened(Ops(calls), path), sep)
       <==> Safe(files, path, sep) || !HeaderAfterRows(Ops(calls), path)
  {
    hide InStep, Safe, HeaderAfterRows, Opened, NothingLost;
    NothingLostIsIntended(State(files, {}), calls, sep);
    IntendedContents(files, Ops(calls), path, sep);
  }

  // Runs with failures: once the header has been written, each call appends what reaches the file.

  predicate Appends(call: Call, path: string) {
    call.op.PacketsOp? && call.op.path == path && call.op.packets != []
  }

  /** What one call adds to the rows of a path. */
  function Chunk(call: Call, path: string, sep: string): string {
    if Appends(call, path) then Reached(call.op.packets, call.disk.rows, sep) else ""
  }

  function Chunks(calls: seq<Call>, path: string, sep: string): string {
    if calls == [] then "" else Chunks(calls[..|calls| - 1], path, sep) + Chunk(calls[|calls| - 1], path, sep)
  }

  predicate NoHeaders(calls: seq<Call>, path: string) {
    forall i :: 0 <= i < |calls| ==> calls[i].op != HeaderOp(path)
  }

  lemma AppendStep(s: State, call: Call, path: string, sep: string)
    requires path in s.initialized && path in s.files && call.op != HeaderOp(path)
    ensures var t := Step(s, call, sep);
            path in t.initialized && path in t.files && t.files[path] == s.files[path] + Chunk(call, path, sep)
  {
    hide Header, HasHeader, FirstLine, Rows, Take;
    assert s.files[path] + "" == s.files[path];
  }

  lemma {:induction false} AppendsAlways(s: State, calls: seq<Call>, path: string, sep: string)
    requires path in s.initialized && path in s.files && NoHeaders(calls, path)
    ensures var t := RunOn(s, calls, sep);
            path in t.initialized && path in t.files && t.files[path] == s.files[path] + Chunks(calls, path, sep)
  {
    hide Step, Chunk;
    if calls != [] {
      var n := |calls| - 1;
      AppendsAlways(s, calls[..n], path, sep);
      AppendStep(RunOn(s, calls[..n], sep), calls[n], path, sep);
    }
  }

  lemma {:induction false} RunOnCons(s: State, first: Call, rest: seq<Call>, sep: string)
    ensures RunOn(s, [first] + rest, sep) == RunOn(Step(s, first, sep), rest, sep)
  {
    hide Step;
    var calls := [first] + rest;
    if rest == [] {
      assert calls == [first] && calls[..0] == [];
    } else {
      var n := |rest| - 1;
      RunOnCons(s, first, rest[..n], sep);
      assert calls[..|calls| - 1] == [first] + rest[..n];
    }
  }

  lemma {:induction false} RunOnConcat(s: State, a: seq<Call>, b: seq<Call>, sep: string)
    ensures RunOn(s, a + b, sep) == RunOn(RunOn(s, a, sep), b, sep)
  {
    hide Step;
    if b == [] {
      assert a + b == a;
    } else {
      var n := |b| - 1;
      RunOnConcat(s, a, b[..n], sep);
      assert (a + b)[..|a + b| - 1] == a + b[..n];
    }
  }

  /** Call j writes the header, for the first time. */
  predicate HeadedBy(s: State, calls: seq<Call>, path: string, sep: string, j: nat)
    requires j < |calls|
  {
    var t := RunOn(s, calls[..j], sep);
    path !in t.initialized && calls[j].op.path == path && HeaderReturns(t, path, calls[j].disk.header, sep)
    && (calls[j].op.PacketsOp? ==> calls[j].op.packets != [])
  }

  /**
   * Whatever fails: a file whose header call once returned true holds what that call left of the
   * header or found in the file, followed by what reached it of the rows of that call and the later ones.
   */
  lemma {:induction false} ContentWithFailures(s: State, calls: seq<Call>, path: string, sep: string) returns (j: nat)
    requires path !in s.initialized && path in RunOn(s, calls, sep).initialized
    requires calls != [] && NoHeaders(calls[1..], path)
    ensures j < |calls| && HeadedBy(s, calls, path, sep, j)
    ensures var t, end := RunOn(s, calls[..j], sep), RunOn(s, calls, sep);
            path in end.files
            && end.files[path] == HeaderOn(t, path, calls[j].disk.header, sep).files[path] + Chunks(calls[j..], path, sep)
  {
    hide Step, Chunk, HeaderOn, HeaderReturns, NoHeaders;
    var n := |calls| - 1;
    var t := RunOn(s, calls[..n], sep);
    if path in t.initialized {
      AllButLast(calls, path);
      j := ContentWithFailures(s, calls[..n], path, sep);
      assert calls[..n][..j] == calls[..j] && calls[j..][..n - j] == calls[..n][j..];
      assert HeadedBy(s, calls, path, sep, j);
      NotHeader(calls, path);
      AppendStep(t, calls[n], path, sep);
      HeaderLeavesFile(RunOn(s, calls[..j], sep), path, calls[j].disk.header, sep);
      var base := HeaderOn(RunOn(s, calls[..j], sep), path, calls[j].disk.header, sep).files[path];
      assert base + Chunks(calls[..n][j..], path, sep) + Chunk(calls[n], path, sep) == base + Chunks(calls[j..], path, sep);
    } else {
      j := n;
      FirstHeader(t, calls[n], path, sep);
      assert calls[n..] == [calls[n]] && calls[n..][..0] == [];
      assert "" + Chunk(calls[n], path, sep) == Chunk(calls[n], path, sep);
    }
  }

  lemma HeaderLeavesFile(s: State, path: string, w: Stream, sep: string)
    requires HeaderReturns(s, path, w, sep)
    ensures path in HeaderOn(s, path, w, sep).files && path in HeaderOn(s, path, w, sep).initialized
  {
  }

  lemma AllButLast(calls: seq<Call>, path: string)
    requires |calls| > 1 && NoHeaders(calls[1..], path)
    ensures NoHeaders(calls[..|calls| - 1][1..], path)
  {
    assert calls[..|calls| - 1][1..] == calls[1..][..|calls| - 2];
  }

  lemma NotHeader(calls: seq<Call>, path: string)
    requires |calls| > 1 && NoHeaders(calls[1..], path)
    ensures calls[|calls| - 1].op != HeaderOp(path)
  {
    assert calls[1..][|calls| - 2] == calls[|calls| - 1];
  }

  lemma FirstHeader(s: State, call: Call, path: string, sep: string)
    requires path !in s.initialized && path in Step(s, call, sep).initialized
    ensures call.op.path == path && HeaderReturns(s, path, call.disk.header, sep) && (call.op.PacketsOp? ==> call.op.packets != [])
    ensures var t := Step(s, call, sep);
            path in t.files && t.files[path] == HeaderOn(s, path, call.disk.header, sep).files[path] + Chunk(call, path, sep)
  {
    hide Header, HasHeader, FirstLine, Rows, Take;
    var t := HeaderOn(s, path, call.disk.header, sep);
    if path in t.files { assert t.files[path] + "" == t.files[path]; }
  }

  /** Without the header no row is written, and no call with packets returns true. */
  lemma NoHeaderNoRows(s: State, call: Call, path: string, sep: string)
    requires path !in Step(s, call, sep).initialized && call.op.path == path
    ensures Returns(s, call, sep) ==> call.op.PacketsOp? && call.op.packets == []
    ensures var t := Step(s, call, sep);
            (path in t.files && t.files[path] <= Header(sep) + "\n") || (t.files == s.files)
  {
    hide HasHeader, FirstLine, Rows;
  }

  // Rows cut short.

  /** How many of the rows are whole in the first n characters. */
  function WholeRows(ps: seq<Packet>, n: nat, sep: string): (k: nat)
    ensures k <= |ps|
  {
    if ps == [] || |Row(ps[0], sep)| > n then 0 else 1 + WholeRows(ps[1..], n - |Row(ps[0], sep)|, sep)
  }

  function KeptOf(call: Call, path: string, sep: string): seq<Packet> {
    if Appends(call, path) then call.op.packets[..WholeRows(call.op.packets, |Chunk(call, path, sep)|, sep)] else []
  }

  /** The packets whose rows reached the file whole. */
  function Kept(calls: seq<Call>, path: string, sep: string): seq<Packet> {
    if calls == [] then [] else Kept(calls[..|calls| - 1], path, sep) + KeptOf(calls[|calls| - 1], path, sep)
  }

  /** The call's stream ended between two rows. */
  predicate Aligned(call: Call, path: string, sep: string) {
    |Chunk(call, path, sep)| == |Rows(KeptOf(call, path, sep), sep)|
  }

  lemma {:induction false} WholeRowsFit(ps: seq<Packet>, n: nat, sep: string)
    ensures |Rows(ps[..WholeRows(ps, n, sep)], sep)| <= n
  {
    hide Row;
    if ps != [] && |Row(ps[0], sep)| <= n {
      var k := WholeRows(ps[1..], n - |Row(ps[0], sep)|, sep);
      WholeRowsFit(ps[1..], n - |Row(ps[0], sep)|, sep);
      assert ps[..k + 1][1..] == ps[1..][..k];
    }
  }

  lemma RowsOfPrefix(ps: seq<Packet>, k: nat, sep: string)
    requires k <= |ps|
    ensures Rows(ps[..k], sep) <= Rows(ps, sep)
  {
    RowsConcat(ps[..k], ps[k..], sep);
    assert ps[..k] + ps[k..] == ps;
  }

  lemma ChunkIsPrefix(ps: seq<Packet>, w: Stream, sep: string)
    ensures Reached(ps, w, sep) <= Rows(ps, sep)
  {
    hide Rows;
    RowsOfPrefix(ps, Min(|ps|, w.good + 1), sep);
  }

  lemma KeptFits(call: Call, path: string, sep: string)
    ensures Rows(KeptOf(call, path, sep), sep) <= Chunk(call, path, sep)
    ensures Aligned(call, path, sep) <==> Rows(KeptOf(call, path, sep), sep) == Chunk(call, path, sep)
  {
    NoRows(sep);
    hide Rows, Reached;
    if Appends(call, path) {
      var ps, chunk := call.op.packets, Chunk(call, path, sep);
      ChunkIsPrefix(ps, call.disk.rows, sep);
      WholeRowsFit(ps, |chunk|, sep);
      RowsOfPrefix(ps, WholeRows(ps, |chunk|, sep), sep);
    }
  }

  /** The rows in the file are exactly the whole rows that reached it if and only if no stream ended within a row. */
  lemma {:induction false} CutRows(calls: seq<Call>, path: string, sep: string)
    ensures |Rows(Kept(calls, path, sep), sep)| <= |Chunks(calls, path, sep)|
    ensures Chunks(calls, path, sep) == Rows(Kept(calls, path, sep), sep)
       <==> forall i :: 0 <= i < |calls| ==> Aligned(calls[i], path, sep)
    ensures Chunks(calls, path, sep) == Rows(Kept(calls, path, sep), sep)
       <==> |Chunks(calls, path, sep)| == |Rows(Kept(calls, path, sep), sep)|
  {
    NoRows(sep);
    hide Rows, Chunk, KeptOf, Aligned;
    if calls != [] {
      var n := |calls| - 1;
      CutRows(calls[..n], path, sep);
      KeptFits(calls[n], path, sep);
      RowsConcat(Kept(calls[..n], path, sep), KeptOf(calls[n], path, sep), sep);
      assert forall i :: 0 <= i < n ==> calls[..n][i] == calls[i];
    }
  }

  /** Then, and only then, the rows split into their lines. */
  lemma CutRowsSplit(calls: seq<Call>, path: string, sep: string)
    requires FieldSafe(sep)
    ensures Split(Chunks(calls, path, sep), "\n") == RowTexts(Kept(calls, path, sep), sep) + [""]
       <==> forall i :: 0 <= i < |calls| ==> Aligned(calls[i], path, sep)
  {
    hide Chunks, Kept, Aligned, Rows, RowTexts, Split, Join;
    CutRows(calls, path, sep);
    var kept := Kept(calls, path, sep);
    RowsSplitIntoLines(kept, sep);
    RowsAreLines(kept, sep);
    JoinSplit(Chunks(calls, path, sep), "\n");
  }
}
