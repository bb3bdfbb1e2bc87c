/** server/src/format/csv/csv_formatter.cpp over files that are strings. */
module Csv {
  import opened Bytes
  import opened Text
  import opened Packets
  import Validator

  function Header(sep: string): string {
    "timestamp" + sep + "sequence_id" + sep + "acc_x" + sep + "acc_y" + sep + "acc_z"
  }

  function RowFields(p: Packet): seq<string> {
    [Decimal(p.timestamp), Decimal(p.sequence), Fixed6(p.accX), Fixed6(p.accY), Fixed6(p.accZ)]
  }

  function Join(fields: seq<string>, sep: string): string {
    if fields == [] then "" else if |fields| == 1 then fields[0] else fields[0] + (sep + Join(fields[1..], sep))
  }

  function Row(p: Packet, sep: string): string {
    Join(RowFields(p), sep) + "\n"
  }

  function Rows(ps: seq<Packet>, sep: string): string {
    if ps == [] then "" else Row(ps[0], sep) + Rows(ps[1..], sep)
  }

  /** std::getline: the text before the first newline, or all of it. */
  function FirstLine(content: string): (line: string)
    ensures line <= content && '\n' !in line
    ensures |line| < |content| ==> content[|line|] == '\n'
  {
    if content == "" || content[0] == '\n' then "" else [content[0]] + FirstLine(content[1..])
  }

  lemma {:induction false} FirstLineIs(line: string, rest: string)
    requires '\n' !in line && (rest != "" ==> rest[0] == '\n')
    ensures FirstLine(line + rest) == line
  {
    if line != "" {
      FirstLineIs(line[1..], rest);
      assert (line + rest)[1..] == line[1..] + rest;
    } else {
      assert line + rest == rest;
    }
  }

  /** The test write_header makes on a file that can be read. */
  predicate HasHeader(content: string, sep: string) {
    content != "" && FirstLine(content) == Header(sep)
  }

  type Files = map<string, string>

  /** The formatter and the files it writes. */
  datatype State = State(files: Files, initialized: set<string>)

  function Fresh(files: Files, path: string, sep: string): string {
    if path in files && HasHeader(files[path], sep) then files[path] else Header(sep) + "\n"
  }

  function AfterHeader(s: State, path: string, sep: string): State {
    State(s.files[path := Fresh(s.files, path, sep)], s.initialized + {path})
  }

  function AfterPackets(s: State, path: string, ps: seq<Packet>, sep: string): State {
    if ps == [] then s else
      var t := if path in s.initialized then s else AfterHeader(s, path, sep);
      t.(files := t.files[path := (if path in t.files then t.files[path] else "") + Rows(ps, sep)])
  }

  // Whole runs of calls that do all they mean to.

  datatype Op = HeaderOp(path: string) | PacketsOp(path: string, packets: seq<Packet>)

  function Apply(s: State, op: Op, sep: string): State {
    match op
    case HeaderOp(path) => AfterHeader(s, path, sep)
    case PacketsOp(path, ps) => AfterPackets(s, path, ps, sep)
  }

  function Run(s: State, ops: seq<Op>, sep: string): State {
    if ops == [] then s else Apply(Run(s, ops[..|ops| - 1], sep), ops[|ops| - 1], sep)
  }

  /** The packets handed over for a path, in call order. */
  function Given(ops: seq<Op>, path: string): seq<Packet> {
    if ops == [] then [] else
      var op := ops[|ops| - 1];
      Given(ops[..|ops| - 1], path) + (if op.PacketsOp? && op.path == path then op.packets else [])
  }

  predicate Touches(op: Op, path: string) {
    op.path == path && (op.PacketsOp? ==> op.packets != [])
  }

  /** A header whose line is complete: what follows it in the file is on lines of its own. */
  predicate HeaderLine(content: string, sep: string) {
    Header(sep) + "\n" <= content
  }

  lemma NoNewlineInHeader(sep: string)
    requires '\n' !in sep
    ensures '\n' !in Header(sep)
  {
  }

  lemma HeaderLineIsSeen(content: string, sep: string)
    requires '\n' !in sep && HeaderLine(content, sep)
    ensures HasHeader(content, sep)
  {
    NoNewlineInHeader(sep);
    var h := Header(sep);
    assert content == h + content[|h|..] && content[|h|] == (h + "\n")[|h|];
    FirstLineIs(h, content[|h|..]);
  }

  /** What a path holds when its first call begins: nothing usable, or a complete header line. */
  predicate CleanStart(files: Files, path: string, sep: string) {
    path in files && HasHeader(files[path], sep) ==> files[path] != Header(sep)
  }

  predicate Safe(files: Files, path: string, sep: string) {
    '\n' !in sep && CleanStart(files, path, sep)
  }

  lemma FreshHasHeaderLine(files: Files, path: string, sep: string)
    requires '\n' !in sep && CleanStart(files, path, sep)
    ensures HeaderLine(Fresh(files, path, sep), sep)
  {
    if path in files && HasHeader(files[path], sep) {
      var c, h := files[path], Header(sep);
      assert FirstLine(c) == h && |c| > |h| && c[|h|] == '\n';
      assert c[..|h| + 1] == h + "\n";
    }
  }

  lemma {:induction false} RowsConcat(a: seq<Packet>, b: seq<Packet>, sep: string)
    ensures Rows(a + b, sep) == Rows(a, sep) + Rows(b, sep)
  {
    hide Row;
    if a == [] {
      assert a + b == b;
    } else {
      RowsConcat(a[1..], b, sep);
      assert (a + b)[1..] == a[1..] + b;
    }
  }

  predicate InStep(s: State, files: Files, path: string, given: seq<Packet>, touched: bool, sep: string) {
    if touched then path in s.initialized && path in s.files && s.files[path] == Fresh(files, path, sep) + Rows(given, sep)
    else path !in s.initialized && given == [] && (path in s.files <==> path in files) && (path in files ==> s.files[path] == files[path])
  }

  lemma InStepApply(s: State, files: Files, path: string, given: seq<Packet>, touched: bool, op: Op, sep: string)
    requires InStep(s, files, path, given, touched, sep)
    requires touched && op == HeaderOp(path) ==> given == [] || Safe(files, path, sep)
    ensures var more := if op.PacketsOp? && op.path == path then op.packets else [];
            InStep(Apply(s, op, sep), files, path, given + more, touched || Touches(op, path), sep)
  {
    hide Row, Rows, Header, HasHeader, FirstLine, HeaderLine, Fresh;
    assert given + [] == given;
    NoRows(sep);
    if op.path == path {
      if op.HeaderOp? {
        if touched { HeaderAgain(s, files, path, given, sep); }
        if !touched { SameFresh(s.files, files, path, sep); }
      } else {
        RowsConcat(given, op.packets, sep);
        if !touched { SameFresh(s.files, files, path, sep); }
      }
    }
  }

  lemma SameFresh(a: Files, b: Files, path: string, sep: string)
    requires (path in a <==> path in b) && (path in a ==> a[path] == b[path])
    ensures Fresh(a, path, sep) == Fresh(b, path, sep)
    ensures Fresh(a, path, sep) + "" == Fresh(a, path, sep)
  {
  }

  lemma HeaderAgain(s: State, files: Files, path: string, given: seq<Packet>, sep: string)
    requires InStep(s, files, path, given, true, sep) && (given == [] || Safe(files, path, sep))
    ensures InStep(Apply(s, HeaderOp(path), sep), files, path, given, true, sep)
  {
    hide Row, Header, HasHeader, FirstLine, HeaderLine;
    var opening := Fresh(files, path, sep);
    assert opening + "" == opening;
    if given != [] {
      hide Rows;
      FreshHasHeaderLine(files, path, sep);
      PrefixKeeps(opening, Rows(given, sep), sep);
      HeaderLineIsSeen(s.files[path], sep);
    }
  }

  lemma PrefixKeeps(a: string, b: string, sep: string)
    requires HeaderLine(a, sep)
    ensures HeaderLine(a + b, sep)
  {
  }

  /** Whether some call opened the path. */
  predicate Opened(ops: seq<Op>, path: string) {
    exists i :: 0 <= i < |ops| && Touches(ops[i], path)
  }

  /** A header is written when the path has been given packets before. */
  ghost predicate HeaderAfterRows(ops: seq<Op>, path: string) {
    exists j :: 0 <= j < |ops| && ops[j] == HeaderOp(path) && Given(ops[..j], path) != []
  }

  lemma OpenedLast(ops: seq<Op>, path: string)
    requires ops != []
    ensures Opened(ops, path) <==> Opened(ops[..|ops| - 1], path) || Touches(ops[|ops| - 1], path)
  {
    var before := ops[..|ops| - 1];
    if Opened(before, path) {
      var i :| 0 <= i < |before| && Touches(before[i], path);
      assert Touches(ops[i], path);
    }
    if i :| 0 <= i < |ops| && Touches(ops[i], path) && i < |ops| - 1 {
      assert Touches(before[i], path);
    }
  }

  lemma HeaderAfterRowsLast(ops: seq<Op>, path: string)
    requires ops != []
    ensures HeaderAfterRows(ops, path)
       <==> HeaderAfterRows(ops[..|ops| - 1], path)
            || (ops[|ops| - 1] == HeaderOp(path) && Given(ops[..|ops| - 1], path) != [])
  {
    hide Given;
    var n := |ops| - 1;
    if HeaderAfterRows(ops[..n], path) {
      var j :| 0 <= j < n && ops[..n][j] == HeaderOp(path) && Given(ops[..n][..j], path) != [];
      assert ops[..n][..j] == ops[..j];
    }
    if j :| 0 <= j < n && ops[j] == HeaderOp(path) && Given(ops[..j], path) != [] {
      assert ops[..n][..j] == ops[..j] && ops[..n][j] == ops[j];
    }
  }

  /** A later header has replaced the file, and the rows of the first packets are gone. */
  ghost predicate Truncated(s: State, path: string, given: seq<Packet>, sep: string) {
    && path in s.initialized && path in s.files
    && exists k :: 0 < k <= |given| && RowsFrom(s.files[path], given, k, sep)
  }

  predicate RowsFrom(content: string, given: seq<Packet>, k: nat, sep: string)
    requires k <= |given|
  {
    content == Header(sep) + "\n" + Rows(given[k..], sep)
  }

  lemma TruncateNow(s: State, files: Files, path: string, given: seq<Packet>, sep: string)
    requires InStep(s, files, path, given, true, sep) && given != [] && !Safe(files, path, sep)
    ensures Truncated(Apply(s, HeaderOp(path), sep), path, given, sep)
  {
    hide Row, Rows, Header;
    RowsStartWithDigit(given, sep);
    var content := s.files[path];
    assert !HasHeader(content, sep) by {
      if '\n' in sep {
        NewlineInHeader(sep);
      } else {
        assert content[|Header(sep)|] == Rows(given, sep)[0];
      }
    }
    assert Rows([], sep) == "" by { NoRows(sep); }
    assert given[|given|..] == [];
    assert Header(sep) + "\n" == Header(sep) + "\n" + Rows([], sep);
    assert RowsFrom(Header(sep) + "\n", given, |given|, sep);
    assert Apply(s, HeaderOp(path), sep).files[path] == Header(sep) + "\n";
  }

  lemma NoRows(sep: string)
    ensures Rows([], sep) == ""
  {
  }

  lemma NewlineInHeader(sep: string)
    requires '\n' in sep
    ensures '\n' in Header(sep)
  {
    var h := "timestamp" + sep;
    assert h <= Header(sep);
    var i :| 0 <= i < |sep| && sep[i] == '\n';
    assert h[|"timestamp"| + i] == '\n';
  }

  lemma TruncatedApply(s: State, path: string, given: seq<Packet>, op: Op, sep: string)
    requires Truncated(s, path, given, sep)
    ensures var more := if op.PacketsOp? && op.path == path then op.packets else [];
            Truncated(Apply(s, op, sep), path, given + more, sep)
  {
    hide Row, Rows, Header, HasHeader, FirstLine;
    NoRows(sep);
    var k :| 0 < k <= |given| && RowsFrom(s.files[path], given, k, sep);
    var t := Apply(s, op, sep);
    assert given + [] == given;
    if op.PacketsOp? && op.path == path {
      RowsConcat(given[k..], op.packets, sep);
      assert (given + op.packets)[k..] == given[k..] + op.packets;
      assert RowsFrom(t.files[path], given + op.packets, k, sep);
    } else if t.files[path] != s.files[path] {
      assert given[|given|..] == [];
      assert RowsFrom(t.files[path], given, |given|, sep);
    } else {
      assert RowsFrom(t.files[path], given, k, sep);
    }
  }

  lemma TruncatedIsWrong(s: State, files: Files, path: string, given: seq<Packet>, touched: bool, sep: string)
    requires Truncated(s, path, given, sep) && !Safe(files, path, sep)
    ensures !InStep(s, files, path, given, touched, sep)
  {
    hide Row, Rows, Header;
    var k :| 0 < k <= |given| && RowsFrom(s.files[path], given, k, sep);
    var early, late := given[..k], given[k..];
    assert early + late == given;
    RowsConcat(early, late, sep);
    RowsStartWithDigit(early, sep);
    if '\n' in sep { NewlineInHeader(sep); }
    var opening := Fresh(files, path, sep);
    var right := opening + Rows(given, sep);
    if opening == Header(sep) {
      assert right[|opening|] == Rows(early, sep)[0];
      assert s.files[path][|opening|] == '\n';
    } else {
      assert |right| > |s.files[path]|;
    }
  }

  /**
   * After a series of calls that lose nothing a file is its opening content followed by one row per packet
   * in call order, if and only if no header was written again below rows, or the separator has no
   * newline and the file did not start as the bare header. Otherwise rows are lost.
   */
  lemma IntendedContents(files: Files, ops: seq<Op>, path: string, sep: string)
    ensures InStep(Run(State(files, {}), ops, sep), files, path, Given(ops, path), Opened(ops, path), sep)
       <==> Safe(files, path, sep) || !HeaderAfterRows(ops, path)
  {
    ContentsOrTruncated(files, ops, path, sep);
    hide InStep, Truncated, Safe;
    if !Safe(files, path, sep) && HeaderAfterRows(ops, path) {
      TruncatedIsWrong(Run(State(files, {}), ops, sep), files, path, Given(ops, path), Opened(ops, path), sep);
    }
  }

  lemma {:induction false} ContentsOrTruncated(files: Files, ops: seq<Op>, path: string, sep: string)
    ensures var s := Run(State(files, {}), ops, sep);
            if Safe(files, path, sep) || !HeaderAfterRows(ops, path)
            then InStep(s, files, path, Given(ops, path), Opened(ops, path), sep)
            else Truncated(s, path, Given(ops, path), sep)
  {
    hide InStep, Apply, Opened, Truncated, Safe, HeaderAfterRows;
    if ops != [] {
      var before, op := ops[..|ops| - 1], ops[|ops| - 1];
      var s, given := Run(State(files, {}), before, sep), Given(before, path);
      ContentsOrTruncated(files, before, path, sep);
      OpenedLast(ops, path);
      HeaderAfterRowsLast(ops, path);
      GivenOpens(before, path);
      if !Safe(files, path, sep) && HeaderAfterRows(before, path) {
        TruncatedApply(s, path, given, op, sep);
      } else if !Safe(files, path, sep) && HeaderAfterRows(ops, path) {
        TruncateNow(s, files, path, given, sep);
        assert given + [] == given;
      } else {
        InStepApply(s, files, path, given, Opened(before, path), op, sep);
      }
    } else {
      NothingOpened(path);
      StartInStep(files, path, sep);
      assert !HeaderAfterRows([], path) by { NoHeaderYet(path); }
    }
  }

  lemma NoHeaderYet(path: string)
    ensures !HeaderAfterRows([], path)
  {
  }

  lemma {:induction false} GivenOpens(ops: seq<Op>, path: string)
    ensures Given(ops, path) != [] ==> Opened(ops, path)
  {
    hide Opened;
    if ops != [] {
      GivenOpens(ops[..|ops| - 1], path);
      OpenedLast(ops, path);
    }
  }

  lemma NothingOpened(path: string)
    ensures !Opened([], path)
  {
  }

  lemma StartInStep(files: Files, path: string, sep: string)
    ensures InStep(State(files, {}), files, path, [], false, sep)
  {
  }

  /** The header line stays a line of its own, above the rows, exactly when the file did not hold the bare header. */
  lemma HeaderLineKept(files: Files, ops: seq<Op>, path: string, sep: string)
    requires '\n' !in sep && !HeaderAfterRows(ops, path) && Given(ops, path) != []
    ensures var end := Run(State(files, {}), ops, sep);
            path in end.files && (HeaderLine(end.files[path], sep) <==> CleanStart(files, path, sep))
  {
    hide Run, Given, Rows, Row, Header, HasHeader, FirstLine, HeaderAfterRows, Opened, Fresh, CleanStart, HeaderLine;
    IntendedContents(files, ops, path, sep);
    GivenOpens(ops, path);
    OpeningThenRows(files, Given(ops, path), path, sep);
  }

  lemma OpeningThenRows(files: Files, ps: seq<Packet>, path: string, sep: string)
    requires '\n' !in sep && ps != []
    ensures HeaderLine(Fresh(files, path, sep) + Rows(ps, sep), sep) <==> CleanStart(files, path, sep)
  {
    hide Rows, Row, Header, HasHeader, FirstLine;
    var opening := Fresh(files, path, sep);
    if CleanStart(files, path, sep) {
      FreshHasHeaderLine(files, path, sep);
      PrefixKeeps(opening, Rows(ps, sep), sep);
    } else {
      assert opening == Header(sep);
      RowsStartWithDigit(ps, sep);
      LineEndsAfterHeader(opening + Rows(ps, sep), sep);
    }
  }

  /** A second header on a file that held the bare header deletes the rows below it. */
  lemma SecondHeaderDeletesRows(path: string, ps: seq<Packet>, sep: string)
    requires '\n' !in sep && ps != []
    ensures var files: Files := map[path := Header(sep)];
            var ops := [HeaderOp(path), PacketsOp(path, ps), HeaderOp(path)];
            Run(State(files, {}), ops, sep).files[path] == Header(sep) + "\n"
  {
    hide Row, Rows, Header;
    NoNewlineInHeader(sep);
    var h, files := Header(sep), map[path := Header(sep)];
    FirstLineIs(h, "");
    assert h + "" == h;
    HeaderNotEmpty(sep);
    var s0 := State(files, {});
    var before := [HeaderOp(path), PacketsOp(path, ps)];
    var ops := before + [HeaderOp(path)];
    assert ops[..2] == before;
    RunTwo(s0, HeaderOp(path), PacketsOp(path, ps), sep);
    assert AfterHeader(s0, path, sep).files[path] == h;
    var content := h + Rows(ps, sep);
    RowsStartWithDigit(ps, sep);
    assert content[|h|] == Rows(ps, sep)[0];
    assert Run(s0, before, sep).files[path] == content && !HasHeader(content, sep);
    assert ops[|ops| - 1] == HeaderOp(path) && Run(s0, ops, sep) == AfterHeader(Run(s0, before, sep), path, sep);
    assert ops == [HeaderOp(path), PacketsOp(path, ps), HeaderOp(path)];
  }

  lemma RowsStartWithDigit(ps: seq<Packet>, sep: string)
    requires ps != []
    ensures Rows(ps, sep) != "" && IsDigit(Rows(ps, sep)[0])
  {
    hide Row;
    RowStartsWithDigit(ps[0], sep);
  }

  /** A file that holds the bare header without a newline gets its first row glued to the header line. */
  lemma BareHeaderIsGlued(path: string, p: Packet, sep: string)
    requires '\n' !in sep
    ensures var files: Files := map[path := Header(sep)];
            var after := Run(State(files, {}), [HeaderOp(path), PacketsOp(path, [p])], sep).files[path];
            !CleanStart(files, path, sep) && after == Header(sep) + Row(p, sep) && !HeaderLine(after, sep)
  {
    hide Row, Rows, Header;
    NoNewlineInHeader(sep);
    var h, files := Header(sep), map[path := Header(sep)];
    FirstLineIs(h, "");
    assert h + "" == h;
    HeaderNotEmpty(sep);
    OneRow(p, sep);
    var s0 := State(files, {});
    RunTwo(s0, HeaderOp(path), PacketsOp(path, [p]), sep);
    assert AfterHeader(s0, path, sep).files[path] == h;
    RowStartsWithDigit(p, sep);
    var after := h + Row(p, sep);
    assert after[|h|] == Row(p, sep)[0];
    LineEndsAfterHeader(after, sep);
  }

  lemma LineEndsAfterHeader(content: string, sep: string)
    ensures HeaderLine(content, sep) ==> |content| > |Header(sep)| && content[|Header(sep)|] == '\n'
  {
    hide Header;
    var line := Header(sep) + "\n";
    assert line[|line| - 1] == '\n';
  }

  lemma HeaderNotEmpty(sep: string)
    ensures Header(sep) != ""
  {
  }

  lemma OneRow(p: Packet, sep: string)
    ensures Rows([p], sep) == Row(p, sep)
  {
    hide Row;
  }

  lemma RunTwo(s: State, a: Op, b: Op, sep: string)
    ensures Run(s, [a, b], sep) == Apply(Apply(s, a, sep), b, sep)
  {
    hide Apply;
    assert [a][..0] == [] && Run(s, [a], sep) == Apply(s, a, sep);
    assert [a, b][..1] == [a];
  }

  lemma RowStartsWithDigit(p: Packet, sep: string)
    ensures Row(p, sep) != "" && IsDigit(Row(p, sep)[0])
  {
    DecimalRoundTrip(p.timestamp);
    assert Decimal(p.timestamp)[0] in Decimal(p.timestamp);
    hide Decimal, Fixed6;
    assert RowFields(p)[0] == Decimal(p.timestamp);
    assert Row(p, sep)[0] == Decimal(p.timestamp)[0];
  }

  // Reading rows back.

  /** The pieces of s between the occurrences of a non-empty separator. */
  function Split(s: string, sep: string): (r: seq<string>)
    requires sep != ""
    ensures r != []
    decreases |s|
  {
    match Find(s, sep, 0)
    case None => [s]
    case Some(at) => [s[..at]] + Split(s[at + |sep|..], sep)
  }

  predicate FreeOf(fields: seq<string>, c: char) {
    forall f :: f in fields ==> c !in f
  }

  lemma MatchHere(s: string, pat: string, at: nat)
    ensures at + |pat| <= |s| && s[at..at + |pat|] == pat ==> MatchesAt(s, pat, at)
  {
  }

  /** Splitting undoes joining when no field contains the separator's first character. */
  lemma {:induction false} SplitJoin(fields: seq<string>, sep: string)
    requires fields != [] && sep != "" && FreeOf(fields, sep[0])
    ensures Split(Join(fields, sep), sep) == fields
  {
    hide MatchesAt, Find, Contains;
    var s := Join(fields, sep);
    assert fields[0] in fields;
    if |fields| == 1 {
      MissingChar(s, sep, sep[0]);
      FindNothing(s, sep);
    } else {
      var at, rest := |fields[0]|, Join(fields[1..], sep);
      SplitJoin(fields[1..], sep);
      MatchHere(s, sep, at);
      forall k | 0 <= k < at
        ensures !MatchesAt(s, sep, k)
      {
        assert s[k] == fields[0][k] && fields[0][k] in fields[0];
        Differs(s, sep, k, 0);
      }
      FindIs(s, sep, at);
      assert s[..at] == fields[0] && s[at + |sep|..] == rest;
    }
  }

  lemma {:induction false} JoinSplit(s: string, sep: string)
    requires sep != ""
    ensures Join(Split(s, sep), sep) == s
    decreases |s|
  {
    match Find(s, sep, 0)
    case None =>
    case Some(at) =>
      var rest := s[at + |sep|..];
      JoinSplit(rest, sep);
      assert Split(s, sep) == [s[..at]] + Split(rest, sep);
      JoinCons(s[..at], Split(rest, sep), sep);
      assert s == s[..at] + sep + rest;
  }

  predicate FieldSafe(sep: string) {
    sep != "" && forall c :: c in sep ==> !IsDigit(c) && c != '.' && c != '-' && c != '\n'
  }

  lemma RowFieldChars(p: Packet)
    ensures forall f, c :: f in RowFields(p) && c in f ==> IsDigit(c) || c == '-' || c == '.'
  {
    DecimalRoundTrip(p.timestamp);
    DecimalRoundTrip(p.sequence);
    Validator.NoQuoteInFixed6(p.accX);
    Validator.NoQuoteInFixed6(p.accY);
    Validator.NoQuoteInFixed6(p.accZ);
  }

  /** Splitting a row on the separator recovers the five printed fields. */
  lemma RowSplits(p: Packet, sep: string)
    requires FieldSafe(sep)
    ensures Row(p, sep)[|Row(p, sep)| - 1] == '\n'
    ensures Split(Row(p, sep)[..|Row(p, sep)| - 1], sep) == RowFields(p)
  {
    hide Join, Split, RowFields;
    RowFieldChars(p);
    assert sep[0] in sep;
    NonEmptyRow(p);
    SplitJoin(RowFields(p), sep);
    assert Row(p, sep)[..|Row(p, sep)| - 1] == Join(RowFields(p), sep);
  }

  lemma NonEmptyRow(p: Packet)
    ensures RowFields(p) != []
  {
  }

  /** And the fields are the packet's numbers, with six decimals kept. */
  lemma FieldsAreThePacket(p: Packet)
    requires Validator.Printable(p)
    ensures var f, k := RowFields(p), Validator.Kept(p);
            && Strtoull(f[0], 0) == Number(k.timestamp, |f[0]|)
            && Strtoull(f[1], 0) == Number(k.sequence, |f[1]|)
            && Strtod(f[2], 0) == Number(k.accX, |f[2]|)
            && Strtod(f[3], 0) == Number(k.accY, |f[3]|)
            && Strtod(f[4], 0) == Number(k.accZ, |f[4]|)
  {
    hide Decimal, Fixed6, Strtod, Strtoull, Rounded;
    WholeMatch(Decimal(p.timestamp));
    WholeMatch(Decimal(p.sequence));
    WholeMatch(Fixed6(p.accX));
    WholeMatch(Fixed6(p.accY));
    WholeMatch(Fixed6(p.accZ));
    StrtoullReadsDecimal(Decimal(p.timestamp), 0, p.timestamp);
    StrtoullReadsDecimal(Decimal(p.sequence), 0, p.sequence);
    StrtodReadsFixed6(Fixed6(p.accX), 0, p.accX);
    StrtodReadsFixed6(Fixed6(p.accY), 0, p.accY);
    StrtodReadsFixed6(Fixed6(p.accZ), 0, p.accZ);
  }

  lemma WholeMatch(s: string)
    ensures MatchesAt(s, s, 0)
  {
    assert s[0..0 + |s|] == s;
  }

  function RowTexts(ps: seq<Packet>, sep: string): (r: seq<string>)
    ensures |r| == |ps|
  {
    if ps == [] then [] else [Join(RowFields(ps[0]), sep)] + RowTexts(ps[1..], sep)
  }

  lemma {:induction false} RowsAreLines(ps: seq<Packet>, sep: string)
    ensures Rows(ps, sep) == Join(RowTexts(ps, sep) + [""], "\n")
  {
    hide RowFields, Join;
    if ps == [] {
      assert RowTexts(ps, sep) + [""] == [""];
      JoinOne("", "\n");
    } else {
      RowsAreLines(ps[1..], sep);
      var line, rest := Join(RowFields(ps[0]), sep), RowTexts(ps[1..], sep) + [""];
      assert RowTexts(ps, sep) + [""] == [line] + rest;
      JoinCons(line, rest, "\n");
    }
  }

  lemma JoinOne(field: string, sep: string)
    ensures Join([field], sep) == field
  {
  }

  lemma JoinCons(field: string, rest: seq<string>, sep: string)
    requires rest != []
    ensures Join([field] + rest, sep) == field + sep + Join(rest, sep)
  {
    var all := [field] + rest;
    assert |all| > 1 && all[0] == field && all[1..] == rest;
    assert Join(all, sep) == field + (sep + Join(rest, sep));
  }

  lemma {:induction false} JoinChars(fields: seq<string>, sep: string, c: char)
    requires FreeOf(fields, c) && c !in sep
    ensures c !in Join(fields, sep)
  {
    if |fields| > 1 {
      JoinChars(fields[1..], sep, c);
      assert fields[0] in fields;
    } else if |fields| == 1 {
      assert fields[0] in fields;
    }
  }

  lemma {:induction false} RowTextsHaveNoNewline(ps: seq<Packet>, sep: string)
    requires FieldSafe(sep)
    ensures FreeOf(RowTexts(ps, sep), '\n')
  {
    hide RowFields;
    if ps != [] {
      RowFieldChars(ps[0]);
      assert '\n' !in sep;
      JoinChars(RowFields(ps[0]), sep, '\n');
      RowTextsHaveNoNewline(ps[1..], sep);
    }
  }

  /** The rows of a file split into one line per packet, and nothing after the last newline. */
  lemma RowsSplitIntoLines(ps: seq<Packet>, sep: string)
    requires FieldSafe(sep)
    ensures Split(Rows(ps, sep), "\n") == RowTexts(ps, sep) + [""]
  {
    RowsAreLines(ps, sep);
    RowTextsHaveNoNewline(ps, sep);
    SplitJoin(RowTexts(ps, sep) + [""], "\n");
  }
}
