/** The table of configuration entries and its two loaders: shared/include/confparser.h. */
module ConfTable {
  import opened Bytes
  import opened Text
  import opened ConfLines
  import opened ConfBuffer

  const MAX_ENTRIES: nat := 512

  datatype Entry = Entry(section: string, key: string, value: string, line: nat)

  datatype Message = NoMessage | UnclosedSection | MissingEquals | TooManyEntries | CannotOpen

  /** strncpy into a field of the given size, with the last byte forced to NUL. */
  function Field(s: string, size: nat): (r: string)
    requires size > 0
    ensures r <= s && |r| < size
  {
    Take(s, size - 1)
  }

  function MakeEntry(section: string, key: string, value: string, line: nat): Entry {
    Entry(Field(section, MAX_SECTION), Lower(Field(key, MAX_KEY)), Field(value, MAX_VALUE), line)
  }

  // fgets.

  /** The length of the piece fgets takes from the front of a file. */
  function PieceLength(text: string): (n: nat)
    ensures n <= |text| && n < MAX_LINE && (n == 0 <==> text == "")
  {
    var window := Take(text, MAX_LINE - 1);
    var i := FirstOf(window, "\n");
    if i < |window| then i + 1 else i
  }

  class FileStream {
    var rest: string

    constructor (text: string)
      ensures rest == text
    {
      rest := text;
    }

    /** fgets(line, sizeof line, fp) */
    method Gets(line: array<char>) returns (ok: bool)
      requires line.Length == MAX_LINE
      modifies this, line
      ensures ok <==> old(rest) != ""
      ensures ok ==> var n := PieceLength(old(rest));
                     && rest == old(rest)[n..] && n > 0
                     && line[..n] == old(rest)[..n] && line[n] == '\0'
    {
      if rest == "" {
        return false;
      }
      var n := 0;
      while n < |rest| && n < MAX_LINE - 1 && (n == 0 || rest[n - 1] != '\n')
        modifies line
        invariant n <= |rest| && n < MAX_LINE && line[..n] == rest[..n]
        invariant forall k :: 0 <= k < n - 1 ==> rest[k] != '\n'
      {
        line[n] := rest[n];
        n := n + 1;
      }
      line[n] := '\0';
      PieceEnds(rest, n);
      rest := rest[n..];
      return true;
    }
  }

  lemma PieceEnds(text: string, n: nat)
    requires 0 < n <= |text| && n < MAX_LINE && forall k :: 0 <= k < n - 1 ==> text[k] != '\n'
    requires n == |text| || n == MAX_LINE - 1 || text[n - 1] == '\n'
    ensures PieceLength(text) == n
  {
    var window := Take(text, MAX_LINE - 1);
    FirstOfIs(window, "\n", if text[n - 1] == '\n' then n - 1 else n);
  }

  // What loading a text means.

  datatype Loader = Loader(entries: seq<Entry>, section: string, line: nat, errorLine: nat, message: Message, full: bool)

  const START: Loader := Loader([], "", 0, 0, NoMessage, false)

  /** One more line. The table refuses the entry after the last possible one, and loading stops there. */
  function Feed(s: Loader, raw: string): Loader {
    var n := s.line + 1;
    var t := s.(line := n);
    match LineMeaning(raw)
    case Nothing => t
    case Section(name) => t.(section := Field(name, MAX_SECTION))
    case Unclosed => t.(message := UnclosedSection, errorLine := n)
    case NoEquals => if s.errorLine == 0 then t.(message := MissingEquals, errorLine := n) else t
    case Pair(key, value) =>
      if |s.entries| >= MAX_ENTRIES then t.(message := TooManyEntries, full := true)
      else t.(entries := s.entries + [MakeEntry(s.section, key, value, n)])
  }

  function LoadFrom(text: string, s: Loader): Loader
    decreases |text|
  {
    if text == "" || s.full then s
    else LoadFrom(text[PieceLength(text)..], Feed(s, text[..PieceLength(text)]))
  }

  /** All pairs of a text in file order, without any limit on their number. */
  function AllPairs(text: string, section: string, line: nat): seq<Entry>
    decreases |text|
  {
    if text == "" then [] else
      var n := PieceLength(text);
      match LineMeaning(text[..n])
      case Section(name) => AllPairs(text[n..], Field(name, MAX_SECTION), line + 1)
      case Pair(key, value) => [MakeEntry(section, key, value, line + 1)] + AllPairs(text[n..], section, line + 1)
      case _ => AllPairs(text[n..], section, line + 1)
  }

  /** The table is the first 512 pairs of the file, or all of them when there are fewer. */
  lemma {:induction false} LoadTakesFirst(text: string, s: Loader)
    requires |s.entries| <= MAX_ENTRIES && (s.full ==> |s.entries| == MAX_ENTRIES)
    ensures LoadFrom(text, s).entries == Take(s.entries + AllPairs(text, s.section, s.line), MAX_ENTRIES)
    decreases |text|
  {
    hide LineMeaning, MakeEntry, PieceLength;
    if text == "" || s.full {
      TakeAll(s.entries + [], MAX_ENTRIES);
      TakeFront(s.entries, AllPairs(text, s.section, s.line), MAX_ENTRIES);
    } else {
      PieceProgress(text);
      var n := PieceLength(text);
      var t := Feed(s, text[..n]);
      LoadTakesFirst(text[n..], t);
      match LineMeaning(text[..n])
      case Pair(key, value) =>
        var e, more := MakeEntry(s.section, key, value, s.line + 1), AllPairs(text[n..], s.section, s.line + 1);
        assert (s.entries + [e]) + more == s.entries + ([e] + more);
        if t.full {
          TakeFront(s.entries, more, MAX_ENTRIES);
          TakeFront(s.entries, [e] + more, MAX_ENTRIES);
        }
      case _ =>
    }
  }

  lemma PieceProgress(text: string)
    ensures text != "" ==> 0 < PieceLength(text) <= |text|
  {
  }

  lemma TakeFront<T>(a: seq<T>, b: seq<T>, n: nat)
    ensures |a| == n ==> Take(a + b, n) == a
    ensures a + [] == a
  {
  }

  // The growing table.

  class ConfResult {
    var entries: array<Entry>
    var filledCount: nat
    var capacity: nat
    var message: Message
    var errorLine: nat

    ghost predicate Valid()
      reads this
    {
      && entries.Length == capacity
      && filledCount <= capacity
      && (capacity == 64 || capacity == 128 || capacity == 256 || capacity == 512)
    }

    ghost function Contents(): (s: seq<Entry>)
      requires Valid()
      reads this, entries
      ensures |s| == filledCount <= MAX_ENTRIES
    {
      entries[..filledCount]
    }

    constructor ()
      ensures Valid() && Contents() == [] && message == NoMessage && errorLine == 0 && fresh(entries)
    {
      capacity := 64;
      entries := new Entry[64](_ => Entry("", "", "", 0));
      filledCount, message, errorLine := 0, NoMessage, 0;
    }

    /** Doubles the table, up to the limit; the entries move over. */
    method Grow()
      requires Valid() && capacity < MAX_ENTRIES
      modifies this`entries, this`capacity
      ensures Valid() && capacity > old(capacity) && filledCount == old(filledCount)
      ensures Contents() == old(Contents()) && fresh(entries)
    {
      var newCap := if 2 * capacity > MAX_ENTRIES then MAX_ENTRIES else 2 * capacity;
      var grown := new Entry[newCap](_ => Entry("", "", "", 0));
      for i := 0 to filledCount
        modifies grown
        invariant grown[..i] == entries[..i]
      {
        grown[i] := entries[i];
      }
      entries, capacity := grown, newCap;
    }

    /** conf_push */
    method Push(section: string, key: string, value: string, line: nat) returns (ok: bool)
      requires Valid()
      modifies this`entries, this`capacity, this`filledCount, entries
      ensures Valid() && (entries == old(entries) || fresh(entries))
      ensures ok <==> |old(Contents())| < MAX_ENTRIES
      ensures Contents() == old(Contents()) + (if ok then [MakeEntry(section, key, value, line)] else [])
    {
      if filledCount >= capacity {
        if capacity >= MAX_ENTRIES {
          return false;
        }
        Grow();
      }
      ghost var before := entries[..filledCount];
      entries[filledCount] := MakeEntry(section, key, value, line);
      filledCount := filledCount + 1;
      assert entries[..filledCount] == before + [MakeEntry(section, key, value, line)];
      return true;
    }
  }

  // One line, parsed in place.

  lemma LineEndsWithoutNul(s: string)
    requires '\0' !in s
    ensures FirstOf(s, "\r\n") == FirstOf(s, LINE_ENDS)
  {
    var i := FirstOf(s, "\r\n");
    FirstOfIs(s, LINE_ENDS, i);
  }

  /** Strips an inline comment and then quotes from the trimmed value at s. */
  method ParseValue(buf: array<char>, s: nat) returns (p: nat)
    requires Terminated(buf[..], s)
    modifies buf
    ensures s <= p < buf.Length && Terminated(buf[..], p) && CStr(buf[..], p) == ValueOf(old(CStr(buf[..], s)))
    ensures forall k: nat :: k < buf.Length && Outside(k, s, old(End(buf[..], s))) ==> buf[k] == old(buf[k])
  {
    hide Trim, Unquote, End, IsSpace, HasComment, FirstOf;
    p := StripComment(buf, s);
    p := StrUnquote(buf, p);
  }

  /** An unquoted value ends before a comment that follows a blank. */
  method StripComment(buf: array<char>, s: nat) returns (p: nat)
    requires Terminated(buf[..], s)
    modifies buf
    ensures s <= p < buf.Length && Terminated(buf[..], p) && End(buf[..], p) <= old(End(buf[..], s))
    ensures var v := old(CStr(buf[..], s)); CStr(buf[..], p) == if HasComment(v) then Trim(v[..FirstOf(v, "#;")]) else v
    ensures forall k: nat :: k < buf.Length && Outside(k, s, old(End(buf[..], s))) ==> buf[k] == old(buf[k])
  {
    hide Trim, End, IsSpace;
    ghost var b := buf[..];
    ghost var v := CStr(b, s);
    FirstChar(b, s);
    EndFacts(b, s);
    p := s;
    if buf[s] != '\"' {
      var cmt := Search(buf, s, "#;");
      if buf[cmt] != '\0' && cmt > s && IsSpace(buf[cmt - 1]) {
        assert v[cmt - s - 1] == b[cmt - 1];
        buf[cmt] := '\0';
        CutString(b, buf[..], s, cmt);
        p := StrTrim(buf, s);
      } else if buf[cmt] != '\0' && cmt > s {
        assert v[cmt - s - 1] == b[cmt - 1];
      }
    }
  }

  /** The section name between the bracket at p and the one at end. */
  method ParseSection(buf: array<char>, p: nat, end: nat) returns (m: Meaning)
    requires Terminated(buf[..], p) && p < end < End(buf[..], p)
    modifies buf
    ensures m == Section(Trim(old(CStr(buf[..], p))[1..end - p]))
  {
    hide Trim, End;
    ghost var b := buf[..];
    EndFacts(b, p);
    buf[end] := '\0';
    CutString(b, buf[..], p, end);
    TailString(buf[..], p, p + 1);
    var sec := StrTrim(buf, p + 1);
    m := Section(CStr(buf[..], sec));
    assert CStr(b, p)[..end - p][1..] == CStr(b, p)[1..end - p];
  }

  /** Key and value on both sides of the '=' at eq. */
  method ParsePair(buf: array<char>, p: nat, eq: nat) returns (m: Meaning)
    requires Terminated(buf[..], p) && p <= eq < End(buf[..], p)
    modifies buf
    ensures var text, e := old(CStr(buf[..], p)), eq - p;
            var key, value := Trim(text[..e]), ValueOf(Trim(text[e + 1..]));
            m == if key == "" then Nothing else Pair(key, value)
  {
    hide Trim, ValueOf, End, CStr, Terminated;
    ghost var b := buf[..];
    EndFacts(b, p);
    TailString(b, p, eq + 1);
    buf[eq] := '\0';
    CutString(b, buf[..], p, eq);
    SameString(b, buf[..], eq + 1);
    ghost var b1 := buf[..];
    var key := StrTrim(buf, p);
    EndFacts(buf[..], key);
    SameString(b1, buf[..], eq + 1);
    ghost var b2 := buf[..];
    var val := StrTrim(buf, eq + 1);
    SameString(b2, buf[..], key);
    ghost var b3 := buf[..];
    EndFacts(b3, val);
    val := ParseValue(buf, val);
    SameString(b3, buf[..], key);
    FirstChar(buf[..], key);
    if buf[key] == '\0' {
      return Nothing;
    }
    return Pair(CStr(buf[..], key), CStr(buf[..], val));
  }

  /** Drops the line end and the blanks around the line. */
  method CutAndTrim(buf: array<char>) returns (p: nat)
    requires buf.Length > 0 && Terminated(buf[..], 0)
    modifies buf
    ensures p < buf.Length && Terminated(buf[..], p)
    ensures var raw := old(CStr(buf[..], 0)); CStr(buf[..], p) == Trim(raw[..FirstOf(raw, LINE_ENDS)])
  {
    hide Trim, End, CStr;
    ghost var b := buf[..];
    EndFacts(b, 0);
    var nl := Search(buf, 0, "\r\n");
    if buf[nl] != '\0' {
      buf[nl] := '\0';
    }
    assert buf[..] == b[nl := '\0'];
    CutString(b, buf[..], 0, nl);
    LineEndsWithoutNul(CStr(b, 0));
    p := StrTrim(buf, 0);
  }

  method Classify(buf: array<char>, p: nat) returns (m: Meaning)
    requires p < buf.Length && Terminated(buf[..], p)
    modifies buf
    ensures m == MeaningOf(old(CStr(buf[..], p)))
  {
    hide Trim, ValueOf, End, CStr, FirstOf;
    FirstChar(buf[..], p);
    EndFacts(buf[..], p);
    if buf[p] == '\0' || buf[p] == '#' || buf[p] == ';' {
      return Nothing;
    }
    if buf[p] == '[' {
      var end := Search(buf, p, "]");
      if buf[end] == '\0' {
        return Unclosed;
      }
      m := ParseSection(buf, p, end);
    } else {
      var eq := Search(buf, p, "=");
      if buf[eq] == '\0' {
        return NoEquals;
      }
      m := ParsePair(buf, p, eq);
    }
  }

  /** The body of the loading loop up to conf_push. */
  method ParseLine(buf: array<char>) returns (m: Meaning)
    requires buf.Length > 0 && Terminated(buf[..], 0)
    modifies buf
    ensures m == LineMeaning(old(CStr(buf[..], 0)))
  {
    hide MeaningOf, CStr;
    var p := CutAndTrim(buf);
    m := Classify(buf, p);
  }

  lemma MeaningOfBuffer(b: seq<char>, piece: string)
    requires |piece| < |b| && b[..|piece|] == piece && b[|piece|] == '\0'
    ensures Terminated(b, 0) && LineMeaning(CStr(b, 0)) == LineMeaning(piece)
  {
    hide MeaningOf, Trim;
    var e := End(b, 0);
    assert e <= |piece|;
    var str := CStr(b, 0);
    assert str == piece[..e];
    var i := FirstOf(str, LINE_ENDS);
    assert forall k :: 0 <= k < e ==> str[k] == piece[k];
    FirstOfIs(piece, LINE_ENDS, i);
    assert str[..i] == piece[..i];
  }

  // The loaders.

  ghost function StateOf(conf: ConfResult, section: string, line: nat, full: bool): Loader
    requires conf.Valid()
    reads conf, conf.entries
  {
    Loader(conf.Contents(), section, line, conf.errorLine, conf.message, full)
  }

  /** What happens to the table for one line; the section and whether loading goes on are returned. */
  method Absorb(conf: ConfResult, m: Meaning, section: string, n: nat) returns (next: string, full: bool)
    requires conf.Valid() && n > 0
    modifies conf, conf.entries
    ensures conf.Valid() && (conf.entries == old(conf.entries) || fresh(conf.entries))
    ensures forall raw :: LineMeaning(raw) == m ==>
              StateOf(conf, next, n, full) == Feed(old(StateOf(conf, section, n - 1, false)), raw)
  {
    hide LineMeaning, MakeEntry;
    next, full := section, false;
    match m
    case Nothing =>
    case Section(name) => next := Field(name, MAX_SECTION);
    case Unclosed => conf.message, conf.errorLine := UnclosedSection, n;
    case NoEquals =>
      if conf.errorLine == 0 {
        conf.message, conf.errorLine := MissingEquals, n;
      }
    case Pair(key, value) =>
      var ok := conf.Push(section, key, value, n);
      if !ok {
        conf.message, full := TooManyEntries, true;
      }
  }

  /** conf_load_fp */
  method LoadStream(fp: FileStream) returns (conf: ConfResult)
    modifies fp
    ensures fresh(conf) && conf.Valid()
    ensures conf.Contents() == LoadFrom(old(fp.rest), START).entries
    ensures conf.message == LoadFrom(old(fp.rest), START).message && conf.errorLine == LoadFrom(old(fp.rest), START).errorLine
  {
    hide Feed, PieceLength, LineMeaning;
    conf := new ConfResult();
    var line := new char[MAX_LINE];
    var section, n, full := "", 0, false;
    ghost var text := fp.rest;
    while !full
      invariant fresh(conf) && fresh(line) && fresh(conf.entries) && conf.Valid()
      invariant LoadFrom(fp.rest, StateOf(conf, section, n, full)) == LoadFrom(text, START)
      decreases |fp.rest|, !full
    {
      ghost var rest, before := fp.rest, StateOf(conf, section, n, false);
      var got := fp.Gets(line);
      if !got {
        break;
      }
      ghost var piece := rest[..PieceLength(rest)];
      MeaningOfBuffer(line[..], piece);
      var m := ParseLine(line);
      n := n + 1;
      section, full := Absorb(conf, m, section, n);
      assert StateOf(conf, section, n, full) == Feed(before, piece);
    }
  }

  /** conf_load: a file that cannot be opened gives an empty table and a message. */
  method Load(file: Option<string>) returns (conf: ConfResult)
    ensures fresh(conf) && conf.Valid()
    ensures file.Some? ==> conf.Contents() == LoadFrom(file.value, START).entries
    ensures file.Some? ==> conf.message == LoadFrom(file.value, START).message && conf.errorLine == LoadFrom(file.value, START).errorLine
    ensures file.None? ==> conf.Contents() == [] && conf.message == CannotOpen && conf.errorLine == 0
  {
    match file
    case None =>
      conf := new ConfResult();
      conf.message := CannotOpen;
    case Some(text) =>
      var fp := new FileStream(text);
      conf := LoadStream(fp);
  }

  // Looking entries up.

  predicate Matches(e: Entry, section: string, key: string) {
    Lower(e.section) == Lower(section) && e.key == Lower(Field(key, MAX_KEY))
  }

  /** find_entry: the first entry with this key in this section, whatever their case. */
  method FindEntry(conf: ConfResult, section: string, key: string) returns (at: Option<nat>)
    requires conf.Valid()
    ensures at.Some? ==> at.value < conf.filledCount && Matches(conf.entries[at.value], section, key)
    ensures at.Some? ==> forall k :: 0 <= k < at.value ==> !Matches(conf.entries[k], section, key)
    ensures at.None? ==> forall k :: 0 <= k < conf.filledCount ==> !Matches(conf.entries[k], section, key)
  {
    var keyLc := Lower(Field(key, MAX_KEY));
    for i := 0 to conf.filledCount
      invariant forall k :: 0 <= k < i ==> !Matches(conf.entries[k], section, key)
    {
      var e := conf.entries[i];
      if Lower(e.section) == Lower(section) && e.key == keyLc {
        return Some(i);
      }
    }
    return None;
  }
}
