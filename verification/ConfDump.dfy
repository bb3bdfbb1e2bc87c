/** conf_dump against the loader: when does a table survive being written out and read back? */
module ConfDump {
  import opened Bytes
  import opened Text
  import opened ConfLines
  import opened ConfTable

  /** %-30s */
  function PadRight(s: string): (r: string)
    ensures |r| == (if |s| < 30 then 30 else |s|)
  {
    if |s| < 30 then s + Spaces(30 - |s|) else s
  }

  function SectionName(section: string): string {
    if section == "" then "(global)" else section
  }

  function EntryLine(e: Entry): string {
    "  " + PadRight(e.key) + " = " + e.value
  }

  function SectionLine(section: string): string {
    "[" + SectionName(section) + "]"
  }

  function CountLine(n: nat): string {
    "# conf_result_t dump: " + Decimal(n) + " entries"
  }

  predicate NewSection(es: seq<Entry>, i: nat)
    requires i < |es|
  {
    i == 0 || es[i - 1].section != es[i].section
  }

  function HeaderLines(es: seq<Entry>, i: nat): seq<string>
    requires i < |es|
  {
    if NewSection(es, i) then ["", SectionLine(es[i].section)] else []
  }

  /** The lines for the entries from index i on; a section header where the section changes. */
  function DumpLines(es: seq<Entry>, i: nat): seq<string>
    decreases |es| - i
  {
    if i >= |es| then [] else HeaderLines(es, i) + ([EntryLine(es[i])] + DumpLines(es, i + 1))
  }

  function TextOf(lines: seq<string>): string {
    if lines == [] then "" else lines[0] + ("\n" + TextOf(lines[1..]))
  }

  /** Everything conf_dump prints. */
  function Dump(es: seq<Entry>): string {
    TextOf([CountLine(|es|)] + DumpLines(es, 0))
  }

  /** conf_dump: the loop with its remembered section. */
  method ConfDump(conf: ConfResult) returns (out: string)
    requires conf.Valid()
    ensures out == Dump(conf.Contents())
  {
    hide EntryLine, SectionLine, CountLine;
    ghost var es := conf.Contents();
    out := CountLine(conf.filledCount) + "\n";
    var prev: Option<string> := None;
    TextCons(CountLine(|es|), DumpLines(es, 0));
    for i := 0 to conf.filledCount
      invariant prev == if i == 0 then None else Some(es[i - 1].section)
      invariant out + TextOf(DumpLines(es, i)) == Dump(es)
    {
      var e := conf.entries[i];
      ghost var before, tail := out, TextOf(DumpLines(es, i + 1));
      DumpStep(es, i);
      var part := "";
      if prev != Some(e.section) {
        part := "\n" + SectionLine(e.section) + "\n";
        prev := Some(e.section);
      }
      out := out + (part + EntryLine(e) + "\n");
      assert out + tail == before + (part + EntryLine(e) + "\n" + tail);
    }
    assert out + "" == out;
  }

  lemma DumpStep(es: seq<Entry>, i: nat)
    requires i < |es|
    ensures TextOf(DumpLines(es, i))
         == (if NewSection(es, i) then "\n" + SectionLine(es[i].section) + "\n" else "")
            + EntryLine(es[i]) + "\n" + TextOf(DumpLines(es, i + 1))
  {
    hide EntryLine, SectionLine, TextOf;
    var tail := DumpLines(es, i + 1);
    var rest := [EntryLine(es[i])] + tail;
    TextCons(EntryLine(es[i]), tail);
    if NewSection(es, i) {
      var header := SectionLine(es[i].section);
      TextCons(header, rest);
      TextCons("", [header] + rest);
      assert ["", header] + rest == [""] + ([header] + rest);
    } else {
      assert [] + rest == rest;
    }
  }

  lemma TextCons(line: string, lines: seq<string>)
    ensures TextOf([line] + lines) == line + "\n" + TextOf(lines)
  {
    assert ([line] + lines)[1..] == lines;
  }

  // Reading lines.

  predicate ShortLine(line: string) {
    CleanText(line) && |line| < MAX_LINE - 1
  }

  function FeedLines(s: Loader, lines: seq<string>): Loader
    decreases |lines|
  {
    if lines == [] || s.full then s else FeedLines(Feed(s, lines[0] + "\n"), lines[1..])
  }

  lemma PieceOfLine(line: string, rest: string)
    requires ShortLine(line)
    ensures PieceLength(line + ("\n" + rest)) == |line| + 1
  {
    var text := line + ("\n" + rest);
    assert forall k :: 0 <= k < |line| ==> text[k] == line[k] && line[k] in line;
    PieceEnds(text, |line| + 1);
  }

  /** fgets gives short lines back one by one. */
  lemma {:induction false} LoadIsFeedLines(lines: seq<string>, s: Loader)
    requires forall l :: l in lines ==> ShortLine(l)
    ensures LoadFrom(TextOf(lines), s) == FeedLines(s, lines)
    decreases |lines|
  {
    hide Feed, PieceLength, ShortLine;
    if lines != [] && !s.full {
      var line, rest := lines[0], TextOf(lines[1..]);
      var text := TextOf(lines);
      PieceOfLine(line, rest);
      assert text[..|line| + 1] == line + "\n" && text[|line| + 1..] == rest;
      LoadIsFeedLines(lines[1..], Feed(s, line + "\n"));
    }
  }

  // The meaning of each dumped line.

  lemma MeaningOfClean(line: string)
    requires CleanText(line)
    ensures LineMeaning(line + "\n") == MeaningOf(Trim(line))
  {
    hide MeaningOf, Trim;
    var s := line + "\n";
    assert forall k :: 0 <= k < |line| ==> s[k] == line[k] && line[k] in line;
    FirstOfIs(s, LINE_ENDS, |line|);
    assert s[..|line|] == line;
  }

  lemma BlankMeansNothing()
    ensures LineMeaning("" + "\n") == Nothing
  {
    MeaningOfClean("");
  }

  lemma CountMeansNothing(n: nat)
    requires n <= MAX_ENTRIES
    ensures LineMeaning(CountLine(n) + "\n") == Nothing && ShortLine(CountLine(n))
  {
    var line := CountLine(n);
    DecimalRoundTrip(n);
    assert Pow10(3) == 1000;
    DecimalLength(n, 3);
    CountLineClean(n);
    MeaningOfClean(line);
    assert line[0] == '#' && line[|line| - 1] == 's';
    TrimIsTrimmed(line);
  }

  lemma CountLineClean(n: nat)
    ensures CleanText(CountLine(n)) && |CountLine(n)| == 30 + |Decimal(n)|
  {
    DecimalRoundTrip(n);
    hide Decimal;
    CleanConcat("# conf_result_t dump: ", Decimal(n));
    CleanConcat("# conf_result_t dump: " + Decimal(n), " entries");
    CleanLiterals();
    assert CleanText(Decimal(n));
  }

  lemma CleanLiterals()
    ensures CleanText("# conf_result_t dump: ") && CleanText(" entries")
    ensures CleanText("  ") && CleanText(" = ") && CleanText("[") && CleanText("]") && CleanText("(global)")
  {
  }

  lemma CleanConcat(a: string, b: string)
    ensures CleanText(a + b) <==> CleanText(a) && CleanText(b)
  {
  }

  predicate LoadedSection(s: string) {
    ']' !in s && CleanText(s) && |s| < MAX_SECTION
  }

  /** What every entry of a loaded table satisfies. */
  predicate LoadedEntry(e: Entry) {
    && LoadedSection(e.section)
    && LoadedKey(e.key) && |e.key| < MAX_KEY && Lower(e.key) == e.key
    && CleanText(e.value) && |e.value| < MAX_VALUE
  }

  lemma SectionMeaning(section: string)
    requires LoadedSection(section)
    ensures LineMeaning(SectionLine(section) + "\n") == Section(Trim(SectionName(section))) && ShortLine(SectionLine(section))
  {
    hide Trim;
    var name, line := SectionName(section), SectionLine(section);
    CleanLiterals();
    CleanConcat("[", name);
    CleanConcat("[" + name, "]");
    MeaningOfClean(line);
    assert line[0] == '[' && line[|line| - 1] == ']' && Trimmed(line);
    TrimIsTrimmed(line);
    var end := |line| - 1;
    assert forall k :: 1 <= k < end ==> line[k] == name[k - 1] && name[k - 1] in name;
    FirstOfIs(line, "]", end);
    assert line[1..end] == name;
  }

  // Trimming a dumped entry.

  lemma {:induction false} TrimEndSplit(a: string, b: string)
    requires a != "" && !IsSpace(a[|a| - 1])
    ensures TrimEnd(a + b) == a + TrimEnd(b)
    decreases |b|
  {
    var s := a + b;
    if b == "" {
      assert s == a;
    } else if IsSpace(b[|b| - 1]) {
      TrimEndSplit(a, b[..|b| - 1]);
      assert s[..|s| - 1] == a + b[..|b| - 1];
    }
  }

  lemma {:induction false} TrimCommutes(s: string)
    ensures TrimStart(TrimEnd(s)) == TrimEnd(TrimStart(s))
  {
    if s != "" {
      var head, tail := [s[0]], s[1..];
      assert s == head + tail;
      if IsSpace(s[0]) {
        TrimCommutes(tail);
        TrimEndOfSpaced(head, tail);
      } else {
        TrimEndSplit(head, tail);
        assert TrimEnd(s)[0] == s[0];
      }
    }
  }

  /** A leading blank stays only when something that is no blank follows it. */
  lemma {:induction false} TrimEndOfSpaced(head: string, tail: string)
    requires |head| == 1 && IsSpace(head[0])
    ensures TrimEnd(head + tail) == if TrimEnd(tail) == "" then "" else head + TrimEnd(tail)
    decreases |tail|
  {
    var s := head + tail;
    if tail == "" {
      assert s == head && head[..0] == "";
    } else if IsSpace(tail[|tail| - 1]) {
      TrimEndOfSpaced(head, tail[..|tail| - 1]);
      assert s[..|s| - 1] == head + tail[..|tail| - 1];
    }
  }

  lemma TrimStartBlank(s: string)
    ensures TrimStart(" " + s) == TrimStart(s)
  {
    assert (" " + s)[1..] == s;
  }

  lemma TrimStartInk(s: string)
    ensures s == "" || !IsSpace(s[0]) ==> TrimStart(s) == s
  {
  }

  lemma TrimEndTwice(s: string)
    ensures TrimEnd(TrimEnd(s)) == TrimEnd(s)
  {
  }

  lemma TrimOfPadded(v: string)
    ensures Trim(TrimEnd(" " + v)) == Trim(v)
  {
    hide TrimStart, TrimEnd;
    TrimCommutes(" " + v);
    TrimStartBlank(v);
    TrimEndTwice(TrimStart(v));
  }

  lemma {:induction false} TrimEndOfSpaces(k: string, n: nat)
    requires k != "" && !IsSpace(k[0])
    ensures Trim(k + Spaces(n)) == Trim(k)
  {
    if n == 0 {
      assert k + Spaces(0) == k;
    } else {
      TrimEndOfSpaces(k, n - 1);
      var s := k + Spaces(n);
      assert s[..|s| - 1] == k + Spaces(n - 1);
      assert TrimStart(s) == s && TrimStart(s[..|s| - 1]) == s[..|s| - 1];
    }
  }

  lemma EntryMeaning(e: Entry)
    requires LoadedEntry(e)
    ensures LineMeaning(EntryLine(e) + "\n") == Pair(Trim(e.key), ValueOf(Trim(e.value))) && ShortLine(EntryLine(e))
  {
    hide Trim, ValueOf, TrimStart, TrimEnd, IsSpace, EntryLine, MeaningOf;
    var k, pad, line := e.key, if |e.key| < 30 then 30 - |e.key| else 0, EntryLine(e);
    var left := k + Spaces(pad + 1);
    var text := left + "=" + (" " + e.value);
    LineSplits(e, pad);
    EntryLineShort(e);
    MeaningOfClean(line);
    TrimOfEntry(left, e.value);
    var p := left + "=" + TrimEnd(" " + e.value);
    assert Trim(line) == p;
    EqualsAt(k, pad + 1, TrimEnd(" " + e.value));
    assert p[..|left|] == left && p[|left| + 1..] == TrimEnd(" " + e.value);
    assert p[0] == k[0];
    MeaningOfPair(p, |left|);
    KeyNotBlank(k);
    TrimEndOfSpaces(k, pad + 1);
    TrimOfPadded(e.value);
    KeyTrimNotEmpty(k);
  }

  lemma MeaningOfPair(p: string, eq: nat)
    requires p != "" && p[0] != '#' && p[0] != ';' && p[0] != '[' && eq < |p| && FirstOf(p, "=") == eq
    ensures var key, value := Trim(p[..eq]), ValueOf(Trim(p[eq + 1..]));
            MeaningOf(p) == if key == "" then Nothing else Pair(key, value)
  {
    hide Trim, ValueOf, FirstOf;
  }

  lemma KeyNotBlank(k: string)
    requires LoadedKey(k)
    ensures !IsSpace(k[0])
  {
  }

  lemma KeyTrimNotEmpty(k: string)
    requires LoadedKey(k)
    ensures Trim(k) != ""
  {
    assert TrimStart(k) == k;
    TrimEndSplit([k[0]], k[1..]);
    assert [k[0]] + k[1..] == k;
  }

  lemma LineSplits(e: Entry, pad: nat)
    requires pad == if |e.key| < 30 then 30 - |e.key| else 0
    ensures EntryLine(e) == "  " + (e.key + Spaces(pad + 1) + "=" + (" " + e.value))
  {
    assert PadRight(e.key) == e.key + Spaces(pad);
    assert Spaces(pad) + " " == Spaces(pad + 1);
    assert " = " == " " + "=" + " ";
  }

  lemma TrimOfEntry(left: string, value: string)
    requires left != "" && !IsSpace(left[0])
    ensures Trim("  " + (left + "=" + (" " + value))) == left + "=" + TrimEnd(" " + value)
  {
    hide TrimStart, TrimEnd, IsSpace;
    var text := left + "=" + (" " + value);
    TwoBlanks(text);
    TrimStartInk(text);
    assert text[0] == left[0];
    EqualsIsInk(left);
    TrimEndSplit(left + "=", " " + value);
  }

  lemma TwoBlanks(text: string)
    ensures TrimStart("  " + text) == TrimStart(text)
  {
    hide TrimStart;
    assert "  " + text == " " + (" " + text);
    TrimStartBlank(" " + text);
    TrimStartBlank(text);
  }

  lemma EqualsIsInk(left: string)
    ensures var s := left + "="; !IsSpace(s[|s| - 1])
  {
  }

  lemma EqualsAt(k: string, n: nat, after: string)
    requires '=' !in k
    ensures FirstOf(k + Spaces(n) + "=" + after, "=") == |k| + n
  {
    var p := k + Spaces(n) + "=" + after;
    forall i | 0 <= i < |k| + n
      ensures p[i] !in "="
    {
      if i < |k| { assert p[i] == k[i] && k[i] in k; }
    }
    FirstOfIs(p, "=", |k| + n);
  }

  lemma EntryLineShort(e: Entry)
    requires LoadedEntry(e)
    ensures ShortLine(EntryLine(e))
  {
    CleanLiterals();
    assert CleanText(PadRight(e.key)) by {
      forall c | c in PadRight(e.key) ensures c !in LINE_ENDS {
        assert c in e.key || c == ' ';
      }
    }
    hide CleanText;
    CleanConcat("  ", PadRight(e.key));
    CleanConcat("  " + PadRight(e.key), " = ");
    CleanConcat("  " + PadRight(e.key) + " = ", e.value);
  }

  // The round trip.

  /** What reading its dumped form makes of an entry, apart from the line number. */
  function Reload(e: Entry): Entry {
    Entry(Field(Trim(SectionName(e.section)), MAX_SECTION),
          Lower(Field(Trim(e.key), MAX_KEY)),
          Field(ValueOf(Trim(e.value)), MAX_VALUE), e.line)
  }

  predicate Same(a: Entry, b: Entry) {
    a.section == b.section && a.key == b.key && a.value == b.value
  }

  predicate SameAll(a: seq<Entry>, b: seq<Entry>) {
    |a| == |b| && forall i :: 0 <= i < |a| ==> Same(a[i], b[i])
  }

  function ReloadAll(es: seq<Entry>): (r: seq<Entry>)
    ensures |r| == |es| && forall i :: 0 <= i < |es| ==> r[i] == Reload(es[i])
  {
    seq(|es|, i requires 0 <= i < |es| => Reload(es[i]))
  }

  predicate LoadedTable(es: seq<Entry>) {
    |es| <= MAX_ENTRIES && forall e :: e in es ==> LoadedEntry(e)
  }

  lemma FeedCons(s: Loader, line: string, rest: seq<string>)
    requires !s.full
    ensures FeedLines(s, [line] + rest) == FeedLines(Feed(s, line + "\n"), rest)
  {
    hide Feed;
    assert ([line] + rest)[1..] == rest;
  }

  lemma FeedNothing(s: Loader, raw: string)
    requires LineMeaning(raw) == Nothing
    ensures Feed(s, raw) == s.(line := s.line + 1)
  {
    hide LineMeaning;
  }

  lemma FeedSection(s: Loader, raw: string, name: string)
    requires LineMeaning(raw) == Section(name)
    ensures Feed(s, raw) == s.(line := s.line + 1, section := Field(name, MAX_SECTION))
  {
    hide LineMeaning;
  }

  lemma FeedPair(s: Loader, raw: string, key: string, value: string)
    requires LineMeaning(raw) == Pair(key, value) && |s.entries| < MAX_ENTRIES
    ensures Feed(s, raw) == s.(line := s.line + 1, entries := s.entries + [MakeEntry(s.section, key, value, s.line + 1)])
  {
    hide LineMeaning, MakeEntry;
  }

  /** The header lines, if any, leave the loader in the entry's section. */
  lemma FeedHeader(es: seq<Entry>, i: nat, s: Loader, rest: seq<string>) returns (line: nat)
    requires i < |es| && LoadedEntry(es[i]) && !s.full
    requires i > 0 ==> s.section == Reload(es[i - 1]).section
    ensures FeedLines(s, HeaderLines(es, i) + rest) == FeedLines(s.(line := line, section := Reload(es[i]).section), rest)
  {
    hide LineMeaning, SectionLine, Reload, LoadedEntry, FeedLines, Feed;
    if NewSection(es, i) {
      var header := SectionLine(es[i].section);
      assert ["", header] + rest == [""] + ([header] + rest);
      BlankMeansNothing();
      FeedNothing(s, "" + "\n");
      FeedCons(s, "", [header] + rest);
      var s1 := s.(line := s.line + 1);
      SectionOfEntry(es[i]);
      FeedSection(s1, header + "\n", Trim(SectionName(es[i].section)));
      FeedCons(s1, header, rest);
      line := s.line + 2;
    } else {
      assert [] + rest == rest;
      SameSection(es[i - 1], es[i]);
      line := s.line;
    }
  }

  lemma SectionOfEntry(e: Entry)
    requires LoadedEntry(e)
    ensures LineMeaning(SectionLine(e.section) + "\n") == Section(Trim(SectionName(e.section)))
    ensures Reload(e).section == Field(Trim(SectionName(e.section)), MAX_SECTION)
  {
    SectionMeaning(e.section);
  }

  lemma SameSection(a: Entry, b: Entry)
    requires a.section == b.section
    ensures Reload(a).section == Reload(b).section
  {
  }

  lemma PushedIsReloaded(e: Entry, n: nat)
    ensures MakeEntry(Reload(e).section, Trim(e.key), ValueOf(Trim(e.value)), n) == Reload(e).(line := n)
  {
    hide Trim, ValueOf;
  }

  lemma FeedEntry(e: Entry, s: Loader, rest: seq<string>)
    requires LoadedEntry(e) && !s.full && |s.entries| < MAX_ENTRIES && s.section == Reload(e).section
    ensures FeedLines(s, [EntryLine(e)] + rest)
         == FeedLines(s.(line := s.line + 1, entries := s.entries + [Reload(e).(line := s.line + 1)]), rest)
  {
    hide LineMeaning, EntryLine, Trim, ValueOf, FeedLines, Feed;
    EntryMeaning(e);
    PushedIsReloaded(e, s.line + 1);
    FeedPair(s, EntryLine(e) + "\n", Trim(e.key), ValueOf(Trim(e.value)));
    FeedCons(s, EntryLine(e), rest);
  }

  /** The loader makes of a dump exactly one reloaded entry per entry, in order. */
  lemma {:induction false} FeedDump(es: seq<Entry>, i: nat, s: Loader)
    requires i <= |es| && (forall e :: e in es ==> LoadedEntry(e)) && !s.full
    requires |s.entries| == i && |es| <= MAX_ENTRIES && SameAll(s.entries, ReloadAll(es[..i]))
    requires i > 0 ==> s.section == Reload(es[i - 1]).section
    ensures SameAll(FeedLines(s, DumpLines(es, i)).entries, ReloadAll(es))
    decreases |es| - i
  {
    hide LoadedEntry, Reload, EntryLine, HeaderLines, Feed;
    if i == |es| {
      assert es[..i] == es;
    } else {
      var rest := DumpLines(es, i + 1);
      var line := FeedHeader(es, i, s, [EntryLine(es[i])] + rest);
      var s1 := s.(line := line, section := Reload(es[i]).section);
      FeedEntry(es[i], s1, rest);
      var s2 := s1.(line := line + 1, entries := s.entries + [Reload(es[i]).(line := line + 1)]);
      FeedDump(es, i + 1, s2);
    }
  }

  predicate ShortLines(lines: seq<string>) {
    forall l :: l in lines ==> ShortLine(l)
  }

  lemma ShortConcat(a: seq<string>, b: seq<string>)
    requires ShortLines(a) && ShortLines(b)
    ensures ShortLines(a + b)
  {
    hide ShortLine;
  }

  lemma ShortOne(l: string)
    ensures ShortLines([]) && (ShortLine(l) ==> ShortLines([l]))
  {
    hide ShortLine;
  }

  lemma HeaderLinesShort(es: seq<Entry>, i: nat)
    requires i < |es| && LoadedEntry(es[i])
    ensures ShortLines(HeaderLines(es, i))
  {
    hide LoadedEntry, SectionLine, ShortLine;
    SectionLineShort(es[i]);
  }

  lemma {:induction false} DumpLinesShort(es: seq<Entry>, i: nat)
    requires forall e :: e in es ==> LoadedEntry(e)
    ensures ShortLines(DumpLines(es, i))
    decreases |es| - i
  {
    hide LoadedEntry, EntryLine, HeaderLines, ShortLines, LineMeaning;
    ShortOne("");
    if i < |es| {
      DumpLinesShort(es, i + 1);
      EntryMeaning(es[i]);
      ShortOne(EntryLine(es[i]));
      HeaderLinesShort(es, i);
      ShortConcat([EntryLine(es[i])], DumpLines(es, i + 1));
      ShortConcat(HeaderLines(es, i), [EntryLine(es[i])] + DumpLines(es, i + 1));
    }
  }

  lemma SectionLineShort(e: Entry)
    requires LoadedEntry(e)
    ensures ShortLine(SectionLine(e.section)) && ShortLine("")
  {
    SectionMeaning(e.section);
  }

  /** Reading a dump back: every dumped line fits the line buffer, and each entry returns in its reloaded form. */
  lemma LoadOfDump(es: seq<Entry>)
    requires LoadedTable(es)
    ensures SameAll(LoadFrom(Dump(es), START).entries, ReloadAll(es))
  {
    hide LoadedEntry, Feed, FeedLines, CountLine, ShortLine, LineMeaning, DumpLines, LoadFrom;
    CountMeansNothing(|es|);
    DumpLinesShort(es, 0);
    ShortOne(CountLine(|es|));
    ShortConcat([CountLine(|es|)], DumpLines(es, 0));
    LoadIsFeedLines([CountLine(|es|)] + DumpLines(es, 0), START);
    FeedNothing(START, CountLine(|es|) + "\n");
    FeedCons(START, CountLine(|es|), DumpLines(es, 0));
    FeedDump(es, 0, START.(line := 1));
  }

  /** The entries that come back as they were. */
  predicate Survives(e: Entry) {
    e.section != "" && Trimmed(e.section) && Trimmed(e.key) && PlainValue(e.value)
  }

  lemma LowerOfTrim(k: string)
    requires Lower(k) == k
    ensures Lower(Trim(k)) == Trim(k)
  {
    TrimIsTrimmed(k);
    hide Trim;
    forall i | 0 <= i < |Trim(k)|
      ensures Lower(Trim(k))[i] == Trim(k)[i]
    {
      var c := Trim(k)[i];
      assert c in Trim(k);
      var j :| 0 <= j < |k| && k[j] == c;
      assert Lower(k)[j] == ToLower(k[j]);
    }
  }

  lemma SurvivesIsSame(e: Entry)
    requires LoadedEntry(e)
    ensures Same(Reload(e), e) <==> Survives(e)
  {
    hide Trim, ValueOf, PlainValue, LoadedKey;
    TrimIsTrimmed(SectionName(e.section));
    TrimIsTrimmed(e.key);
    LowerOfTrim(e.key);
    ValueSurvives(e.value);
    TrimIsTrimmed(e.value);
    ValueShorter(Trim(e.value));
  }

  lemma ValueShorter(v: string)
    ensures |ValueOf(v)| <= |v|
  {
    if HasComment(v) { TrimIsTrimmed(v[..FirstOf(v, "#;")]); }
  }

  /** A loaded table survives a dump and a reload if and only if all of its entries do. */
  lemma RoundTrip(es: seq<Entry>)
    requires LoadedTable(es)
    ensures SameAll(LoadFrom(Dump(es), START).entries, es) <==> forall e :: e in es ==> Survives(e)
  {
    hide LoadedEntry, Reload, Survives, Dump;
    LoadOfDump(es);
    var r := LoadFrom(Dump(es), START).entries;
    forall i | 0 <= i < |es|
      ensures Same(r[i], es[i]) <==> Survives(es[i])
    {
      SurvivesIsSame(es[i]);
      assert Same(r[i], Reload(es[i]));
    }
    if forall e :: e in es ==> Survives(e) {
      assert forall i :: 0 <= i < |es| ==> es[i] in es;
    }
  }

  // Every table the loader builds is of this kind.

  lemma LowerKeepsKey(k: string)
    requires LoadedKey(k)
    ensures LoadedKey(Lower(k)) && Lower(Lower(k)) == Lower(k)
  {
    var l := Lower(k);
    forall c | c in l
      ensures c != '=' && c !in LINE_ENDS
    {
      var i :| 0 <= i < |l| && l[i] == c;
      assert k[i] in k && c == ToLower(k[i]);
    }
  }

  lemma FieldKeepsKey(k: string)
    requires LoadedKey(k)
    ensures LoadedKey(Field(k, MAX_KEY))
  {
    assert forall c :: c in Field(k, MAX_KEY) ==> c in k;
  }

  lemma FieldClean(s: string, size: nat)
    requires size > 0
    ensures forall c :: c in Field(s, size) ==> c in s
  {
  }

  lemma PushedEntryIsLoaded(section: string, key: string, value: string, line: nat)
    requires LoadedSection(section) && LoadedKey(key) && CleanText(value)
    ensures LoadedEntry(MakeEntry(section, key, value, line))
  {
    FieldKeepsKey(key);
    LowerKeepsKey(Field(key, MAX_KEY));
    FieldClean(section, MAX_SECTION);
    FieldClean(value, MAX_VALUE);
    hide LoadedKey;
  }

  lemma {:induction false} LoadedAlways(text: string, s: Loader)
    requires LoadedTable(s.entries) && LoadedSection(s.section)
    ensures LoadedTable(LoadFrom(text, s).entries)
    decreases |text|
  {
    hide LineMeaning, MakeEntry, LoadedEntry, LoadedKey, PieceLength, LoadedSection;
    if text != "" && !s.full {
      PieceProgress(text);
      var n := PieceLength(text);
      MeaningIsClean(text[..n]);
      match LineMeaning(text[..n]) {
        case Section(name) => SectionFieldIsLoaded(name);
        case Pair(key, value) => PushedEntryIsLoaded(s.section, key, value, s.line + 1);
        case _ =>
      }
      LoadedAlways(text[n..], Feed(s, text[..n]));
    }
  }

  lemma SectionFieldIsLoaded(name: string)
    requires ']' !in name && CleanText(name)
    ensures LoadedSection(Field(name, MAX_SECTION))
  {
    FieldClean(name, MAX_SECTION);
  }

  /** For every file: dumping the loaded table and loading the dump gives it back exactly when all its entries survive. */
  lemma LoadDumpLoad(text: string)
    ensures var es := LoadFrom(text, START).entries;
            LoadedTable(es)
            && (SameAll(LoadFrom(Dump(es), START).entries, es) <==> forall e :: e in es ==> Survives(e))
  {
    hide Survives, LoadedEntry, Dump;
    LoadedAlways(text, START);
    RoundTrip(LoadFrom(text, START).entries);
  }
}
