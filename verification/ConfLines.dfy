/** What one line of a configuration file means: the line rules of shared/include/confparser.h. */
module ConfLines {
  import opened Bytes
  import opened Text

  const MAX_SECTION: nat := 64
  const MAX_KEY: nat := 64
  const MAX_VALUE: nat := 512
  const MAX_LINE: nat := 1024

  /** The index of the first character of s that is in set, or |s|. */
  function FirstOf(s: string, chars: string): (i: nat)
    ensures i <= |s| && (forall k :: 0 <= k < i ==> s[k] !in chars)
    ensures i < |s| ==> s[i] in chars
  {
    if s == "" || s[0] in chars then 0 else 1 + FirstOf(s[1..], chars)
  }

  function TrimStart(s: string): (r: string)
    ensures |r| <= |s| && r == s[|s| - |r|..]
    ensures r != "" ==> !IsSpace(r[0])
    ensures forall k :: 0 <= k < |s| - |r| ==> IsSpace(s[k])
  {
    if s != "" && IsSpace(s[0]) then TrimStart(s[1..]) else s
  }

  function TrimEnd(s: string): (r: string)
    ensures r <= s
    ensures r != "" ==> !IsSpace(r[|r| - 1])
    ensures forall k :: |r| <= k < |s| ==> IsSpace(s[k])
  {
    if s != "" && IsSpace(s[|s| - 1]) then TrimEnd(s[..|s| - 1]) else s
  }

  /** str_trim */
  function Trim(s: string): string {
    TrimEnd(TrimStart(s))
  }

  predicate Trimmed(s: string) {
    s == "" || (!IsSpace(s[0]) && !IsSpace(s[|s| - 1]))
  }

  predicate Quoted(s: string) {
    |s| >= 2 && s[0] == '\"' && s[|s| - 1] == '\"'
  }

  /** str_unquote */
  function Unquote(s: string): string {
    if Quoted(s) then s[1..|s| - 1] else s
  }

  /** A comment in an unquoted value: its mark has a space before it. */
  predicate HasComment(v: string) {
    && (v == "" || v[0] != '\"')
    && var c := FirstOf(v, "#;"); 0 < c < |v| && IsSpace(v[c - 1])
  }

  /** The value that a trimmed right-hand side stands for. */
  function ValueOf(v: string): string {
    Unquote(if HasComment(v) then Trim(v[..FirstOf(v, "#;")]) else v)
  }

  datatype Meaning = Nothing | Section(name: string) | Unclosed | NoEquals | Pair(key: string, value: string)

  /** The meaning of a trimmed line without its newline. */
  function MeaningOf(p: string): Meaning {
    if p == "" || p[0] == '#' || p[0] == ';' then Nothing
    else if p[0] == '[' then
      var end := FirstOf(p, "]");
      if end == |p| then Unclosed else Section(Trim(p[1..end]))
    else
      var eq := FirstOf(p, "=");
      if eq == |p| then NoEquals else
        var key, value := Trim(p[..eq]), ValueOf(Trim(p[eq + 1..]));
        if key == "" then Nothing else Pair(key, value)
  }

  const LINE_ENDS: string := "\r\n\0"

  function LineMeaning(raw: string): Meaning {
    MeaningOf(Trim(raw[..FirstOf(raw, LINE_ENDS)]))
  }

  lemma TrimIsTrimmed(s: string)
    ensures Trimmed(Trim(s)) && |Trim(s)| <= |s|
    ensures Trimmed(s) ==> Trim(s) == s
    ensures forall c :: c in Trim(s) ==> c in s
  {
    var a := TrimStart(s);
    if TrimEnd(a) != "" { assert TrimEnd(a)[0] == a[0]; }
  }

  lemma FirstOfIs(s: string, chars: string, i: nat)
    requires i <= |s| && (forall k :: 0 <= k < i ==> s[k] !in chars) && (i < |s| ==> s[i] in chars)
    ensures FirstOf(s, chars) == i
  {
  }

  // Values that survive being written and read again.

  predicate PlainValue(v: string) {
    Trimmed(v) && !Quoted(v) && !HasComment(v)
  }

  /** A value reads back as itself exactly when it is trimmed, not wrapped in quotes and has no comment. */
  lemma ValueSurvives(v: string)
    ensures ValueOf(Trim(v)) == v <==> PlainValue(v)
  {
    TrimIsTrimmed(v);
    var t := Trim(v);
    if HasComment(t) { TrimIsTrimmed(t[..FirstOf(t, "#;")]); }
    assert |ValueOf(t)| <= |t|;
    assert HasComment(t) ==> |ValueOf(t)| < |t|;
    assert Quoted(t) && !HasComment(t) ==> |ValueOf(t)| < |t|;
  }

  // What a loaded key, section and value can look like.

  predicate CleanText(s: string) {
    forall c :: c in s ==> c !in LINE_ENDS
  }

  predicate KeyStart(c: char) {
    !IsSpace(c) && c != '#' && c != ';' && c != '['
  }

  predicate LoadedKey(k: string) {
    k != "" && KeyStart(k[0]) && '=' !in k && CleanText(k)
  }

  lemma UnquoteChars(s: string)
    ensures forall c :: c in Unquote(s) ==> c in s
  {
  }

  lemma ValueChars(v: string)
    ensures forall c :: c in ValueOf(v) ==> c in v
  {
    if HasComment(v) {
      var cut := v[..FirstOf(v, "#;")];
      TrimIsTrimmed(cut);
      UnquoteChars(Trim(cut));
    } else {
      UnquoteChars(v);
    }
  }

  /** Whatever the line, the parts it yields are free of line ends, and keys and sections of their delimiters. */
  lemma MeaningIsClean(raw: string)
    ensures match LineMeaning(raw)
            case Section(name) => ']' !in name && CleanText(name)
            case Pair(key, value) => LoadedKey(key) && Trimmed(key) && CleanText(value)
            case _ => true
  {
    hide FirstOf, Trim, ValueOf, HasComment, Trimmed;
    var line := raw[..FirstOf(raw, LINE_ENDS)];
    var p := Trim(line);
    TrimIsTrimmed(line);
    assert CleanText(p);
    if p != "" && p[0] == '[' {
      var end := FirstOf(p, "]");
      if end < |p| { TrimIsTrimmed(p[1..end]); }
    } else if p != "" {
      var eq := FirstOf(p, "=");
      if eq < |p| {
        TrimIsTrimmed(p[..eq]);
        TrimIsTrimmed(p[eq + 1..]);
        ValueChars(Trim(p[eq + 1..]));
        KeyStarts(line, eq);
      }
    }
  }

  lemma KeyStarts(line: string, eq: nat)
    requires var p := Trim(line); eq <= |p| && p != ""
    ensures var p := Trim(line); Trim(p[..eq]) != "" ==> Trim(p[..eq])[0] == p[0] && !IsSpace(p[0])
  {
    TrimIsTrimmed(line);
    hide TrimEnd, IsSpace;
    var p := Trim(line);
    if eq > 0 {
      assert p[..eq][0] == p[0];
      assert TrimStart(p[..eq]) == p[..eq];
    }
  }
}
