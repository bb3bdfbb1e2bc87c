/** The C string functions of shared/include/confparser.h, working in place on a line buffer. */
module ConfBuffer {
  import opened Bytes
  import opened Text
  import opened ConfLines

  /** The index of the NUL that ends the string at i. */
  function End(b: seq<char>, i: nat): (e: nat)
    requires i <= |b|
    ensures i <= e <= |b| && forall k :: i <= k < e ==> b[k] != '\0'
    ensures e < |b| ==> b[e] == '\0'
    decreases |b| - i
  {
    if i == |b| || b[i] == '\0' then i else End(b, i + 1)
  }

  predicate Terminated(b: seq<char>, i: nat) {
    i < |b| && End(b, i) < |b|
  }

  /** The C string that starts at i. */
  function CStr(b: seq<char>, i: nat): string
    requires i <= |b|
  {
    b[i..End(b, i)]
  }

  lemma EndIs(b: seq<char>, i: nat, e: nat)
    requires i <= e < |b| && b[e] == '\0' && forall k :: i <= k < e ==> b[k] != '\0'
    ensures End(b, i) == e && Terminated(b, i) && CStr(b, i) == b[i..e]
  {
  }

  /** Only the characters up to the NUL matter. */
  lemma SameString(a: seq<char>, b: seq<char>, i: nat)
    requires |a| == |b| && Terminated(a, i) && forall k :: i <= k <= End(a, i) ==> a[k] == b[k]
    ensures Terminated(b, i) && End(b, i) == End(a, i) && CStr(b, i) == CStr(a, i)
  {
    var e := End(a, i);
    assert b[i..e] == a[i..e];
    EndIs(b, i, e);
  }

  /** The tail of a C string is a C string. */
  lemma TailString(b: seq<char>, i: nat, j: nat)
    requires Terminated(b, i) && i <= j <= End(b, i)
    ensures Terminated(b, j) && End(b, j) == End(b, i) && CStr(b, j) == CStr(b, i)[j - i..]
  {
    EndIs(b, j, End(b, i));
  }

  /** Writing a NUL into a string cuts it there. */
  lemma CutString(a: seq<char>, b: seq<char>, i: nat, j: nat)
    requires Terminated(a, i) && i <= j <= End(a, i) && b == a[j := '\0']
    ensures Terminated(b, i) && End(b, i) == j && CStr(b, i) == CStr(a, i)[..j - i]
  {
    assert b[i..j] == a[i..j];
    EndIs(b, i, j);
  }

  lemma FirstChar(b: seq<char>, s: nat)
    requires Terminated(b, s)
    ensures if CStr(b, s) == "" then b[s] == '\0' else CStr(b, s)[0] == b[s] && b[s] != '\0'
  {
  }

  lemma EndFacts(b: seq<char>, s: nat)
    requires Terminated(b, s)
    ensures s <= End(b, s) < |b| && b[End(b, s)] == '\0' && |CStr(b, s)| == End(b, s) - s && '\0' !in CStr(b, s)
    ensures forall k :: s <= k < End(b, s) ==> b[k] != '\0' && CStr(b, s)[k - s] == b[k]
  {
  }

  lemma Front(b: seq<char>, i: nat, j: nat)
    requires Terminated(b, i) && i <= j <= End(b, i)
    ensures b[i..j] == CStr(b, i)[..j - i]
  {
  }

  /** strchr, strpbrk: the first listed character, or the NUL. */
  method Search(buf: array<char>, s: nat, chars: string) returns (at: nat)
    requires Terminated(buf[..], s) && '\0' !in chars
    ensures at == s + FirstOf(CStr(buf[..], s), chars) && s <= at <= End(buf[..], s)
  {
    at := s;
    ghost var e, str := End(buf[..], s), CStr(buf[..], s);
    while buf[at] != '\0' && buf[at] !in chars
      invariant s <= at <= e && forall k :: s <= k < at ==> buf[k] !in chars
      decreases e - at
    {
      at := at + 1;
    }
    assert forall k :: 0 <= k < at - s ==> str[k] == buf[s + k];
    FirstOfIs(str, chars, at - s);
  }

  predicate Outside(k: nat, lo: nat, hi: nat) {
    k < lo || k >= hi
  }

  lemma TrimStartStep(b: seq<char>, p: nat, e: nat)
    requires p < e <= |b|
    ensures TrimStart(b[p..e]) == if IsSpace(b[p]) then TrimStart(b[p + 1..e]) else b[p..e]
  {
    assert b[p..e][1..] == b[p + 1..e];
  }

  lemma TrimEndStep(b: seq<char>, p: nat, last: nat)
    requires p <= last < |b|
    ensures TrimEnd(b[p..last + 1]) == if IsSpace(b[last]) then TrimEnd(b[p..last]) else b[p..last + 1]
  {
    assert b[p..last + 1][..last - p] == b[p..last];
  }

  lemma StartsWithInk(s: string, t: string)
    requires t == TrimStart(s)
    ensures t != "" ==> !IsSpace(t[0])
  {
  }

  lemma TrimNothing()
    ensures TrimStart("") == "" && TrimEnd("") == ""
  {
  }

  lemma TrimOfStart(s: string, t: string)
    requires t == TrimStart(s)
    ensures Trim(s) == TrimEnd(t) && (t == "" ==> Trim(s) == "")
  {
  }

  /** The left half of str_trim: skips blanks. */
  method SkipBlanks(buf: array<char>, s: nat) returns (p: nat)
    requires Terminated(buf[..], s)
    ensures s <= p <= End(buf[..], s) && Terminated(buf[..], p) && End(buf[..], p) == End(buf[..], s)
    ensures CStr(buf[..], p) == TrimStart(CStr(buf[..], s))
  {
    hide TrimStart, IsSpace;
    ghost var b, e := buf[..], End(buf[..], s);
    p := s;
    while buf[p] != '\0' && IsSpace(buf[p])
      invariant s <= p <= e && TrimStart(b[p..e]) == TrimStart(b[s..e])
      decreases e - p
    {
      TrimStartStep(b, p, e);
      p := p + 1;
    }
    TailString(b, s, p);
    if p < e {
      TrimStartStep(b, p, e);
    } else {
      TrimNothing();
      assert b[p..e] == "";
    }
  }

  /** The right half: the index just past the last character that is not a blank, in a string that starts with one. */
  method LastInk(buf: array<char>, p: nat) returns (cut: nat)
    requires Terminated(buf[..], p) && buf[p] != '\0' && !IsSpace(buf[p])
    ensures p < cut <= End(buf[..], p) && buf[p..cut] == TrimEnd(CStr(buf[..], p))
  {
    hide TrimEnd, IsSpace, End;
    ghost var b, e := buf[..], End(buf[..], p);
    var last := p;
    while buf[last + 1] != '\0'
      invariant p <= last < e
      decreases e - last
    {
      last := last + 1;
    }
    while last > p && IsSpace(buf[last])
      invariant p <= last < e && TrimEnd(b[p..last + 1]) == TrimEnd(b[p..e])
    {
      TrimEndStep(b, p, last);
      last := last - 1;
    }
    TrimEndStep(b, p, last);
    return last + 1;
  }

  /** str_trim: returns where the trimmed string starts and cuts off its trailing blanks. */
  method StrTrim(buf: array<char>, s: nat) returns (p: nat)
    requires Terminated(buf[..], s)
    modifies buf
    ensures s <= p <= old(End(buf[..], s)) && Terminated(buf[..], p)
    ensures CStr(buf[..], p) == Trim(old(CStr(buf[..], s)))
    ensures End(buf[..], p) <= old(End(buf[..], s))
    ensures forall k: nat :: k < buf.Length && Outside(k, s, old(End(buf[..], s))) ==> buf[k] == old(buf[k])
  {
    hide TrimStart, TrimEnd, IsSpace, Trim, CStr, End, Terminated;
    ghost var b := buf[..];
    p := SkipBlanks(buf, s);
    TrimOfStart(CStr(b, s), CStr(b, p));
    FirstChar(b, p);
    EndFacts(b, p);
    if buf[p] == '\0' {
      return;
    }
    StartsWithInk(CStr(b, s), CStr(b, p));
    var cut := LastInk(buf, p);
    if buf[cut] != '\0' {
      buf[cut] := '\0';
    }
    assert buf[..] == b[cut := '\0'];
    CutString(b, buf[..], p, cut);
    Front(b, p, cut);
  }

  /** str_unquote: drops a pair of surrounding quotes. */
  method StrUnquote(buf: array<char>, s: nat) returns (p: nat)
    requires Terminated(buf[..], s)
    modifies buf
    ensures s <= p <= old(End(buf[..], s)) && Terminated(buf[..], p)
    ensures CStr(buf[..], p) == Unquote(old(CStr(buf[..], s)))
    ensures forall k: nat :: k < buf.Length && Outside(k, s, old(End(buf[..], s))) ==> buf[k] == old(buf[k])
  {
    ghost var b := buf[..];
    var end := Search(buf, s, "");
    assert FirstOf(CStr(b, s), "") == |CStr(b, s)|;
    if end - s >= 2 && buf[s] == '\"' && buf[end - 1] == '\"' {
      buf[end - 1] := '\0';
      CutString(b, buf[..], s, end - 1);
      TailString(buf[..], s, s + 1);
      return s + 1;
    }
    return s;
  }

  /** str_tolower */
  method StrToLower(buf: array<char>, s: nat)
    requires Terminated(buf[..], s)
    modifies buf
    ensures Terminated(buf[..], s) && CStr(buf[..], s) == Lower(old(CStr(buf[..], s)))
    ensures forall k: nat :: k < buf.Length && Outside(k, s, old(End(buf[..], s))) ==> buf[k] == old(buf[k])
  {
    ghost var b, e := buf[..], End(buf[..], s);
    var i := s;
    while buf[i] != '\0'
      invariant s <= i <= e
      invariant forall k :: s <= k < i ==> buf[k] == ToLower(b[k])
      invariant forall k: nat :: k < buf.Length && Outside(k, s, i) ==> buf[k] == b[k]
      decreases e - i
    {
      buf[i] := ToLower(buf[i]);
      i := i + 1;
    }
    EndIs(buf[..], s, e);
  }
}
