/** sensor_to_json on the client against PacketValidator on the server. */
module Packets {
  import opened Bytes
  import opened Text

  datatype Packet = Packet(timestamp: nat, sequence: nat, accX: real, accY: real, accZ: real)

  // The flat JSON objects both sides speak.

  datatype Field = Field(key: string, value: string)

  function Quoted(key: string): string {
    "\"" + key + "\""
  }

  /** The fields after sep, up to the closing brace. */
  function Fields(fs: seq<Field>, sep: char): string {
    if fs == [] then "}" else [sep] + Quoted(fs[0].key) + ":" + fs[0].value + Fields(fs[1..], ',')
  }

  lemma FieldsCons(f: Field, rest: seq<Field>, sep: char, opening: string)
    requires opening == [sep] + Quoted(f.key) + ":"
    ensures Fields([f] + rest, sep) == opening + (f.value + Fields(rest, ','))
  {
    assert ([f] + rest)[1..] == rest;
  }

  function PacketFields(p: Packet): seq<Field> {
    [Field("ts", Decimal(p.timestamp)), Field("seq", Decimal(p.sequence)),
     Field("ax", Fixed6(p.accX)), Field("ay", Fixed6(p.accY)), Field("az", Fixed6(p.accZ))]
  }

  /** The format string of sensor_to_json. */
  function ToJson(p: Packet): string {
    "{\"ts\":" + (Decimal(p.timestamp) + (",\"seq\":" + (Decimal(p.sequence)
      + (",\"ax\":" + (Fixed6(p.accX) + (",\"ay\":" + (Fixed6(p.accY) + (",\"az\":" + (Fixed6(p.accZ) + "}")))))))))
  }

  /** sensor_to_json: the length written, or -1 when the text and its NUL do not fit. */
  method SensorToJson(p: Packet, bufSize: nat) returns (n: int, text: string)
    ensures n == (if |ToJson(p)| < bufSize then |ToJson(p)| else -1)
    ensures n >= 0 ==> text == ToJson(p)
  {
    text := "";
    if bufSize == 0 {
      return -1, text;
    }
    text := ToJson(p);
    n := |text|;
    if n >= bufSize {
      n := -1;
    }
  }

  // Searching a key.

  predicate PlainKey(key: string) {
    key != [] && '\"' !in key && key[0] != ':'
  }

  predicate Distinct(fs: seq<Field>) {
    forall i, j :: 0 <= i < j < |fs| ==> fs[i].key != fs[j].key
  }

  predicate Plain(fs: seq<Field>) {
    forall f :: f in fs ==> PlainKey(f.key) && '\"' !in f.value
  }

  function Prefix(fs: seq<Field>, sep: char): string
    requires fs != []
  {
    [sep] + Quoted(fs[0].key) + ":" + fs[0].value
  }

  /** Another key matches nowhere inside a field. */
  lemma NoMatchInField(fs: seq<Field>, sep: char, tail: string, key: string, k: nat)
    requires fs != [] && sep != '\"' && PlainKey(fs[0].key) && '\"' !in fs[0].value
    requires PlainKey(key) && key != fs[0].key && k < |Prefix(fs, sep)|
    ensures !MatchesAt(Prefix(fs, sep) + tail, Quoted(key), k)
  {
    var own, pat, s := fs[0].key, Quoted(key), Prefix(fs, sep) + tail;
    var close := 2 + |own|;
    assert s[0] == sep && s[1] == '\"' && s[close] == '\"' && s[close + 1] == ':';
    if k == 1 {
      if |key| < |own| {
        assert own[|key|] in own && s[2 + |key|] == own[|key|];
        Differs(s, pat, k, 1 + |key|);
      } else if |own| < |key| {
        assert key[|own|] in key && pat[1 + |own|] == key[|own|];
        Differs(s, pat, k, 1 + |own|);
      } else {
        var j :| 0 <= j < |own| && own[j] != key[j];
        assert s[2 + j] == own[j] && pat[1 + j] == key[j];
        Differs(s, pat, k, 1 + j);
      }
    } else if k == close {
      Differs(s, pat, k, 1);
    } else {
      if 1 < k < close {
        assert own[k - 2] in own && s[k] == own[k - 2];
      } else if k > close + 1 {
        assert fs[0].value[k - close - 2] in fs[0].value && s[k] == fs[0].value[k - close - 2];
      }
      Differs(s, pat, k, 0);
    }
  }

  lemma MatchAfter(a: string, b: string, pat: string, k: nat)
    ensures MatchesAt(a + b, pat, |a| + k) <==> MatchesAt(b, pat, k)
  {
    if k + |pat| <= |b| {
      assert (a + b)[|a| + k..|a| + k + |pat|] == b[k..k + |pat|];
    }
  }

  /** Where the value of field i starts. */
  function ValueOffset(fs: seq<Field>, i: nat): nat
    requires i < |fs|
  {
    if i == 0 then |fs[0].key| + 4 else |Prefix(fs, ',')| + ValueOffset(fs[1..], i - 1)
  }

  /** The first match of the field's key is the field itself, and its value stands at position at. */
  predicate Lands(s: string, f: Field, at: nat) {
    && |f.key| + 3 <= at && at + |f.value| < |s|
    && Find(s, Quoted(f.key), 0) == Some(at - |f.key| - 3)
    && s[at - 1] == ':' && MatchesAt(s, f.value, at)
    && (s[at + |f.value|] == ',' || s[at + |f.value|] == '}')
  }

  lemma FirstFieldLands(fs: seq<Field>, sep: char)
    requires fs != [] && PlainKey(fs[0].key) && sep != '\"'
    ensures Lands(Fields(fs, sep), fs[0], |fs[0].key| + 4)
  {
    var key, value := fs[0].key, fs[0].value;
    var s, tail := Fields(fs, sep), Fields(fs[1..], ',');
    assert s == [sep] + Quoted(key) + ":" + value + tail;
    assert s[1..1 + |Quoted(key)|] == Quoted(key);
    var v := |key| + 4;
    assert s[v..v + |value|] == value;
    assert s[v + |value|] == tail[0];
    Differs(s, Quoted(key), 0, 0);
    FindIs(s, Quoted(key), 1);
  }

  lemma LaterFieldLands(a: string, b: string, f: Field, at: nat)
    requires Lands(b, f, at)
    requires forall k :: 0 <= k < |a| ==> !MatchesAt(a + b, Quoted(f.key), k)
    ensures Lands(a + b, f, |a| + at)
  {
    hide MatchesAt;
    var s, pat, m := a + b, Quoted(f.key), at - |f.key| - 3;
    MatchAfter(a, b, pat, m);
    MatchAfter(a, b, f.value, at);
    forall k | 0 <= k < |a| + m
      ensures !MatchesAt(s, pat, k)
    {
      if k >= |a| {
        MatchAfter(a, b, pat, k - |a|);
      }
    }
    FindIs(s, pat, |a| + m);
  }

  /** In a flat object with distinct plain keys every key search lands on its own field. */
  lemma {:induction false} KeyLandsOnOwnField(fs: seq<Field>, sep: char, i: nat)
    requires i < |fs| && Plain(fs) && Distinct(fs) && sep != '\"'
    ensures Lands(Fields(fs, sep), fs[i], ValueOffset(fs, i))
    decreases |fs|
  {
    hide Lands, MatchesAt;
    assert fs[0] in fs && fs[i] in fs;
    if i == 0 {
      FirstFieldLands(fs, sep);
    } else {
      KeyLandsOnOwnField(fs[1..], ',', i - 1);
      var a, b := Prefix(fs, sep), Fields(fs[1..], ',');
      assert Fields(fs, sep) == a + b;
      forall k | 0 <= k < |a|
        ensures !MatchesAt(a + b, Quoted(fs[i].key), k)
      {
        NoMatchInField(fs, sep, b, fs[i].key, k);
      }
      LaterFieldLands(a, b, fs[i], ValueOffset(fs[1..], i - 1));
    }
  }
}
