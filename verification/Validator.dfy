/** server/src/misc/packet_validator.cpp, and the round trip with the client's printer. */
module Validator {
  import opened Bytes
  import opened Text
  import opened Packets

  datatype TimeSource = External | Host

  datatype Config = Config(maxAcc: real, timeSource: TimeSource, seqOptional: bool)

  datatype Result = Ok(packet: Packet) | MissingFields | OutOfRangeAxis

  /** Spaces, tabs and colons between a key and its value. */
  function SkipColon(json: string, pos: nat): (r: nat)
    requires pos <= |json|
    ensures pos <= r <= |json|
    decreases |json| - pos
  {
    if pos < |json| && (json[pos] == ' ' || json[pos] == ':' || json[pos] == '\t') then SkipColon(json, pos + 1) else pos
  }

  /** Where the value of a key starts, when there is anything after the key. */
  function ValueStart(json: string, key: string): (r: Option<nat>)
    ensures r.Some? ==> r.value < |json|
  {
    match Find(json, Quoted(key), 0)
    case None => None
    case Some(at) =>
      var pos := SkipColon(json, at + |key| + 2);
      if pos < |json| then Some(pos) else None
  }

  function ReadUint64(json: string, key: string): Option<nat> {
    match ValueStart(json, key)
    case None => None
    case Some(pos) => (match Strtoull(json, pos) case Number(v, _) => Some(v) case _ => None)
  }

  function ReadUint32(json: string, key: string): Option<nat> {
    match ReadUint64(json, key)
    case Some(v) => if v > UINT32_MAX then None else Some(v)
    case None => None
  }

  function ReadDouble(json: string, key: string): Option<real> {
    match ValueStart(json, key)
    case None => None
    case Some(pos) => (match Strtod(json, pos) case Number(v, _) => Some(v) case _ => None)
  }

  function SkipComma(json: string, pos: nat): (r: nat)
    requires pos <= |json|
    ensures pos <= r <= |json|
    decreases |json| - pos
  {
    if pos < |json| && (json[pos] == ' ' || json[pos] == ',' || json[pos] == '\t') then SkipComma(json, pos + 1) else pos
  }

  /** Up to max numbers of an array whose bracket has just been passed. */
  function ArrayFrom(json: string, pos: nat, max: nat): (r: seq<real>)
    requires pos <= |json|
    ensures |r| <= max
    decreases max
  {
    var p := SkipComma(json, pos);
    if max == 0 || pos == |json| || p == |json| || json[p] == ']' then [] else
      match Strtod(json, p)
      case Number(v, end) => [v] + ArrayFrom(json, end, max - 1)
      case _ => []
  }

  function ReadArray(json: string, key: string, max: nat): (r: seq<real>)
    ensures |r| <= max
  {
    match ValueStart(json, key)
    case None => []
    case Some(pos) => if json[pos] != '[' then [] else ArrayFrom(json, pos + 1, max)
  }

  predicate LooksAndroid(json: string) {
    && Find(json, "\"type\"", 0).Some?
    && Find(json, "android.sensor.", 0).Some?
    && Find(json, "\"values\"", 0).Some?
  }

  predicate InRange(p: Packet, limit: real) {
    && -limit <= p.accX <= limit
    && -limit <= p.accY <= limit
    && -limit <= p.accZ <= limit
  }

  function Checked(p: Packet, limit: real): Result {
    if InRange(p, limit) then Ok(p) else OutOfRangeAxis
  }

  /** parse() for native packets, at server time now. */
  function ParseNative(json: string, cfg: Config, now: nat): Result {
    var ts := ReadUint64(json, "ts");
    var hasTs := ts.Some? && ts.value != 0;
    if !hasTs && cfg.timeSource == External then MissingFields else
      var seqNo := ReadUint32(json, "seq");
      if seqNo.None? && !cfg.seqOptional then MissingFields else
        var x, y, z := ReadDouble(json, "ax"), ReadDouble(json, "ay"), ReadDouble(json, "az");
        if x.None? || y.None? || z.None? then MissingFields else
          Checked(Packet(if hasTs then ts.value else now, if seqNo.Some? then seqNo.value else 0, x.value, y.value, z.value),
                  cfg.maxAcc)
  }

  /** parse_android(): server time, the counter's number, and the first three values. */
  function ParseAndroid(json: string, cfg: Config, now: nat, counter: nat): Result {
    var v := ReadArray(json, "values", 3);
    if |v| < 3 then MissingFields else Checked(Packet(now, counter, v[0], v[1], v[2]), cfg.maxAcc)
  }

  class PacketValidator {
    const cfg: Config
    var androidCounter: nat

    constructor (cfg: Config)
      ensures this.cfg == cfg && androidCounter == 0
    {
      this.cfg := cfg;
      androidCounter := 0;
    }

    /** The position after a key and the separators that follow it, by the loop all extractors share. */
    static method SeekValue(json: string, key: string) returns (found: bool, pos: nat)
      ensures found <==> ValueStart(json, key).Some?
      ensures found ==> pos == ValueStart(json, key).value
    {
      pos := 0;
      match Find(json, Quoted(key), 0) {
        case None => return false, 0;
        case Some(at) => pos := at + |key| + 2;
      }
      while pos < |json| && (json[pos] == ' ' || json[pos] == ':' || json[pos] == '\t')
        invariant pos <= |json|
        invariant Find(json, Quoted(key), 0).Some?
        invariant SkipColon(json, pos) == SkipColon(json, Find(json, Quoted(key), 0).value + |key| + 2)
      {
        pos := pos + 1;
      }
      found := pos < |json|;
    }

    static method ExtractUint64(json: string, key: string) returns (ok: bool, out: nat)
      ensures ok <==> ReadUint64(json, key).Some?
      ensures ok ==> out == ReadUint64(json, key).value
    {
      out := 0;
      var found, pos := SeekValue(json, key);
      if !found {
        return false, 0;
      }
      match Strtoull(json, pos) {
        case Number(v, _) => ok, out := true, v;
        case _ => ok := false;
      }
    }

    static method ExtractUint32(json: string, key: string) returns (ok: bool, out: nat)
      ensures ok <==> ReadUint32(json, key).Some?
      ensures ok ==> out == ReadUint32(json, key).value
    {
      ok, out := ExtractUint64(json, key);
      if ok && out > UINT32_MAX {
        ok := false;
      }
    }

    static method ExtractDouble(json: string, key: string) returns (ok: bool, out: real)
      ensures ok <==> ReadDouble(json, key).Some?
      ensures ok ==> out == ReadDouble(json, key).value
    {
      out := 0.0;
      var found, pos := SeekValue(json, key);
      if !found {
        return false, 0.0;
      }
      match Strtod(json, pos) {
        case Number(v, _) => ok, out := true, v;
        case _ => ok := false;
      }
    }

    static method SkipSeparators(json: string, start: nat) returns (pos: nat)
      requires start <= |json|
      ensures pos == SkipComma(json, start)
    {
      pos := start;
      while pos < |json| && (json[pos] == ' ' || json[pos] == ',' || json[pos] == '\t')
        invariant start <= pos <= |json| && SkipComma(json, pos) == SkipComma(json, start)
      {
        pos := pos + 1;
      }
    }

    static method ExtractArrayDoubles(json: string, key: string, maxCount: nat) returns (out: seq<real>)
      ensures out == ReadArray(json, key, maxCount)
    {
      hide Strtod, SkipComma, ValueStart;
      out := [];
      var found, pos := SeekValue(json, key);
      if !found || json[pos] != '[' {
        return;
      }
      pos := pos + 1;
      ghost var start := pos;
      while |out| < maxCount && pos < |json|
        invariant 0 <= pos <= |json| && |out| <= maxCount
        invariant out + ArrayFrom(json, pos, maxCount - |out|) == ArrayFrom(json, start, maxCount)
        decreases maxCount - |out|
      {
        ghost var rest := ArrayFrom(json, pos, maxCount - |out|);
        pos := SkipSeparators(json, pos);
        if pos >= |json| || json[pos] == ']' {
          assert out + [] == out;
          return;
        }
        var number := Strtod(json, pos);
        if !number.Number? {
          assert out + [] == out;
          return;
        }
        assert out + ([number.value] + rest[1..]) == out + [number.value] + rest[1..];
        out, pos := out + [number.value], number.end;
      }
    }

    /** Dispatches on the format; only Android packets advance the counter, accepted or not. */
    method Parse(json: string, now: nat) returns (result: Result)
      modifies this`androidCounter
      ensures LooksAndroid(json) ==>
                && result == ParseAndroid(json, cfg, now, old(androidCounter))
                && androidCounter == (old(androidCounter) + 1) % (UINT32_MAX + 1)
      ensures !LooksAndroid(json) ==> result == ParseNative(json, cfg, now) && androidCounter == old(androidCounter)
    {
      if LooksAndroid(json) {
        var seqNo := androidCounter;
        androidCounter := (androidCounter + 1) % (UINT32_MAX + 1);
        var vals := ExtractArrayDoubles(json, "values", 3);
        if |vals| < 3 {
          return MissingFields;
        }
        return Checked(Packet(now, seqNo, vals[0], vals[1], vals[2]), cfg.maxAcc);
      }
      var timestamp, sequence := now, 0;
      var hasTs, ts := ExtractUint64(json, "ts");
      hasTs := hasTs && ts != 0;
      if hasTs {
        timestamp := ts;
      } else if cfg.timeSource == External {
        return MissingFields;
      }
      var hasSeq, seqNo := ExtractUint32(json, "seq");
      if hasSeq {
        sequence := seqNo;
      } else if !cfg.seqOptional {
        return MissingFields;
      }
      var ok, x := ExtractDouble(json, "ax");
      if !ok { return MissingFields; }
      var y;
      ok, y := ExtractDouble(json, "ay");
      if !ok { return MissingFields; }
      var z;
      ok, z := ExtractDouble(json, "az");
      if !ok { return MissingFields; }
      result := Checked(Packet(timestamp, sequence, x, y, z), cfg.maxAcc);
    }
  }

  // The round trip.

  predicate Printable(p: Packet) {
    p.timestamp < UINT64_MODULUS && p.sequence <= UINT32_MAX
  }

  /** What six decimals keep of a packet. */
  function Kept(p: Packet): Packet {
    Packet(p.timestamp, p.sequence, Rounded(p.accX), Rounded(p.accY), Rounded(p.accZ))
  }

  lemma JsonIsFields(p: Packet)
    ensures ToJson(p) == Fields(PacketFields(p), '{')
  {
    hide Decimal, Fixed6, Fields;
    var f := PacketFields(p);
    assert Fields([], ',') == "}" by { NoFields(); }
    FieldsCons(f[4], [], ',', ",\"az\":");
    FieldsCons(f[3], [f[4]], ',', ",\"ay\":");
    FieldsCons(f[2], [f[3], f[4]], ',', ",\"ax\":");
    FieldsCons(f[1], [f[2], f[3], f[4]], ',', ",\"seq\":");
    FieldsCons(f[0], [f[1], f[2], f[3], f[4]], '{', "{\"ts\":");
    assert [f[4]] + [] == [f[4]] && [f[3]] + [f[4]] == [f[3], f[4]];
    assert [f[2]] + [f[3], f[4]] == [f[2], f[3], f[4]];
    assert [f[1]] + [f[2], f[3], f[4]] == [f[1], f[2], f[3], f[4]];
    assert [f[0]] + [f[1], f[2], f[3], f[4]] == f;
  }

  lemma NoFields()
    ensures Fields([], ',') == "}"
  {
  }

  lemma NoQuoteInFixed6(x: real)
    ensures forall c :: c in Fixed6(x) ==> IsDigit(c) || c == '-' || c == '.'
    ensures Fixed6(x) != [] && (IsDigit(Fixed6(x)[0]) || Fixed6(x)[0] == '-')
  {
    Fixed6Parts(x);
    hide Fixed6, DecimalValue, Micros;
    var text, n := Fixed6(x), if x < 0.0 then 1 else 0;
    var e := |text| - 7;
    assert text == text[..n] + text[n..e] + [text[e]] + text[e + 1..];
    assert text[n] in text[n..e];
  }

  lemma PacketFieldsPlain(p: Packet)
    ensures Plain(PacketFields(p)) && Distinct(PacketFields(p))
  {
    DecimalRoundTrip(p.timestamp);
    DecimalRoundTrip(p.sequence);
    NoQuoteInFixed6(p.accX);
    NoQuoteInFixed6(p.accY);
    NoQuoteInFixed6(p.accZ);
    hide Decimal, Fixed6;
    assert "ts" != "seq" && "ax"[1] == 'x' && "ay"[1] == 'y' && "az"[1] == 'z' && "ts"[0] == 't';
  }

  /** The value position the extractors compute for a field that lands. */
  lemma ValueStartOfField(s: string, f: Field, at: nat)
    requires Lands(s, f, at) && f.value != [] && (IsDigit(f.value[0]) || f.value[0] == '-')
    ensures ValueStart(s, f.key) == Some(at)
    ensures FieldEnds(s, at + |f.value|)
  {
    assert s[at] == f.value[0] by { assert s[at..at + |f.value|] == f.value; }
    assert SkipColon(s, at) == at;
    assert SkipColon(s, at - 1) == at;
  }

  lemma UnsignedFieldReads(s: string, key: string, n: nat, at: nat)
    requires n < UINT64_MODULUS && Lands(s, Field(key, Decimal(n)), at)
    ensures ReadUint64(s, key) == Some(n)
  {
    hide Decimal, ValueStart;
    DecimalRoundTrip(n);
    assert Decimal(n)[0] in Decimal(n);
    ValueStartOfField(s, Field(key, Decimal(n)), at);
    StrtoullReadsDecimal(s, at, n);
  }

  lemma RealFieldReads(s: string, key: string, x: real, at: nat)
    requires Lands(s, Field(key, Fixed6(x)), at)
    ensures ReadDouble(s, key) == Some(Rounded(x))
  {
    hide Fixed6, ValueStart, Strtod, Rounded;
    NoQuoteInFixed6(x);
    ValueStartOfField(s, Field(key, Fixed6(x)), at);
    StrtodReadsFixed6(s, at, x);
  }

  /** A printed packet never contains the marks of the Android format. */
  lemma PrintedIsNative(p: Packet)
    ensures !LooksAndroid(ToJson(p))
  {
    DecimalRoundTrip(p.timestamp);
    DecimalRoundTrip(p.sequence);
    NoQuoteInFixed6(p.accX);
    NoQuoteInFixed6(p.accY);
    NoQuoteInFixed6(p.accZ);
    hide Decimal, Fixed6;
    assert 'p' !in ToJson(p);
    assert "\"type\""[3] == 'p';
    MissingChar(ToJson(p), "\"type\"", 'p');
  }

  lemma FieldsRead(p: Packet)
    requires Printable(p)
    ensures var s := ToJson(p);
            && ReadUint64(s, "ts") == Some(p.timestamp) && ReadUint32(s, "seq") == Some(p.sequence)
            && ReadDouble(s, "ax") == Some(Rounded(p.accX))
            && ReadDouble(s, "ay") == Some(Rounded(p.accY))
            && ReadDouble(s, "az") == Some(Rounded(p.accZ))
  {
    hide ReadUint64, ReadDouble, Lands, Fields, ToJson;
    var fs, s := PacketFields(p), ToJson(p);
    JsonIsFields(p);
    PacketFieldsPlain(p);
    forall i | 0 <= i < 5
      ensures Lands(s, fs[i], ValueOffset(fs, i))
    {
      KeyLandsOnOwnField(fs, '{', i);
    }
    UnsignedFieldReads(s, "ts", p.timestamp, ValueOffset(fs, 0));
    UnsignedFieldReads(s, "seq", p.sequence, ValueOffset(fs, 1));
    RealFieldReads(s, "ax", p.accX, ValueOffset(fs, 2));
    RealFieldReads(s, "ay", p.accY, ValueOffset(fs, 3));
    RealFieldReads(s, "az", p.accZ, ValueOffset(fs, 4));
  }

  /**
   * The server reads back what the client printed, for every packet: the same numbers with six
   * decimals, accepted if and only if they are in range; only a zero timestamp is special.
   */
  lemma PrintParse(p: Packet, cfg: Config, now: nat)
    requires Printable(p)
    ensures ParseNative(ToJson(p), cfg, now)
         == (if p.timestamp == 0 then
               if cfg.timeSource == External then MissingFields
               else Checked(Kept(p).(timestamp := now), cfg.maxAcc)
             else Checked(Kept(p), cfg.maxAcc))
  {
    hide ReadUint64, ReadUint32, ReadDouble, ToJson, Rounded;
    FieldsRead(p);
  }

  /** Axes that are whole millionths come back unchanged. */
  lemma SixDecimalAxesSurvive(p: Packet, x: int, y: int, z: int, cfg: Config, now: nat)
    requires Printable(p) && p.timestamp != 0
    requires p.accX == x as real / MICRO as real && p.accY == y as real / MICRO as real && p.accZ == z as real / MICRO as real
    ensures InRange(p, cfg.maxAcc) <==> ParseNative(ToJson(p), cfg, now) == Ok(p)
  {
    hide ParseNative, ToJson, Rounded;
    PrintParse(p, cfg, now);
    RoundedExact(x);
    RoundedExact(y);
    RoundedExact(z);
  }

  // The client's 256-byte buffer.

  lemma Pow10Splits(a: nat, b: nat)
    ensures Pow10(a + b) == Pow10(a) * Pow10(b)
  {
    if a > 0 {
      Pow10Splits(a - 1, b);
      assert 10 * (Pow10(a - 1) * Pow10(b)) == (10 * Pow10(a - 1)) * Pow10(b);
    }
  }

  lemma BigPowers()
    ensures Pow10(20) > UINT64_MODULUS > Pow10(19) + 1 && Pow10(10) > UINT32_MAX >= Pow10(9)
  {
    assert Pow10(4) == 10000;
    Pow10Splits(4, 4);
    Pow10Splits(8, 2);
    Pow10Splits(8, 1);
    Pow10Splits(10, 10);
    Pow10Splits(9, 10);
  }

  lemma Fixed6Length(x: real, digits: nat)
    requires digits > 0
    ensures Micros(x) / MICRO < Pow10(digits) ==> |Fixed6(x)| <= (if x < 0.0 then 8 else 7) + digits
    ensures Micros(x) / MICRO >= Pow10(digits) ==> |Fixed6(x)| > (if x < 0.0 then 8 else 7) + digits
  {
    hide Micros;
    var whole := Micros(x) / MICRO;
    if whole < Pow10(digits) { DecimalLength(whole, digits); } else { DecimalLengthAtLeast(whole, digits); }
  }

  lemma JsonLength(p: Packet)
    ensures |ToJson(p)| == 32 + |Decimal(p.timestamp)| + |Decimal(p.sequence)| + |Fixed6(p.accX)| + |Fixed6(p.accY)| + |Fixed6(p.accZ)|
  {
  }

  /** Axes of up to 56 integer digits always fit the buffer. */
  lemma FitsBuffer(p: Packet)
    requires Printable(p)
    requires forall x :: x in {p.accX, p.accY, p.accZ} ==> Micros(x) / MICRO < Pow10(56)
    ensures |ToJson(p)| < 256
  {
    hide Decimal, Fixed6, Micros, Pow10;
    BigPowers();
    JsonLength(p);
    DecimalLength(p.timestamp, 20);
    DecimalLength(p.sequence, 10);
    Fixed6Length(p.accX, 56);
    Fixed6Length(p.accY, 56);
    Fixed6Length(p.accZ, 56);
  }

  /** With 57 digits the widest packets do not. */
  lemma FiftySevenDigitsOverflow(p: Packet)
    requires p.timestamp >= Pow10(19) && p.sequence >= Pow10(9)
    requires forall x :: x in {p.accX, p.accY, p.accZ} ==> x < 0.0 && Micros(x) / MICRO >= Pow10(56)
    ensures |ToJson(p)| >= 256
  {
    hide Decimal, Fixed6, Micros, Pow10;
    JsonLength(p);
    DecimalLengthAtLeast(p.timestamp, 19);
    DecimalLengthAtLeast(p.sequence, 9);
    Fixed6Length(p.accX, 56);
    Fixed6Length(p.accY, 56);
    Fixed6Length(p.accZ, 56);
  }
}
