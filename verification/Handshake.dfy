/** The opening handshake of section 4 of RFC 6455: both sides' text handling, and that they agree. */
module Handshake {
  import opened Bytes
  import opened Text
  import opened Sockets
  import Base64
  import Sha1

  const GUID: string := "258EAFA5-E914-47DA-95CA-C5AB0DC85B11"

  /** Section 4.2.2, item 5.4: Base64(SHA1(key + GUID)). */
  function AcceptKey(key: string): string {
    Base64.Encode(Sha1.Digest(ToBytes(key + GUID)))
  }

  // Lines.

  datatype Line = NoLine | Line(text: string, rest: string)

  function StripCr(line: string): string {
    if line != "" && line[|line| - 1] == '\r' then line[..|line| - 1] else line
  }

  /** The text up to the next newline, without the newline and one carriage return before it. */
  function ReadLine(s: string): (r: Line)
    ensures r.Line? ==> |r.rest| < |s|
  {
    match Find(s, "\n", 0)
    case None => NoLine
    case Some(at) => Line(StripCr(s[..at]), s[at + 1..])
  }

  function Crlf(lines: seq<string>): string {
    if lines == [] then "" else lines[0] + ("\r\n" + Crlf(lines[1..]))
  }

  predicate OneLine(s: string) {
    '\n' !in s && '\0' !in s
  }

  lemma ReadLineCrlf(line: string, rest: string)
    requires OneLine(line)
    ensures ReadLine(line + ("\r\n" + rest)) == Line(line, rest)
  {
    var s, at := line + ("\r\n" + rest), |line| + 1;
    assert s[at] == '\n' && s[at..at + 1] == "\n";
    forall k | 0 <= k < at
      ensures !MatchesAt(s, "\n", k)
    {
      if k < |line| { assert s[k] == line[k] && line[k] in line; }
      Differs(s, "\n", k, 0);
    }
    FindIs(s, "\n", at);
    assert s[..at] == line + "\r" && s[at + 1..] == rest;
  }

  lemma LineEndsHere(line: string, rest: string)
    requires '\n' !in line
    ensures ReadLine(line + (['\n'] + rest)) == Line(StripCr(line), rest)
  {
    var s := line + (['\n'] + rest);
    assert s[..|line|] == line && s[|line| + 1..] == rest && s[|line|] == '\n';
    NewlineAt(s, |line|);
  }

  lemma NoLineWithoutNewline(s: string)
    requires '\n' !in s
    ensures ReadLine(s).NoLine?
  {
    MissingChar(s, "\n", '\n');
    FindNothing(s, "\n");
  }

  /** recv_line of the server, one character at a time. */
  method RecvLine(sock: Socket<char>) returns (ok: bool, line: string)
    modifies sock`inbox
    ensures ok <==> ReadLine(old(sock.inbox)).Line?
    ensures ok ==> ReadLine(old(sock.inbox)) == Line(line, sock.inbox)
    ensures !ok ==> sock.inbox == []
  {
    hide ReadLine, StripCr;
    line := "";
    ghost var all := sock.inbox;
    while true
      invariant all == line + sock.inbox && '\n' !in line
      decreases |sock.inbox|
    {
      var c := sock.Recv(1);
      if c == [] {
        assert all == line;
        NoLineWithoutNewline(all);
        return false, line;
      }
      assert all == line + ([c[0]] + sock.inbox);
      if c[0] == '\n' {
        LineEndsHere(line, sock.inbox);
        line := StripCr(line);
        return true, line;
      }
      line := line + [c[0]];
    }
  }

  lemma NewlineAt(s: string, at: nat)
    requires at < |s| && s[at] == '\n' && '\n' !in s[..at]
    ensures Find(s, "\n", 0) == Some(at)
  {
    assert s[at..at + 1] == "\n";
    forall k | 0 <= k < at
      ensures !MatchesAt(s, "\n", k)
    {
      assert s[k] == s[..at][k];
      Differs(s, "\n", k, 0);
    }
    FindIs(s, "\n", at);
  }

  // The server.

  predicate IsTrimmed(c: char) {
    c == ' ' || c == '\t' || c == '\r' || c == '\n'
  }

  function TrimLeft(s: string): string {
    if s != "" && IsTrimmed(s[0]) then TrimLeft(s[1..]) else s
  }

  function TrimRight(s: string): string {
    if s != "" && IsTrimmed(s[|s| - 1]) then TrimRight(s[..|s| - 1]) else s
  }

  predicate NamesKey(line: string) {
    Find(line, "Sec-WebSocket-Key:", 0).Some? || Find(line, "Sec-Websocket-Key:", 0).Some?
  }

  /** The key a header line leaves behind: the trimmed text after its first colon, if it names the key. */
  function KeyFrom(line: string, key: string): string {
    if NamesKey(line) && Find(line, ":", 0).Some? then TrimRight(TrimLeft(line[Find(line, ":", 0).value + 1..])) else key
  }

  /** The key after the remaining headers; the end of the input ends them like an empty line. */
  function ScanHeaders(s: string, key: string): string
    decreases |s|
  {
    match ReadLine(s)
    case NoLine => key
    case Line(line, rest) => if line == "" then key else ScanHeaders(rest, KeyFrom(line, key))
  }

  const SWITCHING: string := "HTTP/1.1 101 Switching Protocols"
  const UPGRADE: string := "Upgrade: websocket"
  const CONNECTION: string := "Connection: Upgrade"
  const VERSION: string := "Sec-WebSocket-Version: 13"

  function Response(accept: string): string {
    Crlf([SWITCHING, UPGRADE, CONNECTION, "Sec-WebSocket-Accept: " + accept, ""])
  }

  function ServerReply(input: string): Option<string> {
    match ReadLine(input)
    case NoLine => None
    case Line(_, rest) =>
      var key := ScanHeaders(rest, "");
      if key == "" then None else Some(Response(AcceptKey(key)))
  }

  /** What follows the empty line, or nothing when the input ends before it. */
  function AfterHeaders(s: string): string
    decreases |s|
  {
    match ReadLine(s)
    case NoLine => ""
    case Line(line, rest) => if line == "" then rest else AfterHeaders(rest)
  }

  /** What the server's handshake leaves unread. */
  function ServerRest(input: string): string {
    match ReadLine(input)
    case NoLine => ""
    case Line(_, rest) => AfterHeaders(rest)
  }

  /** A request cut short leaves nothing unread, or a beginning of what the whole one leaves, and the same key. */
  lemma {:induction false} HeadersOfPrefix(s: string, n: nat, key: string)
    requires n <= |s|
    ensures AfterHeaders(s[..n]) <= AfterHeaders(s)
    ensures AfterHeaders(s[..n]) != "" ==> ScanHeaders(s[..n], key) == ScanHeaders(s, key)
    decreases |s|
  {
    hide KeyFrom, ReadLine;
    LineOfPrefix(s, n);
    ShorterAfterLine(s);
    match ReadLine(s[..n])
    case NoLine =>
    case Line(line, rest) =>
      if line != "" {
        HeadersOfPrefix(ReadLine(s).rest, |rest|, KeyFrom(line, key));
      }
  }

  lemma LineOfPrefix(s: string, n: nat)
    requires n <= |s|
    ensures var cut, whole := ReadLine(s[..n]), ReadLine(s);
            cut.Line? ==> whole.Line? && cut.text == whole.text && cut.rest == whole.rest[..|cut.rest|] && |cut.rest| <= |whole.rest|
  {
    match Find(s[..n], "\n", 0)
    case None =>
    case Some(at) =>
      assert s[..n][at..at + 1] == "\n" && s[at] == '\n';
      forall k | 0 <= k < at
        ensures s[k] != '\n'
      {
        if s[k] == '\n' { assert s[..n][k..k + 1] == "\n" && MatchesAt(s[..n], "\n", k); }
      }
      NewlineAt(s, at);
      assert s[..n][..at] == s[..at];
      PrefixRest(s, n, at + 1);
  }

  lemma PrefixRest(s: string, n: nat, a: nat)
    requires a <= n <= |s|
    ensures s[..n][a..] == s[a..][..n - a]
  {
    assert s[..n][a..] == s[a..n];
  }

  lemma RestOfPrefix(s: string, n: nat)
    requires n <= |s|
    ensures ServerRest(s[..n]) <= ServerRest(s)
    ensures ServerRest(s[..n]) != "" ==> ServerReply(s[..n]) == ServerReply(s)
  {
    hide ReadLine, Response, AcceptKey;
    LineOfPrefix(s, n);
    match ReadLine(s[..n])
    case NoLine =>
    case Line(_, rest) => HeadersOfPrefix(ReadLine(s).rest, |rest|, "");
  }

  method ComputeAcceptKey(key: string) returns (accept: string)
    ensures accept == AcceptKey(key)
  {
    var digest := new byte[20];
    Sha1.Compute(ToBytes(key + GUID), digest);
    accept := Base64.EncodeString(digest[..]);
  }

  /** do_handshake of the server. */
  method DoHandshake(sock: Socket<char>) returns (ok: bool)
    modifies sock
    ensures ok <==> ServerReply(old(sock.inbox)).Some? && |ServerReply(old(sock.inbox)).value| <= old(sock.room)
    ensures sock.outbox == old(sock.outbox)
         + (match ServerReply(old(sock.inbox)) case Some(r) => Take(r, old(sock.room)) case None => [])
    ensures sock.inbox == ServerRest(old(sock.inbox))
  {
    hide Response, AcceptKey, KeyFrom, ReadLine;
    ghost var input := sock.inbox;
    var line;
    ok, line := RecvLine(sock);
    if !ok {
      return;
    }
    var key := "";
    ghost var headers := sock.inbox;
    while true
      invariant sock.outbox == old(sock.outbox) && sock.room == old(sock.room)
      invariant ScanHeaders(sock.inbox, key) == ScanHeaders(headers, "")
      invariant AfterHeaders(sock.inbox) == AfterHeaders(headers)
      decreases |sock.inbox|
    {
      ShorterAfterLine(sock.inbox);
      ok, line := RecvLine(sock);
      if !ok || line == "" {
        assert key == ScanHeaders(headers, "") && sock.inbox == AfterHeaders(headers);
        break;
      }
      key := KeyFrom(line, key);
    }
    if key == "" {
      return false;
    }
    var accept := ComputeAcceptKey(key);
    ok := SendExact(sock, Response(accept));
  }

  lemma ShorterAfterLine(s: string)
    ensures ReadLine(s).Line? ==> |ReadLine(s).rest| < |s|
  {
  }

  // The client.

  const LINE_MAX: nat := 2048
  const ACCEPT_MAX: nat := 64

  /** What net_recv_line leaves in a buffer of LINE_MAX: its count, the C string, and the unread rest. */
  datatype BufferLine = NoData | BufferLine(count: nat, text: string, rest: string)

  function FillLine(s: string): (r: BufferLine)
    ensures r.BufferLine? ==> |r.rest| < |s|
  {
    match Find(s[..Min(|s|, LINE_MAX - 1)], "\n", 0)
    case Some(at) => var t := StripCr(s[..at]); BufferLine(|t|, CString(t), s[at + 1..])
    case None => if |s| < LINE_MAX - 1 then NoData else BufferLine(LINE_MAX - 1, CString(s[..LINE_MAX - 1]), s[LINE_MAX - 1..])
  }

  ghost predicate IContains(haystack: string, needle: string) {
    Contains(Lower(haystack), Lower(needle))
  }

  /** istr_contains: the two nested loops. */
  method IstrContains(haystack: string, needle: string) returns (found: bool)
    ensures found <==> IContains(haystack, needle)
  {
    var h, n := |haystack|, |needle|;
    if n > h {
      return false;
    }
    hide MatchesAt, Find;
    var i := 0;
    while i <= h - n
      invariant 0 <= i <= h - n + 1
      invariant forall k :: 0 <= k < i ==> !MatchesAt(Lower(haystack), Lower(needle), k)
    {
      var matching := true;
      var j := 0;
      while j < n && matching
        invariant 0 <= j <= n
        invariant matching ==> Lower(haystack)[i..i + j] == Lower(needle)[..j]
        invariant !matching ==> !MatchesAt(Lower(haystack), Lower(needle), i)
        decreases n - j, matching
      {
        if ToLower(haystack[i + j]) != ToLower(needle[j]) {
          Differs(Lower(haystack), Lower(needle), i, j);
          matching := false;
        } else {
          GrowMatch(Lower(haystack), Lower(needle), i, j);
          j := j + 1;
        }
      }
      if matching {
        WholeMatch(Lower(haystack), Lower(needle), i);
        return true;
      }
      i := i + 1;
    }
    return false;
  }

  lemma GrowMatch(s: string, pat: string, k: nat, j: nat)
    requires j < |pat| && k + j < |s| && s[k..k + j] == pat[..j] && s[k + j] == pat[j]
    ensures s[k..k + j + 1] == pat[..j + 1]
  {
    assert s[k..k + j + 1] == s[k..k + j] + [s[k + j]];
    assert pat[..j + 1] == pat[..j] + [pat[j]];
  }

  lemma WholeMatch(s: string, pat: string, k: nat)
    requires k + |pat| <= |s| && s[k..k + |pat|] == pat[..|pat|]
    ensures MatchesAt(s, pat, k)
  {
  }

  function TrimBlanks(s: string): string {
    if s != "" && (s[0] == ' ' || s[0] == '\t') then TrimBlanks(s[1..]) else s
  }

  /** extract_header_value for a line that names the header: the trimmed text after the first colon, if it fits. */
  function HeaderValue(line: string, size: nat): Option<string> {
    match Find(line, ":", 0)
    case None => None
    case Some(colon) =>
      var value := TrimRight(TrimBlanks(line[colon + 1..]));
      if |value| >= size then None else Some(value)
  }

  datatype Seen = Seen(upgrade: bool, connection: bool, accept: string)

  datatype Outcome = HsOk | NetError | HandshakeError

  ghost function Notice(line: string, seen: Seen): Seen {
    Seen(seen.upgrade || (IContains(line, "upgrade:") && IContains(line, "websocket")),
         seen.connection || (IContains(line, "connection:") && IContains(line, "upgrade")),
         if IContains(line, "sec-websocket-accept:") && HeaderValue(line, ACCEPT_MAX).Some?
         then HeaderValue(line, ACCEPT_MAX).value else seen.accept)
  }

  function Verdict(seen: Seen, expected: string): Outcome {
    if seen.upgrade && seen.connection && seen.accept != "" && seen.accept == expected then HsOk else HandshakeError
  }

  ghost function CheckHeaders(s: string, seen: Seen, expected: string): Outcome
    decreases |s|
  {
    match FillLine(s)
    case NoData => NetError
    case BufferLine(count, line, rest) =>
      if count == 0 then Verdict(seen, expected) else CheckHeaders(rest, Notice(line, seen), expected)
  }

  /** The reading half of the client's do_handshake. */
  ghost function ClientCheck(s: string, expected: string): Outcome {
    match FillLine(s)
    case NoData => NetError
    case BufferLine(_, line, rest) =>
      if !IContains(line, "101") then HandshakeError else CheckHeaders(rest, Seen(false, false, ""), expected)
  }

  lemma FillEndsHere(line: string, rest: string)
    requires '\n' !in line && |line| < LINE_MAX - 1
    ensures FillLine(line + (['\n'] + rest)) == BufferLine(|StripCr(line)|, CString(StripCr(line)), rest)
  {
    var s := line + (['\n'] + rest);
    var window := s[..Min(|s|, LINE_MAX - 1)];
    assert s[..|line|] == line && s[|line| + 1..] == rest;
    assert window[..|line|] == line && window[|line|] == '\n';
    NewlineAt(window, |line|);
  }

  lemma FillWithoutNewline(s: string)
    requires '\n' !in s[..Min(|s|, LINE_MAX - 1)]
    ensures FillLine(s) == if |s| < LINE_MAX - 1 then NoData
                           else BufferLine(LINE_MAX - 1, CString(s[..LINE_MAX - 1]), s[LINE_MAX - 1..])
  {
    var window := s[..Min(|s|, LINE_MAX - 1)];
    MissingChar(window, "\n", '\n');
    FindNothing(window, "\n");
  }

  /** net_recv_line into a buffer of LINE_MAX. */
  method RecvBufferLine(sock: Socket<char>) returns (n: int, line: string)
    modifies sock`inbox
    ensures n >= 0 <==> FillLine(old(sock.inbox)).BufferLine?
    ensures n >= 0 ==> FillLine(old(sock.inbox)) == BufferLine(n, line, sock.inbox)
  {
    hide FillLine, StripCr, CString;
    var buf := "";
    ghost var all := sock.inbox;
    while |buf| < LINE_MAX - 1
      invariant all == buf + sock.inbox && '\n' !in buf && |buf| <= LINE_MAX - 1
    {
      var c := sock.Recv(1);
      if c == [] {
        DataEnds(all, buf);
        return -1, "";
      }
      assert all == buf + ([c[0]] + sock.inbox);
      if c[0] == '\n' {
        FillEndsHere(buf, sock.inbox);
        line := StripCr(buf);
        return |line|, CString(line);
      }
      buf := buf + [c[0]];
    }
    BufferFull(all, buf, sock.inbox);
    return |buf|, CString(buf);
  }

  lemma DataEnds(all: string, buf: string)
    requires all == buf && '\n' !in buf && |buf| < LINE_MAX - 1
    ensures FillLine(all) == NoData
  {
    assert all[..|all|] == all;
    FillWithoutNewline(all);
  }

  lemma BufferFull(all: string, buf: string, rest: string)
    requires all == buf + rest && '\n' !in buf && |buf| == LINE_MAX - 1
    ensures FillLine(all) == BufferLine(|buf|, CString(buf), rest)
  {
    assert all[..LINE_MAX - 1] == buf && all[LINE_MAX - 1..] == rest;
    FillWithoutNewline(all);
  }

  method SkipBlanks(line: string, at: nat) returns (start: nat)
    requires at <= |line|
    ensures at <= start <= |line| && line[start..] == TrimBlanks(line[at..])
  {
    start := at;
    while start < |line| && (line[start] == ' ' || line[start] == '\t')
      invariant at <= start <= |line| && TrimBlanks(line[start..]) == TrimBlanks(line[at..])
    {
      assert line[start..][1..] == line[start + 1..];
      start := start + 1;
    }
  }

  method TrimEnd(s: string) returns (len: nat)
    ensures len <= |s| && s[..len] == TrimRight(s)
  {
    len := |s|;
    assert s[..len] == s;
    while len > 0 && IsTrimmed(s[len - 1])
      invariant 0 <= len <= |s| && TrimRight(s[..len]) == TrimRight(s)
    {
      assert s[..len][..len - 1] == s[..len - 1];
      len := len - 1;
    }
  }

  method ExtractHeaderValue(line: string, name: string, prior: string, size: nat) returns (out: string)
    ensures out == if IContains(line, name) && HeaderValue(line, size).Some? then HeaderValue(line, size).value else prior
  {
    hide TrimBlanks, TrimRight, IContains;
    out := prior;
    var named := IstrContains(line, name);
    if !named {
      return;
    }
    var colon := Find(line, ":", 0);
    if colon == None {
      return;
    }
    var start := SkipBlanks(line, colon.value + 1);
    var len := TrimEnd(line[start..]);
    if len < size {
      out := line[start..][..len];
    }
  }

  /** do_handshake of the client after its request has gone out. */
  method ReadReply(sock: Socket<char>, expected: string) returns (outcome: Outcome)
    modifies sock`inbox
    ensures outcome == ClientCheck(old(sock.inbox), expected)
  {
    hide FillLine, IContains, HeaderValue;
    var n, line := RecvBufferLine(sock);
    if n < 0 {
      return NetError;
    }
    var is101 := IstrContains(line, "101");
    if !is101 {
      return HandshakeError;
    }
    var upgrade, connection, accept := false, false, "";
    ghost var start := sock.inbox;
    while true
      invariant CheckHeaders(sock.inbox, Seen(upgrade, connection, accept), expected)
             == CheckHeaders(start, Seen(false, false, ""), expected)
      decreases |sock.inbox|
    {
      FillLineShortens(sock.inbox);
      n, line := RecvBufferLine(sock);
      if n < 0 {
        return NetError;
      }
      if n == 0 {
        return Verdict(Seen(upgrade, connection, accept), expected);
      }
      ghost var seen := Seen(upgrade, connection, accept);
      var a := IstrContains(line, "upgrade:");
      var b := IstrContains(line, "websocket");
      upgrade := upgrade || (a && b);
      a := IstrContains(line, "connection:");
      b := IstrContains(line, "upgrade");
      connection := connection || (a && b);
      accept := ExtractHeaderValue(line, "sec-websocket-accept:", accept, ACCEPT_MAX);
      assert Seen(upgrade, connection, accept) == Notice(line, seen);
    }
  }

  lemma FillLineShortens(s: string)
    ensures FillLine(s).BufferLine? ==> |FillLine(s).rest| < |s|
  {
  }

  // Agreement.

  datatype Params = Params(host: string, port: nat, path: string, nonce: bytes)

  function KeyOf(p: Params): string {
    Base64.Encode(p.nonce)
  }

  function HostLine(p: Params): string {
    "Host: " + p.host + ":" + Decimal(p.port)
  }

  function Headers(p: Params): seq<string> {
    [HostLine(p), UPGRADE, CONNECTION, "Sec-WebSocket-Key: " + KeyOf(p), VERSION]
  }

  /** The client's request, line by line. */
  function Request(p: Params): string {
    Crlf(["GET " + p.path + " HTTP/1.1"] + Headers(p) + [""])
  }

  predicate Sendable(p: Params) {
    |p.nonce| == 16 && OneLine(p.host) && OneLine(p.path)
  }

  /** The key after a list of header lines. */
  function FoldKey(lines: seq<string>, key: string): string {
    if lines == [] then key else FoldKey(lines[1..], KeyFrom(lines[0], key))
  }

  predicate Plain(lines: seq<string>) {
    forall l :: l in lines ==> l != "" && OneLine(l)
  }

  lemma CrlfCons(line: string, lines: seq<string>)
    ensures Crlf([line] + lines) == line + ("\r\n" + Crlf(lines))
  {
    assert ([line] + lines)[1..] == lines;
  }

  lemma {:induction false} ScanIsFold(lines: seq<string>, key: string, tail: string)
    requires Plain(lines)
    ensures ScanHeaders(Crlf(lines + [""]) + tail, key) == FoldKey(lines, key)
    ensures AfterHeaders(Crlf(lines + [""]) + tail) == tail
    decreases |lines|
  {
    hide KeyFrom, ReadLine;
    var all := lines + [""];
    var rest := Crlf(all[1..]) + tail;
    assert Crlf(all) + tail == all[0] + ("\r\n" + rest);
    ReadLineCrlf(all[0], rest);
    if lines == [] {
      CrlfEmpty();
      assert all[1..] == [] && "" + tail == tail;
    }
    if lines != [] {
      assert lines[0] in lines;
      assert all[1..] == lines[1..] + [""];
      ScanIsFold(lines[1..], KeyFrom(lines[0], key), tail);
    }
  }

  lemma KeyIsClean(nonce: bytes)
    requires nonce != []
    ensures var k := Base64.Encode(nonce); k != "" && OneLine(k) && forall c :: c in k ==> !IsTrimmed(c) && c != ':'
  {
    Base64.EncodedShape(nonce, 0);
  }

  lemma CleanStaysTrimmed(s: string)
    requires s != "" && forall c :: c in s ==> !IsTrimmed(c)
    ensures TrimRight(TrimLeft(" " + s)) == s && TrimRight(TrimBlanks(" " + s)) == s
  {
    assert (" " + s)[1..] == s && s[0] in s && s[|s| - 1] in s;
  }

  lemma FirstColon(name: string, value: string)
    requires ':' !in name
    ensures Find(name + ":" + value, ":", 0) == Some(|name|)
  {
    var s := name + ":" + value;
    assert s[|name|..|name| + 1] == ":";
    forall k | 0 <= k < |name|
      ensures !MatchesAt(s, ":", k)
    {
      assert s[k] == name[k] && name[k] in name;
      Differs(s, ":", k, 0);
    }
    FindIs(s, ":", |name|);
  }

  lemma KeyLineGivesKey(k: string, prior: string)
    requires k != "" && forall c :: c in k ==> !IsTrimmed(c)
    ensures KeyFrom("Sec-WebSocket-Key: " + k, prior) == k
  {
    var name, line := "Sec-WebSocket-Key", "Sec-WebSocket-Key: " + k;
    assert line == name + ":" + (" " + k);
    FirstColon(name, " " + k);
    assert line[..18] == "Sec-WebSocket-Key:";
    FindIs(line, "Sec-WebSocket-Key:", 0);
    assert line[|name| + 1..] == " " + k;
    CleanStaysTrimmed(k);
  }

  lemma VersionNamesNoKey()
    ensures !NamesKey(VERSION)
  {
    assert 'K' !in VERSION && "Sec-WebSocket-Key:"[14] == 'K' && "Sec-Websocket-Key:"[14] == 'K';
    MissingChar(VERSION, "Sec-WebSocket-Key:", 'K');
    MissingChar(VERSION, "Sec-Websocket-Key:", 'K');
    FindNothing(VERSION, "Sec-WebSocket-Key:");
    FindNothing(VERSION, "Sec-Websocket-Key:");
  }

  lemma OneLineConcat(a: string, b: string)
    ensures OneLine(a + b) <==> OneLine(a) && OneLine(b)
  {
  }

  lemma HeadersPlain(p: Params)
    requires Sendable(p)
    ensures Plain(Headers(p)) && OneLine("GET " + p.path + " HTTP/1.1")
  {
    KeyIsClean(p.nonce);
    DecimalRoundTrip(p.port);
    assert OneLine(Decimal(p.port));
    hide KeyOf, Decimal, OneLine;
    Literals();
    OneLineConcat("Host: ", p.host);
    OneLineConcat("Host: " + p.host, ":");
    OneLineConcat("Host: " + p.host + ":", Decimal(p.port));
    OneLineConcat("Sec-WebSocket-Key: ", KeyOf(p));
    OneLineConcat("GET ", p.path);
    OneLineConcat("GET " + p.path, " HTTP/1.1");
  }

  lemma Literals()
    ensures OneLine("Host: ") && OneLine(":") && OneLine("Sec-WebSocket-Key: ") && OneLine("GET ") && OneLine(" HTTP/1.1")
    ensures OneLine(UPGRADE) && OneLine(CONNECTION) && OneLine(VERSION)
  {
    hide OneLine;
    PiecesAreOneLine();
    HeadersAreOneLine();
    VersionIsOneLine();
  }

  lemma PiecesAreOneLine()
    ensures OneLine("Host: ") && OneLine(":") && OneLine("Sec-WebSocket-Key: ") && OneLine("GET ") && OneLine(" HTTP/1.1")
  {
  }

  lemma HeadersAreOneLine()
    ensures OneLine(UPGRADE) && OneLine(CONNECTION)
  {
  }

  lemma VersionIsOneLine()
    ensures OneLine(VERSION)
  {
  }

  /**
   * Whatever the host and path contain, the server finds exactly the client's key and answers with
   * its accept value.
   */
  lemma ServerAcceptsClient(p: Params, tail: string)
    requires Sendable(p)
    ensures ServerReply(Request(p) + tail) == Some(Response(AcceptKey(KeyOf(p))))
    ensures ServerRest(Request(p) + tail) == tail
  {
    hide AcceptKey, Response, KeyFrom, ReadLine, NamesKey;
    var first, h, k := "GET " + p.path + " HTTP/1.1", Headers(p), KeyOf(p);
    HeadersPlain(p);
    KeyIsClean(p.nonce);
    CrlfCons(first, h + [""]);
    assert [first] + h + [""] == [first] + (h + [""]);
    var rest := Crlf(h + [""]) + tail;
    assert Request(p) + tail == first + ("\r\n" + rest);
    ReadLineCrlf(first, rest);
    ScanIsFold(h, "", tail);
    var before := KeyFrom(h[2], KeyFrom(h[1], KeyFrom(h[0], "")));
    KeyLineGivesKey(k, before);
    VersionKeepsKey(k);
    FoldFive(h, "");
  }

  lemma VersionKeepsKey(key: string)
    ensures KeyFrom(VERSION, key) == key
  {
    VersionNamesNoKey();
  }

  lemma FoldStep(l: seq<string>, i: nat, key: string)
    requires i < |l|
    ensures FoldKey(l[i..], key) == FoldKey(l[i + 1..], KeyFrom(l[i], key))
  {
    hide KeyFrom;
    assert l[i..][1..] == l[i + 1..];
  }

  lemma FoldFive(l: seq<string>, key: string)
    requires |l| == 5
    ensures FoldKey(l, key) == KeyFrom(l[4], KeyFrom(l[3], KeyFrom(l[2], KeyFrom(l[1], KeyFrom(l[0], key)))))
  {
    hide KeyFrom;
    var a := KeyFrom(l[0], key);
    var b := KeyFrom(l[1], a);
    var c := KeyFrom(l[2], b);
    var d := KeyFrom(l[3], c);
    assert l[0..] == l && l[5..] == [];
    FoldStep(l, 0, key);
    FoldStep(l, 1, a);
    FoldStep(l, 2, b);
    FoldStep(l, 3, c);
    FoldStep(l, 4, d);
  }

  // The client on the server's answer.

  lemma FillLineCrlf(line: string, rest: string)
    requires OneLine(line) && |line| + 2 < LINE_MAX
    ensures FillLine(line + ("\r\n" + rest)) == BufferLine(|line|, line, rest)
  {
    var withCr := line + "\r";
    assert line + ("\r\n" + rest) == withCr + (['\n'] + rest);
    FillEndsHere(withCr, rest);
    assert StripCr(withCr) == line;
    CStringWhole(line);
  }

  lemma LowerConcat(a: string, b: string)
    ensures Lower(a + b) == Lower(a) + Lower(b)
  {
  }

  lemma IContainsPart(a: string, part: string, b: string, needle: string)
    requires Lower(part) == Lower(needle)
    ensures IContains(a + part + b, needle)
  {
    LowerConcat(a + part, b);
    LowerConcat(a, part);
    var s, n := Lower(a + part + b), Lower(needle);
    assert s == Lower(a) + n + Lower(b);
    assert s[|a|..|a| + |n|] == n;
    assert MatchesAt(s, n, |a|);
  }

  /** A line without the character, in either case, does not contain the needle. */
  lemma ILacks(line: string, needle: string, c: char)
    requires c in Lower(needle) && c !in Lower(line)
    ensures !IContains(line, needle)
  {
    MissingChar(Lower(line), Lower(needle), c);
  }

  lemma StatusLine()
    ensures IContains(SWITCHING, "101")
  {
    assert SWITCHING[9] == '1' && SWITCHING[10] == '0' && SWITCHING[11] == '1';
    assert SWITCHING[9..12] == "101";
    assert SWITCHING == SWITCHING[..9] + "101" + SWITCHING[12..];
    IContainsPart(SWITCHING[..9], "101", SWITCHING[12..], "101");
  }

  lemma UpgradeHas()
    ensures IContains(UPGRADE, "upgrade:") && IContains(UPGRADE, "websocket")
  {
    hide IContains;
    assert UPGRADE == "" + "Upgrade:" + " websocket";
    assert Lower("Upgrade:") == Lower("upgrade:");
    IContainsPart("", "Upgrade:", " websocket", "upgrade:");
    assert UPGRADE == "Upgrade: " + "websocket" + "";
    IContainsPart("Upgrade: ", "websocket", "", "websocket");
  }

  lemma UpgradeLacks()
    ensures !IContains(UPGRADE, "connection:") && !IContains(UPGRADE, "sec-websocket-accept:")
  {
    hide IContains;
    assert Lower("connection:")[2] == 'n' && Lower("sec-websocket-accept:")[3] == '-';
    assert 'n' !in Lower(UPGRADE) && '-' !in Lower(UPGRADE) by {
      forall c | c in Lower(UPGRADE)
        ensures c != 'n' && c != '-'
      {
        var i :| 0 <= i < |UPGRADE| && Lower(UPGRADE)[i] == ToLower(UPGRADE[i]) == c;
      }
    }
    ILacks(UPGRADE, "connection:", 'n');
    ILacks(UPGRADE, "sec-websocket-accept:", '-');
  }

  lemma UpgradeLine(seen: Seen)
    ensures Notice(UPGRADE, seen) == Seen(true, seen.connection, seen.accept)
  {
    hide IContains, HeaderValue;
    UpgradeHas();
    UpgradeLacks();
  }

  lemma ConnectionHas()
    ensures IContains(CONNECTION, "connection:") && IContains(CONNECTION, "upgrade")
    ensures !IContains(CONNECTION, "sec-websocket-accept:")
  {
    hide IContains;
    assert CONNECTION == "" + "Connection:" + " Upgrade";
    assert Lower("Connection:") == Lower("connection:");
    IContainsPart("", "Connection:", " Upgrade", "connection:");
    assert CONNECTION == "Connection: " + "Upgrade" + "";
    assert Lower("Upgrade") == Lower("upgrade");
    IContainsPart("Connection: ", "Upgrade", "", "upgrade");
    assert Lower("sec-websocket-accept:")[3] == '-';
    assert '-' !in Lower(CONNECTION) by {
      forall c | c in Lower(CONNECTION)
        ensures c != '-'
      {
        var i :| 0 <= i < |CONNECTION| && Lower(CONNECTION)[i] == ToLower(CONNECTION[i]) == c;
      }
    }
    ILacks(CONNECTION, "sec-websocket-accept:", '-');
  }

  lemma ConnectionLine(seen: Seen)
    requires seen.upgrade
    ensures Notice(CONNECTION, seen) == Seen(true, true, seen.accept)
  {
    hide IContains, HeaderValue;
    ConnectionHas();
  }

  /** What the client takes for the value of an accept header written as the server writes it. */
  function Taken(v: string): string {
    TrimRight(TrimBlanks(v))
  }

  lemma AcceptLine(v: string, seen: Seen)
    requires seen.upgrade && seen.connection
    ensures Notice("Sec-WebSocket-Accept: " + v, seen)
         == Seen(true, true, if |Taken(v)| < ACCEPT_MAX then Taken(v) else seen.accept)
  {
    hide IContains, HeaderValue, Taken;
    AcceptNamed(v);
    AcceptValue(v);
  }

  lemma AcceptNamed(v: string)
    ensures IContains("Sec-WebSocket-Accept: " + v, "sec-websocket-accept:")
  {
    hide IContains;
    var head, line := "Sec-WebSocket-Accept:", "Sec-WebSocket-Accept: " + v;
    assert line == "" + head + (" " + v);
    assert Lower(head) == Lower("sec-websocket-accept:");
    IContainsPart("", head, " " + v, "sec-websocket-accept:");
  }

  lemma AcceptValue(v: string)
    ensures HeaderValue("Sec-WebSocket-Accept: " + v, ACCEPT_MAX) == if |Taken(v)| < ACCEPT_MAX then Some(Taken(v)) else None
  {
    hide Find, TrimRight;
    var name, line := "Sec-WebSocket-Accept", "Sec-WebSocket-Accept: " + v;
    assert line == name + ":" + (" " + v);
    FirstColon(name, " " + v);
    assert line[|name| + 1..] == " " + v;
    assert (" " + v)[1..] == v;
  }

  lemma CheckLine(line: string, rest: string, seen: Seen, expected: string)
    requires OneLine(line) && line != "" && |line| + 2 < LINE_MAX
    ensures CheckHeaders(line + ("\r\n" + rest), seen, expected) == CheckHeaders(rest, Notice(line, seen), expected)
  {
    hide Notice, FillLine, Verdict;
    FillLineCrlf(line, rest);
  }

  /** What the client notices in a header line of any length, which net_recv_line hands over in pieces. */
  ghost function NoticeAll(line: string, seen: Seen): Seen
    decreases |line|
  {
    if |line| < LINE_MAX - 2 then Notice(line, seen)
    else if |line| == LINE_MAX - 2 then Notice(line + "\r", seen)
    else
      var next := Notice(line[..LINE_MAX - 1], seen);
      if |line| == LINE_MAX - 1 then next else NoticeAll(line[LINE_MAX - 1..], next)
  }

  /** The last header line, whatever its length. */
  lemma {:induction false} CheckLastLine(line: string, tail: string, seen: Seen, expected: string)
    requires OneLine(line) && line != ""
    ensures CheckHeaders(line + ("\r\n" + ("" + ("\r\n" + tail))), seen, expected) == Verdict(NoticeAll(line, seen), expected)
    decreases |line|
  {
    hide Notice, FillLine, Verdict;
    var rest := "" + ("\r\n" + tail);
    var s := line + ("\r\n" + rest);
    if |line| < LINE_MAX - 2 {
      CheckLine(line, rest, seen, expected);
      CheckEnd(tail, Notice(line, seen), expected);
    } else if |line| == LINE_MAX - 2 {
      var piece := line + "\r";
      assert s == piece + ("\n" + rest);
      FillPiece(piece, "\n" + rest);
      assert "\n" + rest == "" + (['\n'] + rest);
      FillEndsHere("", rest);
      EmptyCounts();
    } else {
      var piece, more := line[..LINE_MAX - 1], line[LINE_MAX - 1..];
      assert s == piece + (more + ("\r\n" + rest));
      FillPiece(piece, more + ("\r\n" + rest));
      if more == "" {
        assert more + ("\r\n" + rest) == "" + ("\r\n" + rest);
        CheckEnd(rest, Notice(piece, seen), expected);
      } else {
        CheckLastLine(more, tail, Notice(piece, seen), expected);
      }
    }
  }

  lemma EmptyCounts()
    ensures |StripCr("")| == 0
  {
  }

  /** A full buffer without a newline is handed over as it is. */
  lemma FillPiece(piece: string, rest: string)
    requires OneLine(piece) && |piece| == LINE_MAX - 1
    ensures FillLine(piece + rest) == BufferLine(LINE_MAX - 1, piece, rest)
  {
    var s := piece + rest;
    assert s[..LINE_MAX - 1] == piece && s[LINE_MAX - 1..] == rest;
    FillWithoutNewline(s);
    CStringWhole(piece);
  }

  lemma CheckEnd(rest: string, seen: Seen, expected: string)
    ensures CheckHeaders("" + ("\r\n" + rest), seen, expected) == Verdict(seen, expected)
  {
    hide FillLine, Verdict;
    FillLineCrlf("", rest);
  }

  lemma ResponseText(v: string, tail: string)
    ensures var l := "Sec-WebSocket-Accept: " + v;
            Response(v) + tail == SWITCHING + ("\r\n" + (UPGRADE + ("\r\n" + (CONNECTION + ("\r\n" + (l + ("\r\n" + ("" + ("\r\n" + tail)))))))))
  {
    hide Crlf;
    var l := "Sec-WebSocket-Accept: " + v;
    var t0 := "" + ("\r\n" + tail);
    CrlfTail([SWITCHING, UPGRADE, CONNECTION, l, ""], 4, tail);
    CrlfTail([SWITCHING, UPGRADE, CONNECTION, l, ""], 3, tail);
    CrlfTail([SWITCHING, UPGRADE, CONNECTION, l, ""], 2, tail);
    CrlfTail([SWITCHING, UPGRADE, CONNECTION, l, ""], 1, tail);
    CrlfTail([SWITCHING, UPGRADE, CONNECTION, l, ""], 0, tail);
    CrlfEmpty();
    assert [SWITCHING, UPGRADE, CONNECTION, l, ""][5..] == [];
    assert "" + tail == tail;
    assert [SWITCHING, UPGRADE, CONNECTION, l, ""][0..] == [SWITCHING, UPGRADE, CONNECTION, l, ""];
  }

  lemma CrlfEmpty()
    ensures Crlf([]) == ""
  {
  }

  lemma CrlfTail(lines: seq<string>, i: nat, tail: string)
    requires i < |lines|
    ensures Crlf(lines[i..]) + tail == lines[i] + ("\r\n" + (Crlf(lines[i + 1..]) + tail))
  {
    assert lines[i..][1..] == lines[i + 1..];
    var a, b := lines[i], Crlf(lines[i + 1..]);
    assert a + ("\r\n" + b) + tail == a + ("\r\n" + (b + tail));
  }

  /** The accept value the client takes from the server's header line. */
  ghost function AcceptSeen(v: string): string {
    NoticeAll("Sec-WebSocket-Accept: " + v, Seen(true, true, "")).accept
  }

  /** The longest value whose header line the client's buffer takes in one piece. */
  const VALUE_MAX: nat := LINE_MAX - 1 - |NAME|

  /** Up to that length it is the value without surrounding blanks, if that fits too. */
  lemma AcceptSeenShort(v: string)
    requires |v| <= VALUE_MAX
    ensures AcceptSeen(v) == if |Taken(v)| < ACCEPT_MAX then Taken(v) else ""
  {
    hide Notice, Taken;
    var line, seen := NAME + v, Seen(true, true, "");
    AcceptLine(v, seen);
    if |line| == LINE_MAX - 2 {
      AcceptLine(v + "\r", seen);
      TakenWithoutCr(v);
      assert line + "\r" == NAME + (v + "\r");
    } else if |line| == LINE_MAX - 1 {
      assert line[..LINE_MAX - 1] == line;
    }
  }

  lemma TakenWithoutCr(v: string)
    ensures Taken(v + "\r") == Taken(v)
  {
    BlanksWithoutCr(v);
    var x := TrimBlanks(v);
    assert (x + "\r")[..|x|] == x;
  }

  lemma {:induction false} BlanksWithoutCr(v: string)
    ensures TrimBlanks(v + "\r") == TrimBlanks(v) + "\r"
  {
    if v != "" && (v[0] == ' ' || v[0] == '\t') {
      BlanksWithoutCr(v[1..]);
      assert (v + "\r")[1..] == v[1..] + "\r";
    }
  }

  lemma {:induction false} FlagsStay(line: string, seen: Seen)
    requires seen.upgrade && seen.connection
    ensures NoticeAll(line, seen).upgrade && NoticeAll(line, seen).connection
    decreases |line|
  {
    hide IContains, HeaderValue;
    if |line| > LINE_MAX - 1 {
      FlagsStay(line[LINE_MAX - 1..], Notice(line[..LINE_MAX - 1], seen));
    }
  }

  /** The client accepts a 101 response in the server's form if and only if the accept value it takes from it is the expected one. */
  lemma ClientReading(v: string, expected: string, tail: string)
    requires OneLine(v) && expected != ""
    ensures ClientCheck(Response(v) + tail, expected) == (if AcceptSeen(v) == expected then HsOk else HandshakeError)
  {
    hide Response, Notice, NoticeAll, FillLine, IContains, OneLine;
    var l := "Sec-WebSocket-Accept: " + v;
    ResponseText(v, tail);
    Literals();
    AcceptNameIsOneLine();
    SwitchingIsOneLine();
    OneLineConcat("Sec-WebSocket-Accept: ", v);
    var r4 := "" + ("\r\n" + tail);
    var r3 := l + ("\r\n" + r4);
    var r2 := CONNECTION + ("\r\n" + r3);
    var r1 := UPGRADE + ("\r\n" + r2);
    FillLineCrlf(SWITCHING, r1);
    StatusLine();
    var s0 := Seen(false, false, "");
    CheckLine(UPGRADE, r2, s0, expected);
    UpgradeLine(s0);
    CheckLine(CONNECTION, r3, Seen(true, false, ""), expected);
    ConnectionLine(Seen(true, false, ""));
    CheckLastLine(l, tail, Seen(true, true, ""), expected);
    FlagsStay(l, Seen(true, true, ""));
  }

  /**
   * The client accepts a 101 response in the server's form if and only if its accept value, without
   * surrounding blanks, is the expected one and fits the client's buffer; every other value is
   * rejected. This is so for values of up to 2025 characters.
   */
  lemma ClientVerdict(v: string, expected: string, tail: string)
    requires OneLine(v) && |v| <= VALUE_MAX && expected != ""
    ensures ClientCheck(Response(v) + tail, expected)
         == (if |Taken(v)| < ACCEPT_MAX && Taken(v) == expected then HsOk else HandshakeError)
  {
    hide ClientCheck, Response, AcceptSeen, Taken;
    ClientReading(v, expected, tail);
    AcceptSeenShort(v);
  }

  /** The value v, blanks to the end of the client's buffer, and then something else. */
  function Overlong(v: string, n: nat): (s: string)
    requires |v| <= VALUE_MAX < n
    ensures |s| == n
  {
    v + Spaces(VALUE_MAX - |v|) + Filler(n - VALUE_MAX)
  }

  /** A header line without a colon changes nothing. */
  lemma {:induction false} FillerIsIgnored(line: string, seen: Seen)
    requires (forall c :: c in line ==> c == 'x') && seen.upgrade && seen.connection
    ensures NoticeAll(line, seen) == seen
    decreases |line|
  {
    hide IContains, HeaderValue;
    FillerNamesNothing(line, seen);
    FillerNamesNothing(line + "\r", seen);
    if |line| >= LINE_MAX - 1 {
      var piece, more := line[..LINE_MAX - 1], line[LINE_MAX - 1..];
      assert line == piece + more;
      assert forall c :: c in piece || c in more ==> c in piece + more;
      FillerNamesNothing(piece, seen);
      if more != "" { FillerIsIgnored(more, seen); }
    }
  }

  lemma FillerNamesNothing(line: string, seen: Seen)
    requires (forall c :: c in line ==> c == 'x' || c == '\r') && seen.upgrade && seen.connection
    ensures Notice(line, seen) == seen
  {
    hide IContains, HeaderValue;
    assert Lower("sec-websocket-accept:")[3] == '-';
    assert '-' !in Lower(line) by {
      forall c | c in Lower(line)
        ensures c != '-'
      {
        var i :| 0 <= i < |line| && Lower(line)[i] == ToLower(line[i]) == c;
        assert line[i] in line;
      }
    }
    ILacks(line, "sec-websocket-accept:", '-');
  }

  lemma OverlongIsSeen(v: string, n: nat)
    requires 0 < |v| < ACCEPT_MAX && VALUE_MAX < n && forall c :: c in v ==> !IsTrimmed(c)
    ensures AcceptSeen(Overlong(v, n)) == v
  {
    hide Notice, Taken;
    var seen := Seen(true, true, "");
    var piece, more := v + Spaces(VALUE_MAX - |v|), Filler(n - VALUE_MAX);
    var line := NAME + Overlong(v, n);
    assert line == (NAME + piece) + more;
    assert line[..LINE_MAX - 1] == NAME + piece && line[LINE_MAX - 1..] == more;
    AcceptLine(piece, seen);
    TakenBeforeSpaces(v, VALUE_MAX - |v|);
    assert Notice(NAME + piece, seen) == Seen(true, true, v);
    FillerIsIgnored(more, Seen(true, true, v));
    assert NoticeAll(line, seen) == NoticeAll(more, Seen(true, true, v));
  }

  lemma TakenBeforeSpaces(v: string, k: nat)
    requires v != "" && forall c :: c in v ==> !IsTrimmed(c)
    ensures Taken(v + Spaces(k)) == v
  {
    assert v[0] in v && (v + Spaces(k))[0] == v[0];
    TrimSpaces(v, k);
  }

  lemma {:induction false} TrimSpaces(v: string, k: nat)
    requires v != "" && forall c :: c in v ==> !IsTrimmed(c)
    ensures TrimRight(v + Spaces(k)) == v
  {
    var s := v + Spaces(k);
    if k == 0 {
      assert s == v && v[|v| - 1] in v;
    } else {
      TrimSpaces(v, k - 1);
      assert s[|s| - 1] == ' ' && s[..|s| - 1] == v + Spaces(k - 1);
    }
  }

  lemma OverlongIsPlain(v: string, n: nat)
    requires OneLine(v) && |v| <= VALUE_MAX < n && v != "" && forall c :: c in v ==> !IsTrimmed(c)
    ensures OneLine(Overlong(v, n)) && Taken(Overlong(v, n)) == Overlong(v, n)
  {
    var s, blanks, more := Overlong(v, n), Spaces(VALUE_MAX - |v|), Filler(n - VALUE_MAX);
    OneLineConcat(v + blanks, more);
    OneLineConcat(v, blanks);
    assert v[0] in v && s[0] == v[0];
    assert more[|more| - 1] in more && s[|s| - 1] == more[|more| - 1];
  }

  /** Values of length n are judged by what they are, for every response and key, if and only if n is at most 2025. */
  ghost predicate Judged(n: nat, key: string, tail: string) {
    forall v :: OneLine(v) && |v| == n && ClientCheck(Response(v) + tail, AcceptKey(key)) == HsOk ==> Taken(v) == AcceptKey(key)
  }

  /** A wrong accept value can be accepted exactly from 2026 characters on. */
  lemma RejectionLimit(n: nat, key: string, tail: string)
    ensures Judged(n, key, tail) <==> n <= VALUE_MAX
    ensures VALUE_MAX == 2025
  {
    var expected := AcceptKey(key);
    AcceptKeyShape(key);
    hide AcceptKey, ClientCheck, Response, Taken, AcceptSeen, Overlong;
    if n <= VALUE_MAX {
      forall v | OneLine(v) && |v| == n && ClientCheck(Response(v) + tail, expected) == HsOk
        ensures Taken(v) == expected
      {
        ClientVerdict(v, expected, tail);
      }
    } else {
      var v := Overlong(expected, n);
      OverlongIsSeen(expected, n);
      OverlongIsPlain(expected, n);
      ClientReading(v, expected, tail);
    }
  }

  function Filler(n: nat): (s: string)
    ensures |s| == n && (forall c :: c in s ==> c == 'x')
  {
    seq(n, _ => 'x')
  }

  const NAME: string := "Sec-WebSocket-Accept: "

  /** The value behind which a second accept header starts exactly where the client's buffer ends. */
  function Smuggled(v: string): string {
    Filler(LINE_MAX - 1 - |NAME|) + NAME + v
  }

  /** So an over-long value can be accepted although it is not the expected one. */
  lemma LongValueCanBeAccepted(key: string, tail: string)
    ensures var v := Smuggled(AcceptKey(key));
            && Taken(v) != AcceptKey(key) && |v| > 2000
            && ClientCheck(Response(v) + tail, AcceptKey(key)) == HsOk
  {
    var expected := AcceptKey(key);
    var v := Smuggled(expected);
    AcceptKeyShape(key);
    hide AcceptKey, Taken, ClientCheck, Response, Smuggled;
    SmuggledIsSeen(expected);
    SmuggledIsPlain(expected);
    ClientReading(v, expected, tail);
  }

  lemma SmuggledIsSeen(v: string)
    requires |v| == 28 && Taken(v) == v
    ensures AcceptSeen(Smuggled(v)) == v
  {
    hide Notice, Taken;
    var first, second := NAME + Filler(LINE_MAX - 1 - |NAME|), NAME + v;
    var line := NAME + Smuggled(v);
    assert line == first + second;
    assert line[..LINE_MAX - 1] == first && line[LINE_MAX - 1..] == second;
    NoticeKeepsFlags(first, Seen(true, true, ""));
    var seen := Notice(first, Seen(true, true, ""));
    AcceptLine(v, seen);
    assert NoticeAll(second, seen) == Notice(second, seen);
    assert |line| > LINE_MAX - 1;
    assert NoticeAll(line, Seen(true, true, "")) == NoticeAll(second, seen);
    assert AcceptSeen(Smuggled(v)) == NoticeAll(line, Seen(true, true, "")).accept;
  }

  lemma NoticeKeepsFlags(line: string, seen: Seen)
    requires seen.upgrade && seen.connection
    ensures Notice(line, seen).upgrade && Notice(line, seen).connection
  {
    hide IContains, HeaderValue;
  }

  lemma SmuggledIsPlain(v: string)
    requires OneLine(v) && v != "" && forall c :: c in v ==> !IsTrimmed(c)
    ensures OneLine(Smuggled(v)) && Taken(Smuggled(v)) == Smuggled(v) && |Smuggled(v)| > 2000 + |v|
  {
    AcceptNameIsOneLine();
    var f := Filler(LINE_MAX - 1 - |NAME|);
    OneLineConcat(f + NAME, v);
    OneLineConcat(f, NAME);
    assert f[0] in f && v[|v| - 1] in v;
    var s := Smuggled(v);
    assert s[0] == f[0] && s[|s| - 1] == v[|v| - 1];
  }

  lemma AcceptNameIsOneLine()
    ensures OneLine("Sec-WebSocket-Accept: ")
  {
  }

  lemma SwitchingIsOneLine()
    ensures OneLine(SWITCHING)
  {
  }

  lemma AcceptKeyShape(key: string)
    ensures |AcceptKey(key)| == 28 && OneLine(AcceptKey(key)) && Taken(AcceptKey(key)) == AcceptKey(key)
    ensures forall c :: c in AcceptKey(key) ==> !IsTrimmed(c)
  {
    var digest := Sha1.Digest(ToBytes(key + GUID));
    hide AcceptKey, Sha1.Digest;
    assert AcceptKey(key) == Base64.Encode(digest) by { AcceptIs(key); }
    Base64.EncodedShape(digest, 0);
    KeyIsClean(digest);
    CleanTaken(AcceptKey(key));
  }

  lemma AcceptIs(key: string)
    ensures AcceptKey(key) == Base64.Encode(Sha1.Digest(ToBytes(key + GUID)))
  {
  }

  lemma CleanTaken(s: string)
    requires s != "" && forall c :: c in s ==> !IsTrimmed(c)
    ensures Taken(s) == s
  {
    assert s[0] in s && s[|s| - 1] in s;
  }

  /** Client and server agree: the server's answer to the client's request is one the client accepts. */
  lemma HandshakeAgrees(p: Params, after: string, tail: string)
    requires Sendable(p)
    ensures ServerReply(Request(p) + after).Some?
    ensures ClientCheck(ServerReply(Request(p) + after).value + tail, AcceptKey(KeyOf(p))) == HsOk
  {
    hide ServerReply, Request, Response, ClientCheck, AcceptKey, KeyOf;
    ServerAcceptsClient(p, after);
    AcceptKeyShape(KeyOf(p));
    AcceptSeenShort(AcceptKey(KeyOf(p)));
    ClientVerdict(AcceptKey(KeyOf(p)), AcceptKey(KeyOf(p)), tail);
  }

  lemma ByteTextConcat(a: string, b: string)
    ensures ByteText(a + b) <==> ByteText(a) && ByteText(b)
  {
    if ByteText(a + b) {
      assert forall c :: c in a || c in b ==> c in a + b;
    }
  }

  lemma {:induction false} CrlfIsBytes(lines: seq<string>)
    requires forall l :: l in lines ==> ByteText(l)
    ensures ByteText(Crlf(lines))
  {
    hide ByteText;
    if lines != [] {
      CrlfIsBytes(lines[1..]);
      ByteTextConcat("\r\n", Crlf(lines[1..]));
      ByteTextConcat(lines[0], "\r\n" + Crlf(lines[1..]));
      assert ByteText("\r\n") by { LineEndIsBytes(); }
    }
    if lines == [] { LineEndIsBytes(); }
  }

  lemma LineEndIsBytes()
    ensures ByteText("\r\n") && ByteText("")
  {
  }

  /** The request is a text of bytes when host and path are. */
  lemma RequestIsBytes(p: Params)
    requires Sendable(p) && ByteText(p.host) && ByteText(p.path)
    ensures ByteText(Request(p))
  {
    hide ByteText, Crlf, KeyOf;
    LineEndIsBytes();
    GetIsBytes(p);
    HostIsBytes(p);
    KeyIsBytes(p);
    FixedLinesAreBytes();
    CrlfIsBytes(["GET " + p.path + " HTTP/1.1"] + Headers(p) + [""]);
  }

  lemma GetIsBytes(p: Params)
    requires ByteText(p.path)
    ensures ByteText("GET " + p.path + " HTTP/1.1")
  {
    assert ByteText("GET ") && ByteText(" HTTP/1.1");
    hide ByteText;
    ByteTextConcat("GET ", p.path);
    ByteTextConcat("GET " + p.path, " HTTP/1.1");
  }

  lemma HostIsBytes(p: Params)
    requires ByteText(p.host)
    ensures ByteText(HostLine(p))
  {
    DecimalRoundTrip(p.port);
    hide Decimal;
    assert ByteText("Host: ") && ByteText(":") && ByteText(Decimal(p.port));
    hide ByteText;
    ByteTextConcat("Host: ", p.host);
    ByteTextConcat("Host: " + p.host, ":");
    ByteTextConcat("Host: " + p.host + ":", Decimal(p.port));
  }

  lemma KeyIsBytes(p: Params)
    ensures ByteText("Sec-WebSocket-Key: " + KeyOf(p))
  {
    assert ByteText("Sec-WebSocket-Key: ");
    Base64.EncodedShape(p.nonce, 0);
    assert ByteText(KeyOf(p)) by {
      hide Base64.EncodeFrom;
      assert KeyOf(p) == Base64.EncodeFrom(p.nonce, 0);
    }
    hide ByteText;
    ByteTextConcat("Sec-WebSocket-Key: ", KeyOf(p));
  }

  lemma FixedLinesAreBytes()
    ensures ByteText(UPGRADE) && ByteText(CONNECTION) && ByteText(VERSION)
  {
    AsciiBelow(UPGRADE);
    AsciiBelow(CONNECTION);
    AsciiBelow(VERSION);
  }

  lemma AsciiBelow(s: string)
    requires forall i :: 0 <= i < |s| ==> s[i] < 256 as char
    ensures ByteText(s)
  {
  }

  const REQUEST_MAX: nat := 1024

  /** The sending half of the client's do_handshake: refuses a request that does not fit its buffer. */
  method SendRequest(sock: Socket<char>, p: Params) returns (ok: bool, expected: string)
    requires |p.nonce| == 16
    modifies sock`outbox, sock`room
    ensures |Request(p)| >= REQUEST_MAX ==> !ok && sock.outbox == old(sock.outbox)
    ensures |Request(p)| < REQUEST_MAX ==>
              sock.outbox == old(sock.outbox) + Take(Request(p), old(sock.room)) && (ok <==> |Request(p)| <= old(sock.room))
    ensures ok ==> expected == AcceptKey(KeyOf(p))
  {
    expected := "";
    var request := Request(p);
    if |request| >= REQUEST_MAX {
      return false, expected;
    }
    ok := SendExact(sock, request);
    if ok {
      expected := ComputeAcceptKey(KeyOf(p));
    }
  }
}
