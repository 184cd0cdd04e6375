/** RTSP message framing: the incremental response parser and the buffered connection. */
module Rtsp {
  import opened Bytes
  import opened Search
  import Utf8

  // ----- text -----

  const CRLF := "\r\n"
  const HEAD_END: seq<byte> := [13, 10, 13, 10]
  const MAX_USIZE: nat := 0xFFFF_FFFF_FFFF_FFFF

  /** The pieces between non-overlapping line breaks, found left to right. */
  function Lines(s: string): (r: seq<string>)
    ensures r != []
  {
    match FindSubsequence(s, CRLF)
    case None => [s]
    case Some(k) => [s[..k]] + Lines(s[k + 2..])
  }

  /** The text before and after the first `c`, if there is one. */
  function SplitOnce(s: string, c: char): Option<(string, string)> {
    if s == "" then None
    else if s[0] == c then Some(("", s[1..]))
    else
      match SplitOnce(s[1..], c)
      case None => None
      case Some((a, b)) => Some(([s[0]] + a, b))
  }

  /** The Unicode White_Space property. */
  predicate Whitespace(c: char) {
    var x := c as int;
    0x09 <= x <= 0x0D || x == 0x20 || x == 0x85 || x == 0xA0 || x == 0x1680 || 0x2000 <= x <= 0x200A
    || x == 0x2028 || x == 0x2029 || x == 0x202F || x == 0x205F || x == 0x3000
  }

  function TrimStart(s: string): string {
    if s != "" && Whitespace(s[0]) then TrimStart(s[1..]) else s
  }

  function TrimEnd(s: string): string {
    if s != "" && Whitespace(s[|s| - 1]) then TrimEnd(s[..|s| - 1]) else s
  }

  function Trim(s: string): string {
    TrimEnd(TrimStart(s))
  }

  predicate Digit(c: char) {
    '0' <= c <= '9'
  }

  predicate Digits(s: string) {
    forall i :: 0 <= i < |s| ==> Digit(s[i])
  }

  function Number(s: string): nat
    requires Digits(s)
  {
    if s == "" then 0 else Number(s[..|s| - 1]) * 10 + (s[|s| - 1] as int - '0' as int)
  }

  /** Decimal digits behind an optional plus sign, not above `max`. */
  function ParseNumber(s: string, max: nat): Option<nat> {
    var digits := if s != "" && s[0] == '+' then s[1..] else s;
    if digits == "" || !Digits(digits) || Number(digits) > max then None else Some(Number(digits))
  }

  function AsciiLower(c: char): char {
    if 'A' <= c <= 'Z' then (c as int + 32) as char else c
  }

  predicate SameIgnoringCase(s: string, t: string) {
    |s| == |t| && forall i :: 0 <= i < |s| ==> AsciiLower(s[i]) == AsciiLower(t[i])
  }

  // ----- messages -----

  type Headers = seq<(string, string)>

  datatype Response = Response(status: u16, reason: string, headers: Headers, body: seq<byte>)

  /** `BodyOverflow` stands for the panic of the program. */
  datatype Error =
    | HeadNotUtf8 | BadStatusLine | BadStatusCode | MalformedHeader
    | BodyOverflow | WriteFailed | ReadFailed | ConnectionClosed

  datatype Head = Head(status: u16, reason: string, headers: Headers)

  datatype Result<+T> = Ok(value: T) | Err(error: Error)

  /** `Overflow`: the end of the body does not fit a machine word, and the program panics. */
  datatype Parsed = Incomplete | Message(response: Response, consumed: nat) | Invalid(error: Error) | Overflow

  /** Case-insensitive lookup of the first header of that name. */
  function Lookup(headers: Headers, name: string): Option<string> {
    if headers == [] then None
    else if SameIgnoringCase(headers[0].0, name) then Some(headers[0].1)
    else Lookup(headers[1..], name)
  }

  function ContentLength(headers: Headers): nat {
    match Lookup(headers, "content-length")
    case None => 0
    case Some(v) =>
      match ParseNumber(v, MAX_USIZE)
      case None => 0
      case Some(n) => n
  }

  function ParseHeaders(lines: seq<string>): Result<Headers> {
    if lines == [] then Ok([])
    else if lines[0] == "" then ParseHeaders(lines[1..])
    else
      match SplitOnce(lines[0], ':')
      case None => Err(MalformedHeader)
      case Some((k, v)) =>
        match ParseHeaders(lines[1..])
        case Err(e) => Err(e)
        case Ok(rest) => Ok([(Trim(k), Trim(v))] + rest)
  }

  function StatusOf(line: string): Result<(u16, string)> {
    var (version, after) := match SplitOnce(line, ' ') case None => (line, None) case Some((a, b)) => (a, Some(b));
    if !("RTSP/" <= version) then Err(BadStatusLine)
    else if after.None? then Err(BadStatusCode)
    else
      var (code, reason) :=
        match SplitOnce(after.value, ' ') case None => (after.value, "") case Some((a, b)) => (a, b);
      match ParseNumber(code, 0xFFFF)
      case None => Err(BadStatusCode)
      case Some(n) => Ok((n, reason))
  }

  function ParseHead(head: seq<byte>): Result<Head> {
    match Utf8.Decode(head)
    case None => Err(HeadNotUtf8)
    case Some(text) =>
      var lines := Lines(text);
      match StatusOf(lines[0])
      case Err(e) => Err(e)
      case Ok((status, reason)) =>
        match ParseHeaders(lines[1..])
        case Err(e) => Err(e)
        case Ok(headers) => Ok(Head(status, reason, headers))
  }

  /** One response from the front of `buf`, if it is all there. */
  function Parse(buf: seq<byte>): Parsed {
    match FindSubsequence(buf, HEAD_END)
    case None => Incomplete
    case Some(end) =>
      match ParseHead(buf[..end])
      case Err(e) => Invalid(e)
      case Ok(h) =>
        var start := end + 4;
        var stop := start + ContentLength(h.headers);
        if stop > MAX_USIZE then Overflow
        else if |buf| < stop then Incomplete
        else Message(Response(h.status, h.reason, h.headers, buf[start..stop]), stop)
  }

  function Behind(headers: Headers, rest: Result<Headers>): Result<Headers> {
    match rest case Err(e) => Err(e) case Ok(more) => Ok(headers + more)
  }

  lemma BehindStep(headers: Headers, line: string, rest: seq<string>)
    ensures line == "" ==> Behind(headers, ParseHeaders([line] + rest)) == Behind(headers, ParseHeaders(rest))
    ensures line != "" && SplitOnce(line, ':').None? ==> ParseHeaders([line] + rest) == Err(MalformedHeader)
    ensures line != "" && SplitOnce(line, ':').Some? ==>
      var (k, v) := SplitOnce(line, ':').value;
      Behind(headers, ParseHeaders([line] + rest)) == Behind(headers + [(Trim(k), Trim(v))], ParseHeaders(rest))
  {
    assert ([line] + rest)[1..] == rest;
    if line != "" && SplitOnce(line, ':').Some? && ParseHeaders(rest).Ok? {
      var (k, v) := SplitOnce(line, ':').value;
      var more := ParseHeaders(rest).value;
      assert headers + ([(Trim(k), Trim(v))] + more) == headers + [(Trim(k), Trim(v))] + more;
    }
  }

  method CollectHeaders(lines: seq<string>) returns (r: Result<Headers>)
    ensures r == ParseHeaders(lines)
  {
    hide ParseHeaders, SplitOnce, Trim;
    var headers: Headers := [];
    BehindNothing(ParseHeaders(lines));
    assert lines[0..] == lines;
    for i := 0 to |lines|
      invariant Behind(headers, ParseHeaders(lines[i..])) == ParseHeaders(lines)
    {
      assert lines[i..] == [lines[i]] + lines[i + 1..];
      BehindStep(headers, lines[i], lines[i + 1..]);
      if lines[i] != "" {
        var split := SplitOnce(lines[i], ':');
        if split.None? {
          return Err(MalformedHeader);
        }
        headers := headers + [(Trim(split.value.0), Trim(split.value.1))];
      }
    }
    NoHeaders(lines[|lines|..]);
    assert headers + [] == headers;
    r := Ok(headers);
  }

  lemma NoHeaders(lines: seq<string>)
    requires lines == []
    ensures ParseHeaders(lines) == Ok([])
  {
  }

  lemma BehindNothing(r: Result<Headers>)
    ensures Behind([], r) == r
  {
    if r.Ok? {
      assert [] + r.value == r.value;
    }
  }

  method ParseResponse(buf: seq<byte>) returns (r: Parsed)
    ensures r == Parse(buf)
  {
    hide FindSubsequence, ParseHeaders, StatusOf, ContentLength, Lines;
    var found := FindSubsequence(buf, HEAD_END);
    if found.None? {
      return Incomplete;
    }
    var text := Utf8.Decode(buf[..found.value]);
    if text.None? {
      return Invalid(HeadNotUtf8);
    }
    var lines := Lines(text.value);
    var status := StatusOf(lines[0]);
    if status.Err? {
      return Invalid(status.error);
    }
    var headers := CollectHeaders(lines[1..]);
    if headers.Err? {
      return Invalid(headers.error);
    }
    var start := found.value + 4;
    var stop := start + ContentLength(headers.value);
    if stop > MAX_USIZE {
      return Overflow;
    }
    if |buf| < stop {
      return Incomplete;
    }
    r := Message(Response(status.value.0, status.value.1, headers.value, buf[start..stop]), stop);
  }

  /** With wrapping words: the body is not cut short as incomplete, and its slice runs backwards. */
  predicate SliceRunsBackwards(buf: seq<byte>) {
    match FindSubsequence(buf, HEAD_END)
    case None => false
    case Some(end) =>
      match ParseHead(buf[..end])
      case Err(_) => false
      case Ok(h) =>
        var stop := (end + 4 + ContentLength(h.headers)) % (MAX_USIZE + 1);
        stop <= |buf| && stop < end + 4
  }

  /** Where a checked addition overflows, a wrapping one makes the slice panic, and only there: both
      builds of the program stop on exactly the same buffers. */
  lemma {:induction false} OverflowExact(buf: seq<byte>)
    requires |buf| <= MAX_USIZE
    ensures Parse(buf).Overflow? <==> SliceRunsBackwards(buf)
  {
    hide ParseHead, FindSubsequence;
  }

  // ----- requests -----

  datatype Request = Request(verb: string, uri: string, headers: Headers, body: seq<byte>) {
    function WithHeader(name: string, value: string): Request {
      this.(headers := headers + [(name, value)])
    }

    /** Replaces any content headers by those of the new body. */
    function WithBody(contentType: string, body: seq<byte>): Request {
      this.(headers := WithoutContent(headers)
                       + [("Content-Type", contentType), ("Content-Length", Decimal(|body|))],
            body := body)
    }
  }

  function WithoutContent(headers: Headers): Headers {
    if headers == [] then []
    else
      (if SameIgnoringCase(headers[0].0, "content-type") || SameIgnoringCase(headers[0].0, "content-length") then []
       else [headers[0]])
      + WithoutContent(headers[1..])
  }

  function Decimal(n: nat): string {
    if n < 10 then [(n + '0' as int) as char] else Decimal(n / 10) + [(n % 10 + '0' as int) as char]
  }

  function HeaderLines(headers: Headers): string {
    if headers == [] then "" else headers[0].0 + ": " + headers[0].1 + CRLF + HeaderLines(headers[1..])
  }

  /** The wire form of a message: first line, headers, blank line, body. */
  function Wire(firstLine: string, headers: Headers, body: seq<byte>): seq<byte> {
    Utf8.Encode(firstLine + CRLF + HeaderLines(headers) + CRLF) + body
  }

  function Serialize(r: Request): seq<byte> {
    Wire(r.verb + " " + r.uri + " RTSP/1.0", r.headers, r.body)
  }

  method SerializeRequest(r: Request) returns (out: seq<byte>)
    ensures out == Serialize(r)
  {
    var text := r.verb + " " + r.uri + " RTSP/1.0" + CRLF;
    ghost var first := text;
    assert r.headers[0..] == r.headers;
    for i := 0 to |r.headers|
      invariant text + HeaderLines(r.headers[i..]) == first + HeaderLines(r.headers)
    {
      assert r.headers[i..][1..] == r.headers[i + 1..];
      text := text + (r.headers[i].0 + ": " + r.headers[i].1 + CRLF);
    }
    assert text == first + HeaderLines(r.headers);
    out := Utf8.Encode(text + CRLF) + r.body;
  }

  // ----- the connection -----

  /** What one read of the socket gives: some bytes, or an error. */
  datatype Delivery = Bytes(chunk: seq<byte>) | Failure

  /** The bytes ahead, cut only where a read fails, however the others split them. */
  function Runs(incoming: seq<Delivery>): (runs: seq<seq<byte>>)
    ensures runs != []
  {
    if incoming == [] then [[]]
    else
      match incoming[0]
      case Bytes(chunk) => Prepend(chunk, Runs(incoming[1..]))
      case Failure => [[]] + Runs(incoming[1..])
  }

  function Prepend(bytes: seq<byte>, runs: seq<seq<byte>>): (r: seq<seq<byte>>)
    requires runs != []
    ensures r != []
  {
    [bytes + runs[0]] + runs[1..]
  }

  /** What one request answers and what it leaves unread, from the bytes ahead on the stream. */
  function Outcome(ahead: seq<seq<byte>>): (r: (Result<Response>, seq<seq<byte>>))
    requires ahead != []
    ensures r.1 != []
  {
    match Parse(ahead[0])
    case Incomplete =>
      if |ahead| == 1 then (Err(ConnectionClosed), ahead) else (Err(ReadFailed), Prepend(ahead[0], ahead[1..]))
    case Invalid(e) => (Err(e), ahead)
    case Overflow => (Err(BodyOverflow), ahead)
    case Message(r, n) =>
      ParsedWithin(ahead[0]);
      (Ok(r), [ahead[0][n..]] + ahead[1..])
  }

  function Chunks(chunks: seq<seq<byte>>): (r: seq<Delivery>)
    ensures |r| == |chunks|
  {
    seq(|chunks|, i requires 0 <= i < |chunks| => Bytes(chunks[i]))
  }

  /** Without failing reads only the bytes matter, not where they were cut. */
  lemma {:induction false} ChunkingIrrelevant(chunks: seq<seq<byte>>)
    ensures Runs(Chunks(chunks)) == [Flatten(chunks)]
  {
    if chunks == [] {
    } else {
      assert Chunks(chunks)[1..] == Chunks(chunks[1..]);
      ChunkingIrrelevant(chunks[1..]);
    }
  }

  lemma ParsedWithin(buf: seq<byte>)
    ensures Parse(buf).Message? ==> 4 <= Parse(buf).consumed <= |buf|
  {
  }

  /** A message or an error, once found, is found whatever bytes follow. */
  lemma ParseStable(buf: seq<byte>, more: seq<byte>)
    requires !Parse(buf).Incomplete?
    ensures Parse(buf + more) == Parse(buf)
  {
    hide ParseHead, ContentLength, FindSubsequence;
    FindStable(buf, HEAD_END, more);
    var end := FindSubsequence(buf, HEAD_END).value;
    assert (buf + more)[..end] == buf[..end];
    if ParseHead(buf[..end]).Ok? {
      var start := end + 4;
      var stop := start + ContentLength(ParseHead(buf[..end]).value.headers);
      if stop <= MAX_USIZE {
        assert (buf + more)[start..stop] == buf[start..stop];
      }
    }
  }

  lemma {:induction false} PrependTwice(a: seq<byte>, b: seq<byte>, runs: seq<seq<byte>>)
    requires runs != []
    ensures Prepend(a, Prepend(b, runs)) == Prepend(a + b, runs)
  {
    assert a + (b + runs[0]) == a + b + runs[0];
  }

  class RtspConnection {
    var buf: seq<byte>
    var cseq: u32
    /** What the socket will give to reads; then the peer has closed. */
    var incoming: seq<Delivery>
    var sent: seq<byte>

    /** A read gives at most the size of its buffer, and nothing only at the end of the stream. */
    ghost predicate Valid()
      reads this
    {
      forall i :: 0 <= i < |incoming| && incoming[i].Bytes? ==> 0 < |incoming[i].chunk| <= 4096
    }

    /** Everything still ahead. */
    ghost function Ahead(): (runs: seq<seq<byte>>)
      reads this
      ensures runs != []
    {
      Prepend(buf, Runs(incoming))
    }

    constructor (incoming: seq<Delivery>)
      requires forall i :: 0 <= i < |incoming| && incoming[i].Bytes? ==> 0 < |incoming[i].chunk| <= 4096
      ensures Valid() && cseq == 0 && sent == [] && Ahead() == Runs(incoming)
    {
      buf, cseq, sent := [], 0, [];
      this.incoming := incoming;
      assert [] + Runs(incoming)[0] == Runs(incoming)[0];
    }

    /** Sends one request and reads until its response is complete; `fault` is the number of bytes
        after which writing or flushing fails, if it does. The answer and what stays unread depend on
        the bytes of the stream and on where reads fail, not on how the bytes were split. */
    method Exchange(req: Request, fault: Option<nat>) returns (r: Result<Response>)
      requires Valid()
      modifies this
      ensures Valid() && cseq == (old(cseq) + 1) % 0x1_0000_0000
      ensures var bytes := Serialize(req.(headers := req.headers + [("CSeq", Decimal(cseq))]));
              sent == old(sent) + match fault case None => bytes case Some(k) => bytes[..Min(k, |bytes|)]
      ensures fault.Some? ==> r == Err(WriteFailed) && Ahead() == old(Ahead())
      ensures fault.None? ==> (r, Ahead()) == Outcome(old(Ahead()))
    {
      hide Parse, Serialize, FindSubsequence, Prepend, Runs;
      cseq := (cseq + 1) % 0x1_0000_0000;
      var bytes := SerializeRequest(req.WithHeader("CSeq", Decimal(cseq)));
      if fault.Some? {
        sent := sent + bytes[..Min(fault.value, |bytes|)];
        return Err(WriteFailed);
      }
      sent := sent + bytes;
      r := Await();
    }

    /** The read loop: parses what is buffered, and reads on while it is incomplete. */
    method Await() returns (r: Result<Response>)
      requires Valid()
      modifies this`buf, this`incoming
      ensures Valid() && (r, Ahead()) == Outcome(old(Ahead()))
    {
      hide Parse, FindSubsequence, Prepend, Runs;
      while true
        invariant Valid() && Ahead() == old(Ahead())
        decreases |incoming|
      {
        AheadStep(buf, incoming);
        var p := ParseResponse(buf);
        if !p.Incomplete? {
          ParseStable(buf, Runs(incoming)[0]);
          ParsedWithin(buf);
          if p.Invalid? {
            return Err(p.error);
          }
          if p.Overflow? {
            return Err(BodyOverflow);
          }
          PrependDrops(buf, Runs(incoming), p.consumed);
          buf := buf[p.consumed..];
          return Ok(p.response);
        }
        if incoming == [] {
          return Err(ConnectionClosed);
        }
        if incoming[0].Failure? {
          incoming := incoming[1..];
          return Err(ReadFailed);
        }
        PrependTwice(buf, incoming[0].chunk, Runs(incoming[1..]));
        buf := buf + incoming[0].chunk;
        incoming := incoming[1..];
      }
    }
  }

  /** How the first read ahead shows in the runs. */
  lemma {:induction false} AheadStep(buf: seq<byte>, incoming: seq<Delivery>)
    ensures Prepend(buf, Runs(incoming))[0] == buf + Runs(incoming)[0]
    ensures incoming == [] ==> Prepend(buf, Runs(incoming)) == [buf]
    ensures incoming != [] && incoming[0].Bytes? ==>
      Runs(incoming) == Prepend(incoming[0].chunk, Runs(incoming[1..]))
    ensures incoming != [] && incoming[0].Failure? ==>
      Prepend(buf, Runs(incoming)) == [buf] + Runs(incoming[1..])
  {
    assert buf + [] == buf;
  }

  lemma {:induction false} PrependDrops(buf: seq<byte>, runs: seq<seq<byte>>, n: nat)
    requires runs != [] && n <= |buf|
    ensures [Prepend(buf, runs)[0][n..]] + Prepend(buf, runs)[1..] == Prepend(buf[n..], runs)
  {
    assert (buf + runs[0])[n..] == buf[n..] + runs[0];
  }
}
