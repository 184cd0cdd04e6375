/** Requests as a receiver reads them (RFC 2326, section 6), and what a response must not look like. */
module RtspRequests {
  import opened Bytes
  import opened Rtsp
  import opened RtspStream
  import opened Search
  import Utf8

  /** Method, URI and version, each behind one space. */
  function ReadRequestLine(line: string): Option<(string, string)> {
    match SplitOnce(line, ' ')
    case None => None
    case Some((verb, behind)) =>
      match SplitOnce(behind, ' ')
      case None => None
      case Some((uri, version)) => if version == "RTSP/1.0" then Some((verb, uri)) else None
  }

  /** One request from the front of a stream, and what follows it. */
  function ReadRequest(stream: seq<byte>): Option<(Request, seq<byte>)> {
    match FindSubsequence(stream, HEAD_END)
    case None => None
    case Some(end) =>
      match Utf8.Decode(stream[..end])
      case None => None
      case Some(text) =>
        var lines := Lines(text);
        match (ReadRequestLine(lines[0]), ParseHeaders(lines[1..]))
        case (Some((verb, uri)), Ok(headers)) =>
          var body := stream[end + 4..];
          if |body| < ContentLength(headers) then None
          else Some((Request(verb, uri, headers, body[..ContentLength(headers)]), body[ContentLength(headers)..]))
        case (_, _) => None
  }

  /** What a caller may send: verb and URI of one word each, clean headers, and the length of the body
      announced if there is one. */
  predicate Sendable(r: Request) {
    && OneLine(r.verb) && OneLine(r.uri) && ' ' !in r.verb && ' ' !in r.uri
    && (forall i :: 0 <= i < |r.headers| ==> CleanHeader(r.headers[i]))
    && ContentLength(r.headers) == |r.body|
  }

  lemma {:induction false} RequestLineRead(verb: string, uri: string)
    requires OneLine(verb) && OneLine(uri) && ' ' !in verb && ' ' !in uri
    ensures var line := verb + " " + uri + " RTSP/1.0";
            ReadRequestLine(line) == Some((verb, uri)) && line != "" && OneLine(line)
  {
    hide SplitOnce;
    var line := verb + " " + uri + " RTSP/1.0";
    var behind := uri + [' '] + "RTSP/1.0";
    assert line == verb + [' '] + behind;
    SplitAtFirst(verb, ' ', behind);
    SplitAtFirst(uri, ' ', "RTSP/1.0");
    OneLineVersion();
  }

  lemma OneLineVersion()
    ensures OneLine(" RTSP/1.0") && OneLine(" ")
  {
  }

  function RequestLines(r: Request): (lines: seq<string>)
    ensures lines != []
  {
    [r.verb + " " + r.uri + " RTSP/1.0"] + LinesOf(r.headers)
  }

  lemma {:induction false} RequestShape(r: Request)
    ensures Serialize(r) == Utf8.Encode(Joined(RequestLines(r))) + HEAD_END + r.body
  {
    hide Utf8.Encode, Joined, HeaderLines, HeaderLine;
    var first := r.verb + " " + r.uri + " RTSP/1.0";
    HeaderLinesJoined(first, r.headers);
    var head := Joined(RequestLines(r));
    assert first + CRLF + HeaderLines(r.headers) + CRLF == head + CRLF + CRLF;
    Utf8.EncodeConcat(head + CRLF, CRLF);
    Utf8.EncodeConcat(head, CRLF);
    EncodedBreak();
    assert Utf8.Encode(head) + [13, 10] + [13, 10] == Utf8.Encode(head) + HEAD_END;
  }

  lemma {:induction false} RequestLinesClean(r: Request)
    requires Sendable(r)
    ensures CleanLines(RequestLines(r))
  {
    hide HeaderLine, ReadRequestLine, OneLine, ContentLength;
    RequestLineRead(r.verb, r.uri);
    forall i | 0 <= i < |r.headers| ensures HeaderLine(r.headers[i]) != "" && OneLine(HeaderLine(r.headers[i])) {
      HeaderLineParses(r.headers[i]);
    }
  }

  /** Main result: a receiver reads back exactly the verb, URI, headers and body of any request sent, and
      finds what follows untouched. */
  lemma {:induction false} RequestRoundTrip(r: Request, rest: seq<byte>)
    requires Sendable(r)
    ensures ReadRequest(Serialize(r) + rest) == Some((r, rest))
  {
    hide Utf8.Encode, Utf8.Decode, Joined, Lines, ContentLength, FindSubsequence, CleanHeader, Serialize, HeaderLine;
    hide ReadRequestLine;
    var lines := RequestLines(r);
    var text := Joined(lines);
    var head := Utf8.Encode(text);
    RequestShape(r);
    RequestLinesClean(r);
    HeadEndFound(lines, r.body + rest);
    Utf8.DecodeEncode(text);
    LinesOfJoined(lines);
    RequestLineRead(r.verb, r.uri);
    HeadersParse(r.headers, lines[1..]);
    var stream := Serialize(r) + rest;
    assert stream == head + HEAD_END + (r.body + rest);
    assert stream[..|head|] == head;
    var body := stream[|head| + 4..];
    assert body == r.body + rest;
    assert body[..|r.body|] == r.body && body[|r.body|..] == rest;
  }

  /** The request that `Exchange` sends: the caller's, with the counter behind its headers. */
  lemma {:induction false} ExchangeSends(req: Request, n: nat, rest: seq<byte>)
    requires Sendable(req)
    ensures var sent := req.(headers := req.headers + [("CSeq", Decimal(n))]);
            ReadRequest(Serialize(req.WithHeader("CSeq", Decimal(n))) + rest) == Some((sent, rest))
    ensures Digits(Decimal(n)) && Number(Decimal(n)) == n
  {
    hide ReadRequest, Serialize, Decimal, Lookup, ParseNumber, SameIgnoringCase, Number;
    var h := ("CSeq", Decimal(n));
    var sent := req.(headers := req.headers + [h]);
    DecimalRoundTrip(n);
    CounterHeaderClean(Decimal(n));
    LookupConcat(req.headers, [h], "content-length");
    LookupOne(h, "content-length");
    NotContentLength();
    RequestRoundTrip(sent, rest);
  }

  lemma NotContentLength()
    ensures !SameIgnoringCase("CSeq", "content-length")
  {
    assert |"CSeq"| == 4 && |"content-length"| == 14;
  }

  lemma {:induction false} CounterHeaderClean(digits: string)
    requires Digits(digits)
    ensures CleanHeader(("CSeq", digits))
  {
    NoSpaceInDigits(digits);
    DigitsTrimmed(digits);
  }

  // ----- responses refused -----

  /** A first line is refused as no RTSP exactly when it does not start with `RTSP/`. */
  lemma {:induction false} VersionExact(line: string)
    ensures StatusOf(line) == Err(BadStatusLine) <==> !("RTSP/" <= line)
  {
    hide SplitOnce, Digits, Number;
    SplitParts(line, ' ');
    match SplitOnce(line, ' ') {
      case None =>
      case Some((a, b)) =>
        assert line == a + ([' '] + b);
        PrefixOfPart("RTSP/", a, [' '] + b);
    }
  }

  /** A word without spaces is at the front of a text exactly if it is at the front of its first word. */
  lemma {:induction false} PrefixOfPart(word: string, a: string, behind: string)
    requires ' ' !in word && behind != "" && behind[0] == ' '
    ensures word <= a <==> word <= a + behind
  {
    if |a| < |word| {
      assert word[|a|] in word;
      assert (a + behind)[|a|] == ' ';
    } else {
      assert (a + behind)[..|word|] == a[..|word|];
    }
  }

  lemma {:induction false} SplitParts(s: string, c: char)
    ensures match SplitOnce(s, c)
            case None => c !in s
            case Some((a, b)) => c !in a && s == a + [c] + b && c in s
  {
    if s == "" {
    } else if s[0] == c {
      assert s == "" + [c] + s[1..];
    } else {
      SplitParts(s[1..], c);
      assert s == [s[0]] + s[1..];
    }
  }

  /** A line without a colon makes the whole head invalid, wherever it stands; empty lines are skipped. */
  lemma {:induction false} HeadersExact(lines: seq<string>)
    ensures ParseHeaders(lines).Err? <==> exists i :: 0 <= i < |lines| && lines[i] != "" && ':' !in lines[i]
    ensures ParseHeaders(lines).Err? ==> ParseHeaders(lines) == Err(MalformedHeader)
  {
    hide Trim, SplitOnce;
    if lines == [] {
    } else {
      var later := lines[1..];
      HeadersExact(later);
      SplitParts(lines[0], ':');
      if i :| 0 <= i < |later| && later[i] != "" && ':' !in later[i] {
        assert lines[i + 1] == later[i];
      }
      if i :| 0 <= i < |lines| && lines[i] != "" && ':' !in lines[i] {
        assert i > 0 ==> later[i - 1] == lines[i];
      }
    }
  }

  predicate Blank(s: string) {
    forall i :: 0 <= i < |s| ==> Whitespace(s[i])
  }

  /** White space on both sides of a name or value does not belong to it. */
  lemma {:induction false} TrimExact(before: string, v: string, behind: string)
    requires Blank(before) && Trimmed(v) && Blank(behind)
    ensures Trim(before + v + behind) == v
  {
    hide Whitespace;
    if v == "" {
      AllTrimmed(before + v + behind);
      return;
    }
    StartTrimmed(before, v + behind);
    assert before + v + behind == before + (v + behind);
    EndTrimmed(v, behind);
  }

  lemma {:induction false} AllTrimmed(s: string)
    requires Blank(s)
    ensures TrimStart(s) == ""
  {
    hide Whitespace;
    if s == "" {
    } else {
      AllTrimmed(s[1..]);
    }
  }

  /** So a header is the name before its colon and the value behind it, whatever white space is around them. */
  lemma {:induction false} BlanksIgnored(a: string, name: string, b: string, c: string, v: string, d: string,
                                         lines: seq<string>)
    requires Blank(a) && Blank(b) && Blank(c) && Blank(d) && Trimmed(name) && Trimmed(v) && ':' !in name
    ensures ParseHeaders([a + name + b + ":" + c + v + d] + lines) == Behind([(name, v)], ParseHeaders(lines))
  {
    hide Trim, SplitOnce, ParseHeaders, Trimmed;
    var line := a + name + b + ":" + c + v + d;
    assert line == a + name + b + [':'] + (c + v + d);
    assert !Whitespace(':');
    assert ':' !in a + name + b;
    SplitAtFirst(a + name + b, ':', c + v + d);
    TrimExact(a, name, b);
    TrimExact(c, v, d);
    BehindStep([], line, lines);
    BehindNothing(ParseHeaders([line] + lines));
    assert [] + [(name, v)] == [(name, v)];
  }

  lemma {:induction false} StartTrimmed(before: string, s: string)
    requires Blank(before) && s != "" && !Whitespace(s[0])
    ensures TrimStart(before + s) == s
  {
    hide Whitespace;
    if before == "" {
      assert before + s == s;
    } else {
      assert (before + s)[1..] == before[1..] + s;
      StartTrimmed(before[1..], s);
    }
  }

  lemma {:induction false} EndTrimmed(s: string, behind: string)
    requires Blank(behind) && s != "" && !Whitespace(s[|s| - 1])
    ensures TrimEnd(s + behind) == s
  {
    hide Whitespace;
    if behind == "" {
      assert s + behind == s;
    } else {
      var all := s + behind;
      assert all[..|all| - 1] == s + behind[..|behind| - 1];
      EndTrimmed(s, behind[..|behind| - 1]);
    }
  }

  /** The white space a sender may use between tokens. */
  lemma CommonBlanks()
    ensures Whitespace(' ') && Whitespace('\t') && Whitespace('\r') && Whitespace('\n')
    ensures forall c: char :: '!' <= c <= '~' ==> !Whitespace(c)
  {
  }

  // ----- numbers and lengths -----

  /** Decimal digits for `n`, behind a plus sign or not. */
  predicate Writes(s: string, digits: string, n: nat) {
    digits != "" && Digits(digits) && Number(digits) == n && (s == digits || s == "+" + digits)
  }

  lemma {:induction false} NumberExact(s: string, max: nat, n: nat)
    ensures ParseNumber(s, max) == Some(n) <==> n <= max && exists digits :: Writes(s, digits, n)
  {
    hide Number;
    var digits := if s != "" && s[0] == '+' then s[1..] else s;
    assert s == digits || s == "+" + digits;
    if ParseNumber(s, max) == Some(n) {
      assert Writes(s, digits, n);
    }
    if written :| Writes(s, written, n) {
      assert Digit(written[0]) && !Digit('+');
      assert ("+" + written)[1..] == written;
      assert digits == written;
    }
  }

  predicate FirstLength(headers: Headers, k: int) {
    && 0 <= k < |headers| && SameIgnoringCase(headers[k].0, "content-length")
    && forall i :: 0 <= i < k ==> !SameIgnoringCase(headers[i].0, "content-length")
  }

  /** The first header that announces a length decides, later ones do not; a length which is no number or
      does not fit a word announces no body, like no header at all. */
  lemma {:induction false} LengthExact(headers: Headers, n: nat)
    requires n > 0
    ensures ContentLength(headers) == n
            <==> n <= 0xFFFF_FFFF_FFFF_FFFF
                 && exists k, digits :: FirstLength(headers, k) && Writes(headers[k].1, digits, n)
  {
    hide SameIgnoringCase, ParseNumber, Number;
    LookupFirst(headers);
    match Lookup(headers, "content-length")
    case None =>
    case Some(v) =>
      NumberExact(v, 0xFFFF_FFFF_FFFF_FFFF, n);
      var k :| FirstLength(headers, k) && headers[k].1 == v;
      assert forall j :: FirstLength(headers, j) ==> j == k;
  }

  lemma {:induction false} LookupFirst(headers: Headers)
    ensures match Lookup(headers, "content-length")
            case None => forall k :: !FirstLength(headers, k)
            case Some(v) => exists k :: FirstLength(headers, k) && headers[k].1 == v
  {
    hide SameIgnoringCase;
    if headers == [] {
    } else if SameIgnoringCase(headers[0].0, "content-length") {
      assert FirstLength(headers, 0);
    } else {
      var later := headers[1..];
      LookupFirst(later);
      match Lookup(later, "content-length") {
        case None =>
          forall k ensures !FirstLength(headers, k) {
            if FirstLength(headers, k) {
              ShiftLength(headers, k - 1);
            }
          }
        case Some(v) =>
          var k :| FirstLength(later, k) && later[k].1 == v;
          ShiftLength(headers, k);
          assert FirstLength(headers, k + 1);
      }
    }
  }

  lemma {:induction false} ShiftLength(headers: Headers, k: int)
    requires headers != [] && !SameIgnoringCase(headers[0].0, "content-length")
    ensures FirstLength(headers[1..], k) <==> FirstLength(headers, k + 1) && k >= 0
  {
    hide SameIgnoringCase;
    var later := headers[1..];
    assert forall i :: 0 <= i < |later| ==> later[i] == headers[i + 1];
    assert forall i :: 0 < i < |headers| ==> headers[i] == later[i - 1];
  }

  // ----- which error -----

  predicate CodeAt(line: string, version: string, code: string, behind: string) {
    line == version + " " + code + behind && ' ' !in version && ' ' !in code && (behind == "" || behind[0] == ' ')
  }

  ghost predicate Writes16(code: string) {
    exists digits, n: nat :: Writes(code, digits, n) && n <= 0xFFFF
  }

  /** The second word of a line is a number of 16 bits. */
  ghost predicate HasCode(line: string) {
    exists version, code, behind :: CodeAt(line, version, code, behind) && Writes16(code)
  }

  /** A line that is not empty has no colon. */
  predicate LacksColon(lines: seq<string>) {
    exists i :: 0 <= i < |lines| && lines[i] != "" && ':' !in lines[i]
  }

  lemma {:induction false} Number16(code: string)
    ensures ParseNumber(code, 0xFFFF).Some? <==> Writes16(code)
  {
    hide ParseNumber, Writes;
    if ParseNumber(code, 0xFFFF).Some? {
      NumberExact(code, 0xFFFF, ParseNumber(code, 0xFFFF).value);
    }
    if Writes16(code) {
      var digits, n: nat :| Writes(code, digits, n) && n <= 0xFFFF;
      NumberExact(code, 0xFFFF, n);
    }
  }

  /** The second word of a line, if it has one. */
  function SecondWord(line: string): Option<string> {
    match SplitOnce(line, ' ')
    case None => None
    case Some((_, after)) => match SplitOnce(after, ' ') case None => Some(after) case Some((code, _)) => Some(code)
  }

  lemma {:induction false} SecondWordExact(line: string, code: string)
    ensures SecondWord(line) == Some(code) <==> exists version, behind :: CodeAt(line, version, code, behind)
  {
    hide SplitOnce;
    SplitParts(line, ' ');
    if SplitOnce(line, ' ').Some? {
      var (version, after) := SplitOnce(line, ' ').value;
      SplitParts(after, ' ');
      match SplitOnce(after, ' ') {
        case None => assert CodeAt(line, version, after, "");
        case Some((first, reason)) => assert CodeAt(line, version, first, [' '] + reason);
      }
    }
    forall version, behind | CodeAt(line, version, code, behind) ensures SecondWord(line) == Some(code) {
      assert line == version + [' '] + (code + behind);
      SplitAtFirst(version, ' ', code + behind);
      SplitParts(code + behind, ' ');
      if behind == "" {
        assert code + behind == code;
      } else {
        assert code + behind == code + [' '] + behind[1..];
        SplitAtFirst(code, ' ', behind[1..]);
      }
    }
  }

  lemma {:induction false} StatusExact(line: string)
    ensures StatusOf(line) == Err(BadStatusLine) <==> !("RTSP/" <= line)
    ensures StatusOf(line) == Err(BadStatusCode) <==> "RTSP/" <= line && !HasCode(line)
    ensures StatusOf(line).Ok? <==> "RTSP/" <= line && HasCode(line)
  {
    hide SplitOnce, ParseNumber, CodeAt, Writes16;
    VersionExact(line);
    if HasCode(line) {
      var version, code, behind :| CodeAt(line, version, code, behind) && Writes16(code);
      SecondWordExact(line, code);
    }
    if SecondWord(line).Some? {
      SecondWordExact(line, SecondWord(line).value);
      Number16(SecondWord(line).value);
    }
  }

  /** Which error a complete head gives, if any: the first of its faults in this order. */
  lemma {:induction false} ErrorExact(head: seq<byte>)
    ensures ParseHead(head) == Err(HeadNotUtf8) <==> Utf8.Decode(head).None?
    ensures Utf8.Decode(head).Some? ==>
      var lines := Lines(Utf8.Decode(head).value);
      && (ParseHead(head) == Err(BadStatusLine) <==> !("RTSP/" <= lines[0]))
      && (ParseHead(head) == Err(BadStatusCode) <==> "RTSP/" <= lines[0] && !HasCode(lines[0]))
      && (ParseHead(head) == Err(MalformedHeader)
          <==> "RTSP/" <= lines[0] && HasCode(lines[0]) && LacksColon(lines[1..]))
  {
    hide StatusOf, ParseHeaders, Lines, Utf8.Decode, HasCode;
    if Utf8.Decode(head).Some? {
      var lines := Lines(Utf8.Decode(head).value);
      StatusExact(lines[0]);
      HeadersExact(lines[1..]);
    }
  }

  // ----- nothing read is lost -----

  /** What a request takes from the stream is exactly its message; an error takes nothing. */
  lemma {:induction false} BytesKept(ahead: seq<seq<byte>>)
    requires ahead != []
    ensures var (r, left) := Outcome(ahead);
            var taken := if Parse(ahead[0]).Message? then Parse(ahead[0]).consumed else 0;
            taken <= |ahead[0]| && Flatten(ahead) == ahead[0][..taken] + Flatten(left)
  {
    hide Parse;
    ParsedWithin(ahead[0]);
    var (r, left) := Outcome(ahead);
    var first := ahead[0];
    FlattenStep(ahead);
    if Parse(first).Message? {
      var n := Parse(first).consumed;
      FlattenStep(left);
      assert left[1..] == ahead[1..];
      assert first == first[..n] + first[n..];
      ConcatAssoc(first[..n], first[n..], Flatten(ahead[1..]));
    } else {
      assert [] + Flatten(left) == Flatten(left);
      if Parse(first).Incomplete? && |ahead| > 1 {
        FlattenStep(left);
        FlattenStep(ahead[1..]);
        assert left[1..] == ahead[1..][1..];
        ConcatAssoc(first, ahead[1..][0], Flatten(ahead[1..][1..]));
      }
    }
  }

  lemma {:induction false} FlattenStep(ss: seq<seq<byte>>)
    requires ss != []
    ensures Flatten(ss) == ss[0] + Flatten(ss[1..])
  {
  }
}
