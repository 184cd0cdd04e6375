/** Responses written one after the other on a stream are read back one by one. */
module RtspStream {
  import opened Bytes
  import opened Rtsp
  import opened Search
  import Utf8

  // ----- what a sender may write -----

  predicate OneLine(s: string) {
    '\r' !in s && '\n' !in s
  }

  predicate Trimmed(s: string) {
    s == "" || (!Whitespace(s[0]) && !Whitespace(s[|s| - 1]))
  }

  predicate CleanHeader(h: (string, string)) {
    OneLine(h.0) && OneLine(h.1) && Trimmed(h.0) && Trimmed(h.1) && ':' !in h.0
  }

  /** Single-line parts and trimmed headers with colon-free names. */
  predicate CleanHead(r: Response) {
    OneLine(r.reason) && forall i :: 0 <= i < |r.headers| ==> CleanHeader(r.headers[i])
  }

  /** A clean head that announces the length of the body. */
  predicate WellFormed(r: Response) {
    CleanHead(r) && ContentLength(r.headers) == |r.body|
  }

  /** The message fits an address space. */
  predicate Addressable(r: Response) {
    |Render(r)| <= MAX_USIZE
  }

  function StatusLine(r: Response): string {
    "RTSP/1.0 " + Decimal(r.status) + " " + r.reason
  }

  /** A response in the wire shape of `Wire`. */
  function Render(r: Response): seq<byte> {
    Wire(StatusLine(r), r.headers, r.body)
  }

  // ----- numbers -----

  lemma {:induction false} DecimalRoundTrip(n: nat)
    ensures Decimal(n) != "" && Digits(Decimal(n)) && Number(Decimal(n)) == n
  {
    var d := Decimal(n);
    if n < 10 {
      assert d[..|d| - 1] == "";
    } else {
      DecimalRoundTrip(n / 10);
      assert d[..|d| - 1] == Decimal(n / 10);
    }
  }

  lemma ParseDecimal(n: nat, max: nat)
    requires n <= max
    ensures ParseNumber(Decimal(n), max) == Some(n)
  {
    DecimalRoundTrip(n);
    assert Digit(Decimal(n)[0]);
  }

  // ----- splitting and trimming -----

  lemma {:induction false} SplitAtFirst(a: string, c: char, b: string)
    requires c !in a
    ensures SplitOnce(a + [c] + b, c) == Some((a, b))
  {
    var s := a + [c] + b;
    if a != "" {
      SplitAtFirst(a[1..], c, b);
      assert s[1..] == a[1..] + [c] + b;
      assert a == [a[0]] + a[1..];
    } else {
      assert s[1..] == b;
    }
  }

  lemma TrimPadded(v: string)
    requires Trimmed(v)
    ensures Trim(v) == v && Trim(" " + v) == v
  {
  }

  function HeaderLine(h: (string, string)): string {
    h.0 + ": " + h.1
  }

  lemma HeaderLineParses(h: (string, string))
    requires CleanHeader(h)
    ensures SplitOnce(HeaderLine(h), ':') == Some((h.0, " " + h.1))
    ensures HeaderLine(h) != "" && OneLine(HeaderLine(h))
    ensures Trim(h.0) == h.0 && Trim(" " + h.1) == h.1
  {
    assert HeaderLine(h) == h.0 + [':'] + (" " + h.1);
    SplitAtFirst(h.0, ':', " " + h.1);
    TrimPadded(h.0);
    TrimPadded(h.1);
  }

  lemma {:induction false} StatusLineParses(r: Response)
    requires OneLine(r.reason)
    ensures StatusOf(StatusLine(r)) == Ok((r.status, r.reason))
    ensures StatusLine(r) != "" && OneLine(StatusLine(r))
  {
    hide SplitOnce, Number, Decimal;
    var d := Decimal(r.status);
    DecimalRoundTrip(r.status);
    ParseDecimal(r.status, 0xFFFF);
    var after := d + " " + r.reason;
    assert StatusLine(r) == "RTSP/1.0" + [' '] + after;
    SplitAtFirst("RTSP/1.0", ' ', after);
    assert "RTSP/" <= "RTSP/1.0";
    NoSpaceInDigits(d);
    SplitAtFirst(d, ' ', r.reason);
    assert after == d + [' '] + r.reason;
    assert OneLine(d);
  }

  lemma NoSpaceInDigits(d: string)
    requires Digits(d)
    ensures ' ' !in d && '\r' !in d && '\n' !in d
  {
  }

  // ----- line structure of a head -----

  function Joined(lines: seq<string>): string
    requires lines != []
  {
    if |lines| == 1 then lines[0] else lines[0] + CRLF + Joined(lines[1..])
  }

  predicate CleanLines(lines: seq<string>) {
    forall i :: 0 <= i < |lines| ==> lines[i] != "" && OneLine(lines[i])
  }

  lemma {:induction false} NoCrlf(a: string)
    requires '\r' !in a
    ensures FindSubsequence(a, CRLF) == None
  {
    if |a| < 2 {
    } else {
      assert a[..2][0] == a[0];
      NoCrlf(a[1..]);
    }
  }

  lemma {:induction false} LinesOfJoined(lines: seq<string>)
    requires lines != [] && CleanLines(lines)
    ensures Lines(Joined(lines)) == lines
  {
    if |lines| == 1 {
      NoCrlf(lines[0]);
    } else {
      var rest := Joined(lines[1..]);
      FindPastPlain(lines[0], CRLF, rest);
      var s := Joined(lines);
      assert s[..|lines[0]|] == lines[0];
      assert s[|lines[0]| + 2..] == rest;
      LinesOfJoined(lines[1..]);
    }
  }

  function LinesOf(headers: Headers): (lines: seq<string>)
    ensures |lines| == |headers|
    ensures forall i :: 0 <= i < |headers| ==> lines[i] == HeaderLine(headers[i])
  {
    if headers == [] then [] else [HeaderLine(headers[0])] + LinesOf(headers[1..])
  }

  function HeadLines(r: Response): (lines: seq<string>)
    ensures lines != []
  {
    [StatusLine(r)] + LinesOf(r.headers)
  }

  lemma HeadLinesClean(r: Response)
    requires CleanHead(r)
    ensures CleanLines(HeadLines(r))
  {
    hide StatusLine, HeaderLine, StatusOf;
    StatusLineParses(r);
    forall i | 0 <= i < |r.headers| ensures HeaderLine(r.headers[i]) != "" && OneLine(HeaderLine(r.headers[i])) {
      HeaderLineParses(r.headers[i]);
    }
  }

  lemma {:induction false} HeadersParse(headers: Headers, lines: seq<string>)
    requires |lines| == |headers|
    requires forall i :: 0 <= i < |headers| ==> CleanHeader(headers[i]) && lines[i] == HeaderLine(headers[i])
    ensures ParseHeaders(lines) == Ok(headers)
  {
    hide HeaderLine, Trim, SplitOnce, CleanHeader;
    if headers == [] {
    } else {
      HeaderLineParses(headers[0]);
      HeadersParse(headers[1..], lines[1..]);
      assert headers == [(headers[0].0, headers[0].1)] + headers[1..];
    }
  }

  lemma HeadParses(r: Response)
    requires CleanHead(r)
    ensures ParseHead(Utf8.Encode(Joined(HeadLines(r)))) == Ok(Head(r.status, r.reason, r.headers))
  {
    hide StatusLine, HeaderLine, StatusOf, Joined, Lines, ContentLength, CleanHeader;
    var lines := HeadLines(r);
    Utf8.DecodeEncode(Joined(lines));
    HeadLinesClean(r);
    LinesOfJoined(lines);
    StatusLineParses(r);
    HeadersParse(r.headers, lines[1..]);
  }

  // ----- where a head ends -----

  lemma {:induction false} SkipBreak(rest: seq<byte>)
    requires |rest| >= 4 && rest[0] != 13
    ensures FindSubsequence([13, 10] + rest, HEAD_END)
            == match FindSubsequence(rest, HEAD_END) case None => None case Some(k) => Some(k + 2)
  {
    hide FindSubsequence;
    var b := [13, 10] + rest;
    assert b[..4][2] == rest[0] && HEAD_END[2] == 13;
    assert b[..4] != HEAD_END;
    FindNext(b, HEAD_END);
    assert b[1..] == [10] + rest;
    assert b[1..][..4][0] == 10 && HEAD_END[0] == 13;
    assert b[1..][..4] != HEAD_END;
    FindNext(b[1..], HEAD_END);
    assert b[1..][1..] == rest;
  }

  lemma EncodedBreak()
    ensures Utf8.Encode(CRLF) == [13, 10]
  {
  }

  lemma EncodedLine(line: string)
    requires line != "" && OneLine(line)
    ensures 13 !in Utf8.Encode(line) && Utf8.Encode(line) != []
  {
  }

  /** In front of a head whose end is found, one more line does not hold a blank line. */
  lemma {:induction false} EndPastLine(line: seq<byte>, tail: seq<byte>, rest: seq<byte>)
    requires 13 !in line && tail != [] && tail[0] != 13
    requires FindSubsequence(tail + HEAD_END + rest, HEAD_END) == Some(|tail|)
    ensures FindSubsequence(line + [13, 10] + tail + HEAD_END + rest, HEAD_END) == Some(|line + [13, 10] + tail|)
  {
    hide FindSubsequence;
    var b := tail + HEAD_END + rest;
    SkipBreak(b);
    FindShifted(line, [13, 10] + b, HEAD_END);
    assert line + [13, 10] + tail + HEAD_END + rest == line + ([13, 10] + b);
  }

  lemma {:induction false} EndBehindLine(line: seq<byte>, rest: seq<byte>)
    requires 13 !in line
    ensures FindSubsequence(line + HEAD_END + rest, HEAD_END) == Some(|line|)
  {
    hide FindSubsequence;
    var b := HEAD_END + rest;
    assert b[..4] == HEAD_END;
    FindHere(b, HEAD_END);
    FindShifted(line, b, HEAD_END);
    assert line + HEAD_END + rest == line + b;
  }

  lemma {:induction false} EncodedLines(lines: seq<string>)
    requires |lines| > 1
    ensures Utf8.Encode(Joined(lines)) == Utf8.Encode(lines[0]) + [13, 10] + Utf8.Encode(Joined(lines[1..]))
  {
    hide Utf8.Encode;
    Utf8.EncodeConcat(lines[0] + CRLF, Joined(lines[1..]));
    Utf8.EncodeConcat(lines[0], CRLF);
    EncodedBreak();
  }

  lemma {:induction false} HeadEndFound(lines: seq<string>, rest: seq<byte>)
    requires lines != [] && CleanLines(lines)
    ensures Utf8.Encode(Joined(lines)) != [] && Utf8.Encode(Joined(lines))[0] != 13
    ensures FindSubsequence(Utf8.Encode(Joined(lines)) + HEAD_END + rest, HEAD_END)
            == Some(|Utf8.Encode(Joined(lines))|)
  {
    hide FindSubsequence, Utf8.Encode;
    var first := Utf8.Encode(lines[0]);
    EncodedLine(lines[0]);
    assert first[0] in first;
    if |lines| == 1 {
      EndBehindLine(first, rest);
    } else {
      HeadEndFound(lines[1..], rest);
      EncodedLines(lines);
      hide Joined;
      EndPastLine(first, Utf8.Encode(Joined(lines[1..])), rest);
    }
  }

  // ----- one message -----

  lemma {:induction false} HeaderLinesJoined(first: string, headers: Headers)
    ensures first + CRLF + HeaderLines(headers) == Joined([first] + LinesOf(headers)) + CRLF
    decreases |headers|
  {
    var lines := [first] + LinesOf(headers);
    if headers == [] {
      assert lines == [first];
      assert first + CRLF + "" == first + CRLF;
    } else {
      var second, later := HeaderLine(headers[0]), headers[1..];
      HeaderLinesJoined(second, later);
      assert lines[1..] == [second] + LinesOf(later);
      assert HeaderLines(headers) == second + CRLF + HeaderLines(later);
      assert Joined(lines) == first + CRLF + Joined(lines[1..]);
      assert first + CRLF + (second + CRLF + HeaderLines(later)) == first + CRLF + (Joined(lines[1..]) + CRLF);
      assert first + CRLF + Joined(lines[1..]) + CRLF == first + CRLF + (Joined(lines[1..]) + CRLF);
    }
  }

  lemma RenderedShape(r: Response)
    ensures Render(r) == Utf8.Encode(Joined(HeadLines(r))) + HEAD_END + r.body
  {
    hide Utf8.Encode, Joined, HeaderLines, StatusLine, HeaderLine;
    HeaderLinesJoined(StatusLine(r), r.headers);
    var head := Joined(HeadLines(r));
    assert StatusLine(r) + CRLF + HeaderLines(r.headers) + CRLF == head + CRLF + CRLF;
    Utf8.EncodeConcat(head + CRLF, CRLF);
    Utf8.EncodeConcat(head, CRLF);
    EncodedBreak();
    assert Utf8.Encode(head) + [13, 10] + [13, 10] == Utf8.Encode(head) + HEAD_END;
  }

  /** The bytes of a head, its blank line included. */
  function HeadBytes(r: Response): seq<byte> {
    Utf8.Encode(Joined(HeadLines(r))) + HEAD_END
  }

  /** Every outcome of a clean head in front of any bytes: overflow, more to read, or the message. */
  lemma {:induction false} ParseClean(r: Response, rest: seq<byte>)
    requires CleanHead(r)
    ensures var head, length := |HeadBytes(r)|, ContentLength(r.headers);
            Parse(HeadBytes(r) + rest)
            == if head + length > MAX_USIZE then Overflow
               else if |rest| < length then Incomplete
               else Message(r.(body := rest[..length]), head + length)
  {
    hide Utf8.Encode, Joined, HeadLines, ParseHead, ContentLength, FindSubsequence, CleanHeader;
    var text := Utf8.Encode(Joined(HeadLines(r)));
    HeadLinesClean(r);
    HeadEndFound(HeadLines(r), rest);
    HeadParses(r);
    var buf := HeadBytes(r) + rest;
    assert buf[..|text|] == text;
    var start, stop := |text| + 4, |text| + 4 + ContentLength(r.headers);
    if stop <= |buf| {
      assert buf[start..stop] == rest[..ContentLength(r.headers)];
    }
  }

  /** The program panics on a clean head, before any body arrives, exactly when the length it announces
      reaches past the last word. */
  lemma {:induction false} OverflowOnHead(r: Response, rest: seq<byte>)
    requires CleanHead(r)
    ensures Parse(HeadBytes(r) + rest).Overflow? <==> ContentLength(r.headers) > MAX_USIZE - |HeadBytes(r)|
  {
    hide Parse, HeadBytes, ContentLength, CleanHead;
    ParseClean(r, rest);
  }

  /** A head on which it does: it announces 18446744073709551615 bytes, the greatest number the parser
      still reads. */
  function HugeHead(): Response {
    Response(200, "OK", [("Content-Length", Decimal(MAX_USIZE))], [])
  }

  lemma {:induction false} HugeHeadOverflows(rest: seq<byte>)
    ensures CleanHead(HugeHead()) && ContentLength(HugeHead().headers) == MAX_USIZE
    ensures Parse(HeadBytes(HugeHead()) + rest).Overflow?
  {
    hide Parse, Decimal, Number, HeadBytes;
    var r := HugeHead();
    var digits := Decimal(MAX_USIZE);
    DecimalRoundTrip(MAX_USIZE);
    ParseDecimal(MAX_USIZE, MAX_USIZE);
    NoSpaceInDigits(digits);
    DigitsTrimmed(digits);
    CaseOfContentLength("content-length");
    SameAsItself("content-length");
    assert CleanHeader(r.headers[0]);
    HeadBytesLong(r);
    OverflowOnHead(r, rest);
  }

  lemma DigitsTrimmed(d: string)
    requires Digits(d)
    ensures Trimmed(d)
  {
  }

  lemma HeadBytesLong(r: Response)
    ensures |HeadBytes(r)| >= 4
  {
  }

  /** A well-formed response is read back exactly, and the bytes it took are exactly its own. */
  lemma {:induction false} ParseRendered(r: Response, rest: seq<byte>)
    requires WellFormed(r) && Addressable(r)
    ensures Parse(Render(r) + rest) == Message(r, |Render(r)|)
  {
    hide Parse, Utf8.Encode, Joined, HeadLines, ContentLength, Render, CleanHead;
    RenderedShape(r);
    ParseClean(r, r.body + rest);
    assert HeadBytes(r) + (r.body + rest) == Render(r) + rest;
    assert (r.body + rest)[..|r.body|] == r.body;
  }

  // ----- a stream of messages -----

  /** The answers of `k` requests in a row on one stream, and what is left unread. */
  function Answers(ahead: seq<seq<byte>>, k: nat): (seq<Result<Response>>, seq<seq<byte>>)
    requires ahead != []
    decreases k
  {
    if k == 0 then ([], ahead)
    else
      var (first, rest) := Outcome(ahead);
      var (more, left) := Answers(rest, k - 1);
      ([first] + more, left)
  }

  function RenderAll(rs: seq<Response>): seq<byte> {
    if rs == [] then [] else Render(rs[0]) + RenderAll(rs[1..])
  }

  function Oks(rs: seq<Response>): seq<Result<Response>> {
    if rs == [] then [] else [Ok(rs[0])] + Oks(rs[1..])
  }

  /** Main result: the k-th request on a stream of well-formed responses answers the k-th response,
      each message ends where the next begins, and what follows the last one stays unread. */
  lemma {:induction false} StreamRoundTrip(rs: seq<Response>, tail: seq<byte>, later: seq<seq<byte>>)
    requires forall i :: 0 <= i < |rs| ==> WellFormed(rs[i]) && Addressable(rs[i])
    ensures Answers([RenderAll(rs) + tail] + later, |rs|) == (Oks(rs), [tail] + later)
  {
    hide Parse, Render, WellFormed, Addressable;
    if rs == [] {
      assert [] + tail == tail;
    } else {
      var rest := RenderAll(rs[1..]) + tail;
      assert RenderAll(rs) + tail == Render(rs[0]) + rest;
      ParseRendered(rs[0], rest);
      assert (Render(rs[0]) + rest)[|Render(rs[0])|..] == rest;
      assert ([Render(rs[0]) + rest] + later)[1..] == later;
      StreamRoundTrip(rs[1..], tail, later);
    }
  }

  // ----- requests with a body -----

  lemma {:induction false} WithoutContentLookup(headers: Headers, name: string)
    ensures SameIgnoringCase(name, "content-type") || SameIgnoringCase(name, "content-length") ==>
      Lookup(WithoutContent(headers), name) == None
    ensures !SameIgnoringCase(name, "content-type") && !SameIgnoringCase(name, "content-length") ==>
      Lookup(WithoutContent(headers), name) == Lookup(headers, name)
  {
    hide SameIgnoringCase;
    if headers == [] {
    } else {
      var first, rest := headers[0], WithoutContent(headers[1..]);
      WithoutContentLookup(headers[1..], name);
      if SameIgnoringCase(first.0, name) {
        SameCaseMerges(first.0, name, "content-type");
        SameCaseMerges(first.0, name, "content-length");
      }
      assert ([first] + rest)[1..] == rest;
      assert [] + rest == rest;
    }
  }

  /** Equality up to ASCII case is an equivalence. */
  lemma SameCaseMerges(s: string, t: string, u: string)
    requires SameIgnoringCase(s, t)
    ensures SameIgnoringCase(s, u) == SameIgnoringCase(t, u)
  {
  }

  lemma {:induction false} LookupConcat(a: Headers, b: Headers, name: string)
    ensures Lookup(a + b, name) == if Lookup(a, name).Some? then Lookup(a, name) else Lookup(b, name)
  {
    if a == [] {
      assert a + b == b;
    } else {
      assert (a + b)[1..] == a[1..] + b;
      LookupConcat(a[1..], b, name);
    }
  }

  /** Attaching a body replaces stale content headers and touches no other header: a receiver that
      applies the response rules reads exactly the body attached. */
  lemma BodyHeaders(req: Request, contentType: string, body: seq<byte>, name: string)
    requires |body| <= 0xFFFF_FFFF_FFFF_FFFF
    ensures var r := req.WithBody(contentType, body);
            && ContentLength(r.headers) == |r.body| && r.body == body
            && Lookup(r.headers, "content-type") == Some(contentType)
            && (!SameIgnoringCase(name, "content-type") && !SameIgnoringCase(name, "content-length") ==>
                  Lookup(r.headers, name) == Lookup(req.headers, name))
  {
    hide Lookup, Decimal, ParseNumber, WithoutContent;
    var kept := WithoutContent(req.headers);
    var added := [("Content-Type", contentType), ("Content-Length", Decimal(|body|))];
    LookupConcat(kept, added, "content-length");
    LookupConcat(kept, added, "content-type");
    LookupConcat(kept, added, name);
    WithoutContentLookup(req.headers, "content-length");
    WithoutContentLookup(req.headers, "content-type");
    WithoutContentLookup(req.headers, name);
    ContentLookup(contentType, Decimal(|body|), name);
    ParseDecimal(|body|, 0xFFFF_FFFF_FFFF_FFFF);
  }

  lemma LookupOne(h: (string, string), name: string)
    ensures Lookup([h], name) == if SameIgnoringCase(h.0, name) then Some(h.1) else None
  {
  }

  lemma ContentLookup(a: string, b: string, name: string)
    ensures var added := [("Content-Type", a), ("Content-Length", b)];
            Lookup(added, "content-type") == Some(a) && Lookup(added, "content-length") == Some(b)
            && (!SameIgnoringCase(name, "content-type") && !SameIgnoringCase(name, "content-length") ==>
                  Lookup(added, name) == None)
  {
    hide Lookup, SameIgnoringCase;
    var x, y := ("Content-Type", a), ("Content-Length", b);
    assert [x, y] == [x] + [y];
    CaseOfContentType(name);
    CaseOfContentLength(name);
    CaseOfContentType("content-type");
    CaseOfContentLength("content-length");
    CaseOfContentType("content-length");
    SameAsItself("content-type");
    SameAsItself("content-length");
    forall n | n in {"content-type", "content-length", name}
      ensures Lookup([x, y], n) == if SameIgnoringCase(x.0, n) then Some(a)
                                   else if SameIgnoringCase(y.0, n) then Some(b) else None
    {
      LookupConcat([x], [y], n);
      LookupOne(x, n);
      LookupOne(y, n);
    }
  }

  lemma SameAsItself(s: string)
    ensures SameIgnoringCase(s, s)
  {
  }

  lemma CaseOfContentType(name: string)
    ensures SameIgnoringCase("Content-Type", name) == SameIgnoringCase(name, "content-type")
    ensures !SameIgnoringCase("content-length", "content-type")
  {
  }

  lemma CaseOfContentLength(name: string)
    ensures SameIgnoringCase("Content-Length", name) == SameIgnoringCase(name, "content-length")
  {
  }
}
