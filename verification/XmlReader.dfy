/** A reader of XML elements, attributes and text (XML 1.0, sections 2.4 and 3.1), and what it finds in the
    documents of `Soap`: every element, namespace, attribute and argument of the requests sent. */
module XmlReader {
  import opened Bytes
  import opened Search
  import opened Soap
  import opened XmlLines

  datatype Token =
    | Declaration(text: string)
    | Open(name: string, attributes: seq<(string, string)>)
    | Text(text: string)
    | Close(name: string)

  /** The text before and after the first `c`. */
  function Until(s: string, c: char): (r: Option<(string, string)>)
    ensures r.Some? ==> |r.value.0| + 1 + |r.value.1| == |s|
  {
    if s == "" then None
    else if s[0] == c then Some(("", s[1..]))
    else
      match Until(s[1..], c)
      case None => None
      case Some((a, b)) => Some(([s[0]] + a, b))
  }

  /** A name ends at a space or at the end of its tag. */
  function NameOf(s: string): (r: (string, string))
    ensures |r.0| + |r.1| == |s|
  {
    if s == "" || s[0] == ' ' || s[0] == '>' then ("", s)
    else
      var (name, rest) := NameOf(s[1..]);
      ([s[0]] + name, rest)
  }

  /** The attributes up to the end of a tag, entities replaced, and what follows the tag. */
  function AttributesOf(s: string): (r: Option<(seq<(string, string)>, string)>)
    ensures r.Some? ==> |r.value.1| < |s|
    decreases |s|
  {
    if s == "" then None
    else if s[0] == '>' then Some(([], s[1..]))
    else if s[0] != ' ' then None
    else
      match Until(s[1..], '=')
      case None => None
      case Some((name, behind)) =>
        if behind == "" || behind[0] != '"' then None
        else
          match Until(behind[1..], '"')
          case None => None
          case Some((raw, rest)) =>
            match AttributesOf(rest)
            case None => None
            case Some((more, end)) => Some(([(name, Unescape(raw))] + more, end))
  }

  function Then(t: Token, rest: Option<seq<Token>>): Option<seq<Token>> {
    match rest case None => None case Some(ts) => Some([t] + ts)
  }

  /** The whole document. */
  function Tokens(s: string): Option<seq<Token>>
    decreases |s|
  {
    if s == "" then Some([])
    else if s[0] != '<' then
      match Until(s, '<')
      case None => Some([Text(Unescape(s))])
      case Some((raw, rest)) => if raw == "" then None else Then(Text(Unescape(raw)), Tokens("<" + rest))
    else if |s| > 1 && s[1] == '/' then
      match Until(s[2..], '>')
      case None => None
      case Some((name, rest)) => Then(Close(name), Tokens(rest))
    else if |s| > 1 && s[1] == '?' then
      match FindSubsequence(s[2..], "?>")
      case None => None
      case Some(k) => Then(Declaration(s[2..k + 2]), Tokens(s[k + 4..]))
    else
      var (name, behind) := NameOf(s[1..]);
      match AttributesOf(behind)
      case None => None
      case Some((attributes, rest)) => if name == "" then None else Then(Open(name, attributes), Tokens(rest))
  }

  // ----- reading pieces -----

  lemma {:induction false} UntilFirst(a: string, c: char, b: string)
    requires c !in a
    ensures Until(a + [c] + b, c) == Some((a, b))
  {
    var s := a + [c] + b;
    if a == "" {
      assert s[1..] == b;
    } else {
      assert s[1..] == a[1..] + [c] + b;
      UntilFirst(a[1..], c, b);
      assert a == [a[0]] + a[1..];
    }
  }

  lemma {:induction false} NamePassed(name: string, rest: string)
    requires ' ' !in name && '>' !in name && rest != "" && (rest[0] == ' ' || rest[0] == '>')
    ensures NameOf(name + rest) == (name, rest)
  {
    if name == "" {
      assert name + rest == rest;
    } else {
      assert (name + rest)[1..] == name[1..] + rest;
      NamePassed(name[1..], rest);
      assert name == [name[0]] + name[1..];
    }
  }

  lemma {:induction false} AttributePassed(name: string, raw: string, rest: string)
    requires '=' !in name && '"' !in raw
    ensures AttributesOf(" " + name + "=\"" + raw + "\"" + rest)
            == match AttributesOf(rest)
               case None => None
               case Some((more, end)) => Some(([(name, Unescape(raw))] + more, end))
    decreases |rest|
  {
    hide Unescape, Until;
    var value := "\"" + raw + "\"" + rest;
    var s := " " + name + "=\"" + raw + "\"" + rest;
    assert s[1..] == name + ['='] + value;
    UntilFirst(name, '=', value);
    assert value[1..] == raw + ['"'] + rest;
    UntilFirst(raw, '"', rest);
  }

  lemma {:induction false} OpenPassed(name: string, written: string, attributes: seq<(string, string)>, rest: string)
    requires name != "" && name[0] != '/' && name[0] != '?' && ' ' !in name && '>' !in name
    requires written != "" && (written[0] == ' ' || written[0] == '>')
    requires AttributesOf(written + rest) == Some((attributes, rest))
    ensures Tokens("<" + name + written + rest) == Then(Open(name, attributes), Tokens(rest))
    decreases |rest|
  {
    hide AttributesOf, NameOf;
    var s := "<" + name + written + rest;
    assert s[1..] == name + (written + rest);
    NamePassed(name, written + rest);
  }

  /** A tag without attributes. */
  lemma {:induction false} PlainPassed(name: string, rest: string)
    requires name != "" && name[0] != '/' && name[0] != '?' && ' ' !in name && '>' !in name
    ensures Tokens("<" + name + ">" + rest) == Then(Open(name, []), Tokens(rest))
  {
    EndOfTag(rest);
    OpenPassed(name, ">", [], rest);
  }

  lemma {:induction false} EndOfTag(rest: string)
    ensures AttributesOf(">" + rest) == Some(([], rest))
  {
    assert (">" + rest)[1..] == rest;
  }

  lemma {:induction false} ClosePassed(name: string, rest: string)
    requires '>' !in name
    ensures Tokens("</" + name + ">" + rest) == Then(Close(name), Tokens(rest))
    decreases |rest|
  {
    hide Until;
    var s := "</" + name + ">" + rest;
    assert s[2..] == name + ['>'] + rest;
    UntilFirst(name, '>', rest);
  }

  /** The token of a text, if there is any text. */
  function TextGiven(text: string): seq<Token> {
    if text == "" then [] else [Text(text)]
  }

  function Before(ts: seq<Token>, rest: Option<seq<Token>>): Option<seq<Token>> {
    match rest case None => None case Some(more) => Some(ts + more)
  }

  lemma {:induction false} TextRead(text: string, rest: string)
    requires rest != "" && rest[0] == '<'
    ensures Tokens(Escape(text) + rest) == Before(TextGiven(text), Tokens(rest))
    decreases |rest|
  {
    EscapeRoundTrip(text);
    EscapeKept(text);
    hide Escape, Unescape, Until;
    var raw := Escape(text);
    if text == "" {
      assert raw + rest == rest;
      BeforeNothing(Tokens(rest));
    } else {
      assert raw + rest == raw + ['<'] + rest[1..];
      UntilFirst(raw, '<', rest[1..]);
      assert "<" + rest[1..] == rest;
      assert raw[0] in raw;
    }
  }

  lemma BeforeNothing(rest: Option<seq<Token>>)
    ensures Before([], rest) == rest
  {
    if rest.Some? {
      assert [] + rest.value == rest.value;
    }
  }

  lemma EscapeKept(text: string)
    ensures Escape(text) == "" <==> text == ""
  {
    if text != "" {
      EscapedIsPlain(text[0]);
    }
  }

  /** Text without entities is what it is. */
  lemma {:induction false} UnescapePlain(raw: string)
    requires '&' !in raw
    ensures Unescape(raw) == raw
  {
    if raw == "" {
    } else {
      UnescapePlain(raw[1..]);
      assert raw == [raw[0]] + raw[1..];
      NoEntity(raw);
    }
  }

  lemma NoEntity(s: string)
    requires s != "" && s[0] != '&'
    ensures Entity(s) == None
  {
  }

  // ----- one element after the other -----

  /** A name as the reader knows it, and its two tags. */
  predicate Tags(name: string, open: string, close: string) {
    PlainName(name) && open == "<" + name + ">" && close == "</" + name + ">"
  }

  predicate PlainName(name: string) {
    name != "" && name[0] != '/' && name[0] != '?' && ' ' !in name && '>' !in name
  }

  lemma {:induction false} CloseRead(name: string, open: string, close: string, rest: string, ts: seq<Token>)
    requires Tags(name, open, close) && Tokens(rest) == Some(ts)
    ensures Tokens(close + rest) == Some([Close(name)] + ts)
  {
    hide Tokens;
    ClosePassed(name, rest);
  }

  lemma {:induction false} OpenRead(name: string, open: string, close: string, rest: string, ts: seq<Token>)
    requires Tags(name, open, close) && Tokens(rest) == Some(ts)
    ensures Tokens(open + rest) == Some([Open(name, [])] + ts)
  {
    hide Tokens;
    PlainPassed(name, rest);
  }

  /** An element that holds only text. */
  lemma {:induction false} ElementRead(name: string, open: string, close: string, text: string, rest: string,
                                       ts: seq<Token>)
    requires Tags(name, open, close) && Tokens(rest) == Some(ts)
    ensures Tokens(open + (Escape(text) + (close + rest)))
            == Some([Open(name, [])] + (TextGiven(text) + ([Close(name)] + ts)))
  {
    CloseRead(name, open, close, rest, ts);
    var end := close + rest;
    assert end[0] == '<';
    hide Tokens, Escape, Tags, TextGiven;
    TextRead(text, end);
    OpenRead(name, open, close, Escape(text) + end, TextGiven(text) + ([Close(name)] + ts));
  }

  /** An attribute written with a plain value. */
  lemma {:induction false} ValueRead(name: string, raw: string, written: string, rest: string,
                                     more: seq<(string, string)>, all: seq<(string, string)>, end: string)
    requires written == " " + name + "=\"" + raw + "\"" && '=' !in name && PlainValue(raw)
    requires AttributesOf(rest) == Some((more, end)) && all == [(name, raw)] + more
    ensures AttributesOf(written + rest) == Some((all, end))
  {
    hide AttributesOf, Unescape;
    AttributePassed(name, raw, rest);
    UnescapePlain(raw);
  }

  predicate PlainValue(raw: string) {
    '"' !in raw && '&' !in raw
  }

  lemma PlainConcat(a: string, b: string)
    requires PlainValue(a) && PlainValue(b)
    ensures PlainValue(a + b)
  {
  }

  // ----- the request -----

  const SOAP_ENVELOPE := "http://schemas.xmlsoap.org" + "/soap/envelope/"
  const SOAP_ENCODING := "http://schemas.xmlsoap.org" + "/soap/encoding/"
  const AV_TRANSPORT := "urn:schemas-upnp-org" + ":service:AVTransport:1"

  /** What a renderer reads: one SOAP envelope, one body, one `SetAVTransportURI` of the AVTransport service
      with its three arguments in order. */
  function RequestTokens(uri: string, didl: string): seq<Token> {
    [Declaration(DeclarationText())]
    + ([Open("s:Envelope", [("xmlns:s", SOAP_ENVELOPE), ("s:encodingStyle", SOAP_ENCODING)])]
       + ([Open("s:Body", [])]
          + ([Open("u:SetAVTransportURI", [("xmlns:u", AV_TRANSPORT)])] + ArgumentTokens(uri, didl))))
  }

  function ArgumentTokens(uri: string, didl: string): seq<Token> {
    [Open("InstanceID", [])] + (TextGiven("0") + ([Close("InstanceID")] + UriTokens(uri, didl)))
  }

  function UriTokens(uri: string, didl: string): seq<Token> {
    [Open("CurrentURI", [])] + (TextGiven(uri) + ([Close("CurrentURI")] + MetaDataTokens(didl)))
  }

  function MetaDataTokens(didl: string): seq<Token> {
    [Open("CurrentURIMetaData", [])] + (TextGiven(didl) + ([Close("CurrentURIMetaData")] + EndTokens()))
  }

  function EndTokens(): seq<Token> {
    [Close("u:SetAVTransportURI")] + ([Close("s:Body")] + ([Close("s:Envelope")] + []))
  }

  lemma EnvelopeTags()
    ensures Tags("s:Envelope", "<s:Envelope>", "</s:Envelope>")
  {
  }

  lemma BodyTags()
    ensures Tags("s:Body", "<s:Body>", "</s:Body>")
  {
  }

  lemma ActionPlain()
    ensures PlainName("u:SetAVTransportURI")
  {
  }

  lemma ActionTags()
    ensures Tags("u:SetAVTransportURI", "<u:SetAVTransportURI>", "</u:SetAVTransportURI>")
  {
    ActionPlain();
    hide PlainName;
  }

  lemma InstanceTags()
    ensures Tags("InstanceID", "<InstanceID>", "</InstanceID>")
  {
  }

  lemma UriTags()
    ensures Tags("CurrentURI", "<CurrentURI>", "</CurrentURI>")
  {
  }

  lemma MetaDataPlain()
    ensures PlainName("CurrentURIMetaData")
  {
  }

  lemma MetaDataTags()
    ensures Tags("CurrentURIMetaData", "<CurrentURIMetaData>", "</CurrentURIMetaData>")
  {
    MetaDataPlain();
    hide PlainName;
  }

  lemma EndWritten()
    ensures End() == "</u:SetAVTransportURI>" + ("</s:Body>" + ("</s:Envelope>" + ""))
  {
    assert "</s:Body></s:Envelope>" == "</s:Body>" + "</s:Envelope>";
  }

  lemma {:induction false} EndRead()
    ensures Tokens(End()) == Some(EndTokens())
  {
    EnvelopeTags();
    BodyTags();
    ActionTags();
    EndWritten();
    NothingRead();
    hide Tokens, Tags, End;
    CloseRead("s:Envelope", "<s:Envelope>", "</s:Envelope>", "", []);
    CloseRead("s:Body", "<s:Body>", "</s:Body>", "</s:Envelope>" + "", [Close("s:Envelope")] + []);
    CloseRead("u:SetAVTransportURI", "<u:SetAVTransportURI>", "</u:SetAVTransportURI>",
              "</s:Body>" + ("</s:Envelope>" + ""), [Close("s:Body")] + ([Close("s:Envelope")] + []));
  }

  lemma NothingRead()
    ensures Tokens("") == Some([])
  {
  }

  lemma {:induction false} UriArgumentsRead(uri: string, didl: string)
    ensures Tokens(Arguments(uri, didl) + End()) == Some(UriTokens(uri, didl))
  {
    EndRead();
    UriTags();
    MetaDataTags();
    ArgumentsAre(uri, didl);
    hide Tokens, Tags, Escape, Arguments, End, EndTokens, TextGiven;
    ElementRead("CurrentURIMetaData", "<CurrentURIMetaData>", "</CurrentURIMetaData>", didl, End(), EndTokens());
    ElementRead("CurrentURI", "<CurrentURI>", "</CurrentURI>", uri,
                "<CurrentURIMetaData>" + (Escape(didl) + ("</CurrentURIMetaData>" + End())), MetaDataTokens(didl));
  }

  lemma {:induction false} ArgumentsRead(uri: string, didl: string)
    ensures Tokens("<InstanceID>" + ("0" + ("</InstanceID>" + (Arguments(uri, didl) + End()))))
            == Some(ArgumentTokens(uri, didl))
  {
    UriArgumentsRead(uri, didl);
    InstanceTags();
    ZeroEscaped();
    hide Tokens, Tags, Escape, Arguments, End, UriTokens, TextGiven;
    ElementRead("InstanceID", "<InstanceID>", "</InstanceID>", "0", Arguments(uri, didl) + End(), UriTokens(uri, didl));
  }

  lemma ZeroEscaped()
    ensures Escape("0") == "0"
  {
    assert "0"[1..] == "";
  }

  lemma {:induction false} ArgumentsAre(uri: string, didl: string)
    ensures Arguments(uri, didl) + End()
            == "<CurrentURI>" + (Escape(uri) + ("</CurrentURI>"
               + ("<CurrentURIMetaData>" + (Escape(didl) + ("</CurrentURIMetaData>" + End())))))
  {
    hide Escape, End;
    ArgumentsFlat(uri, didl);
    assert "</CurrentURI>" + "<CurrentURIMetaData>" == "</CurrentURI><CurrentURIMetaData>";
    ConcatAssoc("</CurrentURI>", "<CurrentURIMetaData>", Escape(didl) + ("</CurrentURIMetaData>" + End()));
  }

  lemma SoapPlain()
    ensures PlainValue("http://schemas.xmlsoap.org")
  {
  }

  lemma PathsPlain()
    ensures PlainValue("/soap/envelope/")
    ensures PlainValue("/soap/encoding/")
  {
  }

  lemma UpnpPlain()
    ensures PlainValue("urn:schemas-upnp-org")
  {
  }

  lemma ServicePlain()
    ensures PlainValue(":service:AVTransport:1")
  {
  }

  lemma {:induction false} EnvelopeAttributes(rest: string)
    ensures AttributesOf(EnvelopeSpace() + (EncodingStyle() + (">" + rest)))
            == Some(([("xmlns:s", SOAP_ENVELOPE), ("s:encodingStyle", SOAP_ENCODING)], rest))
  {
    SoapPlain();
    PathsPlain();
    PlainConcat("http://schemas.xmlsoap.org", "/soap/envelope/");
    PlainConcat("http://schemas.xmlsoap.org", "/soap/encoding/");
    EndOfTag(rest);
    EncodingWritten();
    EnvelopeWritten();
    hide AttributesOf, PlainValue, EnvelopeSpace, EncodingStyle;
    ValueRead("s:encodingStyle", SOAP_ENCODING, EncodingStyle(), ">" + rest, [],
              [("s:encodingStyle", SOAP_ENCODING)], rest);
    ValueRead("xmlns:s", SOAP_ENVELOPE, EnvelopeSpace(), EncodingStyle() + (">" + rest),
              [("s:encodingStyle", SOAP_ENCODING)],
              [("xmlns:s", SOAP_ENVELOPE), ("s:encodingStyle", SOAP_ENCODING)], rest);
  }

  lemma EncodingWritten()
    ensures EncodingStyle() == " " + "s:encodingStyle" + "=\"" + SOAP_ENCODING + "\""
  {
    assert " s:encodingStyle=\"" == " " + "s:encodingStyle" + "=\"";
  }

  lemma EnvelopeWritten()
    ensures EnvelopeSpace() == " " + "xmlns:s" + "=\"" + SOAP_ENVELOPE + "\""
  {
    assert " xmlns:s=\"" == " " + "xmlns:s" + "=\"";
  }

  lemma ActionWritten()
    ensures ActionSpace() == " " + "xmlns:u" + "=\"" + AV_TRANSPORT + "\""
  {
    assert " xmlns:u=\"" == " " + "xmlns:u" + "=\"";
  }

  lemma {:induction false} ActionAttributes(rest: string)
    ensures AttributesOf(ActionSpace() + (">" + rest)) == Some(([("xmlns:u", AV_TRANSPORT)], rest))
  {
    UpnpPlain();
    ServicePlain();
    PlainConcat("urn:schemas-upnp-org", ":service:AVTransport:1");
    EndOfTag(rest);
    ActionWritten();
    hide AttributesOf, PlainValue, ActionSpace;
    ValueRead("xmlns:u", AV_TRANSPORT, ActionSpace(), ">" + rest, [], [("xmlns:u", AV_TRANSPORT)], rest);
  }

  lemma ActionSpaceFirst()
    ensures ActionSpace() != "" && ActionSpace()[0] == ' '
  {
    ActionWritten();
  }

  /** A tag with attributes. */
  lemma {:induction false} TagRead(name: string, written: string, attributes: seq<(string, string)>, rest: string,
                                   ts: seq<Token>)
    requires PlainName(name) && written != "" && (written[0] == ' ' || written[0] == '>')
    requires AttributesOf(written + rest) == Some((attributes, rest)) && Tokens(rest) == Some(ts)
    ensures Tokens("<" + (name + written) + rest) == Some([Open(name, attributes)] + ts)
  {
    hide Tokens, AttributesOf;
    OpenPassed(name, written, attributes, rest);
    assert "<" + (name + written) + rest == "<" + name + written + rest;
  }

  lemma ActionName()
    ensures "u:" + "SetAVTransportURI" == "u:SetAVTransportURI"
  {
  }

  lemma {:induction false} ActionRead(rest: string, ts: seq<Token>)
    requires Tokens(rest) == Some(ts)
    ensures Tokens("<" + ActionTag("SetAVTransportURI") + rest)
            == Some([Open("u:SetAVTransportURI", [("xmlns:u", AV_TRANSPORT)])] + ts)
  {
    ActionPlain();
    ActionName();
    ActionAttributes(rest);
    ActionSpaceFirst();
    hide Tokens, AttributesOf, ActionSpace;
    assert ActionSpace() + ">" + rest == ActionSpace() + (">" + rest);
    TagRead("u:SetAVTransportURI", ActionSpace() + ">", [("xmlns:u", AV_TRANSPORT)], rest, ts);
  }

  lemma {:induction false} EnvelopeRead(rest: string, ts: seq<Token>)
    requires Tokens(rest) == Some(ts)
    ensures Tokens("<" + EnvelopeTag() + rest)
            == Some([Open("s:Envelope", [("xmlns:s", SOAP_ENVELOPE), ("s:encodingStyle", SOAP_ENCODING)])] + ts)
  {
    hide Tokens, AttributesOf;
    EnvelopeAttributes(rest);
    EnvelopeWritten();
    var a, b := EnvelopeSpace(), EncodingStyle();
    hide EnvelopeSpace, EncodingStyle;
    assert a[0] == ' ';
    assert a + (b + ">") + rest == a + (b + (">" + rest));
    OpenPassed("s:Envelope", a + (b + ">"), [("xmlns:s", SOAP_ENVELOPE), ("s:encodingStyle", SOAP_ENCODING)], rest);
    assert "<" + EnvelopeTag() + rest == "<" + "s:Envelope" + (a + (b + ">")) + rest;
  }

  lemma {:induction false} DeclarationRead(rest: string, ts: seq<Token>)
    requires Tokens(rest) == Some(ts)
    ensures Tokens("<" + XmlTag() + rest)
            == Some([Declaration(DeclarationText())] + ts)
    decreases |rest|
  {
    DeclarationPlain();
    DeclarationWritten();
    hide XmlTag, Tokens, DeclarationText;
    DeclarationPassed(DeclarationText(), rest, ts);
    assert "<" + ("?" + DeclarationText() + "?>") + rest == "<?" + DeclarationText() + "?>" + rest;
  }

  function DeclarationText(): string {
    "xml version=\"1.0\"" + " encoding=\"utf-8\""
  }

  lemma {:induction false} DeclarationPassed(inner: string, rest: string, ts: seq<Token>)
    requires '?' !in inner && Tokens(rest) == Some(ts)
    ensures Tokens("<?" + inner + "?>" + rest) == Some([Declaration(inner)] + ts)
    decreases |rest|
  {
    hide FindSubsequence;
    var s := "<?" + inner + "?>" + rest;
    assert s[2..] == inner + "?>" + rest;
    FindPastPlain(inner, "?>", rest);
    assert s[2..|inner| + 2] == inner;
    assert s[|inner| + 4..] == rest;
  }

  lemma DeclarationPlain()
    ensures '?' !in DeclarationText()
  {
  }

  lemma DeclarationWritten()
    ensures XmlTag() == "?" + DeclarationText() + "?>"
  {
    assert "?xml version=\"1.0\"" == "?" + "xml version=\"1.0\"";
    assert " encoding=\"utf-8\"?>" == " encoding=\"utf-8\"" + "?>";
  }

  lemma InstanceWritten(args: string)
    ensures "<" + "InstanceID>0" + ("<" + "/InstanceID>" + args)
            == "<InstanceID>" + ("0" + ("</InstanceID>" + args))
  {
    assert "<" + "InstanceID>0" == "<InstanceID>" + "0" && "<" + "/InstanceID>" == "</InstanceID>";
  }

  /** Main result: for every URI and metadata, the request reads as exactly those elements, namespaces,
      attributes and arguments. */
  lemma {:induction false} RequestRead(uri: string, didl: string)
    ensures Tokens(SetAvTransportUri(uri, didl)) == Some(RequestTokens(uri, didl))
  {
    BodyTags();
    BodyShape(uri, didl);
    var args := Arguments(uri, didl) + End();
    ArgumentsRead(uri, didl);
    InstanceWritten(args);
    assert "<s:Body>" == "<" + "s:Body>";
    hide Tokens, Tags, Arguments, End, SetAvTransportUri, XmlTag, EnvelopeTag, ActionTag, ArgumentTokens;
    var d4 := "<" + "InstanceID>0" + ("<" + "/InstanceID>" + args);
    var d3 := "<" + ActionTag("SetAVTransportURI") + d4;
    var d2 := "<" + "s:Body>" + d3;
    var d1 := "<" + EnvelopeTag() + d2;
    var t3 := [Open("u:SetAVTransportURI", [("xmlns:u", AV_TRANSPORT)])] + ArgumentTokens(uri, didl);
    var t2 := [Open("s:Body", [])] + t3;
    ActionRead(d4, ArgumentTokens(uri, didl));
    OpenRead("s:Body", "<s:Body>", "</s:Body>", d3, t3);
    EnvelopeRead(d2, t2);
    DeclarationRead(d1, [Open("s:Envelope", [("xmlns:s", SOAP_ENVELOPE), ("s:encodingStyle", SOAP_ENCODING)])] + t2);
  }

  /** Also behind a reader that normalizes line ends first. */
  lemma {:induction false} RequestReadNormalized(uri: string, didl: string)
    ensures Tokens(Normalized(SetAvTransportUri(uri, didl))) == Some(RequestTokens(Normalized(uri), Normalized(didl)))
  {
    hide Tokens, RequestTokens, Normalized, SetAvTransportUri;
    RequestNormalized(uri, didl);
    RequestRead(Normalized(uri), Normalized(didl));
  }

  // ----- the metadata -----

  const DIDL_LITE := "urn:schemas-upnp-org:" + "metadata-1-0/DIDL-Lite/"
  const DUBLIN_CORE := "http://purl.org/dc/elements/1.1/"
  const UPNP := "urn:schemas-upnp-org:" + "metadata-1-0/upnp/"

  /** One video item with its title, class and resource. */
  function DidlTokens(title: string, uri: string, protocolInfo: string): seq<Token> {
    [Open("DIDL-Lite", [("xmlns", DIDL_LITE), ("xmlns:dc", DUBLIN_CORE), ("xmlns:upnp", UPNP)])]
    + ([Open("item", [("id", "0"), ("parentID", "-1"), ("restricted", "1")])]
       + ItemTokens(title, uri, protocolInfo))
  }

  function ItemTokens(title: string, uri: string, protocolInfo: string): seq<Token> {
    [Open("dc:title", [])] + (TextGiven(title) + ([Close("dc:title")] + ClassTokens(protocolInfo, uri)))
  }

  function ClassTokens(protocolInfo: string, uri: string): seq<Token> {
    [Open("upnp:class", [])] + (TextGiven("object.item.videoItem")
    + ([Close("upnp:class")] + ResourceTokens(protocolInfo, uri)))
  }

  function ResourceTokens(protocolInfo: string, uri: string): seq<Token> {
    [Open("res", [("protocolInfo", protocolInfo)])] + (TextGiven(uri) + DidlEndTokens())
  }

  function DidlEndTokens(): seq<Token> {
    [Close("res")] + ([Close("item")] + ([Close("DIDL-Lite")] + []))
  }

  lemma DidlTags()
    ensures Tags("DIDL-Lite", "<DIDL-Lite>", "</DIDL-Lite>")
  {
  }

  lemma ItemTags()
    ensures Tags("item", "<item>", "</item>")
  {
  }

  lemma ResTags()
    ensures Tags("res", "<res>", "</res>")
  {
  }

  lemma TitleTags()
    ensures Tags("dc:title", "<dc:title>", "</dc:title>")
  {
  }

  lemma ClassTags()
    ensures Tags("upnp:class", "<upnp:class>", "</upnp:class>")
  {
  }

  lemma DidlEndWritten()
    ensures RESOURCE_END == "</res>" + ("</item>" + ("</DIDL-Lite>" + ""))
  {
  }

  lemma {:induction false} DidlEndRead()
    ensures Tokens(RESOURCE_END) == Some(DidlEndTokens())
  {
    DidlTags();
    ItemTags();
    ResTags();
    DidlEndWritten();
    NothingRead();
    hide Tokens, Tags;
    CloseRead("DIDL-Lite", "<DIDL-Lite>", "</DIDL-Lite>", "", []);
    CloseRead("item", "<item>", "</item>", "</DIDL-Lite>" + "", [Close("DIDL-Lite")] + []);
    CloseRead("res", "<res>", "</res>", "</item>" + ("</DIDL-Lite>" + ""),
              [Close("item")] + ([Close("DIDL-Lite")] + []));
  }

  lemma ResourceWritten(p: string, text: string)
    ensures "<res protocolInfo=\"" + (p + ("\">" + text))
            == "<" + "res" + (" " + "protocolInfo" + "=\"" + p + "\"" + ">") + text
  {
    assert "<res protocolInfo=\"" == "<" + "res" + (" " + "protocolInfo" + "=\"");
    assert "\">" == "\"" + ">";
  }

  lemma {:induction false} ResourceTagRead(protocolInfo: string, text: string, ts: seq<Token>)
    requires Tokens(text) == Some(ts)
    ensures Tokens("<res protocolInfo=\"" + (Escape(protocolInfo) + ("\">" + text)))
            == Some([Open("res", [("protocolInfo", protocolInfo)])] + ts)
  {
    EscapeRoundTrip(protocolInfo);
    var p := Escape(protocolInfo);
    EndOfTag(text);
    ResourceWritten(p, text);
    hide Tokens, Escape, Unescape, AttributesOf;
    AttributePassed("protocolInfo", p, ">" + text);
    var written := " " + "protocolInfo" + "=\"" + p + "\"" + ">";
    assert written + text == " " + "protocolInfo" + "=\"" + p + "\"" + (">" + text);
    assert [("protocolInfo", protocolInfo)] + [] == [("protocolInfo", protocolInfo)];
    OpenPassed("res", written, [("protocolInfo", protocolInfo)], text);
  }

  lemma {:induction false} ResourceRead(protocolInfo: string, uri: string)
    ensures Tokens(Resource(protocolInfo, uri)) == Some(ResourceTokens(protocolInfo, uri))
  {
    DidlEndRead();
    TextRead(uri, RESOURCE_END);
    ResourceFlat(protocolInfo, uri);
    hide Tokens, Escape, Resource, TextGiven;
    ResourceTagRead(protocolInfo, Escape(uri) + RESOURCE_END, TextGiven(uri) + DidlEndTokens());
  }

  lemma {:induction false} ItemRead(title: string, uri: string, protocolInfo: string)
    ensures Tokens(ItemContent(title, uri, protocolInfo)) == Some(ItemTokens(title, uri, protocolInfo))
  {
    var resource := Resource(protocolInfo, uri);
    ResourceRead(protocolInfo, uri);
    TitleTags();
    ClassTags();
    ClassEscaped();
    ClassWritten(resource);
    ItemFlat(title, uri, protocolInfo);
    hide Tokens, Tags, Escape, Resource, ResourceTokens, TextGiven, ItemContent;
    ElementRead("upnp:class", "<upnp:class>", "</upnp:class>", "object.item.videoItem", resource,
                ResourceTokens(protocolInfo, uri));
    ElementRead("dc:title", "<dc:title>", "</dc:title>", title, "<" + CLASS_TAG + ("<" + "/upnp:class>" + resource),
                ClassTokens(protocolInfo, uri));
  }

  lemma ClassWritten(resource: string)
    ensures "<" + CLASS_TAG + ("<" + "/upnp:class>" + resource)
            == "<upnp:class>" + ("object.item.videoItem" + ("</upnp:class>" + resource))
  {
    assert "<" + CLASS_TAG == "<upnp:class>" + "object.item.videoItem";
    assert "</upnp:class>" == "<" + "/upnp:class>";
  }

  lemma ClassEscaped()
    ensures Escape("object.item.videoItem") == "object.item.videoItem"
  {
    ClassPlain();
    EscapePlain("object.item.videoItem");
  }

  lemma ClassPlain()
    ensures forall c :: c in "object.item.videoItem" ==> EscapeChar(c) == [c]
  {
  }

  lemma {:induction false} EscapePlain(s: string)
    requires forall c :: c in s ==> EscapeChar(c) == [c]
    ensures Escape(s) == s
  {
    hide EscapeChar;
    if s == "" {
    } else {
      EscapePlain(s[1..]);
      assert s == [s[0]] + s[1..];
    }
  }

  lemma MetadataPlain()
    ensures PlainValue("metadata-1-0/DIDL-Lite/")
    ensures PlainValue("metadata-1-0/upnp/")
  {
  }

  lemma UpnpColonPlain()
    ensures PlainValue("urn:schemas-upnp-org:")
  {
  }

  lemma DublinCorePlain()
    ensures PlainValue(DUBLIN_CORE)
  {
  }

  lemma DidlWritten()
    ensures DidlSpace() == " " + "xmlns" + "=\"" + DIDL_LITE + "\""
    ensures DublinCore() == " " + "xmlns:dc" + "=\"" + DUBLIN_CORE + "\""
    ensures UpnpSpace() == " " + "xmlns:upnp" + "=\"" + UPNP + "\""
  {
    assert " xmlns=\"" == " " + "xmlns" + "=\"";
    assert " xmlns:dc=\"" == " " + "xmlns:dc" + "=\"";
    assert " xmlns:upnp=\"" == " " + "xmlns:upnp" + "=\"";
  }

  lemma {:induction false} DidlAttributes(rest: string)
    ensures AttributesOf(DidlSpace() + (DublinCore() + (UpnpSpace() + (">" + rest))))
            == Some(([("xmlns", DIDL_LITE), ("xmlns:dc", DUBLIN_CORE), ("xmlns:upnp", UPNP)], rest))
  {
    MetadataPlain();
    UpnpColonPlain();
    DublinCorePlain();
    PlainConcat("urn:schemas-upnp-org:", "metadata-1-0/DIDL-Lite/");
    PlainConcat("urn:schemas-upnp-org:", "metadata-1-0/upnp/");
    EndOfTag(rest);
    DidlWritten();
    hide AttributesOf, PlainValue, DidlSpace, DublinCore, UpnpSpace;
    var a, b, c := DidlSpace(), DublinCore(), UpnpSpace();
    var t3 := [("xmlns:upnp", UPNP)];
    var t2 := [("xmlns:dc", DUBLIN_CORE), ("xmlns:upnp", UPNP)];
    ValueRead("xmlns:upnp", UPNP, c, ">" + rest, [], t3, rest);
    ValueRead("xmlns:dc", DUBLIN_CORE, b, c + (">" + rest), t3, t2, rest);
    ValueRead("xmlns", DIDL_LITE, a, b + (c + (">" + rest)), t2,
              [("xmlns", DIDL_LITE), ("xmlns:dc", DUBLIN_CORE), ("xmlns:upnp", UPNP)], rest);
  }

  lemma {:induction false} DidlTagRead(rest: string, ts: seq<Token>)
    requires Tokens(rest) == Some(ts)
    ensures Tokens("<" + DidlTag() + rest)
            == Some([Open("DIDL-Lite", [("xmlns", DIDL_LITE), ("xmlns:dc", DUBLIN_CORE), ("xmlns:upnp", UPNP)])] + ts)
  {
    hide Tokens, AttributesOf;
    DidlAttributes(rest);
    DidlWritten();
    var a, b, c := DidlSpace(), DublinCore(), UpnpSpace();
    hide DidlSpace, DublinCore, UpnpSpace;
    assert a[0] == ' ';
    assert a + (b + (c + ">")) + rest == a + (b + (c + (">" + rest)));
    OpenPassed("DIDL-Lite", a + (b + (c + ">")),
               [("xmlns", DIDL_LITE), ("xmlns:dc", DUBLIN_CORE), ("xmlns:upnp", UPNP)], rest);
    assert "<" + DidlTag() + rest == "<" + "DIDL-Lite" + (a + (b + (c + ">"))) + rest;
  }

  lemma ItemWritten()
    ensures " id=\"" + "0" + "\"" == " " + "id" + "=\"" + "0" + "\""
    ensures " parentID=\"" + "-1" + "\"" == " " + "parentID" + "=\"" + "-1" + "\""
    ensures " restricted=\"" + "1" + "\"" == " " + "restricted" + "=\"" + "1" + "\""
  {
    assert " id=\"" == " " + "id" + "=\"" && " parentID=\"" == " " + "parentID" + "=\"";
    assert " restricted=\"" == " " + "restricted" + "=\"";
  }

  lemma {:induction false} ItemTagRead(rest: string, ts: seq<Token>)
    requires Tokens(rest) == Some(ts)
    ensures Tokens("<" + ItemTag() + rest)
            == Some([Open("item", [("id", "0"), ("parentID", "-1"), ("restricted", "1")])] + ts)
  {
    hide Tokens, AttributesOf;
    var a, b, c := " id=\"" + "0" + "\"", " parentID=\"" + "-1" + "\"", " restricted=\"" + "1" + "\"";
    ItemWritten();
    EndOfTag(rest);
    var t3, t2 := [("restricted", "1")], [("parentID", "-1"), ("restricted", "1")];
    ValueRead("restricted", "1", c, ">" + rest, [], t3, rest);
    ValueRead("parentID", "-1", b, c + (">" + rest), t3, t2, rest);
    ValueRead("id", "0", a, b + (c + (">" + rest)), t2, [("id", "0"), ("parentID", "-1"), ("restricted", "1")], rest);
    assert a + (b + (c + ">")) + rest == a + (b + (c + (">" + rest)));
    OpenPassed("item", a + (b + (c + ">")), [("id", "0"), ("parentID", "-1"), ("restricted", "1")], rest);
    assert "<" + ItemTag() + rest == "<" + "item" + (a + (b + (c + ">"))) + rest;
  }

  /** Main result: for every title, URI and protocolInfo, the metadata reads as exactly that item. */
  lemma {:induction false} DidlRead(title: string, uri: string, protocolInfo: string)
    ensures Tokens(Didl(title, uri, protocolInfo)) == Some(DidlTokens(title, uri, protocolInfo))
  {
    hide Tokens, ItemContent, DidlTag, ItemTag, ItemTokens;
    var item := ItemContent(title, uri, protocolInfo);
    ItemRead(title, uri, protocolInfo);
    ItemTagRead(item, ItemTokens(title, uri, protocolInfo));
    DidlTagRead("<" + ItemTag() + item,
                [Open("item", [("id", "0"), ("parentID", "-1"), ("restricted", "1")])]
                + ItemTokens(title, uri, protocolInfo));
  }
}
