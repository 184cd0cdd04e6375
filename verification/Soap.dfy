/** XML escaping, and the documents it is nested in: DIDL-Lite metadata inside a SOAP request. */
module Soap {
  import opened Bytes
  import opened Search

  // ----- escaping -----

  function EscapeChar(c: char): string {
    if c == '&' then "&amp;"
    else if c == '<' then "&lt;"
    else if c == '>' then "&gt;"
    else if c == '"' then "&quot;"
    else if c == '\'' then "&apos;"
    else [c]
  }

  function Escape(s: string): string {
    if s == "" then "" else EscapeChar(s[0]) + Escape(s[1..])
  }

  method XmlEscape(s: string) returns (out: string)
    ensures out == Escape(s)
  {
    out := "";
    assert s[0..] == s;
    for i := 0 to |s|
      invariant out + Escape(s[i..]) == Escape(s)
    {
      assert s[i..][1..] == s[i + 1..];
      out := out + EscapeChar(s[i]);
    }
    assert out + "" == out;
  }

  /** The character an entity reference at the front stands for, and its length. */
  function Entity(s: string): Option<(char, nat)> {
    if "&amp;" <= s then Some(('&', 5))
    else if "&lt;" <= s then Some(('<', 4))
    else if "&gt;" <= s then Some(('>', 4))
    else if "&quot;" <= s then Some(('"', 6))
    else if "&apos;" <= s then Some(('\'', 6))
    else None
  }

  /** Each predefined entity replaced once, as an XML reader does for text and attributes. What it does
      to line ends before that is the subject of `XmlLines`. */
  function Unescape(s: string): string
    decreases |s|
  {
    if s == "" then ""
    else
      match Entity(s)
      case Some((c, n)) => [c] + Unescape(s[n..])
      case None => [s[0]] + Unescape(s[1..])
  }

  predicate Markup(c: char) {
    c == '<' || c == '>' || c == '"' || c == '\''
  }

  lemma {:induction false} EntityOfEscaped(c: char, rest: string)
    ensures c == '&' || Markup(c) ==> Entity(EscapeChar(c) + rest) == Some((c, |EscapeChar(c)|))
    ensures !(c == '&' || Markup(c)) ==> EscapeChar(c) == [c] && Entity([c] + rest) == None
  {
    var e := EscapeChar(c);
    var s := e + rest;
    assert s[..|e|] == e;
    if c == '&' || Markup(c) {
      assert s[1] == e[1] && s[2] == e[2];
      forall p: string | |p| >= 3 && p <= s ensures p[0] == s[0] && p[1] == s[1] && p[2] == s[2] {
        assert s[..|p|] == p;
      }
    } else {
      assert s[0] == c;
    }
  }

  /** Escaping is undone exactly, and leaves no raw markup behind. */
  lemma {:induction false} EscapeRoundTrip(s: string)
    ensures Unescape(Escape(s)) == s
    ensures forall c :: c in Escape(s) ==> !Markup(c)
  {
    if s == "" {
    } else {
      var e, rest := EscapeChar(s[0]), Escape(s[1..]);
      hide Entity, EscapeChar;
      EscapeRoundTrip(s[1..]);
      EntityOfEscaped(s[0], rest);
      EscapedIsPlain(s[0]);
      assert (e + rest)[|e|..] == rest;
      assert s == [s[0]] + s[1..];
    }
  }

  lemma EscapedIsPlain(c: char)
    ensures EscapeChar(c) != "" && forall x :: x in EscapeChar(c) ==> !Markup(x)
  {
  }

  // ----- cutting documents -----

  /** What follows the first `open`. */
  function Cut(s: string, open: string): Option<string> {
    match FindSubsequence(s, open)
    case None => None
    case Some(k) => Some(s[k + |open|..])
  }

  /** The text between the first `open` and the first `close` behind it. */
  function Between(s: string, open: string, close: string): Option<string> {
    match Cut(s, open)
    case None => None
    case Some(rest) =>
      match FindSubsequence(rest, close)
      case None => None
      case Some(k) => Some(rest[..k])
  }

  /** The text content or attribute value between two delimiters, its entities replaced. */
  function Content(s: string, open: string, close: string): Option<string> {
    match Between(s, open, close)
    case None => None
    case Some(text) => Some(Unescape(text))
  }

  lemma CutHere(open: string, rest: string)
    requires open != ""
    ensures Cut(open + rest, open) == Some(rest)
  {
  }

  lemma Behind(front: string, rest: string, n: nat)
    requires n <= |rest|
    ensures (front + rest)[|front| + n..] == rest[n..]
  {
  }

  lemma {:induction false} FindPastTag(tag: string, rest: string, open: string, k: nat)
    requires 0 < k < |open| && k <= |tag| && open[0] == '<' && open[k] != tag[k - 1]
    requires '<' !in tag && |rest| >= |open|
    ensures FindSubsequence("<" + tag + rest, open)
            == match FindSubsequence(rest, open) case None => None case Some(j) => Some(|"<" + tag| + j)
  {
    hide FindSubsequence;
    var s := "<" + tag + rest;
    assert s[..|open|][k] == tag[k - 1];
    FindNext(s, open);
    assert s[1..] == tag + rest;
    FindShifted(tag, rest, open);
  }

  /** Looking for a tag passes over another tag and the plain text behind it. */
  lemma {:induction false} CutPast(tag: string, rest: string, open: string, k: nat)
    requires 0 < k < |open| && k <= |tag| && open[0] == '<' && open[k] != tag[k - 1]
    requires '<' !in tag && |rest| >= |open|
    ensures Cut("<" + tag + rest, open) == Cut(rest, open)
  {
    hide FindSubsequence;
    FindPastTag(tag, rest, open, k);
    var found := FindSubsequence(rest, open);
    if found.Some? {
      Behind("<" + tag, rest, found.value + |open|);
    }
  }

  /** Escaped text ends at the first delimiter that starts with raw markup. */
  lemma ContentHere(s: string, open: string, text: string, close: string, rest: string)
    requires Cut(s, open) == Some(Escape(text) + close + rest)
    requires close != "" && Markup(close[0])
    ensures Between(s, open, close) == Some(Escape(text)) && Content(s, open, close) == Some(text)
  {
    hide FindSubsequence, Cut;
    EscapeRoundTrip(text);
    FindPastPlain(Escape(text), close, rest);
    assert (Escape(text) + close + rest)[..|Escape(text)|] == Escape(text);
  }

  // ----- the documents -----

  // Long tags are written in short pieces.

  function DidlTag(): string {
    "DIDL-Lite" + (DidlSpace() + (DublinCore() + (UpnpSpace() + ">")))
  }

  function DidlSpace(): string {
    " xmlns=\"" + ("urn:schemas-upnp-org:" + "metadata-1-0/DIDL-Lite/") + "\""
  }

  function DublinCore(): string {
    " xmlns:dc=\"" + "http://purl.org/dc/elements/1.1/" + "\""
  }

  function UpnpSpace(): string {
    " xmlns:upnp=\"" + ("urn:schemas-upnp-org:" + "metadata-1-0/upnp/") + "\""
  }

  function ItemTag(): string {
    "item" + ((" id=\"" + "0" + "\"") + ((" parentID=\"" + "-1" + "\"") + ((" restricted=\"" + "1" + "\"") + ">")))
  }

  function XmlTag(): string {
    "?xml version=\"1.0\"" + " encoding=\"utf-8\"?>"
  }

  function EnvelopeTag(): string {
    "s:Envelope" + (EnvelopeSpace() + (EncodingStyle() + ">"))
  }

  function EnvelopeSpace(): string {
    " xmlns:s=\"" + ("http://schemas.xmlsoap.org" + "/soap/envelope/") + "\""
  }

  function EncodingStyle(): string {
    " s:encodingStyle=\"" + ("http://schemas.xmlsoap.org" + "/soap/encoding/") + "\""
  }

  function ActionTag(action: string): string {
    "u:" + action + (ActionSpace() + ">")
  }

  function ActionSpace(): string {
    " xmlns:u=\"" + ("urn:schemas-upnp-org" + ":service:AVTransport:1") + "\""
  }

  function Resource(protocolInfo: string, uri: string): string {
    "<res protocolInfo=\"" + (Escape(protocolInfo) + "\"" + (">" + (Escape(uri) + "</res>" + "</item></DIDL-Lite>")))
  }

  function ItemContent(title: string, uri: string, protocolInfo: string): string {
    "<dc:title>" + (Escape(title) + "</dc:title>"
      + ("<" + "upnp:class>object.item.videoItem" + ("<" + "/upnp:class>" + Resource(protocolInfo, uri))))
  }

  /** DIDL-Lite metadata of one video item. */
  function Didl(title: string, uri: string, protocolInfo: string): string {
    "<" + DidlTag() + ("<" + ItemTag() + ItemContent(title, uri, protocolInfo))
  }

  function Envelope(action: string, inner: string): string {
    "<" + XmlTag() + ("<" + EnvelopeTag() + ("<" + "s:Body>"
      + ("<" + ActionTag(action)
         + (inner + ("</u:" + action + "></s:Body></s:Envelope>")))))
  }

  function MetaData(didl: string): string {
    "<CurrentURIMetaData>" + (Escape(didl) + "</CurrentURIMetaData>" + "")
  }

  /** The request that tells a renderer what to load. */
  function SetAvTransportUri(uri: string, didl: string): string {
    Envelope("SetAVTransportURI",
             "<" + "InstanceID>0" + ("<" + "/InstanceID>"
               + ("<CurrentURI>" + (Escape(uri) + "</CurrentURI>" + MetaData(didl)))))
  }

  // ----- reading the documents back -----

  /** A tag without a raw opening bracket inside, and its first letter. */
  predicate PlainTag(tag: string, first: char) {
    tag != "" && tag[0] == first && '<' !in tag
  }

  lemma DublinCoreIsPlain()
    ensures '<' !in DublinCore()
  {
  }

  lemma UpnpSpaceIsPlain()
    ensures '<' !in UpnpSpace()
  {
  }

  lemma DidlSpaceIsPlain()
    ensures '<' !in DidlSpace()
  {
  }

  lemma DidlTagIsPlain()
    ensures PlainTag(DidlTag(), 'D')
  {
    DidlSpaceIsPlain();
    DublinCoreIsPlain();
    UpnpSpaceIsPlain();
    hide DidlSpace, DublinCore, UpnpSpace;
  }

  lemma ItemTagIsPlain()
    ensures PlainTag(ItemTag(), 'i')
  {
  }

  lemma EncodingStyleIsPlain()
    ensures '<' !in EncodingStyle()
  {
  }

  lemma EnvelopeSpaceIsPlain()
    ensures '<' !in EnvelopeSpace()
  {
  }

  lemma EnvelopeTagIsPlain()
    ensures PlainTag(EnvelopeTag(), 's')
  {
    EnvelopeSpaceIsPlain();
    EncodingStyleIsPlain();
    hide EnvelopeSpace, EncodingStyle;
  }

  lemma XmlTagIsPlain()
    ensures PlainTag(XmlTag(), '?')
  {
  }

  lemma ActionSpaceIsPlain()
    ensures '<' !in ActionSpace()
  {
  }

  lemma ActionTagIsPlain()
    ensures PlainTag(ActionTag("SetAVTransportURI"), 'u')
  {
    ActionSpaceIsPlain();
    hide ActionSpace;
  }

  /** Looking for a tag that starts differently passes over a plain one. */
  lemma CutPastTag(tag: string, first: char, rest: string, open: string)
    requires PlainTag(tag, first) && |open| >= 2 && open[0] == '<' && open[1] != first && |rest| >= |open|
    ensures Cut("<" + tag + rest, open) == Cut(rest, open)
  {
    CutPast(tag, rest, open, 1);
  }

  /** Everything behind the opening tag of the action. */
  function Arguments(uri: string, didl: string): string {
    "<CurrentURI>" + (Escape(uri) + "</CurrentURI>" + MetaData(didl))
  }

  function End(): string {
    "</u:SetAVTransportURI>" + "</s:Body></s:Envelope>"
  }

  function Nested(uri: string, didl: string): string {
    "<" + EnvelopeTag() + ("<" + "s:Body>" + ("<" + ActionTag("SetAVTransportURI")
      + ("<" + "InstanceID>0" + ("<" + "/InstanceID>" + (Arguments(uri, didl) + End())))))
  }

  lemma EndShape()
    ensures "</u:" + "SetAVTransportURI" + "></s:Body></s:Envelope>" == End()
  {
  }

  lemma {:induction false} BodyShape(uri: string, didl: string)
    ensures SetAvTransportUri(uri, didl) == "<" + XmlTag() + Nested(uri, didl)
  {
    hide XmlTag, EnvelopeTag, ActionTag, Escape, MetaData;
    var args := Arguments(uri, didl);
    var inner := "<" + "InstanceID>0" + ("<" + "/InstanceID>" + args);
    assert SetAvTransportUri(uri, didl) == Envelope("SetAVTransportURI", inner);
    EndShape();
    hide End;
    assert inner + End() == "<" + "InstanceID>0" + ("<" + "/InstanceID>" + (args + End()));
  }

  lemma EndIsLong()
    ensures |End()| >= 24
  {
  }

  lemma {:induction false} CutToArguments(uri: string, didl: string, open: string)
    requires 2 <= |open| <= 24 && open[0] == '<' && open[1] == 'C'
    ensures Cut(SetAvTransportUri(uri, didl), open) == Cut(Arguments(uri, didl) + End(), open)
  {
    hide XmlTag, EnvelopeTag, ActionTag, Cut, Arguments, SetAvTransportUri, End;
    XmlTagIsPlain();
    EnvelopeTagIsPlain();
    ActionTagIsPlain();
    BodyShape(uri, didl);
    EndIsLong();
    var d6 := Arguments(uri, didl) + End();
    var d5 := "<" + "/InstanceID>" + d6;
    var d4 := "<" + "InstanceID>0" + d5;
    var d3 := "<" + ActionTag("SetAVTransportURI") + d4;
    var d2 := "<" + "s:Body>" + d3;
    var d1 := "<" + EnvelopeTag() + d2;
    assert d1 == Nested(uri, didl);
    CutPastTag(XmlTag(), '?', d1, open);
    CutPastTag(EnvelopeTag(), 's', d2, open);
    CutPastTag("s:Body>", 's', d3, open);
    CutPastTag(ActionTag("SetAVTransportURI"), 'u', d4, open);
    CutPastTag("InstanceID>0", 'I', d5, open);
    CutPastTag("/InstanceID>", '/', d6, open);
  }

  const URI_OPEN := "<CurrentURI>"
  const URI_CLOSE := "</CurrentURI>"
  const META_OPEN := "<CurrentURIMetaData>"
  const META_CLOSE := "</CurrentURIMetaData>"

  /** The renderer reads back exactly the URI it was sent. */
  lemma UriRoundTrip(uri: string, didl: string)
    ensures Content(SetAvTransportUri(uri, didl), URI_OPEN, URI_CLOSE) == Some(uri)
  {
    hide Cut, SetAvTransportUri, End, MetaData, Escape, Content;
    CutToArguments(uri, didl, URI_OPEN);
    var rest := MetaData(didl) + End();
    assert Arguments(uri, didl) + End() == URI_OPEN + (Escape(uri) + URI_CLOSE + rest);
    CutHere(URI_OPEN, Escape(uri) + URI_CLOSE + rest);
    ContentHere(SetAvTransportUri(uri, didl), URI_OPEN, uri, URI_CLOSE, rest);
  }

  lemma ArgumentsShape(uri: string, didl: string)
    ensures Arguments(uri, didl) + End()
            == "<" + ("CurrentURI>" + Escape(uri))
               + ("<" + "/CurrentURI>" + (META_OPEN + (Escape(didl) + META_CLOSE + End())))
  {
    hide Escape, End;
    assert URI_OPEN == "<" + "CurrentURI>" && URI_CLOSE == "<" + "/CurrentURI>";
    var meta := Escape(didl) + META_CLOSE;
    assert MetaData(didl) == META_OPEN + meta;
    assert Arguments(uri, didl) == URI_OPEN + (Escape(uri) + URI_CLOSE + (META_OPEN + meta));
  }

  lemma UriTagIsPlain(uri: string)
    ensures PlainTag("CurrentURI>" + Escape(uri), 'C') && PlainTag("/CurrentURI>", '/')
  {
    EscapeRoundTrip(uri);
    hide Escape;
  }

  /** And exactly the metadata document, nested markup and all. */
  lemma MetaDataRoundTrip(uri: string, didl: string)
    ensures Content(SetAvTransportUri(uri, didl), META_OPEN, META_CLOSE) == Some(didl)
  {
    hide Cut, SetAvTransportUri, End, Escape, Content, Arguments;
    CutToArguments(uri, didl, META_OPEN);
    ArgumentsShape(uri, didl);
    UriTagIsPlain(uri);
    EndIsLong();
    var d3 := Escape(didl) + META_CLOSE + End();
    var d2 := META_OPEN + d3;
    var d1 := "<" + "/CurrentURI>" + d2;
    CutPast("CurrentURI>" + Escape(uri), d1, META_OPEN, 11);
    CutPastTag("/CurrentURI>", '/', d2, META_OPEN);
    CutHere(META_OPEN, d3);
    ContentHere(SetAvTransportUri(uri, didl), META_OPEN, didl, META_CLOSE, End());
  }

  const TITLE_OPEN := "<dc:title>"
  const TITLE_CLOSE := "</dc:title>"
  const RES_OPEN := "<res protocolInfo=\""
  const RES_CLOSE := "</res>"

  lemma CutToItem(title: string, uri: string, protocolInfo: string, open: string)
    requires 2 <= |open| <= 24 && open[0] == '<' && open[1] != 'D' && open[1] != 'i'
    ensures Cut(Didl(title, uri, protocolInfo), open) == Cut(ItemContent(title, uri, protocolInfo), open)
  {
    hide DidlTag, ItemTag, Cut, ItemContent;
    DidlTagIsPlain();
    ItemTagIsPlain();
    ItemContentLong(title, uri, protocolInfo);
    var d2 := ItemContent(title, uri, protocolInfo);
    var d1 := "<" + ItemTag() + d2;
    CutPastTag(DidlTag(), 'D', d1, open);
    CutPastTag(ItemTag(), 'i', d2, open);
  }

  lemma ItemContentLong(title: string, uri: string, protocolInfo: string)
    ensures |ItemContent(title, uri, protocolInfo)| >= 24 && |Resource(protocolInfo, uri)| >= 24
  {
  }

  /** The title in the metadata reads back exactly. */
  lemma TitleRoundTrip(title: string, uri: string, protocolInfo: string)
    ensures Content(Didl(title, uri, protocolInfo), TITLE_OPEN, TITLE_CLOSE) == Some(title)
  {
    hide Cut, Didl, Escape, Content, Resource;
    CutToItem(title, uri, protocolInfo, TITLE_OPEN);
    var rest := "<" + "upnp:class>object.item.videoItem" + ("<" + "/upnp:class>" + Resource(protocolInfo, uri));
    assert ItemContent(title, uri, protocolInfo) == TITLE_OPEN + (Escape(title) + TITLE_CLOSE + rest);
    CutHere(TITLE_OPEN, Escape(title) + TITLE_CLOSE + rest);
    ContentHere(Didl(title, uri, protocolInfo), TITLE_OPEN, title, TITLE_CLOSE, rest);
  }

  const CLASS_TAG := "upnp:class>object.item.videoItem"

  lemma {:induction false} ItemShape(title: string, uri: string, protocolInfo: string)
    ensures ItemContent(title, uri, protocolInfo)
            == "<" + ("dc:title>" + Escape(title))
               + ("<" + "/dc:title>" + ("<" + CLASS_TAG + ("<" + "/upnp:class>" + Resource(protocolInfo, uri))))
  {
    hide Escape, Resource;
    assert TITLE_OPEN == "<" + "dc:title>" && TITLE_CLOSE == "<" + "/dc:title>";
  }

  lemma {:induction false} ItemTagsArePlain(title: string)
    ensures PlainTag("dc:title>" + Escape(title), 'd') && PlainTag("/dc:title>", '/')
    ensures PlainTag(CLASS_TAG, 'u') && PlainTag("/upnp:class>", '/')
  {
    EscapeRoundTrip(title);
    hide Escape;
  }

  lemma CutToResource(title: string, uri: string, protocolInfo: string)
    ensures Cut(Didl(title, uri, protocolInfo), RES_OPEN) == Cut(Resource(protocolInfo, uri), RES_OPEN)
  {
    hide Cut, Didl, Escape, Resource, ItemContent;
    ItemContentLong(title, uri, protocolInfo);
    CutToItem(title, uri, protocolInfo, RES_OPEN);
    ItemShape(title, uri, protocolInfo);
    ItemTagsArePlain(title);
    var d4 := Resource(protocolInfo, uri);
    var d3 := "<" + "/upnp:class>" + d4;
    var d2 := "<" + CLASS_TAG + d3;
    var d1 := "<" + "/dc:title>" + d2;
    CutPastTag("dc:title>" + Escape(title), 'd', d1, RES_OPEN);
    CutPastTag("/dc:title>", '/', d2, RES_OPEN);
    CutPastTag(CLASS_TAG, 'u', d3, RES_OPEN);
    CutPastTag("/upnp:class>", '/', d4, RES_OPEN);
  }

  /** So does the protocolInfo attribute. */
  lemma ProtocolInfoRoundTrip(title: string, uri: string, protocolInfo: string)
    ensures Between(Didl(title, uri, protocolInfo), RES_OPEN, "\"") == Some(Escape(protocolInfo))
    ensures Content(Didl(title, uri, protocolInfo), RES_OPEN, "\"") == Some(protocolInfo)
  {
    hide Cut, Didl, Escape, Content, Between;
    CutToResource(title, uri, protocolInfo);
    var rest := ">" + (Escape(uri) + RES_CLOSE + "</item></DIDL-Lite>");
    assert Resource(protocolInfo, uri) == RES_OPEN + (Escape(protocolInfo) + "\"" + rest);
    CutHere(RES_OPEN, Escape(protocolInfo) + "\"" + rest);
    ContentHere(Didl(title, uri, protocolInfo), RES_OPEN, protocolInfo, "\"", rest);
  }

  /** The text of the resource element: behind the bracket that ends its opening tag. */
  function ResourceText(s: string): Option<string> {
    match Cut(s, RES_OPEN)
    case None => None
    case Some(rest) => Content(rest, ">", RES_CLOSE)
  }

  /** And so does the resource's own URI. */
  lemma ResourceRoundTrip(title: string, uri: string, protocolInfo: string)
    ensures ResourceText(Didl(title, uri, protocolInfo)) == Some(uri)
  {
    hide Didl, Escape, Content, FindSubsequence;
    CutToResource(title, uri, protocolInfo);
    var text := Escape(uri) + RES_CLOSE + "</item></DIDL-Lite>";
    var attribute := Escape(protocolInfo) + "\"";
    var behind := Escape(protocolInfo) + "\"" + (">" + text);
    assert Resource(protocolInfo, uri) == RES_OPEN + behind;
    CutHere(RES_OPEN, behind);
    EscapeRoundTrip(protocolInfo);
    assert behind == attribute + ">" + text;
    FindPastPlain(attribute, ">", text);
    assert behind[|attribute| + 1..] == text;
    ContentHere(behind, ">", uri, RES_CLOSE, "</item></DIDL-Lite>");
  }

  /** Two levels of nesting, undone one level at a time: the title inside the metadata inside the
      request is the title given. */
  lemma NestedTitleRoundTrip(title: string, uri: string, protocolInfo: string)
    ensures var body := SetAvTransportUri(uri, Didl(title, uri, protocolInfo));
            var didl := Content(body, META_OPEN, META_CLOSE);
            didl.Some? && Content(didl.value, TITLE_OPEN, TITLE_CLOSE) == Some(title)
            && ResourceText(didl.value) == Content(body, URI_OPEN, URI_CLOSE) == Some(uri)
  {
    hide Content, Didl, SetAvTransportUri, ResourceText;
    UriRoundTrip(uri, Didl(title, uri, protocolInfo));
    MetaDataRoundTrip(uri, Didl(title, uri, protocolInfo));
    TitleRoundTrip(title, uri, protocolInfo);
    ResourceRoundTrip(title, uri, protocolInfo);
  }
}
