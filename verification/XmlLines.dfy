/** What a conforming XML reader makes of the documents of `Soap`: before anything else it turns line ends
    into line feeds (XML 1.0, section 2.11), and white space in attributes into spaces (section 3.3.3). */
module XmlLines {
  import opened Bytes
  import opened Soap

  /** The first character of a text once normalized, and what is left to normalize. */
  function FirstOf(s: string): char
    requires s != ""
  {
    if s[0] == '\r' then '\n' else s[0]
  }

  function RestOf(s: string): (r: string)
    requires s != ""
    ensures |r| < |s|
  {
    if s[0] == '\r' && |s| > 1 && s[1] == '\n' then s[2..] else s[1..]
  }

  /** Carriage returns, with a line feed or without, become line feeds. */
  function Normalized(s: string): string
    decreases |s|
  {
    if s == "" then "" else [FirstOf(s)] + Normalized(RestOf(s))
  }

  /** Raw white space of an attribute value, line ends already normalized. */
  function Spaced(s: string): string {
    if s == "" then "" else [if s[0] == '\t' || s[0] == '\n' then ' ' else s[0]] + Spaced(s[1..])
  }

  /** The text of an element. */
  function ReadText(doc: string, open: string, close: string): Option<string> {
    Content(Normalized(doc), open, close)
  }

  /** The value of an attribute. */
  function ReadAttribute(doc: string, open: string): Option<string> {
    match Between(Normalized(doc), open, "\"")
    case None => None
    case Some(raw) => Some(Unescape(Spaced(raw)))
  }

  // ----- normalization -----

  lemma {:induction false} RestConcat(a: string, b: string)
    requires a != "" && (b == "" || b[0] != '\n')
    ensures FirstOf(a + b) == FirstOf(a) && RestOf(a + b) == RestOf(a) + b
  {
  }

  lemma {:induction false} NormalizedConcat(a: string, b: string)
    requires b == "" || b[0] != '\n'
    ensures Normalized(a + b) == Normalized(a) + Normalized(b)
    decreases |a|
  {
    hide FirstOf, RestOf;
    if a == "" {
      assert a + b == b;
    } else {
      RestConcat(a, b);
      NormalizedConcat(RestOf(a), b);
      ConcatAssoc([FirstOf(a)], Normalized(RestOf(a)), Normalized(b));
    }
  }

  lemma {:induction false} NormalizedPlain(s: string)
    requires '\r' !in s
    ensures Normalized(s) == s
  {
    if s == "" {
    } else {
      NormalizedPlain(s[1..]);
      assert s == [s[0]] + s[1..];
    }
  }

  lemma {:induction false} NoReturnLeft(s: string)
    ensures '\r' !in Normalized(s)
    decreases |s|
  {
    if s == "" {
    } else {
      NoReturnLeft(RestOf(s));
    }
  }

  /** Exactly the texts without a carriage return stay as they are. */
  lemma {:induction false} NormalizedExact(s: string)
    ensures Normalized(s) == s <==> '\r' !in s
  {
    hide Normalized;
    NoReturnLeft(s);
    if '\r' !in s {
      NormalizedPlain(s);
    }
  }

  lemma {:induction false} EscapeKeepsLines(c: char)
    ensures EscapeChar(c) != ""
    ensures EscapeChar(c)[0] == '\n' <==> c == '\n'
    ensures c == '\r' ==> EscapeChar(c) == "\r"
    ensures c != '\r' ==> '\r' !in EscapeChar(c)
  {
  }

  lemma {:induction false} EscapeStep(s: string)
    requires s != ""
    ensures Escape(s) == EscapeChar(s[0]) + Escape(s[1..])
  {
  }

  /** Text without a carriage return is passed over, whatever follows. */
  lemma {:induction false} NormalizedBehind(a: string, b: string)
    requires '\r' !in a
    ensures Normalized(a + b) == a + Normalized(b)
  {
    if a == "" {
      assert a + b == b;
    } else {
      hide Normalized;
      TailConcat(a, b);
      PlainStep(a + b);
      NormalizedBehind(a[1..], b);
      ConcatAssoc([a[0]], a[1..], Normalized(b));
      assert a == [a[0]] + a[1..];
    }
  }

  lemma {:induction false} PlainStep(s: string)
    requires s != "" && s[0] != '\r'
    ensures Normalized(s) == [s[0]] + Normalized(s[1..])
  {
  }

  lemma {:induction false} EscapeRest(s: string)
    requires s != "" && s[0] == '\r'
    ensures Escape(s) != "" && FirstOf(Escape(s)) == FirstOf(s) && RestOf(Escape(s)) == Escape(RestOf(s))
  {
    hide Escape, EscapeChar;
    EscapeStep(s);
    EscapeKeepsLines('\r');
    if |s| > 1 {
      EscapeStep(s[1..]);
      EscapeKeepsLines(s[1]);
      assert s[1..][1..] == s[2..];
      if s[1] == '\n' {
        assert EscapeChar('\n') == "\n" by {
          NewLineKept();
        }
      }
    } else {
      EscapeNothing(s[1..]);
    }
  }

  lemma NewLineKept()
    ensures EscapeChar('\n') == "\n"
  {
  }

  lemma EscapeNothing(s: string)
    requires s == ""
    ensures Escape(s) == ""
  {
  }

  /** Escaping and normalizing line ends do not interfere. */
  lemma {:induction false} NormalizedEscape(s: string)
    ensures Normalized(Escape(s)) == Escape(Normalized(s))
    decreases |s|
  {
    if s == "" {
    } else {
      hide Escape, EscapeChar;
      NormalizedEscape(RestOf(s));
      var n := Normalized(s);
      assert n[0] == FirstOf(s) && n[1..] == Normalized(RestOf(s));
      EscapeStep(n);
      if s[0] == '\r' {
        EscapeRest(s);
        NewLineKept();
      } else {
        EscapeStep(s);
        EscapeKeepsLines(s[0]);
        NormalizedBehind(EscapeChar(s[0]), Escape(s[1..]));
      }
    }
  }

  lemma {:induction false} SpacedEscape(s: string)
    ensures Spaced(Escape(s)) == Escape(Spaced(s))
  {
    if s == "" {
    } else {
      SpacedEscape(s[1..]);
      SpacedConcat(EscapeChar(s[0]), Escape(s[1..]));
      SpacedChar(s[0]);
      EscapeStep(Spaced(s));
      assert Spaced(s)[1..] == Spaced(s[1..]);
    }
  }

  lemma {:induction false} SpacedChar(c: char)
    ensures Spaced(EscapeChar(c)) == EscapeChar(if c == '\t' || c == '\n' then ' ' else c)
  {
    var e := EscapeChar(c);
    if c == '\t' || c == '\n' {
      assert e[1..] == "";
    } else {
      SpacedPlain(e);
    }
  }

  lemma {:induction false} SpacedPlain(s: string)
    requires '\t' !in s && '\n' !in s
    ensures Spaced(s) == s
  {
    if s == "" {
    } else {
      SpacedPlain(s[1..]);
      assert s == [s[0]] + s[1..];
    }
  }

  lemma {:induction false} SpacedConcat(a: string, b: string)
    ensures Spaced(a + b) == Spaced(a) + Spaced(b)
  {
    if a == "" {
      assert a + b == b;
    } else {
      assert (a + b)[1..] == a[1..] + b;
      SpacedConcat(a[1..], b);
    }
  }

  lemma {:induction false} NoTabLeft(s: string)
    ensures '\t' !in Spaced(s) && '\n' !in Spaced(s)
  {
    if s == "" {
    } else {
      NoTabLeft(s[1..]);
    }
  }

  // ----- the documents, normalized -----

  predicate Unbroken(s: string) {
    '\r' !in s
  }

  lemma DidlSpaceUnbroken()
    ensures Unbroken(DidlSpace())
  {
  }

  lemma DublinCoreUnbroken()
    ensures Unbroken(DublinCore())
  {
  }

  lemma UpnpSpaceUnbroken()
    ensures Unbroken(UpnpSpace())
  {
  }

  lemma ItemTagUnbroken()
    ensures Unbroken(ItemTag())
  {
  }

  lemma XmlTagUnbroken()
    ensures Unbroken(XmlTag())
  {
  }

  lemma EncodingStyleUnbroken()
    ensures Unbroken(EncodingStyle())
  {
  }

  lemma EnvelopeSpaceUnbroken()
    ensures Unbroken(EnvelopeSpace())
  {
  }

  lemma EnvelopeTagUnbroken()
    ensures Unbroken(EnvelopeTag())
  {
    EnvelopeSpaceUnbroken();
    EncodingStyleUnbroken();
    hide EnvelopeSpace, EncodingStyle;
  }

  lemma ActionSpaceUnbroken()
    ensures Unbroken(ActionSpace())
  {
  }

  lemma ActionTagUnbroken()
    ensures Unbroken(ActionTag("SetAVTransportURI"))
  {
    ActionSpaceUnbroken();
    hide ActionSpace;
  }

  lemma DidlTagUnbroken()
    ensures Unbroken(DidlTag())
  {
    DidlSpaceUnbroken();
    DublinCoreUnbroken();
    UpnpSpaceUnbroken();
    hide DidlSpace, DublinCore, UpnpSpace;
  }

  lemma {:induction false} TagPassed(tag: string, rest: string)
    requires Unbroken(tag)
    ensures Normalized("<" + tag + rest) == "<" + tag + Normalized(rest)
  {
    NormalizedBehind("<" + tag, rest);
  }

  /** Escaped text up to the next markup. */
  lemma {:induction false} TextPassed(text: string, rest: string)
    requires rest != "" && rest[0] != '\n'
    ensures Normalized(Escape(text) + rest) == Escape(Normalized(text)) + Normalized(rest)
  {
    NormalizedConcat(Escape(text), rest);
    NormalizedEscape(text);
  }

  const RESOURCE_END := "</res></item></DIDL-Lite>"

  lemma {:induction false} ResourceFlat(protocolInfo: string, uri: string)
    ensures Resource(protocolInfo, uri)
            == "<res protocolInfo=\"" + (Escape(protocolInfo) + ("\">" + (Escape(uri) + RESOURCE_END)))
  {
    hide Escape;
    assert "</res>" + "</item></DIDL-Lite>" == RESOURCE_END;
    ConcatAssoc(Escape(uri), "</res>", "</item></DIDL-Lite>");
    var text := Escape(uri) + RESOURCE_END;
    assert "\"" + (">" + text) == "\">" + text;
    ConcatAssoc(Escape(protocolInfo), "\"", ">" + text);
  }

  lemma {:induction false} ResourceNormalized(protocolInfo: string, uri: string)
    ensures Normalized(Resource(protocolInfo, uri)) == Resource(Normalized(protocolInfo), Normalized(uri))
  {
    hide Normalized, Escape, Resource;
    var text := Escape(uri) + RESOURCE_END;
    NormalizedPlain(RESOURCE_END);
    TextPassed(uri, RESOURCE_END);
    NormalizedBehind("\">", text);
    TextPassed(protocolInfo, "\">" + text);
    NormalizedBehind("<res protocolInfo=\"", Escape(protocolInfo) + ("\">" + text));
    ResourceFlat(protocolInfo, uri);
    ResourceFlat(Normalized(protocolInfo), Normalized(uri));
  }

  lemma {:induction false} ItemFlat(title: string, uri: string, protocolInfo: string)
    ensures ItemContent(title, uri, protocolInfo)
            == "<dc:title>" + (Escape(title) + ("</dc:title>"
               + ("<" + CLASS_TAG + ("<" + "/upnp:class>" + Resource(protocolInfo, uri)))))
  {
    hide Escape, Resource;
    ConcatAssoc(Escape(title), "</dc:title>",
                "<" + CLASS_TAG + ("<" + "/upnp:class>" + Resource(protocolInfo, uri)));
  }

  lemma {:induction false} ItemNormalized(title: string, uri: string, protocolInfo: string)
    ensures Normalized(ItemContent(title, uri, protocolInfo))
            == ItemContent(Normalized(title), Normalized(uri), Normalized(protocolInfo))
  {
    hide Normalized, Escape, Resource, ItemContent;
    var resource := Resource(protocolInfo, uri);
    ResourceNormalized(protocolInfo, uri);
    var d3 := "<" + "/upnp:class>" + resource;
    var d2 := "<" + CLASS_TAG + d3;
    var d1 := "</dc:title>" + d2;
    TagPassed("/upnp:class>", resource);
    TagPassed(CLASS_TAG, d3);
    NormalizedBehind("</dc:title>", d2);
    TextPassed(title, d1);
    NormalizedBehind("<dc:title>", Escape(title) + d1);
    ItemFlat(title, uri, protocolInfo);
    ItemFlat(Normalized(title), Normalized(uri), Normalized(protocolInfo));
  }

  /** A reader sees the metadata document of the normalized texts. */
  lemma {:induction false} DidlNormalized(title: string, uri: string, protocolInfo: string)
    ensures Normalized(Didl(title, uri, protocolInfo))
            == Didl(Normalized(title), Normalized(uri), Normalized(protocolInfo))
  {
    hide Normalized, ItemContent, DidlTag, ItemTag;
    DidlTagUnbroken();
    ItemTagUnbroken();
    ItemNormalized(title, uri, protocolInfo);
    var item := ItemContent(title, uri, protocolInfo);
    TagPassed(ItemTag(), item);
    TagPassed(DidlTag(), "<" + ItemTag() + item);
  }

  lemma {:induction false} ArgumentsNormalized(uri: string, didl: string)
    ensures Normalized(Arguments(uri, didl) + End()) == Arguments(Normalized(uri), Normalized(didl)) + End()
  {
    hide Normalized, Escape, End;
    EndUnbroken();
    var d4 := "</CurrentURIMetaData>" + End();
    var d3 := Escape(didl) + d4;
    var d2 := "</CurrentURI><CurrentURIMetaData>" + d3;
    var d1 := Escape(uri) + d2;
    NormalizedPlain(d4);
    TextPassed(didl, d4);
    NormalizedBehind("</CurrentURI><CurrentURIMetaData>", d3);
    TextPassed(uri, d2);
    NormalizedBehind("<CurrentURI>", d1);
    ArgumentsFlat(uri, didl);
    ArgumentsFlat(Normalized(uri), Normalized(didl));
  }

  lemma EndUnbroken()
    ensures Unbroken(End())
  {
  }

  lemma {:induction false} ArgumentsFlat(uri: string, didl: string)
    ensures Arguments(uri, didl) + End()
            == "<CurrentURI>" + (Escape(uri) + ("</CurrentURI><CurrentURIMetaData>"
               + (Escape(didl) + ("</CurrentURIMetaData>" + End()))))
  {
    hide Escape, End;
    assert "</CurrentURI>" + "<CurrentURIMetaData>" == "</CurrentURI><CurrentURIMetaData>";
    var meta := Escape(didl) + ("</CurrentURIMetaData>" + "");
    assert meta + End() == Escape(didl) + ("</CurrentURIMetaData>" + End());
    assert MetaData(didl) == "<CurrentURIMetaData>" + meta;
    assert Arguments(uri, didl) == "<CurrentURI>" + (Escape(uri) + "</CurrentURI>" + ("<CurrentURIMetaData>" + meta));
  }

  /** And the request of the normalized texts. */
  lemma {:induction false} RequestNormalized(uri: string, didl: string)
    ensures Normalized(SetAvTransportUri(uri, didl)) == SetAvTransportUri(Normalized(uri), Normalized(didl))
  {
    hide Normalized, XmlTag, EnvelopeTag, ActionTag, Arguments, End, SetAvTransportUri;
    XmlTagUnbroken();
    EnvelopeTagUnbroken();
    ActionTagUnbroken();
    BodyShape(uri, didl);
    BodyShape(Normalized(uri), Normalized(didl));
    ArgumentsNormalized(uri, didl);
    var d6 := Arguments(uri, didl) + End();
    var d5 := "<" + "/InstanceID>" + d6;
    var d4 := "<" + "InstanceID>0" + d5;
    var d3 := "<" + ActionTag("SetAVTransportURI") + d4;
    var d2 := "<" + "s:Body>" + d3;
    var d1 := "<" + EnvelopeTag() + d2;
    TagPassed("/InstanceID>", d6);
    TagPassed("InstanceID>0", d5);
    TagPassed(ActionTag("SetAVTransportURI"), d4);
    TagPassed("s:Body>", d3);
    TagPassed(EnvelopeTag(), d2);
    TagPassed(XmlTag(), d1);
  }

  // ----- what survives -----

  /** Exactly the URIs without a carriage return come back from the request as they were. */
  lemma {:induction false} UriExact(uri: string, didl: string)
    ensures ReadText(SetAvTransportUri(uri, didl), URI_OPEN, URI_CLOSE) == Some(Normalized(uri))
    ensures ReadText(SetAvTransportUri(uri, didl), URI_OPEN, URI_CLOSE) == Some(uri) <==> '\r' !in uri
  {
    hide Normalized, Content, SetAvTransportUri;
    RequestNormalized(uri, didl);
    UriRoundTrip(Normalized(uri), Normalized(didl));
    NormalizedExact(uri);
  }

  /** So do exactly the titles. */
  lemma {:induction false} TitleExact(title: string, uri: string, protocolInfo: string)
    ensures ReadText(Didl(title, uri, protocolInfo), TITLE_OPEN, TITLE_CLOSE) == Some(Normalized(title))
    ensures ReadText(Didl(title, uri, protocolInfo), TITLE_OPEN, TITLE_CLOSE) == Some(title) <==> '\r' !in title
  {
    hide Normalized, Content, Didl;
    DidlNormalized(title, uri, protocolInfo);
    TitleRoundTrip(Normalized(title), Normalized(uri), Normalized(protocolInfo));
    NormalizedExact(title);
  }

  lemma {:induction false} SpacedExact(s: string)
    ensures Spaced(Normalized(s)) == s <==> '\t' !in s && '\n' !in s && '\r' !in s
  {
    hide Normalized, Spaced;
    NoTabLeft(Normalized(s));
    NormalizedExact(s);
    if '\r' !in s {
      if '\t' !in s && '\n' !in s {
        SpacedPlain(s);
      }
    } else {
      NoReturnLeft(s);
      NoReturnSpaced(Normalized(s));
    }
  }

  lemma {:induction false} NoReturnSpaced(s: string)
    requires '\r' !in s
    ensures '\r' !in Spaced(s)
  {
    if s == "" {
    } else {
      NoReturnSpaced(s[1..]);
    }
  }

  /** In the attribute exactly the values without tabs and line ends come back. */
  lemma {:induction false} ProtocolInfoExact(title: string, uri: string, protocolInfo: string)
    ensures ReadAttribute(Didl(title, uri, protocolInfo), RES_OPEN) == Some(Spaced(Normalized(protocolInfo)))
    ensures ReadAttribute(Didl(title, uri, protocolInfo), RES_OPEN) == Some(protocolInfo)
            <==> '\t' !in protocolInfo && '\n' !in protocolInfo && '\r' !in protocolInfo
  {
    hide Normalized, Spaced, Between, Didl, Escape, Unescape;
    var n := Normalized(protocolInfo);
    DidlNormalized(title, uri, protocolInfo);
    ProtocolInfoRoundTrip(Normalized(title), Normalized(uri), n);
    SpacedEscape(n);
    EscapeRoundTrip(Spaced(n));
    SpacedExact(protocolInfo);
  }

  /** Main result: through both levels, each read by a conforming reader, exactly the titles without a
      carriage return come back as they were; any other comes back with line feeds instead. */
  lemma {:induction false} NestedTitleExact(title: string, uri: string, protocolInfo: string)
    ensures var body := SetAvTransportUri(uri, Didl(title, uri, protocolInfo));
            var didl := ReadText(body, META_OPEN, META_CLOSE);
            && didl.Some?
            && ReadText(didl.value, TITLE_OPEN, TITLE_CLOSE) == Some(Normalized(title))
            && (ReadText(didl.value, TITLE_OPEN, TITLE_CLOSE) == Some(title) <==> '\r' !in title)
  {
    hide Normalized, Content, SetAvTransportUri, Didl;
    var t, u, p := Normalized(title), Normalized(uri), Normalized(protocolInfo);
    RequestNormalized(uri, Didl(title, uri, protocolInfo));
    DidlNormalized(title, uri, protocolInfo);
    MetaDataRoundTrip(u, Didl(t, u, p));
    TitleExact(t, u, p);
    NoReturnLeft(title);
    NormalizedExact(t);
    NormalizedExact(title);
  }
}
