/**
 Two decoders of the same events: the Oracle/Fn adapter's `decode_payload` and the portable
 HTTP adapter's `decode_http_payload`.  They check in different orders, and are proved to
 accept the same non-empty inputs with the same payload (CloudEvents 1.0 HTTP binding,
 sections 3.1 and 3.2).
 */
module CloudEvents {
  import opened Options
  import opened Text
  import opened Utf8
  import opened Json
  import opened HttpReader
  import opened HeaderFields
  import opened FnAdapter
  import opened FnMeaning

  /** The HTTP library's header map, for requests that give each header once. */
  type HttpHeaders = map<string, bytes>

  /** `HeaderValue::to_str`: only visible ASCII, blanks and tabs are text. */
  function ToStr(value: bytes): Option<string> {
    if forall b :: b in value ==> 32 <= b < 127 || b == 9
    then Some(seq(|value|, i requires 0 <= i < |value| => value[i] as char))
    else None
  }

  function HttpText(headers: HttpHeaders, name: string): Option<string> {
    if name in headers then ToStr(headers[name]) else None
  }

  function HttpHeader(headers: HttpHeaders, name: string): Option<string> {
    match HttpText(headers, name)
    case Some(text) => if Trim(text) != "" then Some(Trim(text)) else None
    case None => None
  }

  function HttpContentType(headers: HttpHeaders): string {
    Lower(GetOr(HttpText(headers, "content-type"), ""))
  }

  datatype HttpDecoded = Accepted(value: Value, eventId: Option<string>) | Denied(code: string)

  function HttpMissing(headers: HttpHeaders, attributes: seq<string>): Option<string> {
    if attributes == [] then None
    else if HttpHeader(headers, "ce-" + attributes[0]).None? then Some(attributes[0])
    else HttpMissing(headers, attributes[1..])
  }

  function HttpBinaryError(headers: HttpHeaders): Option<string> {
    match HttpHeader(headers, "ce-specversion")
    case None => None
    case Some(version) =>
      if version != "1.0" then Some("unsupported_cloud_event_version")
      else
        match HttpMissing(headers, EVENT_ATTRIBUTES)
        case Some(attribute) => Some("missing_cloud_event_" + attribute)
        case None => None
  }

  function DecodeStructured(body: bytes, codec: Codec): HttpDecoded {
    match codec.parse(body)
    case None => Denied("invalid_cloud_event_json")
    case Some(event) =>
      match StructuredEventError(event)
      case Some(code) => Denied(code)
      case None => Accepted(DataOf(event), event.GetText("id"))
  }

  /** `decode_http_payload`: binary attributes are checked before the body is parsed. */
  function DecodeHttpPayload(headers: HttpHeaders, body: bytes, codec: Codec): HttpDecoded {
    if CLOUD_EVENT_TYPE <= HttpContentType(headers) then DecodeStructured(body, codec)
    else
      match HttpBinaryError(headers)
      case Some(code) => Denied(code)
      case None =>
        var id := HttpHeader(headers, "ce-id");
        if body == [] then Accepted(EMPTY_OBJECT, id)
        else
          match codec.parse(body)
          case Some(value) => Accepted(value, id)
          case None => Denied("invalid_json")
  }

  // ---- what the HTTP adapter's decoder makes of a request ----

  /** The header can be read as this text. */
  predicate ReadAs(headers: HttpHeaders, name: string, text: string) {
    && name in headers && |text| == |headers[name]|
    && forall i :: 0 <= i < |text| ==>
         text[i] as int == headers[name][i] as int && (32 <= text[i] as int < 127 || text[i] as int == 9)
  }

  /** The header says this, white space around it aside; or it is absent, blank or cannot be read. */
  ghost predicate HttpSaid(headers: HttpHeaders, name: string, value: Option<string>) {
    match value
    case Some(v) => exists text :: ReadAs(headers, name, text) && TrimsTo(text, v) && v != ""
    case None => forall text :: ReadAs(headers, name, text) ==> AllWhite(text)
  }

  ghost predicate HttpTypeIs(headers: HttpHeaders, contentType: string) {
    || (exists text :: ReadAs(headers, "content-type", text) && contentType == Lower(text))
    || ((forall text :: !ReadAs(headers, "content-type", text)) && contentType == "")
  }

  lemma ReadAsIff(headers: HttpHeaders, name: string, text: string)
    ensures ReadAs(headers, name, text) <==> HttpText(headers, name) == Some(text)
  {
    if ReadAs(headers, name, text) {
      forall b | b in headers[name]
        ensures 32 <= b < 127 || b == 9
      {
        var i :| 0 <= i < |text| && headers[name][i] == b;
        assert text[i] as int == b as int;
      }
      assert HttpText(headers, name).Some?;
      assert HttpText(headers, name).value == text;
    }
    if HttpText(headers, name) == Some(text) {
      assert forall i :: 0 <= i < |text| ==> headers[name][i] in headers[name];
    }
  }

  lemma HttpSaidIff(headers: HttpHeaders, name: string, value: Option<string>)
    ensures HttpHeader(headers, name) == value <==> HttpSaid(headers, name, value)
  {
    hide HttpText, ReadAs, Trim, TrimsTo, AllWhite;
    forall text
      ensures ReadAs(headers, name, text) <==> HttpText(headers, name) == Some(text)
    {
      ReadAsIff(headers, name, text);
    }
    if HttpText(headers, name).Some? {
      var text := HttpText(headers, name).value;
      BlankIff(text);
      if value.Some? {
        TrimIs(text, value.value);
      }
    }
  }

  lemma HttpTypeIff(headers: HttpHeaders, contentType: string)
    ensures HttpContentType(headers) == contentType <==> HttpTypeIs(headers, contentType)
  {
    hide HttpText, ReadAs, Lower;
    assert Lower("") == "";
    forall text
      ensures ReadAs(headers, "content-type", text) <==> HttpText(headers, "content-type") == Some(text)
    {
      ReadAsIff(headers, "content-type", text);
    }
  }

  /** No event at all, or one of version 1.0 with all its attributes. */
  ghost predicate HttpSoundHeaders(headers: HttpHeaders) {
    || HttpSaid(headers, "ce-specversion", None)
    || (&& HttpSaid(headers, "ce-specversion", Some("1.0"))
        && !HttpSaid(headers, "ce-id", None) && !HttpSaid(headers, "ce-source", None)
        && !HttpSaid(headers, "ce-type", None))
  }

  /** The first thing wrong with an event's headers. */
  ghost predicate HttpHeadersDefect(headers: HttpHeaders, code: string) {
    if !HttpSaid(headers, "ce-specversion", Some("1.0")) then code == "unsupported_cloud_event_version"
    else if HttpSaid(headers, "ce-id", None) then code == "missing_cloud_event_id"
    else if HttpSaid(headers, "ce-source", None) then code == "missing_cloud_event_source"
    else HttpSaid(headers, "ce-type", None) && code == "missing_cloud_event_type"
  }

  lemma HttpMissingStep(headers: HttpHeaders, first: string, rest: seq<string>)
    ensures HttpMissing(headers, [first] + rest)
         == if HttpSaid(headers, "ce-" + first, None) then Some(first) else HttpMissing(headers, rest)
    ensures HttpMissing(headers, []) == None
  {
    hide HttpHeader, HttpSaid;
    HttpSaidIff(headers, "ce-" + first, None);
    assert ([first] + rest)[1..] == rest;
  }

  lemma HttpAttributesMissing(headers: HttpHeaders)
    ensures HttpMissing(headers, EVENT_ATTRIBUTES)
         == if HttpSaid(headers, "ce-id", None) then Some("id")
            else if HttpSaid(headers, "ce-source", None) then Some("source")
            else if HttpSaid(headers, "ce-type", None) then Some("type")
            else None
  {
    hide HttpSaid;
    assert "ce-" + "id" == "ce-id" && "ce-" + "source" == "ce-source" && "ce-" + "type" == "ce-type";
    HttpMissingStep(headers, "id", ["source", "type"]);
    HttpMissingStep(headers, "source", ["type"]);
    HttpMissingStep(headers, "type", []);
    assert EVENT_ATTRIBUTES == ["id"] + ["source", "type"] && ["source", "type"] == ["source"] + ["type"];
    assert ["type"] == ["type"] + [];
  }

  lemma HttpErrorIff(headers: HttpHeaders)
    ensures HttpBinaryError(headers).None? <==> HttpSoundHeaders(headers)
    ensures forall code ::
              HttpBinaryError(headers) == Some(code) <==> !HttpSoundHeaders(headers) && HttpHeadersDefect(headers, code)
  {
    hide HttpHeader, HttpSaid, HttpMissing;
    HttpAttributesMissing(headers);
    Codes();
    HttpSaidIff(headers, "ce-specversion", None);
    HttpSaidIff(headers, "ce-specversion", Some("1.0"));
  }

  /** What the HTTP adapter makes of a body whose content type is this. */
  ghost predicate HttpDecodesTo(
    headers: HttpHeaders, contentType: string, body: bytes, codec: Codec, decoded: HttpDecoded)
  {
    if "application/cloudevents+json" <= contentType then
      match codec.parse(body)
      case None => decoded == Denied("invalid_cloud_event_json")
      case Some(event) =>
        match decoded
        case Accepted(data, id) =>
          SoundEvent(event) && FnMeaning.Carries(event, data) && id.Some? && HasText(event, "id", id.value)
        case Denied(code) => !SoundEvent(event) && EventDefect(event, code)
    else if !HttpSoundHeaders(headers) then decoded.Denied? && HttpHeadersDefect(headers, decoded.code)
    else if body != [] && codec.parse(body).None? then decoded == Denied("invalid_json")
    else
      && decoded.Accepted? && HttpSaid(headers, "ce-id", decoded.eventId)
      && decoded.value == if body == [] then Object(map[]) else codec.parse(body).value
  }

  /** The decoder accepts and refuses exactly as said, with that payload and id or that code. */
  lemma HttpDecodesIff(headers: HttpHeaders, contentType: string, body: bytes, codec: Codec, decoded: HttpDecoded)
    requires HttpTypeIs(headers, contentType)
    ensures DecodeHttpPayload(headers, body, codec) == decoded
       <==> HttpDecodesTo(headers, contentType, body, codec, decoded)
  {
    hide HttpTypeIs, HttpContentType, HttpBinaryError, HttpSoundHeaders, HttpHeadersDefect, HttpHeader, HttpSaid,
         DecodeStructured;
    HttpTypeIff(headers, contentType);
    HttpErrorIff(headers);
    if "application/cloudevents+json" <= contentType {
      StructuredDecodes(body, codec, decoded);
    } else if decoded.Accepted? {
      HttpSaidIff(headers, "ce-id", decoded.eventId);
    }
  }

  lemma StructuredDecodes(body: bytes, codec: Codec, decoded: HttpDecoded)
    ensures DecodeStructured(body, codec) == decoded
       <==> match codec.parse(body)
            case None => decoded == Denied("invalid_cloud_event_json")
            case Some(event) =>
              match decoded
              case Accepted(data, id) =>
                SoundEvent(event) && FnMeaning.Carries(event, data) && id.Some? && HasText(event, "id", id.value)
              case Denied(code) => !SoundEvent(event) && EventDefect(event, code)
  {
    hide StructuredEventError, DataOf, EventDefect, Stated;
    if codec.parse(body).Some? {
      var event := codec.parse(body).value;
      EventErrorIff(event);
      if event.Object? && decoded.Accepted? {
        DataIff(event, decoded.value);
      }
      assert SoundEvent(event) ==> event.GetText("id").Some? by { StatedIsText(event, "id"); }
    }
  }

  lemma StatedIsText(event: Value, attribute: string)
    ensures Stated(event, attribute) ==> event.GetText(attribute).Some?
  {}

  // ---- one request, seen by both ----

  lemma TypeNames()
    ensures BothNames("content-type") == ["content-type", "fn-http-h-content-type"]
    ensures "content-type" in EVENT_HEADERS
  {
    assert "fn-http-h-" + "content-type" == "fn-http-h-content-type";
  }

  /** The plain name of a header, and the name under which Fn relays it. */
  function BothNames(name: string): seq<string> {
    [name, "fn-http-h-" + name]
  }

  const EVENT_HEADERS := ["content-type", "ce-specversion", "ce-id", "ce-source", "ce-type"]

  /**
   Both received the same bytes under this name: the HTTP adapter raw, the Fn adapter as the
   text its reader made of them (trimmed and free of controls), under either of its names.
   */
  predicate SameBytes(fn: Headers, http: HttpHeaders, name: string) {
    && (name in http <==> exists n :: n in BothNames(name) && n in fn)
    && forall n :: n in BothNames(name) && n in fn ==> CleanValue(fn[n]) && Encode(fn[n]) == http[name]
  }

  predicate SameRequest(fn: Headers, http: HttpHeaders) {
    forall name :: name in EVENT_HEADERS ==> SameBytes(fn, http, name)
  }

  /** What `HeaderValue::to_str` can read of a clean value. */
  predicate Visible(text: string) {
    forall c :: c in text ==> 32 <= c as int < 127
  }

  function VisibleOnly(fn: Headers): Headers {
    map n | n in fn && Visible(fn[n]) :: fn[n]
  }

  lemma ToStrOfClean(text: string)
    requires CleanValue(text)
    ensures ToStr(Encode(text)) == if Visible(text) then Some(text) else None
  {
    EncodeAsciiText(text);
    hide Encode;
    if Visible(text) {
      assert forall i :: 0 <= i < |text| ==> text[i] in text && Encode(text)[i] == text[i] as int;
      assert ToStr(Encode(text)).value == text;
    } else {
      var c :| c in text && !(32 <= c as int < 127);
      assert !IsControl(c) && c as int >= 128;
      var b :| b in Encode(text) && b >= 128;
    }
  }

  /** The lookup, spelled out for one header under its two names. */
  lemma FirstOfBoth(headers: Headers, name: string)
    ensures FirstHeader(headers, BothNames(name))
         == if !Blank(headers, name) then Some(Trim(headers[name]))
            else if !Blank(headers, "fn-http-h-" + name) then Some(Trim(headers["fn-http-h-" + name]))
            else None
  {
    hide Trim, Blank;
    var names := BothNames(name);
    assert names[1..] == [names[1]] && [names[1]][1..] == [];
  }

  /** The HTTP adapter finds what the Fn adapter would find among the visible headers. */
  lemma LookupsAgree(fn: Headers, http: HttpHeaders, name: string)
    requires SameBytes(fn, http, name)
    ensures FirstHeader(VisibleOnly(fn), BothNames(name)) == HttpHeader(http, name)
    ensures GetOr(FirstHeader(VisibleOnly(fn), BothNames(name)), "") == GetOr(HttpText(http, name), "")
  {
    hide FirstHeader, Encode, Trim, Visible, ToStr;
    FirstOfBoth(VisibleOnly(fn), name);
    if name in http {
      var n :| n in BothNames(name) && n in fn;
      OneText(fn, http, name, n);
      ToStrOfClean(fn[n]);
      TrimOfTrimmed(fn[n]);
    }
  }

  /** All forms of the header carry the same text. */
  lemma OneText(fn: Headers, http: HttpHeaders, name: string, n: string)
    requires SameBytes(fn, http, name) && n in BothNames(name) && n in fn
    ensures forall m :: m in BothNames(name) && m in fn ==> fn[m] == fn[n]
  {
    forall m | m in BothNames(name) && m in fn
      ensures fn[m] == fn[n]
    {
      DecodeOfEncode(fn[m]);
      DecodeOfEncode(fn[n]);
    }
  }

  /** The two lookups agree on every header that matters to an event. */
  ghost predicate SameEvent(fn: Headers, http: HttpHeaders) {
    && GetOr(FirstHeader(fn, ["content-type", "fn-http-h-content-type"]), "")
       == GetOr(HttpText(http, "content-type"), "")
    && forall a :: a in ["specversion"] + EVENT_ATTRIBUTES ==>
         FirstHeader(fn, BinaryNames(a)) == HttpHeader(http, "ce-" + a)
  }

  lemma {:induction false} SameMissing(fn: Headers, http: HttpHeaders, attributes: seq<string>)
    requires SameEvent(fn, http)
    requires forall a :: a in attributes ==> a in ["specversion"] + EVENT_ATTRIBUTES
    ensures MissingHeader(fn, attributes) == HttpMissing(http, attributes)
  {
    hide FirstHeader, HttpHeader;
    if attributes == [] {
    } else {
      assert attributes[0] in attributes;
      SameMissing(fn, http, attributes[1..]);
    }
  }

  lemma SameBinaryError(fn: Headers, http: HttpHeaders)
    requires SameEvent(fn, http)
    ensures BinaryEventError(fn) == HttpBinaryError(http)
  {
    hide FirstHeader, HttpHeader, MissingHeader, HttpMissing;
    SameMissing(fn, http, EVENT_ATTRIBUTES);
    assert "specversion" in ["specversion"] + EVENT_ATTRIBUTES;
    assert "ce-" + "specversion" == "ce-specversion";
  }

  lemma SameType(fn: Headers, http: HttpHeaders)
    requires SameEvent(fn, http)
    ensures ContentType(fn) == HttpContentType(http)
  {
    hide FirstHeader, HttpText, HttpHeader, Lower;
  }

  /** Whatever bytes both received, they agree once headers that are not visible ASCII are out. */
  lemma SameVisibleEvent(fn: Headers, http: HttpHeaders)
    requires SameRequest(fn, http)
    ensures SameEvent(VisibleOnly(fn), http)
  {
    hide FirstHeader, HttpHeader, HttpText, VisibleOnly, SameBytes;
    TypeNames();
    LookupsAgree(fn, http, "content-type");
    forall a | a in ["specversion"] + EVENT_ATTRIBUTES
      ensures FirstHeader(VisibleOnly(fn), BinaryNames(a)) == HttpHeader(http, "ce-" + a)
    {
      AttributeNames(a);
      LookupsAgree(fn, http, "ce-" + a);
    }
  }

  lemma AttributeNames(a: string)
    ensures BinaryNames(a) == BothNames("ce-" + a)
    ensures a in ["specversion"] + EVENT_ATTRIBUTES ==> "ce-" + a in EVENT_HEADERS
  {
    assert "fn-http-h-" + "ce-" == "fn-http-h-ce-";
    assert "fn-http-h-ce-" + a == "fn-http-h-" + ("ce-" + a);
    assert "ce-" + "specversion" == "ce-specversion" && "ce-" + "id" == "ce-id";
    assert "ce-" + "source" == "ce-source" && "ce-" + "type" == "ce-type";
  }

  // ---- when the decoders agree ----

  predicate Agree(a: Decoded, b: HttpDecoded) {
    (a.Payload? <==> b.Accepted?) && (a.Payload? ==> a.value == b.value)
  }

  /**
   For every non-empty body, the HTTP adapter accepts exactly what the Fn adapter would
   accept, with the same payload, if the headers that are not visible ASCII were left out.
   */
  lemma DecodersAgree(fn: Headers, http: HttpHeaders, body: bytes, codec: Codec)
    requires SameRequest(fn, http) && body != []
    ensures var visible := VisibleOnly(fn);
            Agree(DecodePayload(visible, ContentType(visible), body, codec), DecodeHttpPayload(http, body, codec))
  {
    hide HttpHeader, StructuredEventError, BinaryEventError, HttpBinaryError, ContentType, HttpContentType, SameEvent,
         VisibleOnly;
    SameVisibleEvent(fn, http);
    SameType(VisibleOnly(fn), http);
    SameBinaryError(VisibleOnly(fn), http);
  }

  /** What the Fn adapter finds of an event attribute, in either form. */
  function Given(fn: Headers, attribute: string): Option<string> {
    FirstHeader(fn, BinaryNames(attribute))
  }

  predicate Hidden(value: Option<string>) {
    value.Some? && !Visible(value.value)
  }

  /** A version the HTTP adapter cannot see: it takes the request for no event at all. */
  predicate HiddenVersion(fn: Headers) {
    Hidden(Given(fn, "specversion"))
  }

  /** A complete binary event, some attribute of which the HTTP adapter cannot see. */
  predicate HiddenAttribute(fn: Headers) {
    && Given(fn, "specversion") == Some("1.0")
    && (forall a :: a in EVENT_ATTRIBUTES ==> Given(fn, a).Some?)
    && exists a :: a in EVENT_ATTRIBUTES && Hidden(Given(fn, a))
  }

  /** A version it can see, and either the wrong one or an attribute missing or unseen. */
  predicate HttpRefuses(fn: Headers) {
    match Given(fn, "specversion")
    case None => false
    case Some(version) =>
      && Visible(version)
      && (version != "1.0" || exists a :: a in EVENT_ATTRIBUTES && (Given(fn, a).None? || Hidden(Given(fn, a))))
  }

  predicate FnRefuses(fn: Headers) {
    match Given(fn, "specversion")
    case None => false
    case Some(version) => version != "1.0" || exists a :: a in EVENT_ATTRIBUTES && Given(fn, a).None?
  }

  /** Looking among the visible headers finds the text if it is visible, and otherwise nothing. */
  lemma VisibleLookup(fn: Headers, http: HttpHeaders, name: string)
    requires SameBytes(fn, http, name)
    ensures var found := FirstHeader(fn, BothNames(name));
            FirstHeader(VisibleOnly(fn), BothNames(name)) == if Hidden(found) then None else found
  {
    hide FirstHeader, Encode, Trim, Visible, ToStr;
    FirstOfBoth(fn, name);
    FirstOfBoth(VisibleOnly(fn), name);
    assert Visible("") by { NothingHidden(); }
    if name in http {
      var n :| n in BothNames(name) && n in fn;
      OneText(fn, http, name, n);
      TrimOfTrimmed(fn[n]);
    }
  }

  lemma NothingHidden()
    ensures Visible("")
  {}

  lemma VisibleGiven(fn: Headers, http: HttpHeaders, a: string)
    requires SameRequest(fn, http) && a in ["specversion"] + EVENT_ATTRIBUTES
    ensures Given(VisibleOnly(fn), a) == if Hidden(Given(fn, a)) then None else Given(fn, a)
  {
    hide FirstHeader, Visible, VisibleOnly, SameBytes;
    AttributeNames(a);
    VisibleLookup(fn, http, "ce-" + a);
  }

  lemma {:induction false} MissingIff(fn: Headers, attributes: seq<string>)
    ensures MissingHeader(fn, attributes).None? <==> forall a :: a in attributes ==> Given(fn, a).Some?
  {
    hide FirstHeader, BinaryNames;
    if attributes == [] {
    } else {
      MissingIff(fn, attributes[1..]);
      assert Given(fn, attributes[0]) == FirstHeader(fn, BinaryNames(attributes[0]));
      assert forall a :: a in attributes <==> a == attributes[0] || a in attributes[1..];
    }
  }

  lemma FnRefusesIff(fn: Headers)
    ensures BinaryEventError(fn).Some? <==> FnRefuses(fn)
  {
    hide FirstHeader, BinaryNames, MissingHeader;
    MissingIff(fn, EVENT_ATTRIBUTES);
  }

  lemma HttpRefusesIff(fn: Headers, http: HttpHeaders)
    requires SameRequest(fn, http)
    ensures FnRefuses(VisibleOnly(fn)) <==> HttpRefuses(fn)
  {
    hide Given, Visible, VisibleOnly, SameRequest;
    VisibleGiven(fn, http, "specversion");
    assert Visible("1.0") by { OneIsVisible(); }
    forall a | a in EVENT_ATTRIBUTES
      ensures Given(VisibleOnly(fn), a) == if Hidden(Given(fn, a)) then None else Given(fn, a)
    {
      VisibleGiven(fn, http, a);
    }
  }

  lemma OneIsVisible()
    ensures Visible("1.0")
  {}

  predicate Structured(fn: Headers) {
    CLOUD_EVENT_TYPE <= ContentType(fn)
  }

  /** Lowering the case of ASCII letters hides and shows nothing. */
  lemma LowerVisible(text: string)
    ensures Visible(Lower(text)) <==> Visible(text)
  {
    if Visible(text) {
      assert forall i :: 0 <= i < |text| ==> text[i] in text;
    } else {
      var c :| c in text && !(32 <= c as int < 127);
      var i :| 0 <= i < |text| && text[i] == c;
      assert Lower(text)[i] in Lower(text);
    }
  }

  lemma VisibleType(fn: Headers, http: HttpHeaders)
    requires SameRequest(fn, http)
    ensures ContentType(VisibleOnly(fn)) == if Visible(ContentType(fn)) then ContentType(fn) else ""
    ensures Structured(VisibleOnly(fn)) <==> Structured(fn) && Visible(ContentType(fn))
  {
    hide FirstHeader, Visible, VisibleOnly, SameBytes, Lower;
    TypeNames();
    VisibleLookup(fn, http, "content-type");
    LowerVisible(GetOr(FirstHeader(fn, BothNames("content-type")), ""));
    assert Visible("") by { NothingHidden(); }
    assert Lower("") == "";
  }

  /** No envelope is its own data. */
  lemma DataIsSmaller(event: Value)
    requires StructuredEventError(event).None?
    ensures DataOf(event) != event
  {
    hide MissingAttribute;
    assert "specversion" in event.fields;
    if "data" in event.fields {
      assert event.fields["data"] < event;
    }
  }

  /** When the adapters agree about a body that parses to `value`. */
  predicate SeenAlike(fn: Headers, value: Value) {
    if Structured(fn) then
      Visible(ContentType(fn)) || (StructuredEventError(value).Some? && HttpRefuses(fn))
    else
      !HiddenVersion(fn) && !HiddenAttribute(fn)
  }

  lemma AttributesSeen(fn: Headers)
    ensures (FnRefuses(fn) <==> HttpRefuses(fn)) <==> !HiddenVersion(fn) && !HiddenAttribute(fn)
  {
    hide Given, Visible;
    assert Visible("1.0") by { OneIsVisible(); }
  }

  /**
   The adapters agree about a non-empty body exactly when it is no JSON, or no header that
   matters is hidden from the HTTP adapter: the content type of an envelope, the version of a
   binary event, an attribute of a complete one. An envelope whose type is hidden is agreed
   on only if both refuse it, for reasons of their own.
   */
  lemma DecodersAgreeIff(fn: Headers, http: HttpHeaders, body: bytes, codec: Codec)
    requires SameRequest(fn, http) && body != []
    ensures Agree(DecodePayload(fn, ContentType(fn), body, codec), DecodeHttpPayload(http, body, codec))
       <==> (codec.parse(body).Some? ==> SeenAlike(fn, codec.parse(body).value))
  {
    hide DecodePayload, DecodeHttpPayload, StructuredEventError, HttpRefuses, FnRefuses, SameRequest,
         VisibleOnly, HiddenVersion, HiddenAttribute, Visible, Structured;
    DecodersAgree(fn, http, body, codec);
    DecodedBy(fn, body, codec);
    DecodedBy(VisibleOnly(fn), body, codec);
    HttpRefusesIff(fn, http);
    VisibleType(fn, http);
    AttributesSeen(fn);
    if codec.parse(body).Some? && StructuredEventError(codec.parse(body).value).None? {
      DataIsSmaller(codec.parse(body).value);
    }
  }

  /** What the Fn adapter accepts of a non-empty body, and with which payload. */
  lemma DecodedBy(fn: Headers, body: bytes, codec: Codec)
    requires body != []
    ensures var a := DecodePayload(fn, ContentType(fn), body, codec);
            match codec.parse(body)
            case None => a.Rejected?
            case Some(value) =>
              if Structured(fn) then
                (a.Payload? <==> StructuredEventError(value).None?) && (a.Payload? ==> a.value == DataOf(value))
              else
                (a.Payload? <==> !FnRefuses(fn)) && (a.Payload? ==> a.value == value)
  {
    hide StructuredEventError, BinaryEventError, FnRefuses, ContentType;
    FnRefusesIff(fn);
  }

  /** A version written with one accented letter is refused by Fn, and no event to HTTP. */
  lemma HiddenVersionDisagrees(body: bytes, codec: Codec)
    requires body != [] && codec.parse(body).Some?
    ensures var fn := map["ce-specversion" := "\U{00e9}"];
            var http: HttpHeaders := map["ce-specversion" := [0xC3, 0xA9]];
            && SameRequest(fn, http)
            && DecodePayload(fn, ContentType(fn), body, codec).Rejected?
            && DecodeHttpPayload(http, body, codec).Accepted?
  {
    var fn := map["ce-specversion" := "\U{00e9}"];
    var http: HttpHeaders := map["ce-specversion" := [0xC3, 0xA9]];
    AccentedRequest(fn, http);
    hide DecodeHttpPayload, StructuredEventError, BinaryEventError, ContentType, SameRequest, Structured, FnRefuses,
         HttpRefuses, VisibleOnly, DecodePayload;
    DecodedBy(fn, body, codec);
    DecodedBy(VisibleOnly(fn), body, codec);
    HttpRefusesIff(fn, http);
    VisibleType(fn, http);
    DecodersAgree(fn, http, body, codec);
  }

  lemma AccentedRequest(fn: Headers, http: HttpHeaders)
    requires fn == map["ce-specversion" := "\U{00e9}"] && http == map["ce-specversion" := [0xC3, 0xA9]]
    ensures SameRequest(fn, http) && !Structured(fn) && FnRefuses(fn) && !HttpRefuses(fn)
  {
    hide Encode, Visible, CleanValue, SameRequest, ContentType, Given;
    var v := fn["ce-specversion"];
    Accented(v);
    OnlyVersion(fn, http, v);
    VersionLookup(fn, v);
    TypeLookup(fn);
  }

  lemma VersionLookup(fn: Headers, v: string)
    requires "ce-specversion" in fn && fn["ce-specversion"] == v && Trimmed(v) && v != ""
    ensures Given(fn, "specversion") == Some(v)
  {
    hide Trim, FirstHeader;
    TrimOfTrimmed(v);
    FirstOfBoth(fn, "ce-specversion");
    AttributeNames("specversion");
  }

  lemma TypeLookup(fn: Headers)
    requires fn.Keys == {"ce-specversion"}
    ensures ContentType(fn) == "" && !(CLOUD_EVENT_TYPE <= "")
  {
    hide Trim, FirstHeader;
    FirstOfBoth(fn, "content-type");
    TypeNames();
    assert Lower("") == "";
  }

  lemma OnlyVersion(fn: Headers, http: HttpHeaders, v: string)
    requires fn == map["ce-specversion" := v] && http == map["ce-specversion" := Encode(v)] && CleanValue(v)
    ensures SameRequest(fn, http)
  {
    hide Encode, CleanValue;
    forall name | name in EVENT_HEADERS
      ensures SameBytes(fn, http, name)
    {
      assert BothNames(name)[0] == name;
      assert ("fn-http-h-" + name)[0] == 'f';
    }
  }

  lemma Accented(v: string)
    requires v == "\U{00e9}"
    ensures CleanValue(v) && Encode(v) == [0xC3, 0xA9] && !Visible(v) && v != "1.0" && Trimmed(v)
  {
    assert !IsWhite(v[0]) && !IsControl(v[0]) && v[0] in v;
    EncodeOne(v[0]);
  }

  // ---- reasons ----

  /** No complaint about event headers reads like one about the JSON. */
  lemma EventErrorStart(fn: Headers)
    ensures BinaryEventError(fn).Some? ==> BinaryEventError(fn).value != "" && BinaryEventError(fn).value[0] != 'i'
  {
    hide FirstHeader, MissingHeader;
  }

  /** An attribute that HTTP misses first: hidden, with none missing before it. */
  predicate HiddenBeforeMissing(fn: Headers) {
    && Given(fn, "specversion") == Some("1.0")
    && exists i :: 0 <= i < |EVENT_ATTRIBUTES| && Hidden(Given(fn, EVENT_ATTRIBUTES[i]))
         && forall j :: 0 <= j < i ==> Given(fn, EVENT_ATTRIBUTES[j]).Some?
  }

  lemma FirstMissing(fn: Headers)
    ensures MissingHeader(fn, EVENT_ATTRIBUTES)
         == if Given(fn, "id").None? then Some("id")
            else if Given(fn, "source").None? then Some("source")
            else if Given(fn, "type").None? then Some("type")
            else None
  {
    hide Given;
    MissingStep(fn, "id", ["source", "type"]);
    MissingStep(fn, "source", ["type"]);
    MissingStep(fn, "type", []);
    assert EVENT_ATTRIBUTES == ["id"] + ["source", "type"] && ["source", "type"] == ["source"] + ["type"];
    assert ["type"] == ["type"] + [];
  }

  lemma MissingStep(fn: Headers, first: string, rest: seq<string>)
    ensures MissingHeader(fn, [first] + rest) == if Given(fn, first).None? then Some(first) else MissingHeader(fn, rest)
    ensures MissingHeader(fn, []) == None
  {
    hide FirstHeader, BinaryNames;
    assert ([first] + rest)[1..] == rest;
  }

  lemma SameReasonIff(fn: Headers, http: HttpHeaders)
    requires SameRequest(fn, http) && FnRefuses(fn) && HttpRefuses(fn)
    ensures BinaryEventError(fn) == BinaryEventError(VisibleOnly(fn)) <==> !HiddenBeforeMissing(fn)
  {
    FnRefusesIff(fn);
    HttpRefusesIff(fn, http);
    FnRefusesIff(VisibleOnly(fn));
    VisibleGiven(fn, http, "specversion");
    VisibleGiven(fn, http, "id");
    VisibleGiven(fn, http, "source");
    VisibleGiven(fn, http, "type");
    FirstMissing(fn);
    FirstMissing(VisibleOnly(fn));
    BinaryCode(fn);
    BinaryCode(VisibleOnly(fn));
    HiddenFirst(fn);
    hide BinaryEventError, Given, Visible, VisibleOnly, SameRequest, MissingHeader, HiddenBeforeMissing;
    MissingCodesDiffer("id", "source");
    MissingCodesDiffer("id", "type");
    MissingCodesDiffer("source", "type");
  }

  lemma BinaryCode(fn: Headers)
    ensures BinaryEventError(fn)
         == match Given(fn, "specversion")
            case None => None
            case Some(version) =>
              if version != "1.0" then Some("unsupported_cloud_event_version")
              else
                match MissingHeader(fn, EVENT_ATTRIBUTES)
                case Some(attribute) => Some("missing_cloud_event_" + attribute)
                case None => None
  {
    hide FirstHeader, MissingHeader;
  }

  lemma HiddenFirst(fn: Headers)
    ensures HiddenBeforeMissing(fn)
       <==> && Given(fn, "specversion") == Some("1.0")
            && (Hidden(Given(fn, "id"))
                || (Given(fn, "id").Some?
                    && (Hidden(Given(fn, "source")) || (Given(fn, "source").Some? && Hidden(Given(fn, "type"))))))
  {
    hide Given, Visible;
    assert EVENT_ATTRIBUTES[0] == "id" && EVENT_ATTRIBUTES[1] == "source" && EVENT_ATTRIBUTES[2] == "type";
  }

  lemma MissingCodesDiffer(a: string, b: string)
    requires a != b
    ensures "missing_cloud_event_" + a != "missing_cloud_event_" + b
  {
    var head := "missing_cloud_event_";
    assert (head + a)[|head|..] == a && (head + b)[|head|..] == b;
  }

  /**
   When both refuse, they give the same reason exactly when: the body is JSON and both look
   at the same thing, no hidden attribute coming before the first missing one; or it is not,
   and the HTTP adapter found nothing to complain about before parsing it.
   */
  lemma ReasonsAgreeIff(fn: Headers, http: HttpHeaders, body: bytes, codec: Codec)
    requires SameRequest(fn, http) && body != []
    requires DecodePayload(fn, ContentType(fn), body, codec).Rejected? && DecodeHttpPayload(http, body, codec).Denied?
    ensures DecodePayload(fn, ContentType(fn), body, codec).code == DecodeHttpPayload(http, body, codec).code
       <==> match codec.parse(body)
            case None => !(Structured(fn) && Visible(ContentType(fn))) && !HttpRefuses(fn)
            case Some(event) =>
              if !Structured(fn) then !HiddenBeforeMissing(fn)
              else Visible(ContentType(fn)) || StructuredEventError(event) == BinaryEventError(VisibleOnly(fn))
  {
    hide HttpHeader, StructuredEventError, BinaryEventError, HttpBinaryError, ContentType, HttpContentType, SameEvent,
         VisibleOnly, SameRequest, HttpRefuses, FnRefuses, Visible, HiddenBeforeMissing;
    SameVisibleEvent(fn, http);
    SameType(VisibleOnly(fn), http);
    SameBinaryError(VisibleOnly(fn), http);
    FnRefusesIff(fn);
    FnRefusesIff(VisibleOnly(fn));
    HttpRefusesIff(fn, http);
    VisibleType(fn, http);
    EventErrorStart(VisibleOnly(fn));
    if FnRefuses(fn) && HttpRefuses(fn) {
      SameReasonIff(fn, http);
    }
  }

  /**
   On an empty body the adapters part: Fn always takes it as an empty object, while HTTP still
   validates the event; they agree exactly when that validation passes.
   */
  lemma EmptyBodyAgreesIff(fn: Headers, http: HttpHeaders, codec: Codec)
    requires SameRequest(fn, http) && codec.parse([]).None?
    ensures DecodePayload(fn, ContentType(fn), [], codec) == Payload(EMPTY_OBJECT)
    ensures DecodeHttpPayload(http, [], codec) == Accepted(EMPTY_OBJECT, HttpHeader(http, "ce-id"))
       <==> !(Structured(fn) && Visible(ContentType(fn))) && !HttpRefuses(fn)
  {
    hide HttpHeader, StructuredEventError, BinaryEventError, HttpBinaryError, ContentType, HttpContentType, SameEvent,
         VisibleOnly, SameRequest, HttpRefuses, FnRefuses, Visible;
    SameVisibleEvent(fn, http);
    SameType(VisibleOnly(fn), http);
    SameBinaryError(VisibleOnly(fn), http);
    FnRefusesIff(VisibleOnly(fn));
    HttpRefusesIff(fn, http);
    VisibleType(fn, http);
  }

  /** An accepted structured event always has a non-blank id to correlate by. */
  lemma StructuredEventHasId(headers: HttpHeaders, body: bytes, codec: Codec)
    requires CLOUD_EVENT_TYPE <= HttpContentType(headers) && DecodeHttpPayload(headers, body, codec).Accepted?
    ensures var id := DecodeHttpPayload(headers, body, codec).eventId;
            id.Some? && Trim(id.value) != ""
  {
    hide Trim, Lower;
  }
}
