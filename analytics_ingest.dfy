/**
 * The analytics ingest edge function: a stateless check of one request
 * against the environment, ending in at most one insert of a row. The
 * request, the environment, the serialised size of the props and the
 * outcome of the insert are inputs; the answer is the reply and the row
 * sent to the insert, if any.
 */
module AnalyticsIngest {
  import opened Wrappers
  import opened Text

  /** A payload field: absent, JSON `null`, or any other value as its `String(v)` text. */
  datatype Field = Missing | Null | Value(text: string)

  /** A props value: a string, or any other JSON value as its serialised text. */
  datatype PropValue = Str(s: string) | Other(json: string)

  /** `payload.props`: an object (an array counts, keyed by index) or anything else. */
  datatype PropsField = PropsObject(entries: map<string, PropValue>) | NotObject

  datatype Payload = Payload(eventName: Field, installationId: Field, sessionId: Field, appVersion: Field,
                             platform: Field, isFrozen: Field, props: PropsField)

  /** What `req.json()` gives: a parse error, `null` (reading a field of it throws), or a value. */
  datatype Body = Unparsable | NullBody | Parsed(payload: Payload)

  /** Headers by lower-case name. */
  datatype Request = Request(verb: string, headers: map<string, string>, body: Body)

  /** `SUPABASE_ANON_KEY`, `QS_ANON_KEY`, `SUPABASE_URL`, `QS_SERVICE_ROLE_KEY`. */
  datatype Env = Env(anonKey: Option<string>, qsAnonKey: Option<string>, url: Option<string>, serviceKey: Option<string>)

  /** The insert call's outcome: an ok answer, a non-ok status with its body text, or a thrown error. */
  datatype Insert = Stored | Rejected(status: int, text: string) | Threw

  datatype Row = Row(eventName: string, installationId: string, sessionId: Option<string>, appVersion: Option<string>,
                     platform: Option<string>, isFrozen: Field, props: map<string, PropValue>)

  datatype ReplyBody = Empty | Error(code: string) | InsertFailed(upstream: int, detail: string) | Ok
  datatype Reply = Reply(status: int, body: ReplyBody)

  /** The reply and the row handed to the insert (`None` when no insert was made). */
  datatype Result = Result(reply: Reply, sent: Option<Row>)

  const MaxProps: nat := 16000

  /** `s.slice(0, n)` when longer than `n`. */
  function Truncate(s: string, n: nat): (r: string)
    ensures |r| <= n && r <= s
    ensures |s| <= n ==> r == s
    ensures |s| > n ==> |r| == n
  {
    if |s| > n then s[..n] else s
  }

  /** `safeText`: `null` for null or undefined, else the text cut to `maxLen`. */
  function SafeText(v: Field, maxLen: nat): (r: Option<string>)
    ensures r.None? <==> !v.Value?
    ensures r.Some? ==> |r.value| <= maxLen && r.value <= v.text
    ensures v.Value? && |v.text| <= maxLen ==> r == Some(v.text)
  {
    if v.Value? then Some(Truncate(v.text, maxLen)) else None
  }

  predicate AllowedEvent(e: string) {
    e in {"install", "app_open", "file_upload", "text_share"}
  }

  /** A trimmed, non-empty environment key. */
  function AnonKey(v: Option<string>): Option<string> {
    if v.Some? && JsTrim(v.value) != [] then Some(JsTrim(v.value)) else None
  }

  /** The allowed anon keys. */
  function AnonKeys(env: Env): (keys: set<string>)
    ensures forall k :: k in keys <==> AnonKey(env.anonKey) == Some(k) || AnonKey(env.qsAnonKey) == Some(k)
  {
    (if AnonKey(env.anonKey).Some? then {AnonKey(env.anonKey).value} else {})
    + (if AnonKey(env.qsAnonKey).Some? then {AnonKey(env.qsAnonKey).value} else {})
  }

  /** An environment value that is set and not empty. */
  predicate NonEmpty(v: Option<string>) {
    v.Some? && v.value != []
  }

  /** A header value, `''` when absent. */
  function HeaderOr(h: map<string, string>, name: string): string {
    if name in h then h[name] else ""
  }

  /** The token after a `bearer ` prefix matched without regard to ASCII case, else `''`. */
  function Bearer(auth: string): (r: string)
    ensures r != [] ==> |auth| > 7 && auth == auth[..7] + r && AsciiLower(auth[..7]) == "bearer "
  {
    if StartsWith(AsciiLower(auth), "bearer ") then auth[7..] else ""
  }

  /** The caller shows an allowed key in `apikey` or as a bearer token. */
  predicate Authorised(keys: set<string>, h: map<string, string>) {
    HeaderOr(h, "apikey") in keys || Bearer(HeaderOr(h, "authorization")) in keys
  }

  /** The geo headers, in the order they are consulted. */
  const GeoHeaders: seq<string> :=
    ["x-vercel-ip-country", "cf-ipcountry", "cloudfront-viewer-country", "x-appengine-country",
     "x-country", "x-geo-country", "x-client-country"]

  predicate UpperLetter(c: char) {
    'A' <= c <= 'Z'
  }

  /** A header value read as a country: trimmed, upper-cased, exactly two letters A–Z. */
  function CountryCode(raw: string): (r: Option<string>)
    ensures r.Some? ==> |r.value| == 2 && UpperLetter(r.value[0]) && UpperLetter(r.value[1])
  {
    var v := AsciiUpper(JsTrim(raw));
    if |v| == 2 && UpperLetter(v[0]) && UpperLetter(v[1]) then Some(v) else None
  }

  /** The country of a header `name`, if it is present and reads as one. */
  function CountryAt(h: map<string, string>, name: string): Option<string> {
    if name in h then CountryCode(h[name]) else None
  }

  /** `getGeoCountry` over the header names `names`. */
  function FirstCountry(h: map<string, string>, names: seq<string>): Option<string> {
    if names == [] then None
    else if CountryAt(h, names[0]).Some? then CountryAt(h, names[0])
    else FirstCountry(h, names[1..])
  }

  /** The answer is the country of the first header, in the given order, that reads as one; none when no header does. */
  lemma {:induction false} FirstCountryIsFirst(h: map<string, string>, names: seq<string>)
    ensures var r := FirstCountry(h, names);
      (r.None? <==> forall i :: 0 <= i < |names| ==> CountryAt(h, names[i]).None?)
      && (r.Some? ==> exists i :: 0 <= i < |names| && CountryAt(h, names[i]) == r
                                 && forall j :: 0 <= j < i ==> CountryAt(h, names[j]).None?)
  {
    if names != [] && CountryAt(h, names[0]).None? {
      var r := FirstCountry(h, names[1..]);
      FirstCountryIsFirst(h, names[1..]);
      assert forall i :: 1 <= i < |names| ==> names[i] == names[1..][i - 1];
      if r.Some? {
        var i :| 0 <= i < |names[1..]| && CountryAt(h, names[1..][i]) == r
                 && forall j :: 0 <= j < i ==> CountryAt(h, names[1..][j]).None?;
        assert CountryAt(h, names[i + 1]) == r;
        forall j | 0 <= j < i + 1 ensures CountryAt(h, names[j]).None? {
          if j > 0 {
            assert names[j] == names[1..][j - 1];
          }
        }
      }
    } else if names != [] {
      assert CountryAt(h, names[0]) == FirstCountry(h, names);
    }
  }

  /** The props stored: the caller's object (or `{}`), with `geo_country` added only when the caller gave none. */
  function StoredProps(p: PropsField, geo: Option<string>): map<string, PropValue> {
    var base := if p.PropsObject? then p.entries else map[];
    if geo.Some? && "geo_country" !in base then base["geo_country" := Str(geo.value)] else base
  }

  function Fail(status: int, code: string): Result {
    Result(Reply(status, Error(code)), None)
  }

  /** Where the checks leave a request: refused with a reply, or ready with the row to insert. */
  datatype Stage = Refused(result: Result) | Ready(row: Row)

  /** Every check of the handler, in order, up to the insert; `sizeOf` is the length of `JSON.stringify` of a props object. */
  function Prepare(req: Request, env: Env, sizeOf: map<string, PropValue> -> nat): (st: Stage)
    ensures st.Refused? ==> st.result.sent.None?
  {
    if req.verb == "OPTIONS" then Refused(Result(Reply(204, Empty), None))
    else if req.verb != "POST" then Refused(Fail(405, "method_not_allowed"))
    else if AnonKeys(env) == {} then Refused(Fail(500, "server_misconfigured"))
    else if !Authorised(AnonKeys(env), req.headers) then Refused(Fail(401, "unauthorized"))
    else if req.body.Unparsable? then Refused(Fail(400, "invalid_json"))
    else if req.body.NullBody? then Refused(Fail(500, "internal_error"))
    else
      var p := req.body.payload;
      var event := SafeText(p.eventName, 64);
      var id := SafeText(p.installationId, 128);
      if event.None? || event.value == [] || !AllowedEvent(event.value) then Refused(Fail(400, "invalid_event"))
      else if id.None? || id.value == [] then Refused(Fail(400, "missing_installation_id"))
      else if !NonEmpty(env.url) || !NonEmpty(env.serviceKey) then Refused(Fail(500, "server_misconfigured"))
      else
        var props := StoredProps(p.props, FirstCountry(req.headers, GeoHeaders));
        if sizeOf(props) > MaxProps then Refused(Fail(413, "props_too_large"))
        else
          Ready(Row(event.value, id.value, SafeText(p.sessionId, 128), SafeText(p.appVersion, 32),
                    SafeText(p.platform, 16), if p.isFrozen.Missing? then Null else p.isFrozen, props))
  }

  /** The request handler: the checks, then the insert of the row and its outcome. */
  function Handle(req: Request, env: Env, sizeOf: map<string, PropValue> -> nat, insert: Insert): Result {
    Respond(Prepare(req, env, sizeOf), insert)
  }

  /** The reply for a refused request, or for a row and the insert's outcome. */
  function Respond(st: Stage, insert: Insert): Result {
    match st
    case Refused(r) => r
    case Ready(row) =>
      match insert
      case Stored => Result(Reply(200, Ok), Some(row))
      case Rejected(status, text) => Result(Reply(500, InsertFailed(status, Truncate(text, 500))), Some(row))
      case Threw => Result(Reply(500, Error("internal_error")), Some(row))
  }

  // ---------------------------------------------------------------- the order of the checks

  /** `OPTIONS` is answered 204 with no body before configuration, credentials or payload are looked at. */
  lemma OptionsFirst(req: Request, env: Env, sizeOf: map<string, PropValue> -> nat, insert: Insert)
    requires req.verb == "OPTIONS"
    ensures Handle(req, env, sizeOf, insert) == Result(Reply(204, Empty), None)
  {
  }

  /** Every other method but `POST` gets 405, whatever the configuration. */
  lemma OtherMethodsRefused(req: Request, env: Env, sizeOf: map<string, PropValue> -> nat, insert: Insert)
    requires req.verb != "OPTIONS" && req.verb != "POST"
    ensures Handle(req, env, sizeOf, insert) == Fail(405, "method_not_allowed")
  {
  }

  /** With neither anon key set (after trimming), a `POST` gets 500 before its credentials are looked at. */
  lemma NoKeysMisconfigured(req: Request, env: Env, sizeOf: map<string, PropValue> -> nat, insert: Insert)
    requires req.verb == "POST"
    requires (env.anonKey.None? || JsTrim(env.anonKey.value) == []) && (env.qsAnonKey.None? || JsTrim(env.qsAnonKey.value) == [])
    ensures Handle(req, env, sizeOf, insert) == Fail(500, "server_misconfigured")
  {
    assert AnonKeys(env) == {};
  }

  /**
   * With a key configured, a `POST` gets 401 exactly when neither the
   * `apikey` header nor the bearer token is an allowed key, whatever its
   * payload.
   */
  lemma AuthorisationDecides(req: Request, env: Env, sizeOf: map<string, PropValue> -> nat)
    requires req.verb == "POST" && AnonKeys(env) != {}
    ensures Prepare(req, env, sizeOf) == Refused(Fail(401, "unauthorized")) <==> !Authorised(AnonKeys(env), req.headers)
  {
  }

  /** A request with neither `apikey` nor `authorization` is never authorised. */
  lemma NoCredentials(env: Env, h: map<string, string>)
    requires "apikey" !in h && "authorization" !in h
    ensures !Authorised(AnonKeys(env), h)
  {
    assert HeaderOr(h, "apikey") == [] && Bearer(HeaderOr(h, "authorization")) == [];
    assert [] !in AnonKeys(env);
  }

  /** A bearer token is accepted under any ASCII case of the `bearer ` prefix. */
  lemma BearerAnyCase(prefix: string, token: string)
    requires |prefix| == 7 && AsciiLower(prefix) == "bearer "
    ensures Bearer(prefix + token) == token
  {
    assert (prefix + token)[..7] == prefix;
    assert AsciiLower(prefix + token)[..7] == AsciiLower(prefix);
  }

  /** An authorised, parsed request: the reply when its checks fail, in order. */
  predicate Admitted(req: Request, env: Env) {
    req.verb == "POST" && AnonKeys(env) != {} && Authorised(AnonKeys(env), req.headers) && req.body.Parsed?
  }

  /**
   * The event name (cut to 64) is checked before the installation id (cut to
   * 128), and both before the insert configuration: an unknown event gets
   * 400 `invalid_event` whatever the id and the configuration.
   */
  lemma ValidationOrder(req: Request, env: Env, sizeOf: map<string, PropValue> -> nat, insert: Insert)
    requires Admitted(req, env)
    ensures var p := req.body.payload;
      var event := SafeText(p.eventName, 64);
      var id := SafeText(p.installationId, 128);
      var r := Handle(req, env, sizeOf, insert);
      (event.None? || !AllowedEvent(event.value) ==> r == Fail(400, "invalid_event"))
      && (event.Some? && AllowedEvent(event.value) && (id.None? || id.value == []) ==> r == Fail(400, "missing_installation_id"))
      && (event.Some? && AllowedEvent(event.value) && id.Some? && id.value != []
            && (!NonEmpty(env.url) || !NonEmpty(env.serviceKey)) ==>
              r == Fail(500, "server_misconfigured"))
  {
    var event := SafeText(req.body.payload.eventName, 64);
    if event.Some? && event.value == [] {
      assert !AllowedEvent(event.value);
    }
  }

  /** A missing insert configuration is only reported for an admitted, valid event. */
  lemma MisconfiguredAfterValidation(req: Request, env: Env, sizeOf: map<string, PropValue> -> nat, insert: Insert)
    requires AnonKeys(env) != {}
    requires Handle(req, env, sizeOf, insert) == Fail(500, "server_misconfigured")
    ensures Admitted(req, env)
    ensures var p := req.body.payload;
      SafeText(p.eventName, 64).Some? && AllowedEvent(SafeText(p.eventName, 64).value)
      && SafeText(p.installationId, 128).Some? && SafeText(p.installationId, 128).value != []
  {
  }

  // ---------------------------------------------------------------- the row

  /**
   * A row is sent only for an admitted request with an allowed event and an
   * id, and carries them cut to 64 and 128, the session, version and
   * platform cut to 128, 32 and 16, `is_frozen` defaulting to `null`, and
   * props whose serialised size is within the cap.
   */
  lemma SentRowShape(req: Request, env: Env, sizeOf: map<string, PropValue> -> nat, insert: Insert)
    requires Handle(req, env, sizeOf, insert).sent.Some?
    ensures var row := Handle(req, env, sizeOf, insert).sent.value;
      var p := req.body.payload;
      Admitted(req, env) && NonEmpty(env.url) && NonEmpty(env.serviceKey)
      && AllowedEvent(row.eventName) && Some(row.eventName) == SafeText(p.eventName, 64)
      && row.installationId != [] && Some(row.installationId) == SafeText(p.installationId, 128)
      && |row.installationId| <= 128
      && row.sessionId == SafeText(p.sessionId, 128) && row.appVersion == SafeText(p.appVersion, 32)
      && row.platform == SafeText(p.platform, 16)
      && !row.isFrozen.Missing? && (p.isFrozen.Missing? || row.isFrozen == p.isFrozen)
      && sizeOf(row.props) <= MaxProps
  {
    var st := Prepare(req, env, sizeOf);
    assert st.Ready?;
    assert Handle(req, env, sizeOf, insert).sent.value == st.row;
    ReadyRowShape(req, env, sizeOf);
  }

  /** The row `Prepare` hands to the insert, read off the checks it passed. */
  lemma ReadyRowShape(req: Request, env: Env, sizeOf: map<string, PropValue> -> nat)
    requires Prepare(req, env, sizeOf).Ready?
    ensures var row := Prepare(req, env, sizeOf).row;
      var p := req.body.payload;
      Admitted(req, env) && NonEmpty(env.url) && NonEmpty(env.serviceKey)
      && AllowedEvent(row.eventName) && Some(row.eventName) == SafeText(p.eventName, 64)
      && row.installationId != [] && Some(row.installationId) == SafeText(p.installationId, 128)
      && |row.installationId| <= 128
      && row.sessionId == SafeText(p.sessionId, 128) && row.appVersion == SafeText(p.appVersion, 32)
      && row.platform == SafeText(p.platform, 16)
      && !row.isFrozen.Missing? && (p.isFrozen.Missing? || row.isFrozen == p.isFrozen)
      && sizeOf(row.props) <= MaxProps
  {
    var p := req.body.payload;
    assert Admitted(req, env);
    var event, id := SafeText(p.eventName, 64), SafeText(p.installationId, 128);
    assert event.Some? && event.value != [] && AllowedEvent(event.value);
    assert id.Some? && id.value != [];
    var props := StoredProps(p.props, FirstCountry(req.headers, GeoHeaders));
    assert Prepare(req, env, sizeOf) == Ready(Row(event.value, id.value, SafeText(p.sessionId, 128), SafeText(p.appVersion, 32),
      SafeText(p.platform, 16), if p.isFrozen.Missing? then Null else p.isFrozen, props));
  }

  /**
   * `geo_country` is added only when the caller's props have no such key,
   * and then holds the country of the first geo header that reads as one;
   * every key the caller gave is kept with its value, and non-object props
   * become `{}`.
   */
  lemma GeoInjection(p: PropsField, geo: Option<string>)
    ensures var base := if p.PropsObject? then p.entries else map[];
      var props := StoredProps(p, geo);
      (forall k :: k in base ==> k in props && props[k] == base[k])
      && (forall k :: k in props && k != "geo_country" ==> k in base)
      && ("geo_country" in base || geo.None? ==> props == base)
      && ("geo_country" !in base && geo.Some? ==> "geo_country" in props && props["geo_country"] == Str(geo.value))
  {
  }

  /** Props over the cap get 413 and nothing is inserted; within it, the insert is made. */
  lemma PropsCap(req: Request, env: Env, sizeOf: map<string, PropValue> -> nat, insert: Insert)
    requires Admitted(req, env) && NonEmpty(env.url) && NonEmpty(env.serviceKey)
    requires var p := req.body.payload;
      SafeText(p.eventName, 64).Some? && AllowedEvent(SafeText(p.eventName, 64).value)
      && SafeText(p.installationId, 128).Some? && SafeText(p.installationId, 128).value != []
    ensures var props := StoredProps(req.body.payload.props, FirstCountry(req.headers, GeoHeaders));
      var r := Handle(req, env, sizeOf, insert);
      (sizeOf(props) > MaxProps <==> r == Fail(413, "props_too_large"))
      && (sizeOf(props) <= MaxProps <==> r.sent.Some? && r.sent.value.props == props)
  {
  }

  /**
   * Once a row is ready, the insert's outcome alone decides the reply: 200
   * for an ok answer, 500 `insert_failed` with the upstream status and at
   * most 500 characters of its body, 500 when the call throws; the row is
   * sent in every case.
   */
  lemma InsertDecides(row: Row, insert: Insert)
    ensures var r := Respond(Ready(row), insert);
      r.sent == Some(row)
      && (r.reply.status == 200 <==> insert.Stored?)
      && (r.reply.status == 200 ==> r.reply.body == Ok)
      && (insert.Rejected? ==>
            r.reply.status == 500 && r.reply.body.InsertFailed?
            && r.reply.body.upstream == insert.status && |r.reply.body.detail| <= 500
            && r.reply.body.detail <= insert.text)
      && (insert.Threw? ==> r.reply == Reply(500, Error("internal_error")))
  {
  }

  /** A refused request is never inserted. */
  lemma RefusedNotSent(req: Request, env: Env, sizeOf: map<string, PropValue> -> nat, insert: Insert)
    ensures Handle(req, env, sizeOf, insert).sent.Some? <==> Prepare(req, env, sizeOf).Ready?
  {
  }
}
