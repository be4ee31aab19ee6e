/**
 * The Python script (src/madymystrava/main.py): the authorization URL it
 * prints, the token payloads it posts, the Yoga filter over the listed
 * activities and the loop that renames them, with the environment a map
 * and every HTTP reply an input.
 */
module MadyMyStrava {
  import opened Wrappers
  import opened StravaApi
  import PercentEncoding
  import Utf8
  import Query
  import Seqs
  import Numerals
  import Strava

  /** The name every Yoga activity is given. */
  const NEW_NAME := "#yogamitmady"

  /** The redirect URI the script sends, without a trailing slash. */
  const REDIRECT_URI := "http://localhost"

  const CLIENT_ID_VAR := "STRAVA_CLIENT_ID"
  const CLIENT_SECRET_VAR := "STRAVA_CLIENT_SECRET"
  const REFRESH_TOKEN_VAR := "STRAVA_REFRESH_TOKEN"

  /** How many activities one listing asks for. */
  const PER_PAGE := 100

  /** The process environment: variable names to values; `os.getenv` gives None for a name not in it. */
  type Env = map<string, string>

  type Pairs = seq<(string, string)>

  /** Both halves of a pair through `quote_plus`. */
  function EncodePair(pair: (string, string)): (string, string) {
    (PercentEncoding.QuotePlus(pair.0), PercentEncoding.QuotePlus(pair.1))
  }

  function EncodePairs(pairs: Pairs): (encoded: Pairs)
    ensures |encoded| == |pairs|
    decreases |pairs|
  {
    if pairs == [] then [] else [EncodePair(pairs[0])] + EncodePairs(pairs[1..])
  }

  /**
   * `urllib.parse.urlencode` on a dict of strings: quoted keys and values,
   * in insertion order. Parsing the text gives every key and value back,
   * in order, whatever they hold.
   */
  function Urlencode(pairs: Pairs): (q: string)
    ensures ParseQs(q) == Some(pairs)
  {
    EncodePairsPlain(pairs);
    DecodeEncodePairs(pairs);
    Query.SplitJoinQuery(EncodePairs(pairs));
    Query.JoinQuery(EncodePairs(pairs))
  }

  /** Both halves of every pair through `unquote_plus`; None if one is not well-formed. */
  function DecodePairs(pairs: Pairs): Option<Pairs>
    decreases |pairs|
  {
    if pairs == [] then Some([])
    else match (PercentEncoding.UnquotePlus(pairs[0].0), PercentEncoding.UnquotePlus(pairs[0].1), DecodePairs(pairs[1..]))
      case (Some(k), Some(v), Some(rest)) => Some([(k, v)] + rest)
      case _ => None
  }

  /** `urllib.parse.parse_qsl` with `keep_blank_values=True`, on well-formed input: split, then unquote. */
  function ParseQs(q: string): Option<Pairs> {
    match Query.SplitQuery(q)
    case None => None
    case Some(pairs) => DecodePairs(pairs)
  }

  /** Quoted pairs hold no query delimiter. */
  lemma {:induction false} EncodePairsPlain(pairs: Pairs)
    ensures Query.Plain(EncodePairs(pairs))
    decreases |pairs|
  {
    if pairs != [] {
      var e := EncodePairs(pairs);
      EncodePairsPlain(pairs[1..]);
      PercentEncoding.EncodedHasNoDelimiters(pairs[0].0, true);
      PercentEncoding.EncodedHasNoDelimiters(pairs[0].1, true);
      assert e[1..] == EncodePairs(pairs[1..]);
      assert forall i :: 1 <= i < |e| ==> e[i] == e[1..][i - 1];
    }
  }

  /** Quoted pairs unquote back to the pairs. */
  lemma {:induction false} DecodeEncodePairs(pairs: Pairs)
    ensures DecodePairs(EncodePairs(pairs)) == Some(pairs)
    decreases |pairs|
  {
    if pairs != [] {
      DecodeEncodePairs(pairs[1..]);
      PercentEncoding.UnquoteQuotePlus(pairs[0].0);
      PercentEncoding.UnquoteQuotePlus(pairs[0].1);
      assert EncodePairs(pairs)[1..] == EncodePairs(pairs[1..]);
      assert [pairs[0]] + pairs[1..] == pairs;
    }
  }

  /** The authorization parameters, in the order of the dict literal. */
  function AuthParams(clientId: string, redirectUri: string): Pairs {
    [("client_id", clientId), ("redirect_uri", redirectUri), ("response_type", "code"), ("scope", SCOPE)]
  }

  /**
   * `build_auth_url`: the endpoint, a `?`, and the urlencoded parameters.
   * A server reading the URL gets the four parameters back exactly, for
   * any id and redirect URI.
   */
  function BuildAuthUrl(clientId: string, redirectUri: string): (url: string)
    ensures ReadAuthUrl(url) == Some(AuthParams(clientId, redirectUri))
  {
    var prefix, q := AUTHORIZE_URL + "?", Urlencode(AuthParams(clientId, redirectUri));
    assert (prefix + q)[..|prefix|] == prefix && (prefix + q)[|prefix|..] == q;
    prefix + q
  }

  /** The parameters an authorization server reads from a URL at the endpoint, decoded. */
  function ReadAuthUrl(url: string): Option<Pairs> {
    var prefix := AUTHORIZE_URL + "?";
    if |url| < |prefix| || url[..|prefix|] != prefix then None else ParseQs(url[|prefix|..])
  }



  /** A comma and a colon are escaped, in either form. */
  lemma EncodeCommaColon(spaceAsPlus: bool)
    ensures PercentEncoding.EncodeBytes(Utf8.Encode(","), spaceAsPlus) == "%2C"
    ensures PercentEncoding.EncodeBytes(Utf8.Encode(":"), spaceAsPlus) == "%3A"
  {
    PercentEncoding.EncodeReservedAscii(',', spaceAsPlus);
    PercentEncoding.EncodeReservedAscii(':', spaceAsPlus);
  }

  /** A scope of the form `r,a:r,a:w` with plain words: only its commas and colons are escaped. */
  lemma EncodeScopeShape(r: string, a: string, w: string, spaceAsPlus: bool)
    requires PercentEncoding.AllUnreserved(r) && PercentEncoding.AllUnreserved(a) && PercentEncoding.AllUnreserved(w)
    ensures PercentEncoding.EncodeBytes(Utf8.Encode(r + "," + a + ":" + r + "," + a + ":" + w), spaceAsPlus)
         == r + "%2C" + a + "%3A" + r + "%2C" + a + "%3A" + w
  {
    PercentEncoding.EncodeUnreserved(r, spaceAsPlus);
    PercentEncoding.EncodeUnreserved(a, spaceAsPlus);
    PercentEncoding.EncodeUnreserved(w, spaceAsPlus);
    EncodeCommaColon(spaceAsPlus);
    var comma, colon, ecomma, ecolon := ",", ":", "%2C", "%3A";
    var s1, e1 := r + comma, r + ecomma;
    PercentEncoding.EncodePieces(r, r, comma, ecomma, spaceAsPlus);
    var s2, e2 := s1 + a, e1 + a;
    PercentEncoding.EncodePieces(s1, e1, a, a, spaceAsPlus);
    var s3, e3 := s2 + colon, e2 + ecolon;
    PercentEncoding.EncodePieces(s2, e2, colon, ecolon, spaceAsPlus);
    var s4, e4 := s3 + r, e3 + r;
    PercentEncoding.EncodePieces(s3, e3, r, r, spaceAsPlus);
    var s5, e5 := s4 + comma, e4 + ecomma;
    PercentEncoding.EncodePieces(s4, e4, comma, ecomma, spaceAsPlus);
    var s6, e6 := s5 + a, e5 + a;
    PercentEncoding.EncodePieces(s5, e5, a, a, spaceAsPlus);
    var s7, e7 := s6 + colon, e6 + ecolon;
    PercentEncoding.EncodePieces(s6, e6, colon, ecolon, spaceAsPlus);
    PercentEncoding.EncodePieces(s7, e7, w, w, spaceAsPlus);
  }

  lemma ScopePieces()
    ensures SCOPE == "read" + "," + "activity" + ":" + "read" + "," + "activity" + ":" + "write"
  {
  }

  /** `quote_plus` on the scope escapes its commas and colons, as the unit test expects. */
  lemma QuoteScope()
    ensures PercentEncoding.QuotePlus(SCOPE)
         == "read" + "%2C" + "activity" + "%3A" + "read" + "%2C" + "activity" + "%3A" + "write"
  {
    ScopePieces();
    EncodeScopeShape("read", "activity", "write", true);
  }

  /** The fixed keys and the response type need no escapes. */
  lemma QuoteClientIdKey()
    ensures PercentEncoding.QuotePlus("client_id") == "client_id"
  {
    PercentEncoding.EncodeUnreserved("client_id", true);
  }

  lemma QuoteRedirectUriKey()
    ensures PercentEncoding.QuotePlus("redirect_uri") == "redirect_uri"
  {
    PercentEncoding.EncodeUnreserved("redirect_uri", true);
  }

  lemma QuoteResponseTypeKey()
    ensures PercentEncoding.QuotePlus("response_type") == "response_type"
  {
    PercentEncoding.EncodeUnreserved("response_type", true);
  }

  lemma QuoteCodeValue()
    ensures PercentEncoding.QuotePlus("code") == "code"
  {
    PercentEncoding.EncodeUnreserved("code", true);
  }

  lemma QuoteScopeKey()
    ensures PercentEncoding.QuotePlus("scope") == "scope"
  {
    PercentEncoding.EncodeUnreserved("scope", true);
  }

  /** Four pairs through `urlencode`, written out, after any prefix. */
  lemma UrlencodeFour(prefix: string, p0: (string, string), p1: (string, string), p2: (string, string), p3: (string, string))
    ensures prefix + Urlencode([p0, p1, p2, p3])
         == prefix + PercentEncoding.QuotePlus(p0.0) + "=" + PercentEncoding.QuotePlus(p0.1)
            + "&" + PercentEncoding.QuotePlus(p1.0) + "=" + PercentEncoding.QuotePlus(p1.1)
            + "&" + PercentEncoding.QuotePlus(p2.0) + "=" + PercentEncoding.QuotePlus(p2.1)
            + "&" + PercentEncoding.QuotePlus(p3.0) + "=" + PercentEncoding.QuotePlus(p3.1)
  {
    var ps := [p0, p1, p2, p3];
    assert ps[1..] == [p1, p2, p3] && ps[2..] == [p2, p3] && ps[3..] == [p3];
    assert EncodePairs([p3]) == [EncodePair(p3)];
    assert EncodePairs([p2, p3]) == [EncodePair(p2), EncodePair(p3)];
    assert EncodePairs([p1, p2, p3]) == [EncodePair(p1), EncodePair(p2), EncodePair(p3)];
    assert EncodePairs(ps) == [EncodePair(p0), EncodePair(p1), EncodePair(p2), EncodePair(p3)];
    Query.JoinQuery4(prefix, EncodePair(p0), EncodePair(p1), EncodePair(p2), EncodePair(p3));
  }

  /** The authorization URL written out: only the client id and the redirect URI vary. */
  lemma AuthUrlWrittenOut(clientId: string, redirectUri: string)
    ensures BuildAuthUrl(clientId, redirectUri)
         == AUTHORIZE_URL + "?" + "client_id" + "=" + PercentEncoding.QuotePlus(clientId)
            + "&" + "redirect_uri" + "=" + PercentEncoding.QuotePlus(redirectUri)
            + "&" + "response_type" + "=" + "code"
            + "&" + "scope" + "=" + ("read" + "%2C" + "activity" + "%3A" + "read" + "%2C" + "activity" + "%3A" + "write")
  {
    UrlencodeFour(AUTHORIZE_URL + "?", ("client_id", clientId), ("redirect_uri", redirectUri), ("response_type", "code"), ("scope", SCOPE));
    QuoteClientIdKey();
    QuoteRedirectUriKey();
    QuoteResponseTypeKey();
    QuoteCodeValue();
    QuoteScopeKey();
    QuoteScope();
  }

  /** The characters `urlencode` can write: those of quoted text and the two delimiters. */
  predicate IsQueryChar(c: char) {
    PercentEncoding.IsEncodedChar(c, true) || c == '&' || c == '='
  }

  /** `urlencode` writes nothing else, so no colon and no slash ever appears in its output. */
  lemma UrlencodeChars(pairs: Pairs)
    ensures forall j :: 0 <= j < |Urlencode(pairs)| ==> IsQueryChar(Urlencode(pairs)[j])
  {
    var e := EncodePairs(pairs);
    forall i | 0 <= i < |e|
      ensures forall j :: 0 <= j < |e[i].0| ==> IsQueryChar(e[i].0[j])
      ensures forall j :: 0 <= j < |e[i].1| ==> IsQueryChar(e[i].1[j])
    {
      EncodePairsAt(pairs, i);
      PercentEncoding.EncodedIsCanonical(Utf8.Encode(pairs[i].0), true);
      PercentEncoding.CanonicalChars(e[i].0, true);
      PercentEncoding.EncodedIsCanonical(Utf8.Encode(pairs[i].1), true);
      PercentEncoding.CanonicalChars(e[i].1, true);
    }
    Query.JoinQueryChars(e, IsQueryChar);
  }

  lemma {:induction false} EncodePairsAt(pairs: Pairs, i: nat)
    requires i < |pairs|
    ensures EncodePairs(pairs)[i] == EncodePair(pairs[i])
    decreases i
  {
    if i > 0 {
      EncodePairsAt(pairs[1..], i - 1);
    }
  }

  /** In particular `urlencode` never writes a colon. */
  lemma UrlencodeHasNoColon(pairs: Pairs)
    ensures ':' !in Urlencode(pairs)
  {
    UrlencodeChars(pairs);
  }

  function IndexOfColon(s: string): (k: nat)
    requires ':' in s
    ensures k < |s| && s[k] == ':'
  {
    if s[0] == ':' then 0 else 1 + IndexOfColon(s[1..])
  }

  /**
   * No redirect URI holding a colon is ever written as it stands: the URL
   * the code builds differs from any URL that carries it raw after
   * `redirect_uri=`, as the unit test expects.
   */
  lemma RawRedirectUriNeverWritten(clientId: string, redirectUri: string, rest: string)
    requires ':' in redirectUri
    ensures BuildAuthUrl(clientId, redirectUri)
         != AUTHORIZE_URL + "?" + ("client_id=" + clientId + "&redirect_uri=" + redirectUri + rest)
  {
    var prefix := AUTHORIZE_URL + "?";
    var q := Urlencode(AuthParams(clientId, redirectUri));
    var raw := "client_id=" + clientId + "&redirect_uri=" + redirectUri + rest;
    assert raw[|"client_id=" + clientId + "&redirect_uri="| + IndexOfColon(redirectUri)] == ':';
    UrlencodeHasNoColon(AuthParams(clientId, redirectUri));
    assert (prefix + q)[|prefix|..] == q;
    assert (prefix + raw)[|prefix|..] == raw;
  }

  /** The URL the code builds for the id and redirect URI of the unit test of `build_auth_url`. */
  lemma BuildAuthUrlTest(clientId: string, redirectUri: string)
    requires clientId == "12345"
    requires redirectUri == "https" + "://" + "example.com" + "/" + "callback"
    ensures BuildAuthUrl(clientId, redirectUri)
         == AUTHORIZE_URL + "?" + "client_id" + "=" + "12345"
            + "&" + "redirect_uri" + "=" + ("https" + "%3A%2F%2F" + "example.com" + "%2F" + "callback")
            + "&" + "response_type" + "=" + "code"
            + "&" + "scope" + "=" + ("read" + "%2C" + "activity" + "%3A" + "read" + "%2C" + "activity" + "%3A" + "write")
  {
    AuthUrlWrittenOut(clientId, redirectUri);
    QuoteTestClientId(clientId);
    QuoteTestRedirectUri(redirectUri);
  }

  lemma QuoteTestClientId(clientId: string)
    requires clientId == "12345"
    ensures PercentEncoding.QuotePlus(clientId) == "12345"
  {
    PercentEncoding.EncodeUnreserved(clientId, true);
  }

  lemma QuoteTestRedirectUri(redirectUri: string)
    requires redirectUri == "https" + "://" + "example.com" + "/" + "callback"
    ensures PercentEncoding.QuotePlus(redirectUri) == "https" + "%3A%2F%2F" + "example.com" + "%2F" + "callback"
  {
    PercentEncoding.EncodeSimpleUrl("https", "example.com", "callback", true);
  }

  /**
   * The unit test of `build_auth_url` expects the redirect URI raw; the
   * code escapes its colon and slashes, so the expected URL is not built.
   */
  lemma BuildAuthUrlTestExpectation(clientId: string, redirectUri: string)
    requires clientId == "12345"
    requires redirectUri == "https" + "://" + "example.com" + "/" + "callback"
    ensures BuildAuthUrl(clientId, redirectUri)
         != "https://www.strava.com/oauth/authorize?"
            + ("client_id=" + clientId + "&redirect_uri=" + redirectUri
               + ("&response_type=code" + "&scope=read%2Cactivity%3Aread%2Cactivity%3Awrite"))
  {
    assert redirectUri[5] == ':';
    RawRedirectUriNeverWritten(clientId, redirectUri, "&response_type=code" + "&scope=read%2Cactivity%3Aread%2Cactivity%3Awrite");
    assert "https://www.strava.com/oauth/authorize?" == AUTHORIZE_URL + "?";
  }

  // ---- Token requests (get_strava_tokens, refresh_strava_token) ----

  /** The form `get_strava_tokens` posts to exchange an authorization code. */
  function ExchangePayload(clientId: string, clientSecret: string, code: string): (form: Pairs)
    ensures |form| == 4
    ensures Query.Lookup(form, "client_id") == Some(clientId)
    ensures Query.Lookup(form, "client_secret") == Some(clientSecret)
    ensures Query.Lookup(form, "code") == Some(code)
    ensures Query.Lookup(form, "grant_type") == Some("authorization_code")
  {
    FormKeysDistinct();
    Query.Lookup4(("client_id", clientId), ("client_secret", clientSecret), ("code", code),
                  ("grant_type", "authorization_code"));
    [("client_id", clientId), ("client_secret", clientSecret), ("code", code), ("grant_type", "authorization_code")]
  }

  /** The form `refresh_strava_token` posts to exchange a refresh token. */
  function RefreshPayload(clientId: string, clientSecret: string, refreshToken: string): (form: Pairs)
    ensures |form| == 4
    ensures Query.Lookup(form, "client_id") == Some(clientId)
    ensures Query.Lookup(form, "client_secret") == Some(clientSecret)
    ensures Query.Lookup(form, "refresh_token") == Some(refreshToken)
    ensures Query.Lookup(form, "grant_type") == Some("refresh_token")
  {
    FormKeysDistinct();
    Query.Lookup4(("client_id", clientId), ("client_secret", clientSecret), ("refresh_token", refreshToken),
                  ("grant_type", "refresh_token"));
    [("client_id", clientId), ("client_secret", clientSecret), ("refresh_token", refreshToken), ("grant_type", "refresh_token")]
  }

  /** A field of a form body as the token endpoint reads it: the first value under the key, decoded. */
  function ReadForm(body: string, key: string): Option<string> {
    match ParseQs(body)
    case None => None
    case Some(pairs) => Query.Lookup(pairs, key)
  }

  /** A form body written by `urlencode` is read back field by field. */
  lemma ReadUrlencodedForm(pairs: Pairs, key: string)
    ensures ReadForm(Urlencode(pairs), key) == Query.Lookup(pairs, key)
  {
  }

  /** The endpoint reads the id, the secret and the code back from the exchange form, whatever they hold. */
  lemma ExchangeFormFields(clientId: string, clientSecret: string, code: string)
    ensures ReadForm(Urlencode(ExchangePayload(clientId, clientSecret, code)), "client_id") == Some(clientId)
    ensures ReadForm(Urlencode(ExchangePayload(clientId, clientSecret, code)), "client_secret") == Some(clientSecret)
    ensures ReadForm(Urlencode(ExchangePayload(clientId, clientSecret, code)), "code") == Some(code)
    ensures ReadForm(Urlencode(ExchangePayload(clientId, clientSecret, code)), "grant_type") == Some("authorization_code")
  {
    var form := ExchangePayload(clientId, clientSecret, code);
    ReadUrlencodedForm(form, "client_id");
    ReadUrlencodedForm(form, "client_secret");
    ReadUrlencodedForm(form, "code");
    ReadUrlencodedForm(form, "grant_type");
  }

  /** The endpoint reads the id, the secret and the refresh token back from the refresh form. */
  lemma RefreshFormFields(clientId: string, clientSecret: string, refreshToken: string)
    ensures ReadForm(Urlencode(RefreshPayload(clientId, clientSecret, refreshToken)), "client_id") == Some(clientId)
    ensures ReadForm(Urlencode(RefreshPayload(clientId, clientSecret, refreshToken)), "client_secret") == Some(clientSecret)
    ensures ReadForm(Urlencode(RefreshPayload(clientId, clientSecret, refreshToken)), "refresh_token") == Some(refreshToken)
    ensures ReadForm(Urlencode(RefreshPayload(clientId, clientSecret, refreshToken)), "grant_type") == Some("refresh_token")
  {
    var form := RefreshPayload(clientId, clientSecret, refreshToken);
    ReadUrlencodedForm(form, "client_id");
    ReadUrlencodedForm(form, "client_secret");
    ReadUrlencodedForm(form, "refresh_token");
    ReadUrlencodedForm(form, "grant_type");
  }

  /** The Rust program posts the same refresh form, with its numeric id written in decimal. */
  lemma RefreshFormsAgree(c: Strava.StravaConfig, refreshToken: string)
    ensures Strava.RefreshForm(c, refreshToken) == RefreshPayload(Numerals.Decimal(c.clientId), c.clientSecret, refreshToken)
  {
  }

  /** The JSON values the script looks at; arrays and nested objects are not told apart. */
  datatype Json = JString(s: string) | JNumber(n: int) | JBool(b: bool) | JNull | JOther

  type JsonObject = map<string, Json>

  /** The status and the decoded JSON object of a reply from the token endpoint. */
  datatype TokenReply = TokenReply(status: nat, json: JsonObject)

  /**
   * What both token functions return: the decoded reply on status 200, an
   * empty dict otherwise. It never holds a field the reply lacks, and it is
   * empty unless the exchange succeeded.
   */
  function TokenData(reply: TokenReply): (data: JsonObject)
    ensures forall key :: key in data ==> key in reply.json && data[key] == reply.json[key]
    ensures data != map[] ==> reply.status == 200
    ensures reply.status == 200 ==> data == reply.json
  {
    if reply.status == 200 then reply.json else map[]
  }

  /** `dict.get(key, default)`. */
  function Get(obj: JsonObject, key: string, default: Json): Json {
    if key in obj then obj[key] else default
  }

  /** A field of the token data: the reply's own value on success, the default when the reply failed or lacks it. */
  lemma TokenField(reply: TokenReply, key: string, default: Json)
    ensures reply.status != 200 ==> Get(TokenData(reply), key, default) == default
    ensures reply.status == 200 && key in reply.json ==> Get(TokenData(reply), key, default) == reply.json[key]
    ensures reply.status == 200 && key !in reply.json ==> Get(TokenData(reply), key, default) == default
  {
  }

  // ---- Activities (get_yoga_activities, update_activity_name) ----

  /** An activity as listed by the API, with the three fields the script reads. */
  datatype Activity = Activity(id: int, name: string, kind: string)

  /** The status and the decoded list of a reply from the activities endpoint. */
  datatype ActivitiesReply = ActivitiesReply(status: nat, activities: seq<Activity>)

  predicate IsYoga(a: Activity) {
    a.kind == "Yoga"
  }

  /** `get_yoga_activities`: the listed Yoga activities in listing order; none when the listing failed. */
  function GetYogaActivities(reply: ActivitiesReply): (yoga: seq<Activity>)
    ensures forall i :: 0 <= i < |yoga| ==> IsYoga(yoga[i])
    ensures reply.status != 200 ==> yoga == []
  {
    if reply.status == 200 then Seqs.Filter(reply.activities, IsYoga) else []
  }

  /** An activity is returned exactly when the listing succeeded, holds it, and it is a Yoga activity. */
  lemma YogaActivitiesMembers(reply: ActivitiesReply, a: Activity)
    ensures a in GetYogaActivities(reply) <==> reply.status == 200 && a in reply.activities && IsYoga(a)
  {
    Seqs.FilterMembers(reply.activities, IsYoga, a);
  }

  /** The returned activities keep their listing order and are never repeated or invented. */
  lemma YogaActivitiesInOrder(reply: ActivitiesReply)
    ensures Seqs.IsSubsequence(GetYogaActivities(reply), reply.activities)
  {
    Seqs.FilterIsSubsequence(reply.activities, IsYoga);
    if reply.status != 200 {
      EmptyIsSubsequence(reply.activities);
    }
  }

  lemma {:induction false} EmptyIsSubsequence(s: seq<Activity>)
    ensures Seqs.IsSubsequence([], s)
    decreases |s|
  {
    if s != [] {
      EmptyIsSubsequence(s[1..]);
    }
  }

  /** The listing of the unit test of `get_yoga_activities`. */
  function SampleActivities(): seq<Activity> {
    [Activity(1, "Morning Run", "Run"), Activity(2, "Evening Yoga", "Yoga"), Activity(3, NEW_NAME, "Yoga")]
  }

  /** The unit test of `get_yoga_activities`: the two Yoga activities, ids 2 and 3, in that order. */
  lemma YogaActivitiesTest()
    ensures var yoga := GetYogaActivities(ActivitiesReply(200, SampleActivities()));
      |yoga| == 2 && yoga[0].id == 2 && yoga[1].id == 3
  {
  }

  /** The request `update_activity_name` sends: a new name for one activity, with the access token. */
  datatype Update = Update(accessToken: Json, activityId: int, newName: string)

  predicate NeedsRename(a: Activity) {
    a.name != NEW_NAME
  }

  /** One rename to the new name per activity, in order. */
  function RenameEach(accessToken: Json, activities: seq<Activity>): seq<Update> {
    seq(|activities|, i requires 0 <= i < |activities| => Update(accessToken, activities[i].id, NEW_NAME))
  }

  /**
   * The updates the rename loop sends: one per Yoga activity whose name is
   * not yet the new name, in order. There are never more updates than
   * activities, and each one carries the access token and the new name.
   */
  function Renames(accessToken: Json, yoga: seq<Activity>): (updates: seq<Update>)
    ensures |updates| <= |yoga|
    ensures forall k :: 0 <= k < |updates| ==> updates[k].accessToken == accessToken && updates[k].newName == NEW_NAME
  {
    RenameEach(accessToken, Seqs.Filter(yoga, NeedsRename))
  }

  /**
   * The loop at the end of the script: walks the Yoga activities and sends
   * an update for each one not yet carrying the new name.
   */
  method RenameYogaActivities(accessToken: Json, yoga: seq<Activity>) returns (updates: seq<Update>)
    ensures updates == Renames(accessToken, yoga)
  {
    updates := [];
    var i := 0;
    while i < |yoga|
      invariant 0 <= i <= |yoga|
      invariant updates == Renames(accessToken, yoga[..i])
    {
      var activity := yoga[i];
      assert yoga[..i + 1] == yoga[..i] + [activity];
      Seqs.FilterSnoc(yoga[..i], activity, NeedsRename);
      if activity.name != NEW_NAME {
        updates := updates + [Update(accessToken, activity.id, NEW_NAME)];
      }
      i := i + 1;
    }
    assert yoga[..|yoga|] == yoga;
  }

  /** An update is sent exactly for an activity of the list whose name differs from the new name. */
  lemma RenamesMembers(accessToken: Json, yoga: seq<Activity>, u: Update)
    ensures u in Renames(accessToken, yoga)
        <==> exists a :: a in yoga && NeedsRename(a) && u == Update(accessToken, a.id, NEW_NAME)
  {
    var kept := Seqs.Filter(yoga, NeedsRename);
    if u in Renames(accessToken, yoga) {
      var i :| 0 <= i < |kept| && Renames(accessToken, yoga)[i] == u;
      Seqs.FilterMembers(yoga, NeedsRename, kept[i]);
    }
    if exists a :: a in yoga && NeedsRename(a) && u == Update(accessToken, a.id, NEW_NAME) {
      var a :| a in yoga && NeedsRename(a) && u == Update(accessToken, a.id, NEW_NAME);
      Seqs.FilterMembers(yoga, NeedsRename, a);
      var i :| 0 <= i < |kept| && kept[i] == a;
      assert Renames(accessToken, yoga)[i] == u;
    }
  }

  /** The activity as the server holds it after the updates: the last update for its id names it. */
  function NameAfter(updates: seq<Update>, a: Activity): Activity
    decreases |updates|
  {
    if updates == [] then a
    else
      var u := updates[|updates| - 1];
      if u.activityId == a.id then a.(name := u.newName) else NameAfter(updates[..|updates| - 1], a)
  }

  /** The activities after the server applied the updates. */
  function Applied(updates: seq<Update>, activities: seq<Activity>): seq<Activity> {
    seq(|activities|, i requires 0 <= i < |activities| => NameAfter(updates, activities[i]))
  }

  /** Updates that all give one name leave an activity alone or give it that name; any of them for its id gives it. */
  lemma {:induction false} NameAfterOneName(updates: seq<Update>, a: Activity, name: string)
    requires forall k :: 0 <= k < |updates| ==> updates[k].newName == name
    ensures NameAfter(updates, a) == a || NameAfter(updates, a).name == name
    ensures (exists k :: 0 <= k < |updates| && updates[k].activityId == a.id) ==> NameAfter(updates, a).name == name
    decreases |updates|
  {
    if updates != [] {
      var init := updates[..|updates| - 1];
      NameAfterOneName(init, a, name);
      if updates[|updates| - 1].activityId != a.id {
        if exists k :: 0 <= k < |updates| && updates[k].activityId == a.id {
          var k :| 0 <= k < |updates| && updates[k].activityId == a.id;
          assert init[k].activityId == a.id;
        }
      }
    }
  }

  /** A filter that keeps nothing when nothing satisfies it. */
  lemma FilterNone(s: seq<Activity>, p: Activity -> bool)
    requires forall i :: 0 <= i < |s| ==> !p(s[i])
    ensures Seqs.Filter(s, p) == []
  {
    var r := Seqs.Filter(s, p);
    if r != [] {
      Seqs.FilterMembers(s, p, r[0]);
    }
  }

  /**
   * Running the loop again over the activities as the first run left them
   * sends nothing: every activity it looked at now carries the new name.
   */
  lemma SecondRunRenamesNothing(accessToken: Json, yoga: seq<Activity>)
    ensures Renames(accessToken, Applied(Renames(accessToken, yoga), yoga)) == []
  {
    var us := Renames(accessToken, yoga);
    var after := Applied(us, yoga);
    forall i | 0 <= i < |after|
      ensures !NeedsRename(after[i])
    {
      var a := yoga[i];
      NameAfterOneName(us, a, NEW_NAME);
      if NeedsRename(a) {
        RenamesMembers(accessToken, yoga, Update(accessToken, a.id, NEW_NAME));
        var k :| 0 <= k < |us| && us[k] == Update(accessToken, a.id, NEW_NAME);
        assert us[k].activityId == a.id;
      }
    }
    FilterNone(after, NeedsRename);
  }

  /** When every activity already carries the new name, the loop sends nothing. */
  lemma AllNamedRenamesNothing(accessToken: Json, yoga: seq<Activity>)
    requires forall i :: 0 <= i < |yoga| ==> yoga[i].name == NEW_NAME
    ensures Renames(accessToken, yoga) == []
  {
    FilterNone(yoga, NeedsRename);
  }

  /** On the listing of the unit tests, only activity 2 is renamed: activity 3 already has the name. */
  lemma RenameTestExample(accessToken: Json)
    ensures Renames(accessToken, GetYogaActivities(ActivitiesReply(200, SampleActivities())))
         == [Update(accessToken, 2, NEW_NAME)]
  {
    YogaActivitiesTest();
  }

  // ---- The script's main block ----

  /** What the script does that can be seen from outside, in order. */
  datatype Effect =
    | PromptForCode(authUrl: string)
    | PostToken(url: string, form: Pairs)
    | SaveRefreshToken(token: string)
    | ListActivities(accessToken: Json, after: int, perPage: nat)
    | RenameActivity(update: Update)

  /** `not REFRESH_TOKEN` is false: the variable is set and not empty. */
  predicate HasRefreshToken(env: Env) {
    REFRESH_TOKEN_VAR in env && env[REFRESH_TOKEN_VAR] != ""
  }

  function RenameEffects(updates: seq<Update>): seq<Effect> {
    seq(|updates|, i requires 0 <= i < |updates| => RenameActivity(updates[i]))
  }

  /**
   * The part of the script that runs once a refresh token is known: the
   * refresh, the listing of the activities since `after`, and the renames,
   * with the access token defaulting to the empty string.
   */
  function SyncEffects(clientId: string, clientSecret: string, refreshToken: string,
                       refreshReply: TokenReply, after: int, activitiesReply: ActivitiesReply): seq<Effect>
  {
    var accessToken := Get(TokenData(refreshReply), "access_token", JString(""));
    [PostToken(TOKEN_URL, RefreshPayload(clientId, clientSecret, refreshToken)), ListActivities(accessToken, after, PER_PAGE)]
      + RenameEffects(Renames(accessToken, GetYogaActivities(activitiesReply)))
  }

  /**
   * The main block: the code typed at the prompt, the replies of the
   * endpoints and the cut-off time of the listing are inputs. It ends with
   * exit code 1 when the id or the secret is unset, and when a fresh
   * authorization yields a refresh token that is not a string; a failed
   * exchange yields the empty string, which the script saves and uses.
   */
  method RunScript(env: Env, code: string, exchangeReply: TokenReply, refreshReply: TokenReply,
                   after: int, activitiesReply: ActivitiesReply)
    returns (effects: seq<Effect>, exitCode: int)
    ensures exitCode == 0 || exitCode == 1
    ensures exitCode == 1 <==>
      CLIENT_ID_VAR !in env || CLIENT_SECRET_VAR !in env
      || (!HasRefreshToken(env) && !Get(TokenData(exchangeReply), "refresh_token", JString("")).JString?)
    ensures CLIENT_ID_VAR !in env || CLIENT_SECRET_VAR !in env ==> effects == []
    ensures CLIENT_ID_VAR in env && CLIENT_SECRET_VAR in env && HasRefreshToken(env) ==>
      effects == SyncEffects(env[CLIENT_ID_VAR], env[CLIENT_SECRET_VAR], env[REFRESH_TOKEN_VAR],
                             refreshReply, after, activitiesReply)
    ensures CLIENT_ID_VAR in env && CLIENT_SECRET_VAR in env && !HasRefreshToken(env) ==>
      var clientId, clientSecret := env[CLIENT_ID_VAR], env[CLIENT_SECRET_VAR];
      var login := [PromptForCode(BuildAuthUrl(clientId, REDIRECT_URI)),
                    PostToken(TOKEN_URL, ExchangePayload(clientId, clientSecret, code))];
      var fetched := Get(TokenData(exchangeReply), "refresh_token", JString(""));
      (fetched.JString? ==>
         effects == login + [SaveRefreshToken(fetched.s)]
                    + SyncEffects(clientId, clientSecret, fetched.s, refreshReply, after, activitiesReply))
      && (!fetched.JString? ==> effects == login)
    ensures CLIENT_ID_VAR in env && CLIENT_SECRET_VAR in env && !HasRefreshToken(env) && exchangeReply.status != 200
            ==> exitCode == 0 && SaveRefreshToken("") in effects
  {
    if CLIENT_ID_VAR !in env || CLIENT_SECRET_VAR !in env {
      return [], 1;
    }
    var clientId, clientSecret := env[CLIENT_ID_VAR], env[CLIENT_SECRET_VAR];
    if HasRefreshToken(env) {
      effects := Sync(clientId, clientSecret, env[REFRESH_TOKEN_VAR], refreshReply, after, activitiesReply);
      return effects, 0;
    }
    var login := [PromptForCode(BuildAuthUrl(clientId, REDIRECT_URI)),
                  PostToken(TOKEN_URL, ExchangePayload(clientId, clientSecret, code))];
    var fetched := Get(TokenData(exchangeReply), "refresh_token", JString(""));
    if !fetched.JString? {
      return login, 1;
    }
    var sync := Sync(clientId, clientSecret, fetched.s, refreshReply, after, activitiesReply);
    effects := login + [SaveRefreshToken(fetched.s)] + sync;
    exitCode := 0;
  }

  /** Lines 97-109 of the script: refresh, list the activities since `after`, rename the Yoga ones. */
  method Sync(clientId: string, clientSecret: string, refreshToken: string,
              refreshReply: TokenReply, after: int, activitiesReply: ActivitiesReply)
    returns (effects: seq<Effect>)
    ensures effects == SyncEffects(clientId, clientSecret, refreshToken, refreshReply, after, activitiesReply)
  {
    var accessToken := Get(TokenData(refreshReply), "access_token", JString(""));
    var yoga := GetYogaActivities(activitiesReply);
    var updates := RenameYogaActivities(accessToken, yoga);
    effects := [PostToken(TOKEN_URL, RefreshPayload(clientId, clientSecret, refreshToken)),
                ListActivities(accessToken, after, PER_PAGE)] + RenameEffects(updates);
  }
}
