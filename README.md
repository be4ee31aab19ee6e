# mady-my-strava, modelled in Dafny

mady-my-strava renames Strava Yoga activities to `#yogamitmady`. It comes
in two programs, and this project models both.

The Rust program (`src/main.rs`), in module `Strava`:
- reads its OAuth client configuration from the environment;
- prints the authorization URL when no refresh token is configured;
- exchanges the refresh token for new tokens.

The Python script (`src/madymystrava/main.py`), in module `MadyMyStrava`:
- prints the authorization URL when it has no refresh token;
- exchanges an authorization code or a refresh token at the token endpoint;
- lists the activities of the last day and keeps the Yoga ones;
- renames every Yoga activity that does not already carry the new name.

Both programs live in a world of environment variables, HTTP endpoints and
JSON bodies. In the model:
- the environment is a `map<string, string>`;
- every HTTP reply, the URL parser and the JSON decoder are inputs (values or functions);
- what the Python script does to the outside world is a returned list of `Effect`s.

Supporting modules model the library behaviour both programs rely on:
- `Utf8`: UTF-8 encoding, with a strict decoder.
- `PercentEncoding`: `urlencoding::encode` and `quote_plus`. Both keep the
  unreserved characters of section 2.3 of RFC 3986 and write every other
  UTF-8 byte as `%XX` with upper-case hex digits. `quote_plus` also writes
  a space as `+`.
- `Query`: `key=value&...` query strings and the split that reads them back.
- `Numerals`: `u32` decimal formatting and `str::parse::<u32>`.
- `Seqs`: an order-preserving filter.
- `StravaApi`: the endpoint constants and form keys both programs hardcode.

Round trips are proved for each layer:
- UTF-8 decode after encode;
- percent-decode after encode;
- query split after join;
- parse after format.

They combine into the statement that an authorization server reads back
exactly the client id and redirect URI the programs put into the URL.

Where the code and its tests disagree, the model follows the code:
- `tests/test_main.py:54` expects the Python script to write the redirect
  URI unencoded. `urlencode` escapes its colon and slashes, so that test
  cannot pass. `MadyMyStrava.BuildAuthUrlTestExpectation` proves that the
  URL the code builds differs from the expected one, and
  `MadyMyStrava.BuildAuthUrlTest` gives the URL the code does build.
- The configuration carries a base URL (`strava_url`), but the Rust
  authorization URL hardcodes `https://www.strava.com` and ignores the
  field; the model does the same (`Strava.AuthUrlDependsOnIdAndUri`).
- The Rust `main` prints the authorization URL when no refresh token is
  set, then always panics, because the refresh unwraps the missing token
  (`Strava.FirstRunPanics`).
- After a failed code exchange the Python script gets `{}`. So
  `token_data.get("refresh_token", "")` gives `""`, which passes the
  string check, and the script saves and uses an empty refresh token
  instead of exiting (last `ensures` of `MadyMyStrava.RunScript`).

## Model

| member | source | states |
|---|---|---|
| Strava.LoadEnvVariables | src/main.rs:41-77 | Success exactly when the client id is set and parses as a `u32` and the secret is set. The first failing check decides the error message: id missing, id invalid, then secret missing. On success the id is parsed and the secret is copied verbatim. The refresh token is present exactly when its variable is set. The redirect URI defaults to `http://localhost/`. There is no access token, and the base URL is the production one. |
| Strava.LoadReadsOnlyItsVariables | src/main.rs:47-67 | Two environments that agree on the four variables load to the same result. |
| Strava.LoadSettingsOf | src/main.rs:47-76 | Every configuration loading can produce is loaded back from an environment holding its id in decimal, its secret, its redirect URI and its token (if any). |
| Strava.LoadTestExamples | src/main.rs:130-207 | The five unit-test outcomes of loading: valid, invalid id, id missing, secret missing, token missing. |
| Numerals.Decimal | src/main.rs:90 | The decimal text of a number has digits only, no leading zero, and denotes the number. |
| Numerals.ParseU32 | src/main.rs:47-51 | `str::parse::<u32>` accepts only digits, with at most one leading `+`, and never an empty string. Digits, with or without the `+` and with any leading zeros, parse to the number they denote when it is at most 4294967295, and are rejected otherwise. |
| Numerals.ParseDecimal | src/main.rs:47-51 | Parsing the decimal text of any `u32`, with or without a leading `+`, gives the number back. |
| Numerals.ParseThenDecimal | src/main.rs:47-51 | Formatting a parsed canonical digit string gives the string back, with the `+` dropped. |
| Numerals.ParseRejectsNonDigit | src/main.rs:47-51 | A string with a character that is not a digit, other than one leading `+`, does not parse. |
| Numerals.ParseTestExamples | src/main.rs:153-164 | `"123456"` parses to 123456 and `"not_a_number"` is rejected. |
| Numerals.ParseEdgeExamples | src/main.rs:47-51 | The empty string, a lone `+` and `"-1"` are rejected; `"007"` parses to 7. |
| Numerals.ParseRangeExamples | src/main.rs:47-51 | 4294967295 parses and 4294967296 is rejected. |
| Numerals.DecimalTestExample | src/main.rs:268 | 123456 is written `123456`. |
| Utf8.DecodeEncode | src/main.rs:80 | Decoding the UTF-8 bytes of any string gives the string back. |
| Utf8.EncodeAppend | src/main.rs:80 | The bytes of a concatenation are the concatenation of the bytes. |
| PercentEncoding.EncodedIsCanonical | src/main.rs:80 | Encoded text holds only unreserved characters and `%` escapes with upper-case hex digits (and `+` for a space in the `quote_plus` form). |
| PercentEncoding.CanonicalChars | src/main.rs:80 | Every character of such text is unreserved, `%`, or `+` in the `quote_plus` form. |
| PercentEncoding.DecodeEncodeBytes | src/main.rs:80 | Percent-decoding encoded bytes gives the bytes back, in both forms. |
| PercentEncoding.EncodeDecodeBytes | src/main.rs:80 | Canonical text decodes, and re-encoding gives the text back: the encoding is a bijection onto canonical text. |
| PercentEncoding.EncodeComponent | src/main.rs:80 | `urlencoding::encode` writes canonical text: unreserved characters and upper-case `%` escapes only. Decoding it gives the original string back, and text that needs no escape is left as it is. |
| PercentEncoding.QuotePlus | src/madymystrava/main.py:18 | `quote_plus` writes only unreserved characters, `%` escapes and `+`. |
| PercentEncoding.UnquoteQuotePlus | src/madymystrava/main.py:18 | `quote_plus` output unquotes back to the original string. |
| PercentEncoding.EncodedHasNoDelimiters | src/main.rs:80-81 | Encoded text never holds `&` or `=`. |
| PercentEncoding.EncodeUnreserved | src/main.rs:80 | Text made of unreserved characters is left as it is. |
| PercentEncoding.EncodeReservedAscii | src/main.rs:80 | Any other ASCII character except the space becomes `%` and its two upper-case hex digits. |
| PercentEncoding.EncodeSimpleUrl | src/main.rs:80 | A URL `scheme://host/path` with plain parts is encoded to `scheme%3A%2F%2Fhost%2Fpath`. |
| PercentEncoding.EncodeComponentExample | src/main.rs:227 | `http://localhost/` is encoded to `http%3A%2F%2Flocalhost%2F`. |
| Query.SplitJoinQuery | src/main.rs:81 | Splitting a query string joined from pairs without `&` or `=` gives the pairs back, in order. |
| Query.JoinQueryChars | src/madymystrava/main.py:18 | Every character of a query string is a delimiter or a character of some key or value. |
| Strava.BuildAuthUrl | src/main.rs:79-82 | The Rust authorization URL is the endpoint, `?`, and the four parameters `client_id` (decimal), `redirect_uri` (encoded), `response_type=code` and `scope` joined with `&`, in that order. |
| Strava.AuthParamsArePlain | src/main.rs:79-82 | No parameter value of the Rust URL holds `&` or `=`, so the URL parses unambiguously. |
| Strava.ReadBuildAuthUrl | src/main.rs:79-82 | A server reading the Rust URL gets back exactly the configuration's client id and redirect URI. |
| Strava.AuthUrlDependsOnIdAndUri | src/main.rs:79-82 | The URL depends only on the client id and the redirect URI; the base URL is not used. |
| Strava.BuildAuthUrlExample | src/main.rs:214-230 | The unit test: id 123456 and the default redirect URI give the expected URL with `http%3A%2F%2Flocalhost%2F`. |
| Strava.TokenUrl | src/main.rs:85 | The token URL lies under the configured base URL; the production base gives `https://www.strava.com/oauth/token`. |
| Strava.RefreshForm | src/main.rs:89-94 | The refresh form has four fields and nothing else: the token endpoint reads the id in decimal, the secret, the refresh token and `grant_type=refresh_token` from it. |
| Strava.Rotated | src/main.rs:111-118 | After a refresh both tokens are the reply's, everything else is kept, and the next refresh posts to the same URL with the same form for the new token. |
| Strava.RefreshStravaToken | src/main.rs:84-122 | Success exactly when the token URL parses, a refresh token is present, the post is sent, the status is 200 and the body reads and decodes. Success is the input configuration with both tokens replaced. A bad URL, a missing token, a send failure and a non-200 status each give their own failure; the rejection carries the status. |
| Strava.RefreshKeepsClient | src/main.rs:111-118 | A refresh keeps the id, secret, redirect URI and base URL and sets both tokens. The next refresh posts to the same endpoint. |
| Strava.RefreshIgnoresTypeAndLifetime | src/main.rs:107-118 | The token type and the lifetime in the reply make no difference. |
| Strava.LoadedTokenUrl | src/main.rs:75-85 | Every loaded configuration refreshes at `https://www.strava.com/oauth/token`. |
| Strava.RefreshTestExample | src/main.rs:238-275 | The mock-server unit test: the expected form answered with the test body gives the configuration with the new access token. |
| Strava.Program | src/main.rs:30-39 | A configuration error stops the run before anything is printed. For a loaded configuration, the URL is printed exactly when no refresh token is set, and it is the authorization URL of that configuration. The outcome is then the refresh's: its new configuration when it succeeds, its panic otherwise. A run that prints a URL never succeeds. |
| Strava.FirstRunPanics | src/main.rs:30-39 | Without a refresh token the run prints the URL and then panics on the missing token. |
| Strava.TokenRunRefreshes | src/main.rs:30-39 | With a refresh token set and a 200 reply that decodes, the run prints nothing and ends with the configuration rotated to the reply's tokens. |
| Seqs.Filter | src/madymystrava/main.py:57 | The filter keeps no more elements than it is given, all of them satisfying the condition. |
| Seqs.FilterIsSubsequence | src/madymystrava/main.py:57 | The result is a subsequence of the input: nothing added, order kept. |
| Seqs.FilterCounts | src/madymystrava/main.py:57 | Each element occurs as often as in the input if it satisfies the condition, and never otherwise. |
| Seqs.FilterMembers | src/madymystrava/main.py:57 | An element is kept exactly when it is in the input and satisfies the condition. |
| Seqs.FilterSnoc | src/madymystrava/main.py:107-109 | Filtering one more element at the end extends the result by that element exactly when it is kept. |
| MadyMyStrava.Urlencode | src/madymystrava/main.py:18 | Parsing what `urlencode` writes gives every key and value back, in order, whatever they hold. |
| MadyMyStrava.BuildAuthUrl | src/madymystrava/main.py:11-18 | A server reading the Python URL gets back the four parameters exactly, in order, for any id and redirect URI. |
| MadyMyStrava.EncodePairs | src/madymystrava/main.py:18 | `urlencode` quotes every pair, one output pair per input pair. |
| MadyMyStrava.EncodePairsPlain | src/madymystrava/main.py:18 | Quoted keys and values never hold `&` or `=`. |
| MadyMyStrava.DecodeEncodePairs | src/madymystrava/main.py:18 | Unquoting the quoted pairs gives the pairs back. |
| MadyMyStrava.QuoteScope | src/madymystrava/main.py:16 | The scope is written `read%2Cactivity%3Aread%2Cactivity%3Awrite`. |
| MadyMyStrava.AuthUrlWrittenOut | src/madymystrava/main.py:11-18 | The Python URL written out: fixed keys, `code` and the escaped scope, with only the quoted id and redirect URI varying. |
| MadyMyStrava.UrlencodeChars | src/madymystrava/main.py:18 | `urlencode` writes only unreserved characters, `%`, `+`, `&` and `=`. |
| MadyMyStrava.UrlencodeHasNoColon | src/madymystrava/main.py:18 | `urlencode` output never holds a colon. |
| MadyMyStrava.RawRedirectUriNeverWritten | src/madymystrava/main.py:11-18 | No redirect URI holding a colon appears raw after `redirect_uri=` in the URL the code builds. |
| MadyMyStrava.BuildAuthUrlTest | tests/test_main.py:48-58 | For the test's id and `https://example.com/callback`, the URL carries `https%3A%2F%2Fexample.com%2Fcallback` and the escaped scope. |
| MadyMyStrava.BuildAuthUrlTestExpectation | tests/test_main.py:48-58 | The code's URL differs from the URL the test expects. |
| MadyMyStrava.ExchangePayload | src/madymystrava/main.py:20-26 | The exchange form holds the id, the secret, the code and `grant_type=authorization_code`, each found under its own key, and nothing else. |
| MadyMyStrava.RefreshPayload | src/madymystrava/main.py:34-40 | The refresh form holds the id, the secret, the refresh token and `grant_type=refresh_token`, each found under its own key, and nothing else. |
| MadyMyStrava.ReadUrlencodedForm | src/madymystrava/main.py:27 | A form body written by `urlencode` is read back field by field. |
| MadyMyStrava.ExchangeFormFields | src/madymystrava/main.py:20-27 | The token endpoint reads the id, the secret, the code and `grant_type=authorization_code` back from the exchange form. |
| MadyMyStrava.RefreshFormFields | src/madymystrava/main.py:34-41 | The token endpoint reads the id, the secret, the refresh token and `grant_type=refresh_token` back from the refresh form. |
| MadyMyStrava.RefreshFormsAgree | src/madymystrava/main.py:35-40 | The Python refresh payload has the same four pairs, in the same order, as the Rust form at src/main.rs:89-94. |
| MadyMyStrava.TokenData | src/madymystrava/main.py:28-32 | The token data holds only fields of the reply, with the reply's values; it is the whole reply on status 200 and empty unless the status is 200. The refresh function at lines 42-46 behaves the same. |
| MadyMyStrava.TokenField | src/madymystrava/main.py:28-32 | A field read with a default from the token data, as lines 91 and 98 read the refresh and access tokens: the reply's value on status 200 when present, the default otherwise. |
| MadyMyStrava.GetYogaActivities | src/madymystrava/main.py:48-60 | Every returned activity is a Yoga activity, and a failed listing returns none. |
| MadyMyStrava.YogaActivitiesMembers | src/madymystrava/main.py:55-60 | An activity is returned exactly when the listing succeeded, holds it, and it is a Yoga activity. |
| MadyMyStrava.YogaActivitiesInOrder | src/madymystrava/main.py:57 | The returned activities are a subsequence of the listing. |
| MadyMyStrava.YogaActivitiesTest | tests/test_main.py:26-36 | The test listing gives two activities, ids 2 and 3, in that order. |
| MadyMyStrava.Renames | src/madymystrava/main.py:107-109 | The renames sent: never more than the activities, each with the access token and `#yogamitmady`. Which activities they name is stated by `RenamesMembers`. |
| MadyMyStrava.RenameYogaActivities | src/madymystrava/main.py:107-109 | The loop sends exactly the renames `Renames` computes: one per activity not yet named `#yogamitmady`, in list order. |
| MadyMyStrava.RenamesMembers | src/madymystrava/main.py:107-109 | An update is sent exactly for an activity of the list whose name differs from the new name, with its id and the new name. |
| MadyMyStrava.SecondRunRenamesNothing | src/madymystrava/main.py:107-109 | Once the server has applied the updates, a second pass over the same activities sends nothing. |
| MadyMyStrava.AllNamedRenamesNothing | src/madymystrava/main.py:108 | When every activity already carries the new name, nothing is sent. |
| MadyMyStrava.RenameTestExample | tests/test_main.py:12-18 | On the test listing only activity 2 is renamed. |
| MadyMyStrava.RunScript | src/madymystrava/main.py:74-109 | **Exit code 1** exactly when the id or the secret is unset, or when a fresh authorization yields a refresh token that is not a string. A missing id or secret means nothing is done. **With a non-empty refresh token in the environment:** the script refreshes, lists and renames. **Otherwise:** it prints the URL and posts the exchange form; then it either stops, or saves the fetched token and refreshes, lists and renames. **After a failed exchange:** it saves `""` and goes on. |
| MadyMyStrava.Sync | src/madymystrava/main.py:97-109 | Posts the refresh form and lists the activities since the cut-off with the access token, defaulting to `""`. Then it sends the renames for the Yoga activities. |

Some definitions are references, not models of source lines: they state
how a reader of the programs' output works, or how a library call behaves,
so that the contracts above can be stated against them.
- `Query.Lookup` (the first value stored under a key) and its four-pair
  unfolding `Query.Lookup4`: the form and query reader used by
  `Strava.ReadBuildAuthUrl`, `Strava.RefreshForm`,
  `MadyMyStrava.ExchangePayload`, `MadyMyStrava.RefreshPayload`,
  `MadyMyStrava.ExchangeFormFields` and `MadyMyStrava.RefreshFormFields`.
- `Strava.ReadAuthUrl` and `MadyMyStrava.ReadAuthUrl`: what an
  authorization server reads from an authorization URL.
- `MadyMyStrava.ParseQs`, `MadyMyStrava.DecodePairs` and
  `MadyMyStrava.ReadForm`: a strict query reader, `parse_qsl` with
  `keep_blank_values=True` on well-formed input.
- `PercentEncoding.DecodeComponent`, `PercentEncoding.UnquotePlus` and
  `Utf8.Decode`: the strict decoders the encoders are proved against.
- `MadyMyStrava.Get`: `dict.get(key, default)`, used by the script at
  `src/madymystrava/main.py` lines 91 and 98 and stated through
  `MadyMyStrava.TokenField` and `MadyMyStrava.RunScript`.

## Left out

- HTTP transport (reqwest, `requests`, the mock server): each reply is an input value, or a function from request to reply.
- JSON decoding (`serde_json`, `response.json()`): the Rust decoder is a function parameter. Python replies are given already decoded. A Python reply that is not JSON, not an object, or an activity without `id`, `name` or `type`, would raise an exception in the script; exceptions are not modelled.
- `Url::parse`: a predicate parameter.
- The byte-level form serialisation inside reqwest: the Rust form is the list of pairs. The Python form body is modelled as `urlencode` of the payload.
- `dotenv`, `set_key`, `input()`, `print`/`println!` and `Debug` formatting. The environment is a map, the typed code is a parameter, and the saved token and printed URL are effects. Other printed messages are not modelled.
- `env::var` on a value that is not valid Unicode is treated as unset, because strings in the model are sequences of characters.
- The clock: the cut-off `after` of the activity listing is a parameter. `datetime.now() - timedelta(days=1)` and its float timestamp are not modelled.
- The status of the rename request: `update_activity_name` only prints it, so the model records the request.
- `PercentEncoding.UnquotePlus`: a strict decoder. It rejects text `unquote_plus` would pass through leniently (a stray `%`, reserved characters). It is used only to state round trips.
- Panics and `exit(1)` are failure values and exit codes, not process termination.
