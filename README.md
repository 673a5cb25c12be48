# flask-api-auth: the custom HMAC request-signing scheme

This project models, in Dafny, the custom request-signing scheme of the
flask-api-auth demo API and the guard that protects its routes.

A client signs a request by building three things:

- a timestamp in the fixed form `YYYY-MM-DDTHH:MM:SSZ`;
- the credential string `public_key.timestamp.HMAC-SHA256`, sent as the
  `X-Credentials` header;
- the signing string `METHOD.path.timestamp`, with the method upper-cased.
  The hex HMAC-SHA256 (RFC 2104) of this string, keyed with the client's
  secret key, is sent as `X-Signature`.

The server's `custom_auth_required` decorator runs six checks in a fixed
order. The first check that fails decides the outcome:

1. both headers are present;
2. the credentials split on `.` into exactly three fields;
3. the public key has a stored, non-empty secret;
4. the timestamp parses;
5. the timestamp is fresh;
6. the recomputed digest equals the signature.

A failure ends the request with `abort(401)` or a 400 JSON error. When all
six checks pass, the client is authenticated and the view runs. The model
also covers the small helpers `search_book`, `json_response` and
`error_response`.

Files:

- `wrappers.dfy`: the `Option` type.
- `strings.dfy`: the text operations the scheme relies on. These are
  Python's `str.split` on one character, the matching join, and ASCII
  `str.upper`.
- `timestamps.dfy`: the date-time record and its validity; the fixed-format
  printer and parser; and the position of a date-time on Python's
  seconds scale (ordinal day and time of day).
- `custom_auth.dfy`: the client side, that is `sign`, the signing string
  and the credential string.
- `utils.dfy`: `search_book` (a loop over an array),
  `json_response`/`error_response`, and a header dictionary that can be
  updated in place.
- `custom_auth_guard.dfy`: the freshness test and the guard chain, as a
  pure function from the request, the client store, the clock reading and
  the keyed digest to an outcome.

The environment enters the model as parameters:

- The keyed digest is a function parameter `hmac: (key, message) -> hex`.
  Nothing is assumed of it, and no property depends on it being
  collision-free.
- The clock is `now`, in whole seconds since 0001-01-01T00:00:00 UTC. This
  is the scale on which Python subtracts `datetime`s, with the
  microseconds of `utcnow()` dropped.
- The `ApiClient` table is a map from public key to secret key.

Where the code and its prose description differ, the model follows the code:

- The headers are checked for presence only, not for a non-empty value.
- Empty credential fields pass the three-field test (`"a..b"` has three
  fields).
- The freshness test reads only the `seconds` part of the `timedelta`, so
  its whole days are dropped. A timestamp that is a whole number of days
  (plus under five minutes) old is fresh again. So is one that is 86101 to
  86400 seconds in the future.
- A stored secret that is empty counts as no client (401).

## Model

| member | source | states |
|---|---|---|
| Strings.Split | api/_02_custom_auth.py:51 | `credentials.split('.')`: one field more than there are separators, no field holds the separator, empty fields kept |
| Strings.JoinSplit | api/_02_custom_auth.py:51 | joining the fields of a split with the separator gives back the original text |
| Strings.SplitJoin | api/custom_auth.py:35 | fields free of the separator, joined by it, split back into exactly those fields |
| Strings.SplitThree | api/custom_auth.py:35 | three dot-free parts joined by two dots split into exactly those three parts |
| Strings.Upper | api/custom_auth.py:34 | `method.upper()` on ASCII: same length, no lower-case letter left, and every character other than a lower-case letter is kept |
| Strings.UpperIdempotent | api/custom_auth.py:34 | upper-casing an upper-cased method changes nothing |
| Timestamps.FormatDateTime | api/custom_auth.py:12-16 | `format_datetime_iso`: a valid date-time prints as twenty characters of the shape `DDDD-DD-DDTDD:DD:DDZ`, none of them a `.` |
| Timestamps.ParseDateTime | api/custom_auth.py:12-20 | `parse_datetime_iso`: a text that is not of the fixed shape (such as `INVALID`) is rejected; an accepted text gives a valid date-time that prints back as that same text |
| Timestamps.ParseFormat | api/custom_auth.py:15-20 | round trip: parsing the printed form of any valid date-time gives that date-time back |
| Timestamps.FormatInjective | api/custom_auth.py:15-16 | two different valid date-times never print the same text |
| Timestamps.FieldsOfFormat | api/custom_auth.py:15-16 | each printed field reads back as the number it prints |
| Timestamps.FormatFieldsOf | api/custom_auth.py:19-20 | a well-shaped text whose fields form a valid date-time is the printed form of that date-time |
| Timestamps.InstantOrder | api/_02_custom_auth.py:31 | the seconds scale on which `utcnow() - ts` is taken keeps calendar order: an earlier valid date-time has a strictly smaller instant |
| CustomAuth.SigningString | api/custom_auth.py:34 | the signing string is the upper-cased method, a dot, the path, a dot and the timestamp, at those positions (SigningStringUnambiguous shows the parts can be read back) |
| CustomAuth.CredentialString | api/custom_auth.py:35 | the credentials are the public key, the timestamp and `HMAC-SHA256` joined by dots; with a dot-free key and timestamp they split into exactly those three fields |
| CustomAuth.Sign | api/custom_auth.py:31-40 | `sign`: the credentials are the public key, the printed timestamp and `HMAC-SHA256`; for a dot-free public key they split into exactly those three fields |
| CustomAuth.CredentialFields | api/custom_auth.py:35 | a credential string built from dot-free parts splits back into exactly those parts |
| CustomAuth.DigestInputs | api/custom_auth.py:34-40 | the digest depends only on the secret, the method up to case, the path and the timestamp; the public key never affects it |
| CustomAuth.MethodCaseIgnored | api/custom_auth.py:34 | signing with `get` and with `GET` gives the same digest and credentials |
| CustomAuth.SigningStringUnambiguous | api/custom_auth.py:34 | for dot-free methods, equal signing strings mean the same upper-cased method, the same path and the same timestamp, even though paths may hold dots |
| Utils.FirstWithId | api/utils.py:7-10 | the result of the scan is "not found" exactly when every book has an id other than the one sought; a found book is in the list and has that id; a `KeyError` comes only from a book without an id |
| Utils.FoundIsFirst | api/utils.py:7-10 | a book with the id, preceded only by books with other ids, is the one returned |
| Utils.FoundHasPosition | api/utils.py:7-10 | a returned book sits at a position before which every book has another id |
| Utils.SearchBook | api/utils.py:7-10 | the loop with early return computes FirstWithId of the array, and it changes nothing (no `modifies`) |
| Utils.WithJsonContentType | api/utils.py:15-17 | `Content-Type` is added as `application/json` when absent; an existing one is kept; every other header keeps its value and no other key is added |
| Utils.JsonResponse | api/utils.py:13-19 | a missing data gives body `{}`; status defaults to 200; the headers are the defaulted ones; a non-empty dictionary passed in is updated in place and an empty one is left alone |
| Utils.ErrorResponse | api/utils.py:22-23 | `error_response` is `json_response({'error': error}, status, headers)` with status 400 by default |
| Utils.ErrorReply | api/utils.py:22-23 | the body's only key is `error`, holding the message; the status is the one given; `Content-Type` is there and is JSON unless the caller set it |
| CustomAuthGuard.Elapsed | api/_02_custom_auth.py:31 | the `timedelta` of a difference in seconds: the days and seconds add back to the difference, and the seconds lie within one day |
| CustomAuthGuard.FindClientSecret | api/_02_custom_auth.py:20-27 | `find_client_secret`: no secret exactly when no client has the public key, and otherwise the secret stored for it |
| CustomAuthGuard.IsTimestampFresh | api/_02_custom_auth.py:30-32 | `is_timestamp_fresh`: `(utcnow() - ts).seconds / 60 < 5` holds exactly when the age of the timestamp, modulo one day, is under 300 seconds (its edges in FreshnessWindow, its period in FreshnessRepeatsDaily) |
| CustomAuthGuard.FreshnessWindow | api/_02_custom_auth.py:30-32 | 0 to 299 seconds old is fresh; 300 seconds up to a day old is stale; 1 to 86100 seconds in the future is stale |
| CustomAuthGuard.FreshnessRepeatsDaily | api/_02_custom_auth.py:30-32 | the verdict repeats every whole day, so signed headers can be replayed a whole number of days later |
| CustomAuthGuard.CustomAuthRequired | api/_02_custom_auth.py:37-84 | the guard chain: aborts are always 401; responses are always 400 with a body holding only `error`, one of the three messages; a request is authenticated only for a stored client with a non-empty secret |
| CustomAuthGuard.AuthenticatedExactly | api/_02_custom_auth.py:37-84 | a request is authenticated for `pk` if and only if both headers are present, the credentials have three fields with `pk` first, `pk` has a non-empty secret, the timestamp parses and is fresh, and the signature is the digest of the method, path and timestamp text |
| CustomAuthGuard.MissingHeaderUnauthorized | api/_02_custom_auth.py:42-43 | without either header the outcome is 401, whatever else is sent |
| CustomAuthGuard.WrongFormatExactly | api/_02_custom_auth.py:50-53 | with both headers present, the outcome is 400 "Wrong Format for Credentials" if and only if the credentials do not hold exactly two dots |
| CustomAuthGuard.UnknownClientUnauthorized | api/_02_custom_auth.py:56-58 | an unknown public key, or one with an empty secret, gives 401 before the timestamp is looked at |
| CustomAuthGuard.InvalidTimestampRejected | api/_02_custom_auth.py:61-64 | a stored client whose timestamp field does not parse gets 400 "Invalid Timestamp" |
| CustomAuthGuard.StaleTimestampRejected | api/_02_custom_auth.py:67-70 | a stored client with a parsed but stale timestamp gets 400 "Timestamp Expired. Valid for 5 minutes", whatever the signature |
| CustomAuthGuard.SignatureMismatchUnauthorized | api/_02_custom_auth.py:73-78 | when every earlier check passes, a signature other than the recomputed digest gives 401 |
| CustomAuthGuard.AlgorithmFieldIgnored | api/_02_custom_auth.py:51-74 | changing only the algorithm field of the credentials never changes the outcome |
| CustomAuthGuard.SignedRequestAuthenticated | api/_02_custom_auth.py:73-84 | round trip: headers made by `sign` for a dot-free public key, stored with that non-empty secret and sent with the same method and path while fresh, authenticate that key, whatever other headers are sent |
| CustomAuthGuard.ReplayAfterTenMinutesExpired | api/_02_custom_auth.py:67-70 | the same signed headers sent ten minutes after signing get 400 "Timestamp Expired" |
| CustomAuthGuard.TamperedSignatureUnauthorized | api/_02_custom_auth.py:76-78 | signed headers whose signature is replaced by any other text (for example a digest under a spoofed secret) get 401 |
| CustomAuthGuard.InvalidTimestampField | api/_02_custom_auth.py:56-64 | credentials `pk.INVALID.HMAC-SHA256` give 400 "Invalid Timestamp" for a stored client and 401 for an unknown one |
| CustomAuthGuard.TwoFieldCredentialsRejected | api/_02_custom_auth.py:50-53 | credentials cut down to `pk.timestamp` give 400 "Wrong Format for Credentials" |

## Left out

- The HMAC-SHA256 computation and the UTF-8 encoding of its inputs
  (api/custom_auth.py:27-28,37-40) are a function parameter. No
  collision-freedom is claimed.
- The wall clock is left out: `get_current_timestamp`, the `utcnow()`
  fallback of `sign` and the `utcnow()` in `is_timestamp_fresh`. `sign`
  takes its timestamp as an argument, and the guard takes `now` in whole
  seconds. Microseconds are not modelled.
- SQLite is replaced by a map from public key to secret. This covers the
  connection opened before each request and the query in
  `find_client_secret`. A NULL secret in the table is not represented.
- Flask's `request`, `g`, route registration, the 404 handler,
  `make_response` and `json.dumps` are framework plumbing. `abort(401)`
  is modelled as the status alone, without Flask's HTML error page.
  Writing `g.public_key` and running the view are both represented by the
  `Authenticated` outcome.
- Werkzeug's header lookup is case-insensitive and may hold repeated
  headers. Here the headers are a map with exact keys.
- Timestamps.ParseDateTime: accepts only the canonical twenty-character
  form. `strptime` with `%Y-%m-%dT%H:%M:%SZ` accepts more. It takes
  single-digit month, day, hour, minute and second fields
  (`2017-5-14T17:54:16Z`), a space-padded day (`2017-05- 5T...`), a
  lower-case `t` or `z`, and non-ASCII decimal digits. All of these are
  rejected here rather than parsed. What still holds for `strptime`: the
  round trip from a printed date-time (ParseFormat) and the rejection of
  texts such as `INVALID`. The postcondition that any text that is not of
  the fixed shape is rejected is stricter than `strptime`.
- CustomAuthGuard.CustomAuthRequired / AuthenticatedExactly /
  InvalidTimestampRejected: because of the stricter parser, a
  non-canonical timestamp field gets a different outcome. Take
  credentials `pk.2017-5-14T17:54:16Z.HMAC-SHA256` for a stored client.
  The program parses the field, checks freshness, and re-signs over the
  canonical text `2017-05-14T17:54:16Z`. So it authenticates a
  fresh request whose signature covers that canonical text, or answers
  "Timestamp Expired" or 401. The model answers 400 "Invalid Timestamp".
  AuthenticatedExactly's condition, a signature over the very text of the
  timestamp field, describes the program only for canonical timestamp
  fields.
- Timestamps.FormatDateTime: always prints a four-digit year. Some C
  libraries print years below 1000 without zero padding.
- Strings.Upper: upper-cases ASCII letters only. Python's `str.upper` also
  maps non-ASCII letters.
- Response bodies are maps from strings to strings. This is the only kind
  of body this API sends.
- api/_01_basic_auth.py and api/_03_jwt_auth.py, the other two
  authentication schemes, are not part of this model. Their logic is
  Flask's and PyJWT's.
- generate_signature.py (a command-line wrapper around `sign`) and
  run_app.py (process start-up) are not part of this model.
