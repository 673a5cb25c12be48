/** The server side of the request-signing scheme: the `custom_auth_required`
    guard that protects a route. It reads the `X-Signature` and
    `X-Credentials` headers, splits the credentials, looks up the client's
    secret, parses and ages the timestamp, re-signs the request and compares
    digests, in that fixed order; the first check that fails decides the
    outcome. The guard is a function of the request, the client store, the
    clock reading and the keyed digest. */
module CustomAuthGuard {
  import opened Wrappers
  import opened Strings
  import opened Timestamps
  import opened CustomAuth
  import opened Utils

  const MAX_TIMESTAMP_DELTA_IN_MINUTES := 5
  const SECONDS_PER_DAY := 86400

  const X_SIGNATURE := "X-Signature"
  const X_CREDENTIALS := "X-Credentials"

  const WRONG_FORMAT := "Wrong Format for Credentials"
  const INVALID_TIMESTAMP := "Invalid Timestamp"
  /** `'Timestamp Expired. Valid for {} minutes'.format(MAX_TIMESTAMP_DELTA_IN_MINUTES)`. */
  const TIMESTAMP_EXPIRED := "Timestamp Expired. Valid for " + [DigitChar(MAX_TIMESTAMP_DELTA_IN_MINUTES)] + " minutes"

  /** What the guard reads of a Flask request: `request.method`,
      `request.path` and `request.headers`. */
  datatype Request = Request(httpMethod: string, path: string, headers: map<string, string>)

  /** How the guard ends: it sets `g.public_key` and runs the view
      (`Authenticated`), it calls `abort(status)`, or it returns an
      `error_response`. */
  datatype Outcome = Authenticated(publicKey: string) | Abort(status: int) | Respond(response: Response)

  /** `find_client_secret(public_key)` over the `ApiClient` table, here a
      map from public key to secret key: `None` when no row matches, and
      otherwise the secret stored for that key. */
  function FindClientSecret(store: map<string, string>, publicKey: string): (secret: Option<string>)
    ensures secret.None? <==> publicKey !in store
    ensures secret.Some? ==> store[publicKey] == secret.value
  {
    if publicKey in store then Some(store[publicKey]) else None
  }

  // ----- Freshness -----

  /** A `timedelta` with its microseconds at zero, in Python's normal form. */
  datatype Timedelta = Timedelta(days: int, seconds: int)

  /** The `timedelta` of `delta` seconds: the days may be negative, the
      seconds field always lies in a single day. */
  function Elapsed(delta: int): (td: Timedelta)
    ensures td.days * SECONDS_PER_DAY + td.seconds == delta
    ensures 0 <= td.seconds < SECONDS_PER_DAY
  {
    Timedelta(delta / SECONDS_PER_DAY, delta % SECONDS_PER_DAY)
  }

  /** `is_timestamp_fresh(ts)`: `(utcnow() - ts).seconds / 60 < 5`, with
      `now` the clock reading in whole seconds on the scale of InstantOf.
      Only the `seconds` field of the difference is looked at; its `days`
      are not. In whole seconds: the age of the timestamp, taken modulo one
      day, is under five minutes. */
  function IsTimestampFresh(ts: DateTime, now: int): (isFresh: bool)
    requires ts.Valid()
    ensures isFresh <==> (now - InstantOf(ts)) % SECONDS_PER_DAY < MAX_TIMESTAMP_DELTA_IN_MINUTES * 60
  {
    (Elapsed(now - InstantOf(ts)).seconds as real) / 60.0 < MAX_TIMESTAMP_DELTA_IN_MINUTES as real
  }

  /** The window at its edges: up to 299 seconds old is fresh, from
      300 seconds old up to a day old is stale, and from 1 second up to
      86100 seconds in the future is stale. */
  lemma FreshnessWindow(ts: DateTime, now: int)
    requires ts.Valid()
    ensures 0 <= now - InstantOf(ts) < 300 ==> IsTimestampFresh(ts, now)
    ensures 300 <= now - InstantOf(ts) < SECONDS_PER_DAY ==> !IsTimestampFresh(ts, now)
    ensures -86100 <= now - InstantOf(ts) < 0 ==> !IsTimestampFresh(ts, now)
  {
  }

  /** Because the days of the difference are dropped, the verdict repeats
      every day: a timestamp that is fresh now is fresh again exactly
      `days` days later (or earlier). A request can be replayed a whole
      number of days after it was signed, and one signed 86101 to 86400
      seconds ahead of the server clock is accepted. */
  lemma {:induction false} FreshnessRepeatsDaily(ts: DateTime, now: int, days: int)
    requires ts.Valid()
    ensures IsTimestampFresh(ts, now + days * SECONDS_PER_DAY) == IsTimestampFresh(ts, now)
    decreases if days < 0 then -days else days
  {
    if days > 0 {
      FreshnessRepeatsDaily(ts, now, days - 1);
      OneDayLater(now - InstantOf(ts) + (days - 1) * SECONDS_PER_DAY);
      assert now + days * SECONDS_PER_DAY - InstantOf(ts) == now - InstantOf(ts) + (days - 1) * SECONDS_PER_DAY + SECONDS_PER_DAY;
    } else if days < 0 {
      FreshnessRepeatsDaily(ts, now, days + 1);
      OneDayLater(now - InstantOf(ts) + days * SECONDS_PER_DAY);
      assert now + (days + 1) * SECONDS_PER_DAY - InstantOf(ts) == now - InstantOf(ts) + days * SECONDS_PER_DAY + SECONDS_PER_DAY;
    }
  }

  /** A day more between the two instants leaves the `seconds` field alone. */
  lemma OneDayLater(delta: int)
    ensures Elapsed(delta + SECONDS_PER_DAY).seconds == Elapsed(delta).seconds
  {
  }

  // ----- The guard -----

  /** `custom_auth_required(f)` applied to a request. Aborts are always 401
      and responses always 400 with one of the three error messages; a
      request is authenticated only for a registered client whose secret is
      not empty. */
  function CustomAuthRequired(request: Request, store: map<string, string>, now: int, hmac: Mac): (o: Outcome)
    ensures o.Abort? ==> o.status == 401
    ensures o.Respond? ==> o.response.status == 400 && o.response.body.Keys == {"error"}
    ensures o.Respond? ==> o.response.body["error"] in {WRONG_FORMAT, INVALID_TIMESTAMP, TIMESTAMP_EXPIRED}
    ensures o.Authenticated? ==> o.publicKey in store && store[o.publicKey] != ""
  {
    if X_SIGNATURE !in request.headers || X_CREDENTIALS !in request.headers then Abort(401)
    else
      var signature := request.headers[X_SIGNATURE];
      var fields := Split(request.headers[X_CREDENTIALS], '.');
      if |fields| != 3 then Respond(ErrorReply(WRONG_FORMAT))
      else
        var publicKey, ts := fields[0], fields[1];
        var secretKey := FindClientSecret(store, publicKey);
        if secretKey.None? || secretKey.value == "" then Abort(401)
        else
          match ParseDateTime(ts)
          case None => Respond(ErrorReply(INVALID_TIMESTAMP))
          case Some(timestamp) =>
            if !IsTimestampFresh(timestamp, now) then Respond(ErrorReply(TIMESTAMP_EXPIRED))
            else
              var (digest, _) := Sign(hmac, timestamp, publicKey, secretKey.value, request.httpMethod, request.path);
              if digest != signature then Abort(401) else Authenticated(publicKey)
  }

  /** When a request is accepted for `publicKey`, stated without the order
      of the checks: both headers are there, the credentials have exactly
      three dot-separated fields, the first being `publicKey`, which has a
      non-empty secret; the second is a timestamp that parses and is fresh;
      and the signature is the digest, under that secret, of the request's
      method, path and that same timestamp text. The third field is never
      looked at. */
  predicate Accepts(request: Request, store: map<string, string>, now: int, hmac: Mac, publicKey: string)
  {
    && X_SIGNATURE in request.headers
    && X_CREDENTIALS in request.headers
    && var fields := Split(request.headers[X_CREDENTIALS], '.');
    && |fields| == 3
    && fields[0] == publicKey
    && publicKey in store && store[publicKey] != ""
    && ParseDateTime(fields[1]).Some?
    && IsTimestampFresh(ParseDateTime(fields[1]).value, now)
    && request.headers[X_SIGNATURE] == hmac(store[publicKey], SigningString(request.httpMethod, request.path, fields[1]))
  }

  /** The guard authenticates exactly the requests Accepts describes. */
  lemma AuthenticatedExactly(request: Request, store: map<string, string>, now: int, hmac: Mac, publicKey: string)
    ensures CustomAuthRequired(request, store, now, hmac) == Authenticated(publicKey)
        <==> Accepts(request, store, now, hmac, publicKey)
  {
    if X_SIGNATURE in request.headers && X_CREDENTIALS in request.headers {
      var fields := Split(request.headers[X_CREDENTIALS], '.');
      if |fields| == 3 && ParseDateTime(fields[1]).Some? {
        var timestamp := ParseDateTime(fields[1]).value;
        assert FormatDateTime(timestamp) == fields[1];
      }
    }
  }

  /** Without either header the guard aborts with 401, whatever else the
      request carries. */
  lemma MissingHeaderUnauthorized(request: Request, store: map<string, string>, now: int, hmac: Mac)
    requires X_SIGNATURE !in request.headers || X_CREDENTIALS !in request.headers
    ensures CustomAuthRequired(request, store, now, hmac) == Abort(401)
  {
  }

  /** With both headers there, the guard answers 400 "Wrong Format for
      Credentials" exactly when the credentials do not hold exactly two
      dots (three fields, empty ones allowed). */
  lemma WrongFormatExactly(request: Request, store: map<string, string>, now: int, hmac: Mac)
    requires X_SIGNATURE in request.headers && X_CREDENTIALS in request.headers
    ensures CustomAuthRequired(request, store, now, hmac) == Respond(ErrorReply(WRONG_FORMAT))
        <==> Occurrences(request.headers[X_CREDENTIALS], '.') != 2
  {
    var o := CustomAuthRequired(request, store, now, hmac);
    if o.Respond? {
      assert o.response.body["error"] in {WRONG_FORMAT, INVALID_TIMESTAMP, TIMESTAMP_EXPIRED};
      if o.response.body["error"] != WRONG_FORMAT {
        assert o.response.body != ErrorReply(WRONG_FORMAT).body;
      }
    }
  }

  /** A public key with no client, or with an empty secret, is refused with
      401 before the timestamp is read: a malformed or stale timestamp does
      not change that. */
  lemma UnknownClientUnauthorized(request: Request, store: map<string, string>, now: int, hmac: Mac)
    requires X_SIGNATURE in request.headers && X_CREDENTIALS in request.headers
    requires |Split(request.headers[X_CREDENTIALS], '.')| == 3
    requires var publicKey := Split(request.headers[X_CREDENTIALS], '.')[0];
      publicKey !in store || store[publicKey] == ""
    ensures CustomAuthRequired(request, store, now, hmac) == Abort(401)
  {
  }

  /** A registered client whose timestamp field does not parse gets 400
      "Invalid Timestamp". */
  lemma InvalidTimestampRejected(request: Request, store: map<string, string>, now: int, hmac: Mac)
    requires X_SIGNATURE in request.headers && X_CREDENTIALS in request.headers
    requires var fields := Split(request.headers[X_CREDENTIALS], '.');
      |fields| == 3 && fields[0] in store && store[fields[0]] != "" && ParseDateTime(fields[1]).None?
    ensures CustomAuthRequired(request, store, now, hmac) == Respond(ErrorReply(INVALID_TIMESTAMP))
  {
  }

  /** A registered client with a well-formed but stale timestamp gets 400
      "Timestamp Expired. Valid for 5 minutes", whatever the signature. */
  lemma StaleTimestampRejected(request: Request, store: map<string, string>, now: int, hmac: Mac)
    requires X_SIGNATURE in request.headers && X_CREDENTIALS in request.headers
    requires var fields := Split(request.headers[X_CREDENTIALS], '.');
      && |fields| == 3 && fields[0] in store && store[fields[0]] != ""
      && ParseDateTime(fields[1]).Some? && !IsTimestampFresh(ParseDateTime(fields[1]).value, now)
    ensures CustomAuthRequired(request, store, now, hmac) == Respond(ErrorReply(TIMESTAMP_EXPIRED))
    ensures TIMESTAMP_EXPIRED == "Timestamp Expired. Valid for 5 minutes"
  {
  }

  /** Once every other check has passed, a signature other than the digest
      of the request's method, path and timestamp text is refused with 401. */
  lemma SignatureMismatchUnauthorized(request: Request, store: map<string, string>, now: int, hmac: Mac)
    requires X_SIGNATURE in request.headers && X_CREDENTIALS in request.headers
    requires var fields := Split(request.headers[X_CREDENTIALS], '.');
      && |fields| == 3 && fields[0] in store && store[fields[0]] != ""
      && ParseDateTime(fields[1]).Some? && IsTimestampFresh(ParseDateTime(fields[1]).value, now)
      && request.headers[X_SIGNATURE] != hmac(store[fields[0]], SigningString(request.httpMethod, request.path, fields[1]))
    ensures CustomAuthRequired(request, store, now, hmac) == Abort(401)
  {
    var fields := Split(request.headers[X_CREDENTIALS], '.');
    assert FormatDateTime(ParseDateTime(fields[1]).value) == fields[1];
  }

  /** The algorithm field of the credentials is never inspected: changing
      it alone never changes the outcome. */
  lemma AlgorithmFieldIgnored(request: Request, store: map<string, string>, now: int, hmac: Mac,
                              publicKey: string, ts: string, alg1: string, alg2: string)
    requires '.' !in publicKey && '.' !in ts && '.' !in alg1 && '.' !in alg2
    ensures
      var with1 := request.(headers := request.headers[X_CREDENTIALS := publicKey + "." + ts + "." + alg1]);
      var with2 := request.(headers := request.headers[X_CREDENTIALS := publicKey + "." + ts + "." + alg2]);
      CustomAuthRequired(with1, store, now, hmac) == CustomAuthRequired(with2, store, now, hmac)
  {
    CredentialFields(publicKey, ts, alg1);
    CredentialFields(publicKey, ts, alg2);
  }

  /** The round trip of the scheme: headers made by `sign` for a dot-free
      public key registered with that (non-empty) secret, sent with the same
      method and path while the timestamp is fresh, authenticate the client,
      whatever other headers the request carries. */
  lemma SignedRequestAuthenticated(hmac: Mac, store: map<string, string>, now: int, timestamp: DateTime,
                                   publicKey: string, secretKey: string, httpMethod: string, path: string,
                                   otherHeaders: map<string, string>)
    requires timestamp.Valid() && IsTimestampFresh(timestamp, now)
    requires '.' !in publicKey
    requires publicKey in store && store[publicKey] == secretKey && secretKey != ""
    ensures
      var (signature, credentials) := Sign(hmac, timestamp, publicKey, secretKey, httpMethod, path);
      var headers := otherHeaders[X_SIGNATURE := signature][X_CREDENTIALS := credentials];
      CustomAuthRequired(Request(httpMethod, path, headers), store, now, hmac) == Authenticated(publicKey)
  {
    ParseFormat(timestamp);
  }

  /** The same signed headers sent ten minutes later are refused as
      expired. */
  lemma ReplayAfterTenMinutesExpired(hmac: Mac, store: map<string, string>, timestamp: DateTime,
                                     publicKey: string, secretKey: string, httpMethod: string, path: string)
    requires timestamp.Valid()
    requires '.' !in publicKey
    requires publicKey in store && store[publicKey] == secretKey && secretKey != ""
    ensures
      var (signature, credentials) := Sign(hmac, timestamp, publicKey, secretKey, httpMethod, path);
      var request := Request(httpMethod, path, map[X_SIGNATURE := signature, X_CREDENTIALS := credentials]);
      CustomAuthRequired(request, store, InstantOf(timestamp) + 600, hmac) == Respond(ErrorReply(TIMESTAMP_EXPIRED))
  {
    var (signature, credentials) := Sign(hmac, timestamp, publicKey, secretKey, httpMethod, path);
    var request := Request(httpMethod, path, map[X_SIGNATURE := signature, X_CREDENTIALS := credentials]);
    ParseFormat(timestamp);
    FreshnessWindow(timestamp, InstantOf(timestamp) + 600);
    StaleTimestampRejected(request, store, InstantOf(timestamp) + 600, hmac);
  }

  /** Signed headers whose signature was replaced by any other text are
      refused with 401 (a flipped character, or a digest made with a
      spoofed secret key). */
  lemma TamperedSignatureUnauthorized(hmac: Mac, store: map<string, string>, now: int, timestamp: DateTime,
                                      publicKey: string, secretKey: string, httpMethod: string, path: string,
                                      forged: string)
    requires timestamp.Valid() && IsTimestampFresh(timestamp, now)
    requires '.' !in publicKey
    requires publicKey in store && store[publicKey] == secretKey && secretKey != ""
    requires forged != Sign(hmac, timestamp, publicKey, secretKey, httpMethod, path).0
    ensures
      var credentials := Sign(hmac, timestamp, publicKey, secretKey, httpMethod, path).1;
      var request := Request(httpMethod, path, map[X_SIGNATURE := forged, X_CREDENTIALS := credentials]);
      CustomAuthRequired(request, store, now, hmac) == Abort(401)
  {
    ParseFormat(timestamp);
  }

  /** Credentials built by `sign` with the timestamp field replaced by
      `INVALID` are refused with 400 "Invalid Timestamp" for a registered
      client, and with 401 for an unknown one. */
  lemma InvalidTimestampField(hmac: Mac, store: map<string, string>, now: int, timestamp: DateTime,
                              publicKey: string, secretKey: string, httpMethod: string, path: string)
    requires timestamp.Valid()
    requires '.' !in publicKey
    ensures
      var signature := Sign(hmac, timestamp, publicKey, secretKey, httpMethod, path).0;
      var request := Request(httpMethod, path, map[X_SIGNATURE := signature, X_CREDENTIALS := publicKey + ".INVALID." + ALGORITHM]);
      CustomAuthRequired(request, store, now, hmac)
        == if publicKey in store && store[publicKey] != "" then Respond(ErrorReply(INVALID_TIMESTAMP)) else Abort(401)
  {
    var signature := Sign(hmac, timestamp, publicKey, secretKey, httpMethod, path).0;
    var credentials := publicKey + ".INVALID." + ALGORITHM;
    var request := Request(httpMethod, path, map[X_SIGNATURE := signature, X_CREDENTIALS := credentials]);
    assert credentials == publicKey + "." + "INVALID" + "." + ALGORITHM;
    CredentialFields(publicKey, "INVALID", ALGORITHM);
    assert request.headers[X_CREDENTIALS] == credentials;
    if publicKey in store && store[publicKey] != "" {
      assert ParseDateTime("INVALID").None?;
      InvalidTimestampRejected(request, store, now, hmac);
    } else {
      UnknownClientUnauthorized(request, store, now, hmac);
    }
  }

  /** Credentials cut down to `public_key.timestamp` are refused with 400
      "Wrong Format for Credentials". */
  lemma TwoFieldCredentialsRejected(hmac: Mac, store: map<string, string>, now: int, timestamp: DateTime,
                                    publicKey: string, secretKey: string, httpMethod: string, path: string)
    requires timestamp.Valid()
    requires '.' !in publicKey
    ensures
      var signature := Sign(hmac, timestamp, publicKey, secretKey, httpMethod, path).0;
      var request := Request(httpMethod, path, map[X_SIGNATURE := signature, X_CREDENTIALS := publicKey + "." + FormatDateTime(timestamp)]);
      CustomAuthRequired(request, store, now, hmac) == Respond(ErrorReply(WRONG_FORMAT))
  {
    var ts := FormatDateTime(timestamp);
    SplitJoin([publicKey, ts], '.');
    assert Join([publicKey, ts], '.') == publicKey + "." + ts by {
      assert [publicKey, ts][1..] == [ts];
    }
  }
}
