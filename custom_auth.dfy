/** The client side of the request-signing scheme: the credential string
    `public_key.timestamp.HMAC-SHA256` sent as `X-Credentials`, and the
    signature sent as `X-Signature`, the hex HMAC (RFC 2104) over SHA-256
    keyed with the secret key, of the signing string `METHOD.path.timestamp`. */
module CustomAuth {
  import opened Strings
  import opened Timestamps

  /** The algorithm tag that closes every credential string. */
  const ALGORITHM := "HMAC-SHA256"

  /** The keyed digest: `hmac.new(key, msg, sha256).hexdigest()` of the
      UTF-8 encodings of its two arguments. It is a parameter of the model:
      nothing is assumed of it beyond being a function. */
  type Mac = (string, string) -> string

  /** The text that is signed, `"{}.{}.{}".format(method.upper(), path, ts)`:
      the upper-cased method, a dot, the path, a dot and the timestamp. */
  function SigningString(httpMethod: string, path: string, ts: string): (s: string)
    ensures |s| == |httpMethod| + |path| + |ts| + 2
    ensures s[..|httpMethod|] == Upper(httpMethod) && s[|httpMethod|] == '.'
    ensures s[|httpMethod| + 1..|httpMethod| + 1 + |path|] == path
    ensures s[|s| - |ts| - 1] == '.' && s[|s| - |ts|..] == ts
  {
    Upper(httpMethod) + "." + path + "." + ts
  }

  /** The `X-Credentials` value, `"{}.{}.{}".format(public_key, ts, ALGORITHM)`:
      when the public key and the timestamp hold no `.`, it splits on `.`
      into exactly the public key, the timestamp and the algorithm tag. */
  function CredentialString(publicKey: string, ts: string): (c: string)
    ensures |c| == |publicKey| + |ts| + |ALGORITHM| + 2
    ensures '.' !in publicKey && '.' !in ts ==> Split(c, '.') == [publicKey, ts, ALGORITHM]
  {
    var c := publicKey + "." + ts + "." + ALGORITHM;
    assert '.' !in publicKey && '.' !in ts ==> Split(c, '.') == [publicKey, ts, ALGORITHM] by {
      if '.' !in publicKey && '.' !in ts {
        CredentialFields(publicKey, ts, ALGORITHM);
      }
    }
    c
  }

  /** `sign(public_key, secret_key, method, path, timestamp)`: the pair
      (digest, credentials). The clock reading that the source takes when
      no timestamp is given is passed in as `timestamp`. When the public key
      has no `.`, the credentials split on `.` into exactly the public key,
      the formatted timestamp and the algorithm tag. */
  function Sign(hmac: Mac, timestamp: DateTime, publicKey: string, secretKey: string,
                httpMethod: string := "GET", path: string := "/"): (r: (string, string))
    requires timestamp.Valid()
    ensures |r.1| == |publicKey| + 33
    ensures '.' !in publicKey ==> Split(r.1, '.') == [publicKey, FormatDateTime(timestamp), ALGORITHM]
  {
    var ts := FormatDateTime(timestamp);
    var credentials := CredentialString(publicKey, ts);
    (hmac(secretKey, SigningString(httpMethod, path, ts)), credentials)
  }

  /** A credential string built from dot-free parts splits back into them. */
  lemma CredentialFields(publicKey: string, ts: string, algorithm: string)
    requires '.' !in publicKey && '.' !in ts && '.' !in algorithm
    ensures Split(publicKey + "." + ts + "." + algorithm, '.') == [publicKey, ts, algorithm]
  {
    SplitThree(publicKey, ts, algorithm, '.');
  }

  /** The digest depends on the secret key, the method up to case, the path
      and the timestamp, and on nothing else: the public key never enters it. */
  lemma DigestInputs(hmac: Mac, timestamp: DateTime, pk1: string, pk2: string,
                     secretKey: string, m1: string, m2: string, path: string)
    requires timestamp.Valid()
    requires Upper(m1) == Upper(m2)
    ensures Sign(hmac, timestamp, pk1, secretKey, m1, path).0 == Sign(hmac, timestamp, pk2, secretKey, m2, path).0
  {
  }

  /** Signing with the method `get` gives the digest of `GET`. */
  lemma MethodCaseIgnored(hmac: Mac, timestamp: DateTime, publicKey: string, secretKey: string, path: string)
    requires timestamp.Valid()
    ensures Sign(hmac, timestamp, publicKey, secretKey, "get", path) == Sign(hmac, timestamp, publicKey, secretKey, "GET", path)
  {
    var lower, upper := Upper("get"), Upper("GET");
    assert lower[0] == 'G' && lower[1] == 'E' && lower[2] == 'T';
    assert upper[0] == 'G' && upper[1] == 'E' && upper[2] == 'T';
    assert lower == upper;
  }

  /** The signing string is not ambiguous: although the path may hold dots,
      a signing string over a dot-free method fixes the upper-cased method,
      the path and the timestamp, because the timestamp text has a fixed
      width. So two requests that differ in any of these are signed over
      different texts. */
  lemma SigningStringUnambiguous(m1: string, p1: string, t1: DateTime, m2: string, p2: string, t2: DateTime)
    requires t1.Valid() && t2.Valid()
    requires '.' !in m1 && '.' !in m2
    requires SigningString(m1, p1, FormatDateTime(t1)) == SigningString(m2, p2, FormatDateTime(t2))
    ensures Upper(m1) == Upper(m2) && p1 == p2 && t1 == t2
  {
    var f1, f2 := FormatDateTime(t1), FormatDateTime(t2);
    DotFreeUpper(m1);
    DotFreeUpper(m2);
    SigningFields(Upper(m1), p1, f1, Upper(m2), p2, f2);
    FormatInjective(t1, t2);
  }

  /** `u.p.f` with a dot-free `u` and an `f` of known length determines
      all three parts. */
  lemma SigningFields(u1: string, p1: string, f1: string, u2: string, p2: string, f2: string)
    requires '.' !in u1 && '.' !in u2 && |f1| == |f2|
    requires u1 + "." + p1 + "." + f1 == u2 + "." + p2 + "." + f2
    ensures u1 == u2 && p1 == p2 && f1 == f2
  {
    var head1, head2 := u1 + ("." + (p1 + ".")), u2 + ("." + (p2 + "."));
    assert u1 + "." + p1 + "." + f1 == head1 + f1;
    assert u2 + "." + p2 + "." + f2 == head2 + f2;
    EqualSuffixes(head1, f1, head2, f2);
    FirstDot(u1, p1 + ".", u2, p2 + ".");
    EqualSuffixes(p1, ".", p2, ".");
  }

  /** Two splittings of one text with suffixes of the same length agree. */
  lemma EqualSuffixes(a1: string, b1: string, a2: string, b2: string)
    requires a1 + b1 == a2 + b2 && |b1| == |b2|
    ensures a1 == a2 && b1 == b2
  {
    var s := a1 + b1;
    assert a1 == s[..|a1|] && a2 == s[..|a2|];
    assert b1 == s[|a1|..] && b2 == s[|a2|..];
  }

  /** Upper-casing does not create a dot. */
  lemma DotFreeUpper(m: string)
    requires '.' !in m
    ensures '.' !in Upper(m)
  {
    var u := Upper(m);
    forall i | 0 <= i < |u| ensures u[i] != '.' {
      assert u[i] == UpperChar(m[i]);
      assert m[i] != '.';
    }
  }

  /** A dot-free prefix ends at the first dot, so it is determined. */
  lemma FirstDot(a1: string, b1: string, a2: string, b2: string)
    requires '.' !in a1 && '.' !in a2
    requires a1 + ("." + b1) == a2 + ("." + b2)
    ensures a1 == a2 && b1 == b2
  {
    var s := a1 + ("." + b1);
    assert s[|a1|] == '.' && s[|a2|] == '.';
    assert forall i :: 0 <= i < |a1| ==> s[i] == a1[i] != '.';
    assert forall i :: 0 <= i < |a2| ==> s[i] == a2[i] != '.';
    assert a1 == s[..|a1|] == a2;
    assert "." + b1 == s[|a1|..] == "." + b2;
    assert b1 == ("." + b1)[1..];
    assert b2 == ("." + b2)[1..];
  }
}
