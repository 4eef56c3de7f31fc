/** cmd/goauth: prints the repository URL of one location and an HTTP Basic
    `Authorization` header for it. A Go string is a sequence of bytes, so the
    user name and password of the header are modelled as bytes; the token and
    the encoded key come from the credential helpers and are inputs here. */
module GoAuth {
  import opened Results
  import opened Text
  import opened HostPatterns
  import opened Base64

  const Colon: byte := 58

  /** The prefix of every header the tool builds. */
  const BasicPrefix := "Basic "

  /** basicAuthHeader(username, password): `Basic ` and the base64 encoding
      of `username:password`. */
  function BasicAuthHeader(username: seq<byte>, password: seq<byte>): (r: string)
    ensures StartsWith(r, BasicPrefix)
    ensures Decode(r[|BasicPrefix|..]) == Some(username + [Colon] + password)
    ensures |r| == |BasicPrefix| + 4 * ((|username| + |password| + 3) / 3)
  {
    var a := username + [Colon] + password;
    assert |a| + 2 == |username| + |password| + 3;
    ConcatParts(BasicPrefix, Encode(a));
    DecodeEncode(a);
    BasicPrefix + Encode(a)
  }

  /** The user names of the two kinds of credential, as bytes:
      `_json_key_base64` and `oauth2accesstoken`. */
  const KeyUser: seq<byte> := [95, 106, 115, 111, 110, 95, 107, 101, 121, 95, 98, 97, 115, 101, 54, 52]
  const TokenUser: seq<byte> := [111, 97, 117, 116, 104, 50, 97, 99, 99, 101, 115, 115, 116, 111, 107, 101, 110]

  /** keyAuthHeader(jsonKeyPath), with auth.EncodeJsonKey(jsonKeyPath) given as
      key and auth.Token(ctx) as token: a key path selects the key and the key
      user name, no key path the token and the token user name; the
      credential that is not selected is never looked at. */
  function KeyAuthHeader(keyPath: string, key: Result<seq<byte>>, token: Result<seq<byte>>): (r: Result<string>)
    ensures r.Ok? <==> (if keyPath != "" then key.Ok? else token.Ok?)
    ensures r.Ok? && keyPath != "" ==>
      StartsWith(r.value, BasicPrefix) && Decode(r.value[|BasicPrefix|..]) == Some(KeyUser + [Colon] + key.value)
    ensures r.Ok? && keyPath == "" ==>
      StartsWith(r.value, BasicPrefix) && Decode(r.value[|BasicPrefix|..]) == Some(TokenUser + [Colon] + token.value)
    ensures r.Err? && keyPath != "" ==> StartsWith(r.error, "failed to encode JSON key: ")
    ensures r.Err? && keyPath == "" ==> StartsWith(r.error, "failed to get oauth token: ")
  {
    if keyPath != "" then
      match key
      case Err(e) => Err("failed to encode JSON key: " + e)
      case Ok(k) => Ok(BasicAuthHeader(KeyUser, k))
    else
      match token
      case Err(e) => Err("failed to get oauth token: " + e)
      case Ok(t) => Ok(BasicAuthHeader(TokenUser, t))
  }

  /** locationURL(location, hostPattern): the location's host behind `https://`. */
  function LocationURL(location: string, p: HostPattern): (r: string)
    ensures StartsWith(r, "https://") && r[|"https://"|..] == Host(p, location)
  {
    ConcatParts("https://", Host(p, location));
    "https://" + Host(p, location)
  }

  /** What one run of the tool ends in. */
  datatype Outcome =
    | Help                                  // no location: the help text, exit status 0
    | NotARegion                            // a URL was given as location: exit status 2
    | AuthFailed(error: string)             // no credential: exit status 3
    | Printed(url: string, header: string)  // the URL line and the Authorization header

  /** main(): the location argument is checked before any credential is read. */
  function Run(location: string, p: HostPattern, keyPath: string, key: Result<seq<byte>>, token: Result<seq<byte>>): (o: Outcome)
    ensures location == "" <==> o.Help?
    ensures location != "" && StartsWith(location, "https://") <==> o.NotARegion?
    ensures o.Printed? ==> o.url == LocationURL(location, p) && Ok(o.header) == KeyAuthHeader(keyPath, key, token)
    ensures o.AuthFailed? ==> KeyAuthHeader(keyPath, key, token) == Err(o.error)
  {
    if location == "" then Help
    else if StartsWith(location, "https://") then NotARegion
    else
      match KeyAuthHeader(keyPath, key, token)
      case Err(e) => AuthFailed(e)
      case Ok(h) => Printed(LocationURL(location, p), h)
  }

  // ----- Properties -----

  lemma ConcatIndex(a: string, b: string, i: int)
    requires |a| <= i < |a + b|
    ensures (a + b)[i] == b[i - |a|]
  {
  }

  /** The URL gives back the location: different locations, different URLs. */
  lemma LocationURLInjective(l1: string, l2: string, p: HostPattern)
    requires LocationURL(l1, p) == LocationURL(l2, p)
    ensures l1 == l2
  {
    HostInjective(p, l1, l2);
  }

  /** locationURL("us-central1", defaultHostPattern) */
  lemma DefaultLocationURL()
    ensures LocationURL("us-central1", Default) == "https://us-central1-go.pkg.dev"
  {
    assert Host(Default, "us-central1") == "us-central1-go.pkg.dev";
  }

  /** A URL as location is turned away whatever the credentials are. */
  lemma UrlLocationRejected(location: string, p: HostPattern, keyPath: string, key: Result<seq<byte>>, token: Result<seq<byte>>)
    requires StartsWith(location, "https://")
    ensures Run(location, p, keyPath, key, token) == NotARegion
  {
  }

  /** The decoded header starts with the user name of the credential kind and a
      colon, as both tests of the tool check. */
  lemma HeaderUser(keyPath: string, key: Result<seq<byte>>, token: Result<seq<byte>>)
    ensures var r := KeyAuthHeader(keyPath, key, token);
      var user := if keyPath != "" then KeyUser else TokenUser;
      r.Ok? ==> (|r.value| >= |BasicPrefix| &&
        var d := Decode(r.value[|BasicPrefix|..]);
        d.Some? && |d.value| > |user| && d.value[..|user| + 1] == user + [Colon])
  {
    if keyPath != "" && key.Ok? {
      HeaderStartsWithUser(KeyUser, key.value);
    } else if keyPath == "" && token.Ok? {
      HeaderStartsWithUser(TokenUser, token.value);
    }
  }

  lemma HeaderStartsWithUser(user: seq<byte>, secret: seq<byte>)
    ensures var d := Decode(BasicAuthHeader(user, secret)[|BasicPrefix|..]);
      d.Some? && |d.value| > |user| && d.value[..|user| + 1] == user + [Colon]
  {
    assert (user + [Colon] + secret)[..|user| + 1] == user + [Colon];
  }

  /** The header is the RFC 4648 encoding of exactly `user:password`: two
      headers are equal only for equal user and password bytes. */
  lemma BasicAuthHeaderInjective(u1: seq<byte>, p1: seq<byte>, u2: seq<byte>, p2: seq<byte>)
    requires BasicAuthHeader(u1, p1) == BasicAuthHeader(u2, p2)
    ensures u1 + [Colon] + p1 == u2 + [Colon] + p2
  {
    var h := BasicAuthHeader(u1, p1);
    assert Some(u1 + [Colon] + p1) == Decode(h[|BasicPrefix|..]) == Some(u2 + [Colon] + p2);
  }

  /** The encoded part of a header uses the standard alphabet and `=` only. */
  lemma HeaderAlphabet(username: seq<byte>, password: seq<byte>)
    ensures forall i :: |BasicPrefix| <= i < |BasicAuthHeader(username, password)| ==>
      IsEncodingChar(BasicAuthHeader(username, password)[i])
  {
    var e := Encode(username + [Colon] + password);
    assert BasicAuthHeader(username, password) == BasicPrefix + e;
    forall i | |BasicPrefix| <= i < |BasicPrefix + e|
      ensures IsEncodingChar((BasicPrefix + e)[i])
    {
      ConcatIndex(BasicPrefix, e, i);
    }
  }
}
