/**
  The OAuth2 access-token request form and its serialisation into an
  application/x-www-form-urlencoded body: the token request of section 4.4.2
  (client credentials) and section 4.3.2 (resource owner password) of
  RFC 6749, encoded as its Appendix B describes.
*/
module TokenRequestForm {
  import opened Wrappers
  import FormUrlEncoding
  import Joining

  /** The nine fields a form (and its builder) carries. */
  datatype Field =
    | GrantTypeProperty | GrantType | Scope
    | ClientIdProperty | ClientId
    | ClientSecretProperty | ClientSecret
    | Username | Password

  /** The null-check failure, naming the field that was null. */
  datatype MissingField = MissingField(field: Field)

  /** Wire names that are fixed rather than configured. */
  const ScopeName: string := "scope"
  const UsernameName: string := "username"
  const PasswordName: string := "password"

  /** The two body delimiters. */
  const PairSeparator: char := '&'
  const NameValueSeparator: char := '='

  /**
    A built form. The grant type and its wire name are always present; every
    other field may be absent (null in the Java object).
  */
  datatype Form = Form(
    grantTypeProperty: string,
    grantType: string,
    scope: Option<string>,
    clientIdProperty: Option<string>,
    clientId: Option<string>,
    clientSecretProperty: Option<string>,
    clientSecret: Option<string>,
    username: Option<string>,
    password: Option<string>)
  {
    /** The value of a field, `None` when it is null. */
    function Get(f: Field): Option<string> {
      match f
      case GrantTypeProperty => Some(grantTypeProperty)
      case GrantType => Some(grantType)
      case Scope => scope
      case ClientIdProperty => clientIdProperty
      case ClientId => clientId
      case ClientSecretProperty => clientSecretProperty
      case ClientSecret => clientSecret
      case Username => username
      case Password => password
    }

    /** Client id and client secret values are both present. */
    predicate HasClientCredentials() {
      clientId.Some? && clientSecret.Some?
    }

    /** Username and password are both present. */
    predicate HasUserCredentials() {
      username.Some? && password.Some?
    }

    /** Both configurable client wire names are present. */
    predicate HasClientPropertyNames() {
      clientIdProperty.Some? && clientSecretProperty.Some?
    }
  }

  /** One name/value pair of the body, before encoding. */
  datatype Pair = Pair(name: string, value: string)

  /** 1 for the grant type, 1 for a scope, 2 for client credentials, 2 for user credentials. */
  function PairCount(f: Form): nat {
    1 + (if f.scope.Some? then 1 else 0)
      + (if f.HasClientCredentials() then 2 else 0)
      + (if f.HasUserCredentials() then 2 else 0)
  }

  /**
    The pairs `toBodyString` emits, in order. Encoding a null client wire name
    throws, so the client pairs fail when the values are present but a wire
    name is not; the client id's name is encoded first.
  */
  function Pairs(f: Form): (r: Result<seq<Pair>, MissingField>)
    ensures r.Success? <==> !f.HasClientCredentials() || f.HasClientPropertyNames()
    ensures r.Failure? ==>
      r.error == MissingField(if f.clientIdProperty.None? then ClientIdProperty else ClientSecretProperty)
    ensures r.Success? ==> |r.value| == PairCount(f)
    ensures r.Success? ==> r.value[0] == Pair(f.grantTypeProperty, f.grantType)
    ensures r.Success? && f.scope.Some? ==> r.value[1] == Pair(ScopeName, f.scope.value)
    ensures r.Success? && f.HasClientCredentials() ==>
      var k := if f.scope.Some? then 2 else 1;
      && r.value[k] == Pair(f.clientIdProperty.value, f.clientId.value)
      && r.value[k + 1] == Pair(f.clientSecretProperty.value, f.clientSecret.value)
    ensures r.Success? && f.HasUserCredentials() ==>
      && r.value[|r.value| - 2] == Pair(UsernameName, f.username.value)
      && r.value[|r.value| - 1] == Pair(PasswordName, f.password.value)
  {
    var grant := [Pair(f.grantTypeProperty, f.grantType)];
    var scope := if f.scope.Some? then [Pair(ScopeName, f.scope.value)] else [];
    var client :-
      if !f.HasClientCredentials() then Success([])
      else if f.clientIdProperty.None? then Failure(MissingField(ClientIdProperty))
      else if f.clientSecretProperty.None? then Failure(MissingField(ClientSecretProperty))
      else Success([Pair(f.clientIdProperty.value, f.clientId.value),
                    Pair(f.clientSecretProperty.value, f.clientSecret.value)]);
    var user :=
      if f.HasUserCredentials()
      then [Pair(UsernameName, f.username.value), Pair(PasswordName, f.password.value)]
      else [];
    Success(grant + scope + client + user)
  }

  /** `encodeNameAndValue`: the encoded name, `=`, the encoded value. */
  function Segment(p: Pair): (r: string)
    ensures PairSeparator !in r
  {
    FormUrlEncoding.Encode(p.name) + [NameValueSeparator] + FormUrlEncoding.Encode(p.value)
  }

  /** The encoded segments of a sequence of pairs, in the same order. */
  function Segments(ps: seq<Pair>): (r: seq<string>)
    ensures |r| == |ps|
    ensures forall i :: 0 <= i < |r| ==> PairSeparator !in r[i]
  {
    seq(|ps|, i requires 0 <= i < |ps| => Segment(ps[i]))
  }

  /** `toBodyString`: the segments joined with `&`, or the null-check failure of `Pairs`. */
  function ToBodyString(f: Form): (r: Result<string, MissingField>)
    ensures r.Success? <==> !f.HasClientCredentials() || f.HasClientPropertyNames()
    ensures r.Failure? ==>
      r.error == MissingField(if f.clientIdProperty.None? then ClientIdProperty else ClientSecretProperty)
  {
    var ps :- Pairs(f);
    Success(Joining.Join(Segments(ps), PairSeparator))
  }

  /** Reads a body back into decoded pairs; fails unless every segment has exactly one `=`. */
  function ParsePairs(segments: seq<string>): Option<seq<Pair>> {
    if segments == [] then Some([])
    else
      var parts := Joining.Split(segments[0], NameValueSeparator);
      if |parts| != 2 then None
      else
        var name :- FormUrlEncoding.Decode(parts[0]);
        var value :- FormUrlEncoding.Decode(parts[1]);
        var rest :- ParsePairs(segments[1..]);
        Some([Pair(name, value)] + rest)
  }

  /** The receiving side: split on `&`, then on `=`, then decode. */
  function ParseBody(body: string): Option<seq<Pair>> {
    ParsePairs(Joining.Split(body, PairSeparator))
  }

  /** A segment splits on `=` into exactly the encoded name and the encoded value. */
  lemma SplitSegment(p: Pair)
    ensures Joining.Split(Segment(p), NameValueSeparator)
         == [FormUrlEncoding.Encode(p.name), FormUrlEncoding.Encode(p.value)]
  {
    var parts := [FormUrlEncoding.Encode(p.name), FormUrlEncoding.Encode(p.value)];
    assert Joining.Join(parts[1..], NameValueSeparator) == parts[1];
    Joining.SplitJoin(parts, NameValueSeparator);
  }

  /** Parsing the segments of a sequence of pairs gives those pairs back. */
  lemma {:induction false} ParseSegments(ps: seq<Pair>)
    ensures ParsePairs(Segments(ps)) == Some(ps)
  {
    if ps != [] {
      var segs := Segments(ps);
      SplitSegment(ps[0]);
      FormUrlEncoding.DecodeEncode(ps[0].name);
      FormUrlEncoding.DecodeEncode(ps[0].value);
      assert segs[1..] == Segments(ps[1..]);
      ParseSegments(ps[1..]);
      assert [ps[0]] + ps[1..] == ps;
    }
  }

  /**
    A body splits on `&` into one encoded segment per pair, in order: the
    grant type first, then the scope, the client credentials and the user
    credentials when present.
  */
  lemma BodySegments(f: Form)
    requires ToBodyString(f).Success?
    ensures Joining.Split(ToBodyString(f).value, PairSeparator) == Segments(Pairs(f).value)
    ensures |Joining.Split(ToBodyString(f).value, PairSeparator)| == PairCount(f)
  {
    Joining.SplitJoin(Segments(Pairs(f).value), PairSeparator);
  }

  /** Splitting a body on `&` and `=` and decoding recovers exactly the pairs, in order. */
  lemma BodyRoundTrip(f: Form)
    requires ToBodyString(f).Success?
    ensures ParseBody(ToBodyString(f).value) == Some(Pairs(f).value)
  {
    BodySegments(f);
    ParseSegments(Pairs(f).value);
  }
}
