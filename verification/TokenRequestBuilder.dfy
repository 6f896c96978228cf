/**
  The form's builder: seven setters, each storing one field, and a `Build`
  that null-checks the fields the grant type requires before taking a
  snapshot of all nine fields.
*/
module TokenRequestBuilder {
  import opened Wrappers
  import opened TokenRequestForm

  /** Grant type values that switch on the credential checks (compared exactly). */
  const ClientCredentialsGrant: string := "client_credentials"
  const PasswordGrant: string := "password"

  /**
    The builder's state. It has username and password fields, but no setter
    writes them, so they keep the value a new builder starts with.
  */
  datatype Builder = Builder(
    grantTypeProperty: Option<string>,
    grantType: Option<string>,
    scope: Option<string>,
    clientIdProperty: Option<string>,
    clientId: Option<string>,
    clientSecretProperty: Option<string>,
    clientSecret: Option<string>,
    username: Option<string>,
    password: Option<string>)
  {
    /** The value of a field, `None` when it is null. */
    function Get(f: Field): Option<string> {
      match f
      case GrantTypeProperty => grantTypeProperty
      case GrantType => grantType
      case Scope => scope
      case ClientIdProperty => clientIdProperty
      case ClientId => clientId
      case ClientSecretProperty => clientSecretProperty
      case ClientSecret => clientSecret
      case Username => username
      case Password => password
    }
  }

  /** `newBuilder()`: every field null. */
  function NewBuilder(): (b: Builder)
    ensures forall f :: b.Get(f) == None
  {
    Builder(None, None, None, None, None, None, None, None, None)
  }

  /** The builder's setters; each takes a value that may be null. */
  datatype Setter =
    | WithGrantTypeProperty(v: Option<string>)
    | WithGrantType(v: Option<string>)
    | WithScope(v: Option<string>)
    | WithClientIdProperty(v: Option<string>)
    | WithClientId(v: Option<string>)
    | WithClientSecretProperty(v: Option<string>)
    | WithClientSecret(v: Option<string>)

  /** The field a setter writes. There is none for the username or the password. */
  function Target(s: Setter): (f: Field)
    ensures f != Username && f != Password
  {
    match s
    case WithGrantTypeProperty(_) => GrantTypeProperty
    case WithGrantType(_) => GrantType
    case WithScope(_) => Scope
    case WithClientIdProperty(_) => ClientIdProperty
    case WithClientId(_) => ClientId
    case WithClientSecretProperty(_) => ClientSecretProperty
    case WithClientSecret(_) => ClientSecret
  }

  /** Applies one setter: its own field takes the new value and no other field changes. */
  function With(b: Builder, s: Setter): (r: Builder)
    ensures r.Get(Target(s)) == s.v
    ensures forall f :: f != Target(s) ==> r.Get(f) == b.Get(f)
  {
    match s
    case WithGrantTypeProperty(v) => b.(grantTypeProperty := v)
    case WithGrantType(v) => b.(grantType := v)
    case WithScope(v) => b.(scope := v)
    case WithClientIdProperty(v) => b.(clientIdProperty := v)
    case WithClientId(v) => b.(clientId := v)
    case WithClientSecretProperty(v) => b.(clientSecretProperty := v)
    case WithClientSecret(v) => b.(clientSecret := v)
  }

  /** A chain of setter calls, applied left to right. Username and password are never touched. */
  function Apply(b: Builder, setters: seq<Setter>): (r: Builder)
    ensures r.username == b.username && r.password == b.password
    decreases |setters|
  {
    if setters == [] then b else Apply(With(b, setters[0]), setters[1..])
  }

  /** Both values present, or both absent. */
  predicate BothOrNeither(a: Option<string>, b: Option<string>) {
    a.Some? <==> b.Some?
  }

  /**
    The condition under which `Build` succeeds, stated declaratively: grant
    type and its wire name present; for the client-credentials grant, the two
    wire names both-or-neither and the two values both-or-neither; for the
    password grant, username and password both-or-neither.
  */
  predicate Valid(b: Builder) {
    && b.grantTypeProperty.Some?
    && b.grantType.Some?
    && (b.grantType.value == ClientCredentialsGrant ==>
          BothOrNeither(b.clientIdProperty, b.clientSecretProperty)
          && BothOrNeither(b.clientId, b.clientSecret))
    && (b.grantType.value == PasswordGrant ==> BothOrNeither(b.username, b.password))
  }

  /**
    One both-or-neither check: when either value is set, null-check the first
    and then the second, reporting the first that is null.
  */
  function PairCheck(a: Option<string>, fa: Field, b: Option<string>, fb: Field): (r: Option<Field>)
    ensures r.None? <==> BothOrNeither(a, b)
    ensures r.Some? ==> (r.value == fa && a.None?) || (r.value == fb && a.Some? && b.None?)
  {
    if a.Some? || b.Some? then
      if a.None? then Some(fa) else if b.None? then Some(fb) else None
    else None
  }

  /** The first of two check outcomes that failed. */
  function FirstFailure(x: Option<Field>, y: Option<Field>): (r: Option<Field>)
    ensures r.None? <==> x.None? && y.None?
    ensures x.Some? ==> r == x
  {
    if x.Some? then x else y
  }

  /**
    `build()`: null-checks the grant type wire name, then the grant type, then
    the grant-type-specific pairs, and on success copies every field into the
    form unchanged.
  */
  function Build(b: Builder): (r: Result<Form, MissingField>)
    ensures b.grantTypeProperty.None? ==> r == Failure(MissingField(GrantTypeProperty))
    ensures b.grantTypeProperty.Some? && b.grantType.None? ==> r == Failure(MissingField(GrantType))
    ensures r.Success? <==> Valid(b)
    ensures r.Success? ==> forall f :: r.value.Get(f) == b.Get(f)
    ensures r.Failure? ==> b.Get(r.error.field) == None
  {
    if b.grantTypeProperty.None? then Failure(MissingField(GrantTypeProperty))
    else if b.grantType.None? then Failure(MissingField(GrantType))
    else
      var grantType := b.grantType.value;
      var clientCheck :=
        if grantType == ClientCredentialsGrant then
          FirstFailure(
            PairCheck(b.clientIdProperty, ClientIdProperty, b.clientSecretProperty, ClientSecretProperty),
            PairCheck(b.clientId, ClientId, b.clientSecret, ClientSecret))
        else None;
      var passwordCheck :=
        if grantType == PasswordGrant then PairCheck(b.username, Username, b.password, Password)
        else None;
      match FirstFailure(clientCheck, passwordCheck)
      case Some(f) => Failure(MissingField(f))
      case None =>
        Success(Form(b.grantTypeProperty.value, grantType, b.scope,
                     b.clientIdProperty, b.clientId, b.clientSecretProperty, b.clientSecret,
                     b.username, b.password))
  }

  /**
    Under the client-credentials grant, a mismatched pair of wire names is
    reported before anything about the values, and the client id's wire
    name before the client secret's.
  */
  lemma PropertyNamesCheckedBeforeValues(b: Builder)
    requires b.grantTypeProperty.Some? && b.grantType == Some(ClientCredentialsGrant)
    requires !BothOrNeither(b.clientIdProperty, b.clientSecretProperty)
    ensures Build(b) == Failure(MissingField(
      if b.clientIdProperty.None? then ClientIdProperty else ClientSecretProperty))
  {
  }

  /**
    Under the client-credentials grant with matching wire names, a lone
    client id or client secret value is reported, naming the absent one.
  */
  lemma LoneClientValueRejected(b: Builder)
    requires b.grantTypeProperty.Some? && b.grantType == Some(ClientCredentialsGrant)
    requires BothOrNeither(b.clientIdProperty, b.clientSecretProperty)
    requires !BothOrNeither(b.clientId, b.clientSecret)
    ensures Build(b) == Failure(MissingField(if b.clientId.None? then ClientId else ClientSecret))
  {
  }

  /**
    Any grant type other than the two exact strings skips every credential
    check: `Build` succeeds whatever the client fields hold.
  */
  lemma OtherGrantTypesSkipChecks(b: Builder)
    requires b.grantTypeProperty.Some? && b.grantType.Some?
    requires b.grantType.value != ClientCredentialsGrant && b.grantType.value != PasswordGrant
    ensures Build(b).Success?
  {
  }

  /**
    A builder reached from `NewBuilder` through setters has no username or
    password, so the password-grant check never fails and a built form never
    carries user credentials: its body has one pair for the grant type, one
    for a scope and two for client credentials, and nothing else.
  */
  lemma {:induction false} NoUserCredentialsFromSetters(setters: seq<Setter>)
    ensures Apply(NewBuilder(), setters).username == None
    ensures Apply(NewBuilder(), setters).password == None
    ensures var b := Apply(NewBuilder(), setters);
      b.grantTypeProperty.Some? && b.grantType == Some(PasswordGrant) ==> Build(b).Success?
    ensures var r := Build(Apply(NewBuilder(), setters));
      r.Success? ==>
        && !r.value.HasUserCredentials()
        && PairCount(r.value) == 1 + (if r.value.scope.Some? then 1 else 0)
                                   + (if r.value.HasClientCredentials() then 2 else 0)
  {
    assert NewBuilder().username == None && NewBuilder().password == None;
  }

  /**
    A successful `Build` does not guarantee a body: `toBodyString` fails
    exactly when both client values are present but a client wire name is
    not. Under the client-credentials grant that means both wire names are
    absent, since `Build` rejects a lone one.
  */
  lemma BuiltFormBodyFailure(b: Builder)
    requires Build(b).Success?
    ensures ToBodyString(Build(b).value).Failure? <==>
      b.clientId.Some? && b.clientSecret.Some?
      && (b.clientIdProperty.None? || b.clientSecretProperty.None?)
    ensures b.grantType == Some(ClientCredentialsGrant) ==>
      (ToBodyString(Build(b).value).Failure? <==>
        b.clientId.Some? && b.clientSecret.Some?
        && b.clientIdProperty.None? && b.clientSecretProperty.None?)
  {
    var f := Build(b).value;
    assert f.Get(ClientId) == b.clientId && f.Get(ClientSecret) == b.clientSecret;
    assert f.Get(ClientIdProperty) == b.clientIdProperty;
    assert f.Get(ClientSecretProperty) == b.clientSecretProperty;
  }

  /** The concrete case: client-credentials grant, both values, no wire names. */
  lemma BuildAcceptsUnserialisableForm()
    ensures var b := Apply(NewBuilder(), [
              WithGrantTypeProperty(Some("grant_type")),
              WithGrantType(Some(ClientCredentialsGrant)),
              WithClientId(Some("id")),
              WithClientSecret(Some("secret"))]);
      && Build(b).Success?
      && ToBodyString(Build(b).value) == Failure(MissingField(ClientIdProperty))
  {
    var setters := [
      WithGrantTypeProperty(Some("grant_type")),
      WithGrantType(Some(ClientCredentialsGrant)),
      WithClientId(Some("id")),
      WithClientSecret(Some("secret"))];
    var b1 := With(NewBuilder(), setters[0]);
    var b2 := With(b1, setters[1]);
    var b3 := With(b2, setters[2]);
    var b4 := With(b3, setters[3]);
    assert Apply(b4, []) == b4;
    assert Apply(b3, [setters[3]]) == b4;
    assert setters[2..] == [setters[2], setters[3]];
    assert Apply(b2, setters[2..]) == b4;
    assert setters[1..] == [setters[1]] + setters[2..];
    assert Apply(b1, setters[1..]) == b4;
    assert Apply(NewBuilder(), setters) == b4;
    assert b4 == Builder(Some("grant_type"), Some(ClientCredentialsGrant), None,
                         None, Some("id"), None, Some("secret"), None, None);
  }
}
