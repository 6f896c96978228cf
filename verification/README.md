# OAuth2 access-token request form

A Dafny model of the OAuth2 access-token request form of the Aiven HTTP sink
connector for Apache Kafka (`OAuth2AccessTokenRequestForm` and its
`Builder`). The connector uses the form to ask an authorization server for an
access token with the client-credentials grant (section 4.4.2 of RFC 6749) or
the resource-owner password grant (section 4.3.2 of RFC 6749). The body is
sent as `application/x-www-form-urlencoded` (Appendix B of RFC 6749,
section 5.2 of the WHATWG URL Standard).

The model is functional. A `Builder` is an immutable record of nine optional
strings. Each Java setter is a `Setter` value applied by `With`. `build()`
is `Build`, which returns either a `Form` or a `MissingField` error naming
the field whose null check failed. `toBodyString()` is `ToBodyString`. It
also returns a `Result`, because it can throw on a form that `Build` accepted
(see below).

Modules, one per file:

- `Wrappers`: `Option` (a nullable Java reference) and `Result`.
- `Sequences`: associativity of concatenation, used by proofs.
- `Utf8`: the UTF-8 encoding of a Unicode scalar value (section 3 of
  RFC 3629), plus a strict decoder that is its inverse.
- `FormUrlEncoding`: `URLEncoder.encode(s, UTF_8)` as `Encode`, plus its
  inverse `Decode`. Decode percent-decodes in the manner of section 5.1 of the
  WHATWG URL Standard and then UTF-8-decodes.
- `Joining`: `StringJoiner` joining as `Join`, and its inverse `Split`.
- `TokenRequestForm`: the built form, the ordered name/value pairs
  `toBodyString` emits, the body itself, and a parser for the body. The
  parser splits on `&`, then on `=`, then decodes.
- `TokenRequestBuilder`: the builder, its setters, `Build`, and the
  properties that relate building to the body.

Two behaviours of the code are worth stating plainly, because a caller might
expect otherwise:

- The builder has `username` and `password` fields but no setter for them.
  A builder reached through setters therefore never holds user credentials.
  The password-grant check can never fail, and a built form never emits
  `username`/`password` pairs. The model keeps the fields, the check and
  the emission code, and proves that they are unreachable from the setters.
- `toBodyString()` can throw after a successful `build()`. Under the
  client-credentials grant, `build()` accepts a client id and client secret
  whose two wire names are both absent. `encode(null)` then throws when the
  body is rendered. Under any other grant type, one absent wire name is
  enough. The model returns `Failure(MissingField(ClientIdProperty))` (or
  `ClientSecretProperty`) there, following the code.

## Model

| member | source | states |
|---|---|---|
| `TokenRequestBuilder.NewBuilder` | src/main/java/io/aiven/kafka/connect/http/sender/request/OAuth2AccessTokenRequestForm.java:91-111 | a new builder has every field null |
| `TokenRequestBuilder.Target` | src/main/java/io/aiven/kafka/connect/http/sender/request/OAuth2AccessTokenRequestForm.java:113-146 | each setter writes one field, and no setter writes the username or the password |
| `TokenRequestBuilder.With` | src/main/java/io/aiven/kafka/connect/http/sender/request/OAuth2AccessTokenRequestForm.java:113-146 | a setter gives its own field the new value (possibly null) and leaves the other eight fields unchanged |
| `TokenRequestBuilder.Apply` | src/main/java/io/aiven/kafka/connect/http/sender/request/OAuth2AccessTokenRequestForm.java:107-108 | no chain of setter calls changes the username or the password |
| `TokenRequestBuilder.PairCheck` | src/main/java/io/aiven/kafka/connect/http/sender/request/OAuth2AccessTokenRequestForm.java:154-157 | one both-or-neither check passes exactly when both values are present or both are absent; on failure it names the first absent field |
| `TokenRequestBuilder.Build` | src/main/java/io/aiven/kafka/connect/http/sender/request/OAuth2AccessTokenRequestForm.java:148-179 | fails on a missing grant-type wire name first, then on a missing grant type; succeeds exactly when the declarative `Valid` holds; on success every one of the nine fields is copied unchanged; on failure the named field is absent |
| `TokenRequestBuilder.PropertyNamesCheckedBeforeValues` | src/main/java/io/aiven/kafka/connect/http/sender/request/OAuth2AccessTokenRequestForm.java:152-162 | under "client_credentials", a mismatched wire-name pair is reported before anything about the values, and the client id's wire name before the secret's |
| `TokenRequestBuilder.LoneClientValueRejected` | src/main/java/io/aiven/kafka/connect/http/sender/request/OAuth2AccessTokenRequestForm.java:159-162 | under "client_credentials" with matching wire names, a lone client id or secret fails and the absent one is named |
| `TokenRequestBuilder.OtherGrantTypesSkipChecks` | src/main/java/io/aiven/kafka/connect/http/sender/request/OAuth2AccessTokenRequestForm.java:152-172 | any grant type other than exactly "client_credentials" or "password" skips every credential check, so a lone client id builds |
| `TokenRequestBuilder.NoUserCredentialsFromSetters` | src/main/java/io/aiven/kafka/connect/http/sender/request/OAuth2AccessTokenRequestForm.java:165-172 | from setters alone the username and password stay absent, the password-grant check always passes, and the body has 1 + [scope] + 2·[client values] pairs |
| `TokenRequestBuilder.BuiltFormBodyFailure` | src/main/java/io/aiven/kafka/connect/http/sender/request/OAuth2AccessTokenRequestForm.java:68-71 | after a successful build, rendering fails exactly when both client values are present and a client wire name is absent; under "client_credentials" that means both wire names are absent |
| `TokenRequestBuilder.BuildAcceptsUnserialisableForm` | src/main/java/io/aiven/kafka/connect/http/sender/request/OAuth2AccessTokenRequestForm.java:152-163 | a concrete setter chain that builds but whose body cannot be rendered |
| `TokenRequestForm.Pairs` | src/main/java/io/aiven/kafka/connect/http/sender/request/OAuth2AccessTokenRequestForm.java:63-79 | pairs come out in a fixed order: grant type first; then the literal "scope" pair iff a scope is present; then client id and client secret iff both values are present; then the literal username and password pairs iff both are present. Their number is `PairCount`. An absent client wire name under present values fails, naming the client id's first |
| `TokenRequestForm.Segment` | src/main/java/io/aiven/kafka/connect/http/sender/request/OAuth2AccessTokenRequestForm.java:83-85 | an encoded name/value segment never contains `&` |
| `TokenRequestForm.ToBodyString` | src/main/java/io/aiven/kafka/connect/http/sender/request/OAuth2AccessTokenRequestForm.java:63-81 | rendering succeeds exactly when the client values are not both present or both client wire names are present, and fails naming the first absent wire name |
| `TokenRequestForm.SplitSegment` | src/main/java/io/aiven/kafka/connect/http/sender/request/OAuth2AccessTokenRequestForm.java:83-85 | a segment splits on `=` into exactly the encoded name and the encoded value |
| `TokenRequestForm.ParseSegments` | src/main/java/io/aiven/kafka/connect/http/sender/request/OAuth2AccessTokenRequestForm.java:83-89 | parsing the encoded segments of any pairs gives those pairs back |
| `TokenRequestForm.BodySegments` | src/main/java/io/aiven/kafka/connect/http/sender/request/OAuth2AccessTokenRequestForm.java:64-80 | the body splits on `&` into one encoded segment per pair, in order, `PairCount` of them |
| `TokenRequestForm.BodyRoundTrip` | src/main/java/io/aiven/kafka/connect/http/sender/request/OAuth2AccessTokenRequestForm.java:63-89 | splitting a body on `&` and `=` and decoding recovers exactly the emitted name/value pairs, in order |
| `Joining.Join` | src/main/java/io/aiven/kafka/connect/http/sender/request/OAuth2AccessTokenRequestForm.java:64-80 | the joined string starts with the first part |
| `Joining.Split` | src/main/java/io/aiven/kafka/connect/http/sender/request/OAuth2AccessTokenRequestForm.java:64-80 | splitting yields at least one piece, no piece contains the delimiter, and joining the pieces gives the input back |
| `Joining.SplitJoin` | src/main/java/io/aiven/kafka/connect/http/sender/request/OAuth2AccessTokenRequestForm.java:64-80 | splitting a join of delimiter-free parts gives back the parts |
| `FormUrlEncoding.HexDigit` | src/main/java/io/aiven/kafka/connect/http/sender/request/OAuth2AccessTokenRequestForm.java:87-89 | escape digits are upper-case hexadecimal and read back as their value |
| `FormUrlEncoding.PercentEscape` | src/main/java/io/aiven/kafka/connect/http/sender/request/OAuth2AccessTokenRequestForm.java:87-89 | octet i becomes characters 3i to 3i+2: `%` followed by its high and low upper-case hexadecimal digits |
| `FormUrlEncoding.EncodeChar` | src/main/java/io/aiven/kafka/connect/http/sender/request/OAuth2AccessTokenRequestForm.java:87-89 | a character is kept exactly when it is unreserved; a space becomes "+"; any other character becomes the percent escapes of its UTF-8 octets, at least three characters |
| `FormUrlEncoding.Encode` | src/main/java/io/aiven/kafka/connect/http/sender/request/OAuth2AccessTokenRequestForm.java:87-89 | output uses only unreserved characters, `+` and `%`, so it never contains `&` or `=`, and it is never shorter than the input |
| `FormUrlEncoding.EncodeAppend` | src/main/java/io/aiven/kafka/connect/http/sender/request/OAuth2AccessTokenRequestForm.java:87-89 | encoding distributes over concatenation |
| `FormUrlEncoding.EncodeIsIdentityIff` | src/main/java/io/aiven/kafka/connect/http/sender/request/OAuth2AccessTokenRequestForm.java:87-89 | a string encodes to itself exactly when every character is unreserved |
| `FormUrlEncoding.DecodeOctetsPercentEscape` | src/main/java/io/aiven/kafka/connect/http/sender/request/OAuth2AccessTokenRequestForm.java:87-89 | percent-decoding recovers escaped octets whatever follows them |
| `FormUrlEncoding.DecodeOctetsEncode` | src/main/java/io/aiven/kafka/connect/http/sender/request/OAuth2AccessTokenRequestForm.java:87-89 | percent-decoding an encoding gives the UTF-8 octets of the original |
| `FormUrlEncoding.DecodeEncode` | src/main/java/io/aiven/kafka/connect/http/sender/request/OAuth2AccessTokenRequestForm.java:87-89 | decoding inverts encoding |
| `FormUrlEncoding.EncodeInjective` | src/main/java/io/aiven/kafka/connect/http/sender/request/OAuth2AccessTokenRequestForm.java:87-89 | distinct strings never share an encoding |
| `Utf8.EncodeScalar` | src/main/java/io/aiven/kafka/connect/http/sender/request/OAuth2AccessTokenRequestForm.java:88 | a character becomes one to four octets, ASCII as itself, with continuation octets after the first |
| `Utf8.EncodeString` | src/main/java/io/aiven/kafka/connect/http/sender/request/OAuth2AccessTokenRequestForm.java:88 | a string's UTF-8 encoding is at least as long as the string, and exactly as long when it is ASCII |
| `Utf8.DecodeFirst` | src/main/java/io/aiven/kafka/connect/http/sender/request/OAuth2AccessTokenRequestForm.java:88 | the strict decoder consumes one to four octets, all but the first of them continuation octets |
| `Utf8.DecodeFirstEncodeScalar` | src/main/java/io/aiven/kafka/connect/http/sender/request/OAuth2AccessTokenRequestForm.java:88 | decoding the octets of one character gives the character and its octet count back |
| `Utf8.DecodeEncodeString` | src/main/java/io/aiven/kafka/connect/http/sender/request/OAuth2AccessTokenRequestForm.java:88 | UTF-8 decoding inverts UTF-8 encoding |
| `Utf8.EncodeStringInjective` | src/main/java/io/aiven/kafka/connect/http/sender/request/OAuth2AccessTokenRequestForm.java:88 | distinct strings have distinct UTF-8 encodings |

## Left out

- Exception types and message texts: a failed null check is `MissingField`,
  tagged with the field that was null.
- Fluent "return this" chaining: the builder is an immutable record, and a
  chain of calls is a sequence of `Setter` values applied by `Apply`.
- Unpaired UTF-16 surrogates: a Dafny `string` holds Unicode scalar values,
  so they cannot occur. Java's UTF-8 encoder would replace one with `?`,
  written `%3F`.
- Java's `URLEncoder` collects runs of characters that need escaping before
  it converts them to bytes. For strings without unpaired surrogates this is
  the same as converting one character at a time, which is what the model does.
- `FormUrlEncoding.Decode` and `Utf8.DecodeString` reject malformed input
  instead of substituting U+FFFD as the WHATWG parser does. They are used only
  as the inverse of the encoder.
- Calling `toBodyString()` twice gives the same body. In the model that holds
  by construction, since `ToBodyString` is a function, so no lemma states it.
- src/test/java/io/aiven/kafka/connect/http/sender/TestSendAsFileUpload.java:
  a network test against an external server. It contains no logic of the form.
