# TOTP-info resolver, modelled in Dafny

This project models `TotpInfoResolver` from the authorizer server
(`server/resolvers/totp_info.go`). It is the GraphQL resolver that resumes
an OAuth login that is waiting for its TOTP step. The resolver:

1. gets the Gin context;
2. reads two cookies, the MFA session and the pending user id;
3. loads the user;
4. fetches the encrypted TOTP information that the memory store keeps under
   (user id, MFA session, `MfaOAuthSessionPrefix`);
5. decrypts it;
6. parses it as a URL query string;
7. assembles an `AuthResponse`.

The assembly step puts back every `+` in the scanner image that the query
parser read as a space. The resolver stops at the first step that fails.

The model is pure, as the resolver is: one linear chain of calls with early
returns.

- `wrappers.dfy`: `Option` (Go's nil pointer) and `Result` (Go's `(T, error)`).
- `errors.dfy`: Go `error` values. An error is one built by `fmt.Errorf` or handed back by a collaborator, or one of the two errors `net/url` raises while parsing.
- `strings.dfy`: `strings.Cut` and `strings.Replace(s, old, new, -1)` for one-character arguments, as recursive functions on `seq<char>`.
- `url.dfy`: `url.QueryUnescape`, `url.ParseQuery` and `Values.Get`. It also holds two encoders whose output the parser is proved to decode back:
  - the plain `key=value&...` concatenation;
  - the same concatenation with every key and value passed through `url.QueryEscape`.

  These follow Go's `net/url` from Go 1.17 on. A query is cut at every `&`. A segment containing `;` sets the semicolon error. That error overrides any earlier error. Otherwise the first escape error is kept. Each segment is cut at its first `=`. Key and value are then unescaped, and `+` becomes a space.
- `totp_info.dfy`: the resolver.
  - Every collaborator is an input, an `Env` holding either the outcome of a call or the function that gives it for the arguments passed. The collaborators are the context lookup, the two cookie accessors, `db.Provider.GetUserByID`, `memorystore.Provider.GetMfaSession`, `crypto.DecryptB64`, `utils.ParseBool`, `utils.ParseStringArray` and `AsAPIUser`.
  - `TotpInfoResolver` returns Go's `(res, err)` pair and the list of collaborator calls it made, in order. That list is how the lemmas state which steps ran and which arguments the store was given.

Two consequences of the code are worth stating on their own:

- **Lookup error vs. missing user.** A database lookup error is not reported as `user not found`. The code reports it as `failed to get user by id: ...` (lines 51-55); only a lookup that finds no user, or an empty user id, gives `user not found` (lines 59-61). `LookupErrorReported` proves the two errors differ.
- **Unescaped `data:` images.** A payload whose scanner image is written unescaped as `data:image/png;base64,...` is rejected as a whole. The code's parser (Go's `url.ParseQuery`) fails with the semicolon error on the `;` of `image/png;base64`. `DataUrlImageExample` proves this for one such payload, and `SemicolonPayloadRejected` for every payload holding a `;`.

## Model

| member | source | states |
|---|---|---|
| TotpInfo.TotpInfoResolver | server/resolvers/totp_info.go:23-102 | exactly one of the response and the error is set; the first collaborator call is always the context lookup |
| TotpInfo.ContextErrorReturnedUnchanged | server/resolvers/totp_info.go:27-32 | a context error is returned as it is, with no response, and no cookie, database or store call is made |
| TotpInfo.SessionCookieErrorIsInvalidSession | server/resolvers/totp_info.go:34-39 | an unreadable MFA-session cookie gives `invalid session: <cause>`, with no response, whatever the user-id cookie holds; that cookie is not read |
| TotpInfo.UserIdCookieErrorIsInvalidSession | server/resolvers/totp_info.go:41-46 | an unreadable user-id cookie gives `invalid session: <cause>` after both cookie reads, and nothing is looked up |
| TotpInfo.OwnErrorsDistinct | server/resolvers/totp_info.go:35-67 | `invalid session: ...`, `failed to get user by id: ...` and `user not found` are pairwise different errors; the first two carry their prefixes and the third is exactly `user not found` |
| TotpInfo.EmptyUserIdNotFound | server/resolvers/totp_info.go:48-61 | an empty user id gives `user not found` without a database lookup |
| TotpInfo.NoUserNotFound | server/resolvers/totp_info.go:50-61 | a lookup that returns no user and no error gives `user not found`; the store is not consulted |
| TotpInfo.LookupErrorReported | server/resolvers/totp_info.go:50-56 | a lookup error gives `failed to get user by id: <cause>`, which is not `user not found`, and the store is not consulted |
| TotpInfo.StoreConsultedOnlyForFoundUser | server/resolvers/totp_info.go:48-64 | the store is consulted only after both cookies were read and a user was found for a non-empty id, and it is asked for exactly that user id, the cookie's MFA session and the OAuth MFA prefix |
| TotpInfo.StoreErrorIsInvalidSession | server/resolvers/totp_info.go:63-68 | a store failure gives `invalid session: <cause>` and no response |
| TotpInfo.DecryptErrorReturnedUnchanged | server/resolvers/totp_info.go:70-75 | a decryption error is returned as it is, with no response, after exactly the six collaborator calls |
| TotpInfo.ParseErrorReturnedUnchanged | server/resolvers/totp_info.go:77-82 | a query-parse error is returned as it is, with no response |
| TotpInfo.SemicolonPayloadRejected | server/resolvers/totp_info.go:77-82 | decrypted TOTP information that contains a `;` always fails with the semicolon error, after all six steps have run |
| TotpInfo.DataUrlImageExample | server/resolvers/totp_info.go:77-82 | a payload whose image is written unescaped as `data:image/png;base64,...` is rejected with the semicolon error |
| TotpInfo.ResponseOnlyWhenEveryStepSucceeds | server/resolvers/totp_info.go:23-102 | a response comes back only when the context, both cookies, a non-empty user id, the user lookup, the store, the decryption and the parse all succeeded |
| TotpInfo.InvalidSession | server/resolvers/totp_info.go:38 | the error built by `fmt.Errorf` at lines 38, 45 and 67: its message is `invalid session: ` followed by the cause's message, and it is never `user not found` |
| TotpInfo.FailedToGetUser | server/resolvers/totp_info.go:54 | its message is `failed to get user by id: ` followed by the cause's message, and it is never `user not found` |
| Errors.Text | server/resolvers/totp_info.go:38 | `err.Error()` as used at lines 38, 45, 54 and 67: an `fmt.Errorf` error gives its own text; the two `net/url` parse errors give a non-empty message |
| TotpInfo.NormaliseScannerImage | server/resolvers/totp_info.go:88 | the image keeps its length, every space becomes `+`, every other character is kept, and no space is left |
| TotpInfo.NewAuthResponse | server/resolvers/totp_info.go:90-98 | the response always carries the fixed message, an image without spaces of the parsed image's length, the parsed secret and the found user's API view |
| TotpInfo.ParsedTotpInfoAssembled | server/resolvers/totp_info.go:78-101 | once the payload parses, the run returns the response assembled from the parsed values and the found user, with a nil error, after exactly the six collaborator calls |
| TotpInfo.SuccessResponse | server/resolvers/totp_info.go:84-101 | when every step succeeds: the error is nil; the message is `Proceed to totp flow`; flag and codes come from the parsed fields; the image is always set, is the parsed image normalised, has its length, has no space, holds `+` wherever it held a space and keeps every other character; the secret is always set to the parsed value verbatim; image and secret are `""` when their key is absent; the user is the found user's API view |
| TotpInfo.NormaliseScannerImageProperties | server/resolvers/totp_info.go:87-88 | the normalisation turns every space into `+`, keeps every other character and the length, leaves no space, and is idempotent |
| TotpInfo.NormaliseUndoesPlusAsSpace | server/resolvers/totp_info.go:84-88 | for an image with no space of its own, normalising after the parser read `+` as a space gives back the original image |
| TotpInfo.NormaliseLosesSpaces | server/resolvers/totp_info.go:87-88 | an image that had a space of its own does not survive: the space comes back as `+` |
| TotpInfo.TotpInfoPairsParse | server/resolvers/totp_info.go:78-96 | parsing the plain text of the four fields succeeds, and `Get` on each of the four keys gives that field with `+` read as a space |
| TotpInfo.PlainTotpInfoRoundTrip | server/resolvers/totp_info.go:71-98 | TOTP information stored as plain `key=value&...` text comes back with the image exactly as written (`+` included), the secret, flag and codes with `+` read as a space, and the user's API view |
| TotpInfo.EscapedTotpInfoRoundTrip | server/resolvers/totp_info.go:71-98 | TOTP information stored as `key=value&...` with every value passed through `QueryEscape` (the four keys are their own escapes) comes back exactly: flag, secret and codes as written, the image as written except that its own spaces become `+` |
| TotpInfo.PlainTotpInfoVerbatim | server/resolvers/totp_info.go:71-98 | fields without `+` and an image without spaces all come back exactly as they were stored |
| Strings.Replace | server/resolvers/totp_info.go:88 | the result has the input's length, and each position holds the replacement where the input held the replaced character, else the input's character |
| Strings.ReplaceLeavesNone | server/resolvers/totp_info.go:88 | no replaced character is left afterwards |
| Strings.ReplaceIdempotent | server/resolvers/totp_info.go:88 | replacing twice is replacing once |
| Strings.ReplaceAbsent | server/resolvers/totp_info.go:88 | a string without the replaced character is unchanged |
| Strings.ReplaceUndone | server/resolvers/totp_info.go:88 | replacing `a` by `b` and then `b` by `a` gives back any string that had no `b` |
| Strings.Cut | server/resolvers/totp_info.go:78 | the split is at the first separator: before it no separator, and before + separator + after is the input; without a separator, everything is "before" |
| Url.Unescape | server/resolvers/totp_info.go:78 | decoding never lengthens the text; a failure is an escape error holding one to three characters that start with `%` |
| Url.UnescapeSucceedsIff | server/resolvers/totp_info.go:78 | unescaping succeeds exactly when every `%` starts a two-hex-digit escape |
| Url.UnescapeWithoutPercent | server/resolvers/totp_info.go:78 | without `%`, unescaping only turns each `+` into a space |
| Url.QueryEscape | server/resolvers/totp_info.go:78 | Go's `url.QueryEscape`, the inverse of the unescaping `url.ParseQuery` does at line 78: the escaped text has only well-formed escapes and no `&`, `;`, `=` or space |
| Url.UnescapeQueryEscape | server/resolvers/totp_info.go:78 | unescaping undoes `QueryEscape` for every byte string |
| Url.ParseSegment | server/resolvers/totp_info.go:78 | one pass of Go's `parseQuery` loop: at most one pair is appended and earlier pairs are kept; a segment with `;` sets the semicolon error whatever came before; otherwise an earlier error is kept, and a new one is an escape error |
| Url.ParseSegments | server/resolvers/totp_info.go:78 | the whole loop: earlier pairs are kept and at most one pair is added per segment; once set, an error stays set, and the final error is the starting one, the semicolon error or an escape error |
| Url.ParseQuery | server/resolvers/totp_info.go:78 | `url.ParseQuery`: a success holds at most one pair per `&`-separated segment; a failure is the semicolon error or an escape error |
| Url.Segments | server/resolvers/totp_info.go:78 | no segment of the query contains `&` |
| Url.Get | server/resolvers/totp_info.go:85-96 | a key that no pair carries gives `""` |
| Url.GetFirst | server/resolvers/totp_info.go:85-96 | `Get` gives the value of the first pair carrying the key |
| Url.ParseQuerySucceedsIff | server/resolvers/totp_info.go:77-82 | parsing succeeds exactly when no segment contains `;` and every non-empty segment has well-formed escapes in its key and its value |
| Url.ParseQueryRejectsSemicolon | server/resolvers/totp_info.go:77-82 | a `;` anywhere in the query makes the parse fail with the semicolon error, whatever escape errors other segments hold |
| Url.ParseRawQuery | server/resolvers/totp_info.go:78 | parsing the plain `key=value&...` text of pairs free of `&`, `;`, `%` (and of `=` in keys) gives back the pairs in order, with `+` read as a space |
| Url.ParseEscapedQuery | server/resolvers/totp_info.go:78 | parsing the `QueryEscape`d `key=value&...` text of any byte-string pairs gives back exactly the pairs, in order |
| Url.EscapeAll | server/resolvers/totp_info.go:78 | the escaped pairs correspond one to one, in order, to the written pairs |
| Url.PlusAsSpaceAll | server/resolvers/totp_info.go:78 | the recovered pairs correspond one to one, in order, to the written pairs |

## Left out

- Logging (`log.Debug`, `fmt.Println`) has no effect on the result and is not modelled.
- The internals of the collaborators are not part of this model: the Gin context lookup, `cookie.GetMfaSession`, `cookie.GetOAuthMfaSession`, `db.Provider.GetUserByID`, `memorystore.Provider.GetMfaSession` and `crypto.DecryptB64`. They are I/O or cryptography. Each is an input that either succeeds with a value or fails with an error.
- `utils.ParseBool`, `utils.ParseStringArray` and `AsAPIUser` are not part of this model. Each is an arbitrary function given as input, so no default behaviour is assumed. Their Go result types (pointer or slice of pointers) are stood for by `bool`, `seq<string>` and a type parameter.
- The value of `redis.MfaOAuthSessionPrefix` is defined outside this model. It is an input, and the lemmas show that the store is asked with exactly that value.
- The `context.Context` handed to `GetUserByID` is not modelled; the lookup depends only on the user id.
- Pointer identity is not modelled. `refs.NewStringRef` and the `*AuthResponse` are `Some(...)`; a nil pointer is `None`.
- Go strings are byte strings; here a character stands for one byte. Multi-byte UTF-8 text is not modelled.
- `url.Values` is Go's `map[string][]string`. Here it is the ordered list of decoded pairs, which gives the same answer for `Get`. On error, `ParseQuery` also returns the partial map; the resolver discards it, and so does the model.
- The limit on the number of query parameters that recent Go releases add to `ParseQuery` is not modelled.
- Errors.Quote: stands for `strconv.Quote` only for fragments of printable characters other than `"` and `\`, because the escaped forms are never inspected: parse errors are returned unwrapped.
- How the TOTP information was written before it was encrypted is not part of this model. The lemmas cover two candidate encodings, each at the level of `ParseQuery` and of the whole resolver: plain `key=value` text (`ParseRawQuery`, `PlainTotpInfoRoundTrip`) and the same text with keys and values passed through `QueryEscape` (`ParseEscapedQuery`, `EscapedTotpInfoRoundTrip`). The escaped form keeps the pairs in the order given; Go's `Values.Encode` would also sort them by key, which `Get` does not notice.
