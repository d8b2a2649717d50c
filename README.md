# Media repository admin: bridge tokens, request identity, feed, reaction types, monthly chart

This project models, in Dafny, the request-handling core of the media
repository's admin application:

- the HS256 bridge token of `lib/app-token.ts`. It is a JWS Compact
  Serialization (section 7.1 of RFC 7515) whose segments are base64url
  (section 5 of RFC 4648) and whose payload carries the JWT claims `sub`,
  `iat`, `exp`, `iss` and `aud` (section 4.1 of RFC 7519). Issuing and
  verifying are modelled, with every reason a token is refused;
- the identity resolution of `lib/request-auth.ts`. A bearer token in the
  Authorization header decides alone; without one, the session of the
  identity provider decides;
- the token exchange of `app/api/auth/exchange/route.ts`. An external
  identity-provider token is traded for a bridge token that lasts one hour;
- the shuffled media feed of `app/api/medias/feed/route.ts`. It covers the
  parsing and clamping of `cursor` and `take`, the eligibility filter, the
  seeded order, the offset/limit page and `nextCursor`;
- the reaction-type administration of `app/api/reactions/types/route.ts`: a
  table (class `ReactionTypes.ReactionTypeTable`) changed by POST, PATCH and
  DELETE, and listed by GET;
- the "media per month" chart of `actions/get-graph-media-per-month.ts`, as
  two loops over a dictionary and a twelve-slot array.

Files:

- `wrappers.dfy`: Option and Result.
- `js_text.dfy`: the ECMAScript string operations used (trim, toUpperCase,
  String(n) and Number.parseInt), ASCII part only.
- `js_value.dfy`: JSON values with JavaScript truthiness, String(v) and
  Number(v).
- `sorting.dfy`: the store's ORDER BY, as a stable insertion sort, and the
  uniqueness of a sort without ties.
- The rest: one module per source file: `base64url.dfy` and `app_token.dfy`
  for `lib/app-token.ts`, `request_auth.dfy`, `auth_exchange.dfy`,
  `media_feed.dfy`, `reaction_types.dfy` and `graph_per_month.dfy`.

Inputs from outside the code become parameters:

- HMAC-SHA256, and JSON.stringify and JSON.parse of a payload, are the
  function fields of `AppToken.Primitives`. The only thing assumed of them
  is `Coherent`: parse reads back what stringify writes.
- The clock (`Math.floor(Date.now() / 1000)`) is a `now` parameter.
- The environment variables ADMIN_APP_TOKEN_SECRET and CLIENT_CLERK_JWT_KEY
  are `Option<string>` parameters.
- The identity provider's session user id (`auth().userId`) and its
  `verifyToken` are parameters.
- The store's `md5(concat("id", seed))` is a key function `key: string -> int`.
- The id the store generates for a new reaction type, and its creation
  time, are parameters.
- The media rows the chart reads are given as their month indices.

The page size `take` is 10 when it is absent or not a number, and also when
it is 0, because `parseInt(...) || 10` treats 0 as missing
(app/api/medias/feed/route.ts:25). `MediaFeed.TakeParsing` states this.

## Model

| member | source | states |
|---|---|---|
| Base64Url.RemoveAll | lib/app-token.ts:15 | dropping every '=' leaves no '=', keeps only characters of the input, and leaves a text without '=' unchanged |
| Base64Url.StdEncode | lib/app-token.ts:12-14 | Node's standard base64 text is always a whole number of 4-character groups |
| Base64Url.Encode | lib/app-token.ts:11-18 | base64UrlEncode writes only base64url characters, never '=', '+' or '/', and its length is that of the unpadded standard text |
| Base64Url.EncodeOfUnpadded | lib/app-token.ts:13-17 | the encoder's output is the unpadded standard text with '+' and '/' swapped for '-' and '_' |
| Base64Url.PadLength | lib/app-token.ts:21 | the decoder appends 0 to 3 '=' and the padded length is a multiple of 4 |
| Base64Url.PadLengthOfUnpadded | lib/app-token.ts:21-22 | on an encoded text the decoder re-appends exactly the padding the encoder removed |
| Base64Url.ToStdOfUrl | lib/app-token.ts:22 | the decoder's '-'→'+', '_'→'/' undoes the encoder's swap on any standard-alphabet text |
| Base64Url.StdDecodeEncode | lib/app-token.ts:14 | standard base64 decoding inverts standard base64 encoding for every byte string |
| Base64Url.DecodeEncode | lib/app-token.ts:11-24 | base64UrlDecodeToBuffer(base64UrlEncode(b)) == b for every byte string b |
| Base64Url.StdDecodeUnpadded | lib/app-token.ts:22-23 | a standard text the decoder accepts after re-padding is exactly the unpadded encoding of what it decodes to |
| Base64Url.Decode | lib/app-token.ts:20-24 | every base64url text base64UrlDecodeToBuffer accepts is exactly the encoding of the bytes it decodes to (the reverse round trip) |
| Base64Url.DecodeInjective | lib/app-token.ts:20-24 | two base64url texts that decode to the same bytes are the same text |
| AppToken.Split | lib/app-token.ts:61 | split on '.' gives at least one part, no part contains '.', and joining the parts with '.' gives back the text |
| AppToken.SplitJoin | lib/app-token.ts:61 | splitting undoes joining parts free of the separator |
| AppToken.ThreeSegments | lib/app-token.ts:46-52 | `h.p.s` built from three base64url segments splits back into exactly those three segments |
| AppToken.TokenAlphabet | lib/app-token.ts:46-52 | an issued token is written only with base64url characters and dots |
| AppToken.Ttl | lib/app-token.ts:35 | the lifetime is the larger of 60 and the requested ttl (3600 when none is given): at least both, and equal to one of them |
| AppToken.Issue | lib/app-token.ts:30-55 | issuing fails exactly when the secret is missing or empty; expiresAt is now + max(60, ttl, defaulting to 3600), so at least now + 60; the token has three dot-separated base64url segments |
| AppToken.IssuedSegments | lib/app-token.ts:37-53 | an issued token's first segment decodes to the header {"alg":"HS256","typ":"JWT"}; its second decodes to the stringified claims sub = userId, iat = now, exp = expiresAt, iss and aud the two fixed names, and parses back to them; its third is the encoded HMAC of the first two joined by '.' under the secret |
| AppToken.Verify | lib/app-token.ts:57-88 | no secret means rejected; a segment count other than 3 means rejected; a length or byte mismatch of the signature means it is not authentic; acceptance means the secret is set, the signature is authentic, the payload parses, sub is truthy, iss and aud match and exp is a number after now, and the verdict carries that sub; for an authentic token, an unreadable payload is rejected and a readable one is accepted exactly when its claims are current |
| AppToken.VerifyWellFormed | lib/app-token.ts:81-87 | an authentic token with a truthy sub, the right issuer and audience and a numeric exp is accepted with its sub while now < exp and refused as expired from then on |
| AppToken.IssueThenVerify | lib/app-token.ts:30-88 | under the same secret, a token issued for a non-empty user id verifies to that user id while now < expiresAt, and is refused as expired afterwards |
| AppToken.SignatureDetermined | lib/app-token.ts:67-72 | an accepted token written in base64url carries exactly the encoded HMAC of its first two segments as its signature |
| JsText.Trim | lib/request-auth.ts:6 | trim leaves a trimmed text no longer than its input, leaves a trimmed text unchanged, and empties an all-space text |
| JsText.TrimMiddle | lib/request-auth.ts:6 | trim returns a contiguous middle part of the text and removes only white space before and after it |
| JsText.TrimIdempotent | lib/request-auth.ts:7 | trimming twice is trimming once |
| JsText.ToUpper | app/api/reactions/types/route.ts:48 | upper-casing keeps the length |
| JsText.ToUpperKeepsTrimmed | app/api/reactions/types/route.ts:48 | upper-casing a trimmed text leaves it trimmed |
| JsText.ToUpperIdempotent | app/api/reactions/types/route.ts:48 | upper-casing twice is upper-casing once |
| JsText.ParseInt | app/api/medias/feed/route.ts:24-25 | parseInt yields a number exactly when digits follow the leading space and optional sign, and a negative number only after a '-' |
| JsText.DecimalValue | app/api/medias/feed/route.ts:51 | the digits String(n) writes denote n |
| JsText.ParseIntDecimal | app/api/medias/feed/route.ts:24 | parseInt reads back the number String(n) writes |
| JsValue.StringToNumber | app/api/reactions/types/route.ts:83 | Number of an empty or all-space text is 0; it is NaN exactly when the trimmed text is non-empty and, without its sign, is empty or not all digits ("12x", "1 2", "-") |
| JsValue.ToJsString | app/api/reactions/types/route.ts:48-50 | String(n) is read back by Number() as n for every integer n |
| JsValue.ToNumber | app/api/reactions/types/route.ts:83 | apart from null and the booleans, Number(v) is Number() of String(v); with ToJsString, Number(n) == n |
| RequestAuth.GetBearerToken | lib/request-auth.ts:4-8 | a token is returned exactly when the trimmed header matches `/^Bearer\s+(.+)$/i`; it is the trimmed group after the greedy white space, and is non-empty and trimmed |
| RequestAuth.GreedySpace | lib/request-auth.ts:6 | after "Bearer" and a space, the white space `\s+` consumes ends where the non-empty group starts |
| RequestAuth.MatchAfterSpace | lib/request-auth.ts:6 | without a line terminator after the white space, the pattern matches with the group starting there |
| RequestAuth.NoMatchWithoutPrefix | lib/request-auth.ts:6 | a header shorter than 7, not starting with "bearer" in any case, or without a space after it never matches |
| RequestAuth.NoMatchWithTerminator | lib/request-auth.ts:6 | a line terminator after the white space makes every match impossible |
| RequestAuth.NoMatchAt | lib/request-auth.ts:6 | with a non-space and a line terminator after it, no group start matches |
| RequestAuth.BearerOf | lib/request-auth.ts:4-8 | the header "Bearer t" yields t for every trimmed t free of line terminators |
| RequestAuth.NotBearer | lib/request-auth.ts:5-7 | an absent or empty header, "Bearer" alone, and "Bearerabc" yield no token |
| RequestAuth.GetRequestUserId | lib/request-auth.ts:15-26 | the result is never empty; with a bearer token, there is a user id exactly when the token verifies, and it is the verified token's subject; without one, exactly when the session user id is non-empty, and it is that id as a string |
| RequestAuth.NoSessionFallback | lib/request-auth.ts:16-22 | once a bearer token is present the session is never consulted, and a refused token gives no user id whatever the session |
| AuthExchange.ExternalSubject | app/api/auth/exchange/route.ts:30-32 | a subject is read exactly when verification returned a payload whose sub is a non-empty string, and it is that string |
| AuthExchange.Exchange | app/api/auth/exchange/route.ts:16-42 | no bearer token gives 400 before anything else; then a missing key gives 500; every later failure (no subject, or issuing throws) gives 401; success happens exactly when bearer, key, subject and secret are all present; it expires one hour after now; the token has three segments in the token alphabet |
| AuthExchange.ExchangeIssues | app/api/auth/exchange/route.ts:36-37 | a successful exchange returns exactly the token and expiresAt issued for the external subject with a 3600-second TTL |
| AuthExchange.BearerOfToken | app/api/auth/exchange/route.ts:6-10 | a token in the token alphabet sent as "Bearer token" is read back unchanged |
| AuthExchange.ExchangedTokenResolves | app/api/auth/exchange/route.ts:36-37 | the exchanged token, sent back as a bearer token, resolves to the external subject until it expires and to nobody afterwards, whatever the session |
| MediaFeed.OrDefault | app/api/medias/feed/route.ts:24 | an absent or empty parameter falls back; otherwise its text is used |
| MediaFeed.FallbackValues | app/api/medias/feed/route.ts:24-25 | the fallback texts "0" and "10" parse to 0 and 10 |
| MediaFeed.ParseCursor | app/api/medias/feed/route.ts:24 | the offset as a natural number; it carries no contract of its own, and its values are stated by `CursorDefault` and `CursorParsing` |
| MediaFeed.CursorDefault | app/api/medias/feed/route.ts:24 | an absent or empty cursor is 0 |
| MediaFeed.CursorParsing | app/api/medias/feed/route.ts:24 | a non-numeric or negative cursor is 0, and a numeric one of at least 0 is that number |
| MediaFeed.CursorOfDecimal | app/api/medias/feed/route.ts:24 | a cursor written as String(n) is read back as n |
| MediaFeed.ParseTake | app/api/medias/feed/route.ts:25-26 | the page size is between 1 and 30 |
| MediaFeed.TakeDefault | app/api/medias/feed/route.ts:25 | an absent or empty page size is 10 |
| MediaFeed.TakeParsing | app/api/medias/feed/route.ts:25-26 | a non-numeric page size or 0 gives 10; 1 to 30 is kept; above 30 gives 30; negative gives 1 |
| MediaFeed.ParticipantFilter | app/api/medias/feed/route.ts:19 | a participant filter, when present, is non-empty |
| MediaFeed.Filter | app/api/medias/feed/route.ts:28-31 | the filtered media are all eligible (not NSFW, and of the participant when one is given), and each eligible medium keeps its multiplicity |
| MediaFeed.SeededLeIsPreorder | app/api/medias/feed/route.ts:42 | ordering by the seeded key is total and transitive |
| MediaFeed.Ordered | app/api/medias/feed/route.ts:37-42 | the ordered rows are a permutation of the eligible media, sorted by the seeded key |
| MediaFeed.OrderedIsUnique | app/api/medias/feed/route.ts:42 | without key ties among eligible media, every sorted permutation of them is this order |
| MediaFeed.Window | app/api/medias/feed/route.ts:43-44 | OFFSET cursor LIMIT take returns at most take rows, exactly take when enough remain, and each is the row at its offset |
| MediaFeed.PageOf | app/api/medias/feed/route.ts:43-51 | a page is the window; nextCursor is present exactly when the page is full, which is when cursor + take rows exist, and then it is cursor + take |
| MediaFeed.FeedGet | app/api/medias/feed/route.ts:10-58 | an absent or empty seed, and only that, gives the 400 reply; otherwise the reply is the page at the parsed cursor and take of the eligible media in the seeded order |
| MediaFeed.FeedItemsEligible | app/api/medias/feed/route.ts:28-44 | every served item is an eligible medium of the store, and a page holds at most take items |
| MediaFeed.NextQueryCursor | app/api/medias/feed/route.ts:50-51 | the query for the next page reads back nextCursor and keeps the seed, participant and page size |
| MediaFeed.WalkStep | app/api/medias/feed/route.ts:42-51 | following nextCursor moves strictly forward within the same order, and this page followed by the rest of the walk is the rest of the order |
| MediaFeed.WalkEnd | app/api/medias/feed/route.ts:50-51 | the page without nextCursor is the rest of the order |
| MediaFeed.WalkCovers | app/api/medias/feed/route.ts:42-51 | from any cursor within the order, the pages collected by following nextCursor concatenate to the rest of the seeded order, with no repeats and no gaps |
| MediaFeed.WalkIsEligibleMedia | app/api/medias/feed/route.ts:28-51 | from the first page, the pages hold every eligible medium exactly once |
| Sorting.Insert | app/api/reactions/types/route.ts:19 | inserting into a sorted sequence gives a sorted permutation of it plus the new element |
| Sorting.InsertionSort | app/api/reactions/types/route.ts:19 | the sort is a sorted permutation of its input |
| Sorting.SortedUnique | app/api/medias/feed/route.ts:42 | two sorted permutations of the same elements are equal when no two distinct elements tie |
| ReactionTypes.NormalKey | app/api/reactions/types/route.ts:48 | a stored key is trimmed and upper case |
| ReactionTypes.NormalLabel | app/api/reactions/types/route.ts:49 | a stored label is trimmed |
| ReactionTypes.NormalKeyIdempotent | app/api/reactions/types/route.ts:48 | re-submitting a stored key stores the same key |
| ReactionTypes.NormalLabelIdempotent | app/api/reactions/types/route.ts:49 | re-submitting a stored label stores the same label |
| ReactionTypes.EmojiOf | app/api/reactions/types/route.ts:50 | the emoji is null exactly when the input is falsy, and is String(emoji) otherwise |
| ReactionTypes.NewRecord | app/api/reactions/types/route.ts:46-53 | a created record has the generated id and time, the normalised key and label, a null emoji when falsy, order 0 unless a number was given, and isActive true unless a boolean was given |
| ReactionTypes.Patched | app/api/reactions/types/route.ts:77-86 | exactly the fields the body gives are replaced (key and label normalised, emoji as in POST, order by Number, isActive by truthiness); id, creation time and every absent field stay; a normalised record stays normalised |
| ReactionTypes.PatchIdempotent | app/api/reactions/types/route.ts:77-86 | applying the same patch twice is applying it once |
| ReactionTypes.EmptyPatch | app/api/reactions/types/route.ts:79-85 | a body without fields leaves the record unchanged |
| ReactionTypes.IndexOfId | app/api/reactions/types/route.ts:78 | the record with the id is found exactly when the table has it, at a position holding that id |
| ReactionTypes.WithoutId | app/api/reactions/types/route.ts:109-111 | deleting keeps exactly the records with another id and changes nothing when the id is absent |
| ReactionTypes.DeleteRemovesOne | app/api/reactions/types/route.ts:109-111 | with unique ids, deleting the id of one record removes that record alone and keeps the rest in order |
| ReactionTypes.ActiveOnly | app/api/reactions/types/route.ts:18 | the active filter keeps exactly the active records with their multiplicity |
| ReactionTypes.ListLeIsPreorder | app/api/reactions/types/route.ts:19 | ordering by (order, createdAt) is total and transitive |
| ReactionTypes.Listing | app/api/reactions/types/route.ts:10-22 | GET lists every record when a signed-in user asks for all=1 and otherwise only the active ones, sorted by (order, createdAt) |
| ReactionTypes.ListingOrdered | app/api/reactions/types/route.ts:19 | consecutive entries never go down in order, nor, at equal order, in creation time |
| ReactionTypes.InactiveListedOnlyOnRequest | app/api/reactions/types/route.ts:13-18 | an inactive type is listed exactly when a signed-in user asks for all |
| ReactionTypes.ReactionTypeTable.Post | app/api/reactions/types/route.ts:29-61 | invalid JSON gives 500; then no user gives 401; then a falsy key or label gives 400, in that order; a record is created exactly when every check passes and neither the id nor the normalised key is taken; it is appended and is the new record; otherwise the table is unchanged; the invariant is kept |
| ReactionTypes.ReactionTypeTable.Patch | app/api/reactions/types/route.ts:63-93 | invalid JSON gives 500; then no user gives 401; then a falsy id gives 400; an update happens exactly when the id exists, order is a number when given, and the patched key is nobody else's; only that record changes, to its patch; otherwise nothing changes |
| ReactionTypes.ReactionTypeTable.Delete | app/api/reactions/types/route.ts:95-118 | invalid JSON gives 500; then no user gives 401; then a falsy id gives 400; deletion happens exactly when the id exists, and removes exactly the records with that id; otherwise nothing changes |
| ReactionTypes.AppendKeepsInvariant | app/api/reactions/types/route.ts:46-54 | a normalised record with a fresh id and key keeps ids and keys unique |
| ReactionTypes.PatchKeepsInvariant | app/api/reactions/types/route.ts:77-86 | a patch whose key is nobody else's keeps ids and keys unique and records normalised |
| ReactionTypes.DeleteKeepsInvariant | app/api/reactions/types/route.ts:109-111 | deleting keeps the table invariant |
| GraphPerMonth.CountByMonth | actions/get-graph-media-per-month.ts:11-21 | after the first loop the dictionary holds exactly the months that occur, each with its number of media, always at least 1 |
| GraphPerMonth.GraphMediaPerMonth | actions/get-graph-media-per-month.ts:8-43 | the chart has 12 bars named Jan to Dez in order, bar m holds the number of media of month m, and months without media stay 0 |
| GraphPerMonth.CountAll | actions/get-graph-media-per-month.ts:13-21 | the twelve monthly counts add up to the number of media |
| GraphPerMonth.GraphTotal | actions/get-graph-media-per-month.ts:23-42 | the bars of the chart add up to the number of media |

## Left out

- Base64Url.Decode: Node's Buffer decoder is lenient. It skips characters
  outside the alphabet and ignores non-zero trailing bits. The model decodes
  only canonical base64 and returns None otherwise. As a result, a token
  whose signature or payload segment is non-canonical is refused in the
  model, where Node might read it.
- Text handling is ASCII only. Trim, `\s`, the line terminators and
  toUpperCase cover their ASCII part. Payloads and HMAC inputs are treated
  as ASCII text.
- Numbers are integers. Fractional and non-finite JSON numbers, and
  Number()'s other accepted forms (hexadecimal, exponents, "Infinity"), are
  not modelled. Number of such a text is NaN (None) in the model.
- The Prisma Int range for `order` is not modelled.
- HMAC-SHA256, JSON.stringify/JSON.parse and md5 are parameters, not
  definitions.
- timingSafeEqual's constant-time behaviour cannot be stated; it is byte
  equality after the length check.
- MediaFeed.Ordered: the store's order among rows with equal keys is
  unspecified. The model uses a stable sort. `OrderedIsUnique` shows the
  order is forced once keys do not tie.
- The OPTIONS handlers (a fixed 204 reply) and the console logging in
  every catch block are not modelled.
- Requests are modelled one at a time. The check-then-write race between
  concurrent requests is not modelled.
- ReactionTypes.ReactionTypeTable: the table is a sequence of rows, not a
  map. GET's order then needs only the rows. Ids are kept unique by the
  invariant, so each id still names one record.
- The database's unique constraints on id and key are modelled as the
  500 reply when a write would break them. The Prisma schema is not part
  of this model.
- The reaction set/unset handler, the top-reactor sampling, the UI
  components, the other API routes, the seed script and the
  configuration are not part of this model.
- The exchange route carries its own copy of getBearerToken
  (app/api/auth/exchange/route.ts:6-10). It is identical to
  lib/request-auth.ts:4-8 and is modelled once, as
  `RequestAuth.GetBearerToken`.
- GraphPerMonth.GraphMediaPerMonth returns the bars as a sequence copied
  from the array it fills. The media rows are given as their month
  indices; reading them from the store is left out.
