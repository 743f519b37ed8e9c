# master-api core, modelled in Dafny

This project models the decision logic of the master-api NestJS backend and proves
properties of it. The backend is an admin API with login, menus and role management.

- **Session-marker liveness** (`AuthService`, `JwtStrategy`). Each login stamps the
  user's single session row with the signing second and a random suffix. A bearer token
  is accepted only while that second is at most the token's `iat`. A later login
  therefore revokes every token issued in an earlier second.
- **Menu tree** (`MenuTree`). The flat rows of the menu query become a nested tree in
  one pass with an id map. The model uses an index arena for the shared JavaScript
  node objects.
- **Profile, menu, permission and login** (`AuthService`). These cover the credential
  failure paths, the landing-page check and the session/device upsert.
- **Role administration** (`UserService`). Create and update enforce case-insensitive
  unique names and word-capitalised names. An update replaces the role's whole flag set,
  and each call runs as one all-or-nothing transaction.
- **Request schemas** (`UserPipe`). These are the zod schemas for role bodies. They are
  written both as the checks the parser runs and as validity predicates.
- **String and pagination helpers** (`Utils`, `Pagination`, on top of `Text`).
- **Interceptors** (`Logging`, `Transform`, on top of `Json`). `Logging` redacts logged
  bodies and `Transform` wraps results in the success envelope.

## How the model is built

- **Tables.** Tables are immutable values: sequences in query order, and maps where a
  table is read by key. Each service call is a pure function from the tables to a
  reply and the new tables.
- **Transactions.** A transaction either commits the staged tables or puts back the
  snapshot taken before it started.
- **Things passed in as parameters.**
  - The password check is `verify(hash, plain)`.
  - The two clock readings are `nowMs` (the marker) and `signMs` (the token signer).
  - The marker's random suffix is `suffix`.
  - The token lifetime is `expiresIn`, in seconds.
- **Tokens.** An access token is modelled by the claim it carries.
- **Random characters.** `ValidateRandomChar` picks each character by a
  nondeterministic choice, like `Math.random`.
- **JavaScript semantics written out.**
  - `split(' ')` and `join(' ')`.
  - `String.prototype.replace` with a string pattern: first match only, and `$`
    replacement patterns are honoured.
  - `trim` and the `\s`/`\w` classes.
  - Truthiness.
  - `Object.entries` on arrays and strings.
  - The `in` operator's `TypeError` on primitives.
  - `Number()` of the marker prefix.
  - `Math.ceil` of a quotient.
- **Arena indices.** In the menu tree, slot *i* is the node object built from row *i*.
  Roots and child lists hold slot indices, and the nested result is rendered from the
  final lists.
- **Row order.** The menu query orders its rows by menu id and then by sort order
  (src/modules/auth/auth.service.ts:123-124). The pass attaches a row only to a row that
  came before it, so a child whose id is smaller than its parent's is dropped.

## Model

| member | source | states |
|---|---|---|
| Text.DecimalRoundTrip | src/modules/auth/auth.service.ts:72 | Parsing the decimal digits written for a natural number gives that number back. |
| Text.JoinSplit | src/commons/utils/utils.service.ts:45-52 | Joining the `split(' ')` tokens with single spaces restores the input exactly. |
| Text.SplitJoin | src/commons/utils/utils.service.ts:45-52 | Splitting the join of space-free tokens gives back the same tokens. |
| Text.TokenWiseShape | src/commons/utils/utils.service.ts:166-184 | A token map that keeps token length and adds no space keeps the string's length and its space positions. |
| Text.IndexOf | src/modules/auth/auth.service.ts:72 | The result is the first position of the character, or none when it does not occur. |
| Utils.ValidateStringIsFilter | src/commons/utils/utils.service.ts:26-29 | `'char'`/`'numeric'` filtering distributes over concatenation and keeps a character exactly when it is wanted. Every wanted character is kept as often as it occurs, in order. |
| Utils.KeepOnlyCounts | src/commons/utils/utils.service.ts:26-29 | The filter's multiset equals the input's for wanted characters and is zero for the rest. |
| Utils.ValidateStringIdempotent | src/commons/utils/utils.service.ts:21-40 | Filtering twice equals filtering once. |
| Utils.UpperCaseCapitalizesWords | src/commons/utils/utils.service.ts:42-53 | `validateUpperCase` equals the positional reference that upper-cases exactly the characters at the start or after a space. It keeps the length and the space positions. |
| Utils.UpperCaseIdempotent | src/commons/utils/utils.service.ts:42-53 | Capitalising twice equals capitalising once. |
| Utils.UpperCaseKeepsLowerForm | src/commons/utils/utils.service.ts:49 | Capitalising never changes a string's lower-case form. |
| Utils.MaskToken | src/commons/utils/utils.service.ts:169-181 | A token keeps its length. It becomes all stars when `start+end` reaches its length. Otherwise it keeps `start` leading and `end` trailing characters and stars the middle. |
| Utils.MaskedShape | src/commons/utils/utils.service.ts:166-184 | Masking keeps the string's length and the exact positions of its spaces. |
| Utils.MaskedTokens | src/commons/utils/utils.service.ts:166-184 | Token *i* of the masked string is the masked token *i* of the input. |
| Utils.CollapseNonWord | src/commons/utils/utils.service.ts:60 | Every run of non-word characters becomes a single dash. The result alternates word runs and single dashes and contains only input characters and dashes. |
| Utils.SlugIsWellFormed | src/commons/utils/utils.service.ts:55-62 | A slug is lower-case word characters in non-empty runs separated by single dashes, with no leading or trailing dash. |
| Utils.SlugIdempotent | src/commons/utils/utils.service.ts:55-62 | Slugging a slug changes nothing. |
| Utils.FindFrom | src/commons/utils/utils.service.ts:68 | The result is the first occurrence of the pattern at or after the start position, or none when there is no occurrence. |
| Utils.ReplaceFirst | src/commons/utils/utils.service.ts:68 | A pattern that does not occur leaves the string unchanged. |
| Utils.MessageWithoutPlaceholders | src/commons/utils/utils.service.ts:64-72 | A message without `{{` is returned unchanged for any variables. |
| Utils.SinglePlaceholderReplaced | src/commons/utils/utils.service.ts:64-72 | The first `{{1}}` after a brace-free prefix is replaced by a `$`-free variable. |
| Utils.DollarAmpersandReinsertsPlaceholder | src/commons/utils/utils.service.ts:68 | A variable `$&` puts the matched placeholder back instead of inserting itself. |
| Utils.ReplaceFirstLiteral | src/commons/utils/utils.service.ts:68 | Corrected substitution: the variable sits where the first placeholder was; the text before and after it is kept. |
| Utils.LiteralAgreesWithoutDollar | src/commons/utils/utils.service.ts:67-69 | With no `$` in the variables, the corrected substitution gives what the original gives. |
| Utils.SinglePlaceholderReplacedLiterally | src/commons/utils/utils.service.ts:64-72 | Corrected: any single variable replaces the first `{{1}}` after a brace-free prefix, `$` included. |
| Utils.DollarAmpersandInsertedLiterally | src/commons/utils/utils.service.ts:68 | Corrected: the variable `$&` arrives in the message as written. |
| Utils.PhoneIntlIsIdempotent | src/commons/utils/utils.service.ts:87-91 | Converting a non-empty number to `62` gives a number starting with `62`, and converting again changes nothing. |
| Utils.PhoneFormatsRoundTrip | src/commons/utils/utils.service.ts:74-93 | A `628…` number converted to `08` and back, or an `08…` number converted to `62` and back, is unchanged. |
| Utils.PhoneLocalShape | src/commons/utils/utils.service.ts:77-85 | An `08…` number is unchanged. Any other number becomes `0` followed by everything after its first two characters. |
| Utils.PhoneIntlShape | src/commons/utils/utils.service.ts:74-91 | A `62…` number is unchanged. Any other number becomes `628` followed by everything after its first two characters. |
| Utils.ValidateRandomChar | src/commons/utils/utils.service.ts:95-121 | The result has `n` characters (none for `n <= 0`). Each is the upper case of a character of the chosen alphabet. |
| Pagination.Paginate | src/commons/utils/utils.service.ts:186-210 | A non-zero page, limit or status is kept; an absent or zero one gives page 1, limit 10 and no status. `orderBy` and `search` pass through or default to empty. A non-empty sort is upper-cased; otherwise it is `DESC`. `skip = (page-1)*limit`. |
| Pagination.PaginateDefaults | src/commons/utils/utils.service.ts:187-192 | An empty query gives page 1, limit 10, sort `DESC`, empty order and search, and skip 0. |
| Pagination.PaginateFalsyFields | src/commons/utils/utils.service.ts:187-191 | A page or limit of 0 falls back to the default, a status of 0 is dropped, and a sort is upper-cased. |
| Pagination.PagesTile | src/commons/utils/utils.service.ts:196 | With positive page and limit, page 1 skips nothing and each next page starts `limit` rows later. |
| Pagination.CeilDiv | src/commons/utils/utils.service.ts:242 | The result is the least integer at or above the quotient, for either sign of the divisor. |
| Pagination.PaginationResponse | src/commons/utils/utils.service.ts:237-251 | The data is passed through. `page` (default 1), `totalData` (default 0) and `totalPerPage` (default 10) are the request's values when truthy. `totalPage` is the ceiling of `totalData/limit` for either sign of the limit, so a negative limit, which the code keeps, gives a non-positive page count (`Math.ceil(25 / -10)` is -2). |
| Pagination.PageHoldsRowsIffWithinTotal | src/commons/utils/utils.service.ts:237-251 | With a positive limit, page `p` starts before the end of the data exactly when `p` is at most `totalPage`. |
| Pagination.PaginationInfiniteResponse | src/commons/utils/utils.service.ts:226-235 | `getMore` holds exactly when the data length reaches the limit (default 10). |
| Pagination.InfiniteMoreMeansFullPage | src/commons/utils/utils.service.ts:226-235 | For a page cut at `skip`, `getMore` says whether `skip+limit` rows exist. A last page that is exactly full also sets it. |
| Json.IndexEntries | src/commons/interceptors/logging.ts:22 | An array's entries are keyed by the decimal indices, and every key is such an index. |
| Logging.HideSensitive | src/commons/interceptors/logging.ts:18-27 | A falsy body gives `{}`. Otherwise the keys are exactly the body's entries, `password`/`otp` become `[REDACTED]`, and all other values are kept. |
| Logging.HideSensitiveObject | src/commons/interceptors/logging.ts:20-25 | An object keeps exactly its keys, and only `password` and `otp` change. |
| Logging.HideSensitiveIdempotent | src/commons/interceptors/logging.ts:18-27 | Redacting a redacted body changes nothing. |
| Logging.HideSensitiveArray | src/commons/interceptors/logging.ts:21-26 | An array body is logged under its indices with every item unchanged. |
| Transform.Intercept | src/commons/interceptors/transform.ts:15-31 | `statusCode` is copied. Without a `message` key the envelope is `Success` over the untouched data. With one, the data loses exactly that key and the message is used when truthy. A truthy primitive result throws. |
| Transform.EnvelopeRebuildsResult | src/commons/interceptors/transform.ts:25-28 | Putting a truthy message back into the envelope's data rebuilds the handler's result. |
| Transform.AcknowledgementEnvelope | src/commons/interceptors/transform.ts:25-28 | `{message: m}` becomes the envelope with message `m` over empty data. |
| Transform.FalsyMessageFallsBack | src/commons/interceptors/transform.ts:27 | An empty or falsy override message falls back to `Success`. |
| MenuTree.LatestWithId | src/modules/auth/auth.service.ts:149 | The id map holds, for each id, the latest row so far with that id. |
| MenuTree.PlacementOf | src/modules/auth/auth.service.ts:149-156 | A row is attached at or before its own slot. The map is written before the parent lookup. |
| MenuTree.RootsUpToFacts | src/modules/auth/auth.service.ts:151-152 | The roots are exactly the rows with `header` 0, in strictly increasing arrival order. |
| MenuTree.ChildrenUpToFacts | src/modules/auth/auth.service.ts:153-156 | A slot's children are exactly the rows placed under it, in strictly increasing arrival order. |
| MenuTree.ChildrenUpTo | src/modules/auth/auth.service.ts:153-156 | A row is only ever pushed into the child list of itself or of an earlier row. |
| MenuTree.PlaceRow | src/modules/auth/auth.service.ts:134-156 | After one more row, the id map, the roots and every child list agree with their definitions over the rows seen so far. |
| MenuTree.BuildArena | src/modules/auth/auth.service.ts:131-157 | The single pass with the id map produces exactly the roots and child lists defined over the rows. |
| MenuTree.RenderNode | src/modules/auth/auth.service.ts:135-147 | A node copies its row's id, name, path, icon, level and flags. |
| MenuTree.BuildMenu | src/modules/auth/auth.service.ts:131-159 | The loop's result equals the forest defined over the rows. |
| MenuTree.RootsAreHeaderZeroRows | src/modules/auth/auth.service.ts:135-152 | The response has one node per `header`-0 row, in arrival order. Each copies its row's id, name, path, icon, level and flags, and has one child per row attached under it (itself excepted). |
| MenuTree.ChildAttachesToLatestMatchingRow | src/modules/auth/auth.service.ts:149-156 | Row `k` is in slot `j`'s child list exactly when its `header` is non-zero and `j` is the latest row up to `k` with that id. |
| MenuTree.UnmatchedRowIsDropped | src/modules/auth/auth.service.ts:154-155 | A row whose `header` names no row up to itself is in no root or child list, and no error is raised. |
| MenuTree.SelfAttachedRowIsUnreachable | src/modules/auth/auth.service.ts:149-155 | A row whose `header` is its own id lands only in its own child list, so no root reaches the cycle. |
| MenuTree.ChildBeforeParentIsDropped | src/modules/auth/auth.service.ts:154-155 | A child that arrives before its parent is dropped. |
| MenuTree.RootWithOneChild | src/modules/auth/auth.service.ts:134-157 | A root followed by its child gives one root holding that child. |
| AuthService.FindLoginUser | src/modules/auth/auth.service.ts:195-199 | The login query finds an active user with that username whose role exists, or none exists. |
| AuthService.GrantedMenus | src/modules/auth/auth.service.ts:107-125 | A role's menu rows are exactly the menus of its grants. |
| AuthService.FirstLandingPath | src/modules/auth/auth.service.ts:207-216 | The redirect is the path of the first row, in query order, whose path is non-empty. There is none when all paths are empty. |
| AuthService.JsNumber | src/modules/auth/auth.service.ts:72 | `''` is 0 and a string has a number exactly when it is all digits, so a string with a colon is NaN. |
| AuthService.JsNumberReadsDecimal | src/modules/auth/auth.service.ts:72 | A non-empty string without a leading zero reads as `n` exactly when it is the decimal representation of `n`. |
| Text.CanonicalDigitsRoundTrip | src/modules/auth/auth.service.ts:72 | A digit string without a leading zero is the decimal representation of its own value. |
| AuthService.JsNumberOfDecimal | src/modules/auth/auth.service.ts:72 | A second written in decimal reads back as that second. |
| AuthService.SignSession | src/modules/auth/auth.service.ts:39-53 | The marker is the decimal signing second, a colon and a five-character alphanumeric suffix, and it parses back to that second. |
| AuthService.MarkerTimeOfSessionId | src/modules/auth/auth.service.ts:40-42 | The number before the first colon of a marker written at second `t` is `t`, whatever the suffix. |
| AuthService.SessionIdExample | src/modules/auth/auth.service.ts:40-42 | 1718529600000 ms with suffix `AB123` gives `1718529600:AB123`. |
| AuthService.FreshMarkerSession | src/modules/auth/auth.service.ts:60-77 | After a user's marker is set to second `t`, that user's token is live exactly when its `iat` is at least `t`. Other users' liveness is unchanged. |
| AuthService.SessionExamples | src/modules/auth/auth.service.ts:60-77 | With `iat` 1000, marker 1001 is refused, marker 999 is accepted, and no marker is refused. |
| AuthService.Me | src/modules/auth/auth.service.ts:84-99 | The reply is the token's own id, name and access when the user row exists. Otherwise it is Unauthorized. |
| AuthService.Menu | src/modules/auth/auth.service.ts:106-160 | The reply is Forbidden exactly when the user's role grants no menu. Otherwise it is the forest of the granted rows. |
| AuthService.Permission | src/modules/auth/auth.service.ts:168-187 | The reply is the flags of a granted menu with that path. It is Forbidden exactly when no granted menu has the path. |
| AuthService.MenuRowsAreRoleGrants | src/modules/auth/auth.service.ts:107-125 | A user's menu rows are exactly the grants of the user's existing role. |
| AuthService.IssueClaim | src/modules/auth/auth.service.ts:222-226 | The token carries the user's id, full name and role name. `iat` is the signer's second and `exp` is `iat + expiresIn`. |
| AuthService.Login | src/modules/auth/auth.service.ts:194-284 | An unknown or inactive user and a wrong password get the same BadRequest. With the right password, the login succeeds exactly when a granted menu has a non-empty path, and is Forbidden otherwise. Every failure writes nothing. The redirect is the first landing path. On success the token and the redirect are returned, and the marker and device are each inserted or updated (never both). Nothing else changes. |
| AuthService.LoginIssuesLiveToken | src/modules/auth/auth.service.ts:222-247 | The token a login returns passes the session check against the tables the login leaves. |
| AuthService.LoginRevokesEarlierTokens | src/modules/auth/auth.service.ts:228-247 | After a login, a token of that user is live exactly when issued no earlier than the login's second. |
| AuthService.LoginKeepsOtherSessions | src/modules/auth/auth.service.ts:228-247 | A login does not change any other user's session check. |
| AuthService.SecondLoginRevokesFirstToken | src/modules/auth/auth.service.ts:194-284 | The first login's token survives a second login exactly when both happen in the same second. |
| JwtStrategy.Validate | src/modules/auth/jwt.strategy.ts:23-34 | The claim passes unchanged exactly when the session lookup answered true. A false answer or a lookup error gives Unauthorized. |
| JwtStrategy.Authenticate | src/modules/auth/jwt.strategy.ts:16-34 | Every refusal is Unauthorized. |
| JwtStrategy.AuthenticateIff | src/modules/auth/jwt.strategy.ts:16-34 | A request passes exactly when its token is signed, unexpired and live by the session check, and the handler then sees that claim. |
| JwtStrategy.FreshLoginAuthenticates | src/modules/auth/jwt.strategy.ts:23-34 | A freshly issued login token opens the guard until it expires. |
| JwtStrategy.EarlierTokenRefusedAfterLogin | src/modules/auth/jwt.strategy.ts:23-34 | After a login, a signed, unexpired token of that user from an earlier second is refused. |
| UserPipe.NumberIssues | src/modules/user/user.pipe.ts:9-12 | A number yields no issue exactly when it lies within its bounds, and every issue points at that field. |
| UserPipe.ParseCreate | src/modules/user/user.pipe.ts:3-16 | A create body passes unchanged exactly when it is valid. Otherwise at least one issue is reported. |
| UserPipe.ParseUpdate | src/modules/user/user.pipe.ts:18-23 | An update body passes unchanged exactly when it is valid. Otherwise at least one issue is reported. |
| UserPipe.EntriesIssuesIff | src/modules/user/user.pipe.ts:6-15 | The entries yield no issue exactly when every entry has `menu_id >= 1` and each flag is 0 or 1. |
| UserPipe.CreateIssuesIff | src/modules/user/user.pipe.ts:3-16 | A create body yields no issue exactly when its name has at least 3 characters, `access_detail` is non-empty and every entry is valid. |
| UserPipe.UpdateIssuesIff | src/modules/user/user.pipe.ts:18-23 | An update body yields no issue exactly when `id >= 1`, `status` is 0 or 1, and the rest is a valid create body. |
| UserPipe.EntriesIssuesPointAtEntries | src/modules/user/user.pipe.ts:6-15 | Every entry issue's path is `access_detail`, an existing index, and a field. |
| UserPipe.ShortNameReportedFirst | src/modules/user/user.pipe.ts:4 | A name shorter than 3 is the first issue reported. |
| UserPipe.EmptyDetailsSingleIssue | src/modules/user/user.pipe.ts:6-15 | With a fine name, an empty `access_detail` gives exactly one length issue. |
| UserService.FindByNameCI | src/modules/user/user.service.ts:42-45 | The result is the first role whose lower-cased name matches, or none when no role matches. |
| UserService.DetailRows | src/modules/user/user.service.ts:63-72 | There is one row per entry, in order, carrying the role id, the entry's menu and flags, and `m_view` at its default. |
| UserService.RunTransaction | src/modules/user/user.service.ts:54-80 | The staged tables are committed, or the role and detail tables are put back as before. |
| UserService.CreateAccess | src/modules/user/user.service.ts:41-85 | The reply is `Name already exists` exactly when a role name matches up to case, and then nothing is written. With a free name it succeeds exactly when every submitted menu exists. The only errors are the name clash and a failed transaction. On success one capitalised role is appended, with its details, the id counter moves on by one and the menu table is unchanged. |
| UserService.CreateOutcomeCases | src/modules/user/user.service.ts:41-85 | Name taken, transaction failed or success, each characterised by the name check and the submitted menus. |
| UserService.UpdateAccess | src/modules/user/user.service.ts:93-155 | NotFound exactly when no role has the id. `Name already exists` exactly when the role exists and the first case-insensitive match is another role. Past both checks it succeeds exactly when every submitted menu exists. Every failure writes nothing. On success the role is rewritten and its details are deleted, then re-inserted from the submission; the menu table and the id counter are unchanged. |
| UserService.UpdateOutcomeCases | src/modules/user/user.service.ts:93-155 | In valid tables: NotFound, name taken by another role, transaction failed or success, each characterised by the role's existence, the names and the submitted menus. |
| UserService.ClashIsFirstMatch | src/modules/user/user.service.ts:105-112 | With names distinct up to case, the first match is another role exactly when some other role holds the name. |
| UserService.CreatePreservesValid | src/modules/user/user.service.ts:41-85 | For a valid body, whatever the outcome, create keeps ids unique, names unique up to case, details pointing at existing roles and menus, and flags 0 or 1. |
| UserService.UpdatePreservesValid | src/modules/user/user.service.ts:93-155 | The same invariant is kept by update, whatever its outcome. |
| UserService.DuplicateCreateRefused | src/modules/user/user.service.ts:42-49 | Creating a name that matches an existing role up to case is refused with nothing written. |
| UserService.SecondCreateWithSameNameRefused | src/modules/user/user.service.ts:42-61 | After a successful create, creating the same name in any case is refused. |
| UserService.UpdateKeepingOwnNamePasses | src/modules/user/user.service.ts:105-112 | Keeping a role's own name, in any case, passes the name check. |
| UserService.UpdateToOthersNameRefused | src/modules/user/user.service.ts:105-112 | Taking another role's name up to case is refused with nothing written. |
| UserService.UpdateReplacesDetails | src/modules/user/user.service.ts:131-149 | After an update the role's detail set is exactly the submission, in order, and every other role's set is unchanged. |
| UserService.FailedUpdateRestoresDetails | src/modules/user/user.service.ts:117-150 | A failed update leaves every role's detail set and the role table as before. |
| UserService.UpdateFailsOnUnknownMenu | src/modules/user/user.service.ts:144-149 | Past the checks, the update transaction fails exactly when a submitted menu id is not in the menu table. |
| UserService.FailedCreateLeavesNoRole | src/modules/user/user.service.ts:54-80 | A failed create leaves no role and no detail rows. Only the consumed role id stays taken. |
| UserService.CreatedRoleHasSubmittedDetails | src/modules/user/user.service.ts:63-79 | A created role's detail set is exactly its submission. |
| UserService.AckEnvelope | src/modules/user/user.service.ts:82-84 | The `{message}` reply reaches the client as the envelope with that message over empty data. |

## Left out

- Case mapping is ASCII only. `toUpperCase`, `toLowerCase` and SQL `LOWER` on non-ASCII
  letters are not modelled; some of those change a string's length.
- AuthService.JsNumber: its contract gives a number exactly for all-digit strings
  (the empty string is 0) and NaN for everything else. `Number()` also accepts
  surrounding whitespace, signs, decimals, exponents and hex. Markers are written only
  by `SignSession`, whose contract makes the part before the colon a plain decimal, so
  those forms never reach it.
- Numbers are integers throughout. Fractional page, limit or totals, NaN and Infinity
  are not modelled.
- Utils.ValidateMasked takes `start` and `end` as naturals. Negative arguments to
  `slice` are not modelled.
- Utils.ValidateMasked and Json.Entries: a string is a sequence of code points, where
  the code counts and slices UTF-16 code units (src/commons/utils/utils.service.ts:170-178,
  src/commons/interceptors/logging.ts:22). A character outside the Basic Multilingual
  Plane masks to one `*` in the model and to two in the code, and `Object.entries` on a
  string gives it one entry in the model and two in the code.
- Request bodies are typed. A zod type mismatch (a string where a number is expected)
  is not modelled. String length counts code points where zod counts UTF-16 units.
- These helpers are left out: the base64 modes of `validateString`, AES-GCM
  `validateEncrypt`/`validateDecrypt`, `validateSafeJSON`, dayjs date formatting and
  the `users` field in `pagination`, and `paginationFilter`. They are encoding, crypto,
  JSON parsing or raw SQL text.
- External services are parameters:
  - argon2 hashing and comparison is the `verify` parameter;
  - JWT signing and verification is reduced to the claim it carries, a bad-signature
    case and the expiry rule;
  - `expiresIn` is a number of seconds, so duration strings such as `1d` are not
    parsed.
- Clocks and randomness are inputs. The marker's clock reading and the signer's clock
  reading are separate. Login takes the random suffix as a parameter, while
  `SignSession` draws it with `ValidateRandomChar`.
- Queries are abstract. Joins and SQL ordering are not modelled: rows arrive in the
  order the query's `ORDER BY` gives. Where a query has no order, the first row is the
  first in table order. This covers the login user, `permission`'s `getRawOne` and the
  name check's `getOne`.
- The session table is a map from user id to marker, so a user has at most one marker
  row. The device table is a map from user id to the submitted device record, and
  field-by-field copying is not modelled.
- Concurrent requests and the interleaving of the awaited writes in `login` are not
  modelled. The marker and device writes are not in one transaction in the code, and
  a failure between them is not modelled.
- Database faults other than a detail row naming a missing menu (the foreign key on
  `menu_id`) are not modelled. These include connection loss, an over-long name for
  `varchar(25)`, and a `created_by` foreign key. An empty `access_detail` never
  reaches the service because the schema rejects it; the model inserts no rows for it.
- The transaction runner (`src/datasources/runner`) is not part of this model. It is
  assumed to commit on normal return, and to roll back and rethrow on an error.
  Auto-increment role ids consumed by a rolled-back insert stay consumed.
- Timestamps, soft-delete columns, `deleted_by`, and the ids of detail and session
  rows are not modelled.
- The rest of the logging interceptor (timing, rxjs, winston) and the logger service
  are not modelled. `hideSensitive` returns a map, so the key order of
  `Object.fromEntries` is not kept.
- `user()` in the user service, the upload worker, controllers, modules, config, seeds
  and load scripts are outside the modelled core.

## Findings

| source | as written | input that shows it | evidently intended | confidence | as-written member | corrected member |
|---|---|---|---|---|---|---|
| src/commons/utils/utils.service.ts:68 | `request.replace(placeholder, v)` passes the variable as a replacement pattern. `$&`, `$$`, `` $` `` and `$'` in it are expanded. | message `{{1}}` with variables `["$&"]` gives `{{1}}` | the variable is inserted literally, giving `$&` | medium; not executed | Utils.DollarAmpersandReinsertsPlaceholder | Utils.DollarAmpersandInsertedLiterally |

The corrected definition is `Utils.ValidateReplaceMessageLiteral`. `Utils.LiteralAgreesWithoutDollar`
shows that it differs from the original only for variables that contain `$`.

## Where the code and its unit tests differ

The model follows the service code in each of these places:

- The claim and the profile reply name the role field `access`
  (src/modules/auth/auth.service.ts:97 and 229). The test fixtures name it `access_name`
  (src/modules/auth/auth.service.spec.ts:66-70 and 330-334).
- `createAccess` and `updateAccess` return only `{message}`
  (src/modules/user/user.service.ts:82-84 and 152-154). The tests expect `success: true`
  as well (src/modules/user/user.service.spec.ts:168-171 and 222-225).
- `user()` has no not-found check (src/modules/user/user.service.ts:28-33). The test at
  src/modules/user/user.service.spec.ts:74-77 expects a NotFoundException.
