# dibs-server request validation and record projection, in Dafny

This project models the part of the dibs-server REST service that is pure
logic: the checks the dibs router runs on a request body before it touches
the database, and the way stored records are turned into their public JSON
shape.

- `POST /` requires the keys `room`, `description` and `contents`. It then
  checks each sized field's trimmed length against its `min` and `max`. It
  answers the first violation with a structured 422 `ValidationError` whose
  `location` is the offending field.
- `PUT /:id` requires `room`, `description`, `contents` and `id`, then
  requires the path id to equal the body id. Either failure is a plain-text 400.
- The `Properties` and `Reservations` schemas declare an optional `user`,
  required `room`, `description` and `contents`, and `unpacked` with default
  `false`. Their `serialize` method projects a stored document onto
  `user`, `room`, `description`, `contents`, `id` (the document's `_id`) and
  `unpacked`.
- `GET /properties` and `GET /reservations` answer with the serialized form of
  every stored document.

Modules, one per concern:

| file | module | contents |
|---|---|---|
| options.dfy | `Options` | `Option` (also JavaScript's `undefined`), `Result`, map lookup |
| seqs.dfy | `Seqs` | `FirstIndex`, the position `Array.prototype.find` stops at |
| text.dfy | `Text` | ECMAScript `trim` and decimal rendering of numbers |
| models.dfy | `Models` | schemas, document creation, `serialize`, the list response |
| router.dfy | `Router` | `POST /` and `PUT /:id` validation and their messages |
| agreement.dfy | `Agreement` | how router acceptance and the schemas relate |

The `POST /` checks are written once, over a rule set (`CreateRules`): the
required keys in order and the sized fields with optional bounds. The
router's own rules are `PostRules`. This makes "too short is reported before
too long" a statement with content, even though the router's rules set no
maximum. A separate lemma shows the "at most" message can never come from
`PostRules`. Rule sets are restricted to well-formed ones (`Router.Rules`):
every sized field is also required, and no name is empty, repeated, made only of
digits, or one that every object inherits from `Object.prototype` (such as
`toString`), and no bound exceeds 2^53. These are the rule sets on which the handler's code behaves as the
model says; `PostRules` is one of them.

Document creation is the model's own rule for these two schemas, a
simplification of the database library. A value of the wrong kind fails its
path. A required string path fails when it is absent or `""`. The required
check looks at the supplied fields. All failing paths are reported together.
A created document keeps only declared keys, and a default fills a declared
path that was not supplied. The library's type casting and the order in which
it applies defaults and validators are not modelled (see "Left out").

`Agreement` relates the two halves. The `POST /` handler passes the request
body to `Box.create` (dibs/router.js:80), but `Box` is never defined. So
`Agreement` states what the `Properties` schema and its `serialize` would do
with a body the router accepts. It does not claim that the service stores
that body or lists it.

## Model

| member | source | states |
|---|---|---|
| `Seqs.FirstIndex` | dibs/router.js:33 | the result is the first position whose element satisfies the predicate, or none when no element does |
| `Text.IsWhitespace` | dibs/router.js:59 | the characters `trim` removes: the ECMAScript WhiteSpace and LineTerminator code points |
| `Text.TrimStart` | dibs/router.js:59 | the result is no longer than the input and does not start with whitespace |
| `Text.TrimStartSpec` | dibs/router.js:59 | the result of removing leading whitespace is a suffix of the input, and the dropped prefix is blank |
| `Text.TrimEnd` | dibs/router.js:59 | the result is no longer than the input and does not end with whitespace |
| `Text.TrimEndSpec` | dibs/router.js:59 | the result of removing trailing whitespace is a prefix of the input, and the dropped suffix is blank |
| `Text.Trim` | dibs/router.js:59 | the trimmed value is no longer than the input |
| `Text.TrimIsSlice` | dibs/router.js:59 | the trimmed value is the input with a blank prefix and a blank suffix cut off, unchanged in between, and when non-empty it neither starts nor ends with whitespace |
| `Text.TrimEmptyIffBlank` | dibs/router.js:59 | a value trims to length 0 exactly when every character of it is whitespace |
| `Text.TrimIdempotent` | dibs/router.js:59 | trimming a trimmed value changes nothing |
| `Text.NatToString` | dibs/router.js:72-75 | a bound up to 2^53 is rendered as a non-empty string of decimal digits with no leading zero |
| `Text.ParseNatToString` | dibs/router.js:72-75 | reading the rendered digits back gives the bound itself |
| `Router.PostRefusalStatus` | dibs/router.js:35-77 | every `POST /` refusal is sent with HTTP status 422 |
| `Router.UpdateRefusalStatus` | dibs/router.js:100-110 | every `PUT /:id` refusal is sent with HTTP status 400 |
| `Router.AtLeastReadsBack` | dibs/router.js:72-73 | the too-short message is "Must be at least ", then decimal digits that read back as the lower bound, then " characters long" |
| `Router.AtMostReadsBack` | dibs/router.js:74-75 | the too-long message is "Must be at most ", then decimal digits that read back as the upper bound, then " characters long" |
| `Router.MissingInBody` | dibs/router.js:101 | the missing-key reply is "Missing \`", the key itself, then "\` in request body" |
| `Router.IdMismatch` | dibs/router.js:107 | the mismatch reply holds the path id and then the body id, each in parentheses at fixed offsets around the fixed text |
| `Router.MessagesDistinct` | dibs/router.js:39-75 | "Missing field", the at-least message and the at-most message never coincide |
| `Router.AtLeastDeterminesBound` | dibs/router.js:72-73 | the too-short message determines the lower bound it reports |
| `Router.PostRules` | dibs/router.js:32-54 | the `POST /` rules: `room`, `description`, `contents` required in that order, each with minimum 1 and no maximum; a well-formed rule set |
| `Router.TooShort` | dibs/router.js:56-60 | a field is too short when it has a minimum and its trimmed value is shorter than that minimum |
| `Router.TooLong` | dibs/router.js:61-65 | a field is too long when it has a maximum and its trimmed value is longer than that maximum |
| `Router.InheritedNameNotWellFormed` | dibs/router.js:33 | a rule set requiring a name every object inherits, such as `toString`, is outside the well-formed rule sets, because `in` finds that name on every body |
| `Router.LargeBoundNotWellFormed` | dibs/router.js:72-75 | a rule set with a minimum or maximum above 2^53 is outside the well-formed rule sets, because a template literal may not write such a bound digit for digit |
| `Router.ValidateCreate` | dibs/router.js:32-78 | for any well-formed rule set: every refusal is 422 `ValidationError`; a missing-field refusal names an absent required key; a body passes exactly when all required keys are present and no sized field is too short or too long |
| `Router.ValidatePost` | dibs/router.js:32-78 | `POST /` accepts a body exactly when `room`, `description` and `contents` are all present and non-blank after trimming; every refusal is 422 `ValidationError` |
| `Router.PostPassIff` | dibs/router.js:32-78 | the router's rules pass a body exactly when `room`, `description` and `contents` are present and non-blank after trimming |
| `Router.PostPresent` | dibs/router.js:32 | all required keys are present exactly when `room`, `description` and `contents` are |
| `Router.PostNoUpperBound` | dibs/router.js:44-54 | no field of the router's rules has a maximum, so none is ever too long |
| `Router.PostLowerBound` | dibs/router.js:44-60 | with the keys present, no field is too short exactly when all three are non-blank after trimming |
| `Router.MinOneTooShortIffUnfilled` | dibs/router.js:56-60 | under a lower bound of 1, a present field is too short exactly when its trimmed value is empty |
| `Router.MissingFieldWins` | dibs/router.js:32-42 | when a required key is absent, the refusal is "Missing field" located at the first absent key in declaration order, whatever the lengths |
| `Router.PresenceBeforeLength` | dibs/router.js:33-60 | any refusal of a body lacking a required key is "Missing field"; a length message implies every required key is present |
| `Router.TooShortBeatsTooLong` | dibs/router.js:56-77 | with all keys present, the first too-short field is reported with its lower bound even when other fields are too long |
| `Router.TooLongReported` | dibs/router.js:61-76 | with every key present and no field too short, the first too-long field in declaration order is reported with the at-most message for that field's maximum, at that field |
| `Router.MinOneTooShortIffBlank` | dibs/router.js:56-60 | under a lower bound of 1, a present value is too short exactly when it is blank |
| `Router.BlankValueTooShort` | dibs/router.js:44-77 | a present but blank value is not missing; the first blank one yields "Must be at least 1 characters long" at that field |
| `Router.AtLeastOne` | dibs/router.js:72-73 | the lower bound 1 is rendered as "Must be at least 1 characters long" |
| `Router.UniformBoundMessages` | dibs/router.js:67-77 | when every sized field has the same minimum and no maximum, every refusal is "Missing field" or the at-least message for that minimum |
| `Router.PostRefusalMessages` | dibs/router.js:35-77 | every `POST /` refusal is either "Missing field" or the at-least-1 message |
| `Router.PostNeverTooLong` | dibs/router.js:61-76 | no `POST /` refusal carries the at-most message |
| `Router.MissingInBodyInjective` | dibs/router.js:101 | the missing-key reply determines which key it names |
| `Router.PutRequired` | dibs/router.js:97 | `PUT /:id` requires `room`, `description`, `contents`, `id`, checked in that order |
| `Router.UpdateVerdict` | dibs/router.js:97-110 | `PUT /:id` validation passes exactly when the four keys are present and the body id equals the path id; otherwise it is a plain-text 400 |
| `Router.UpdateMissingField` | dibs/router.js:97-105 | when a key is absent, the 400 says "Missing \`field\` in request body" for the first absent key of `room`, `description`, `contents`, `id` |
| `Router.UpdateIdMatch` | dibs/router.js:106-110 | with all keys present, the request is refused exactly when the ids differ, with the mismatch message, and passes otherwise |
| `Router.CheckUpdate` | dibs/router.js:97-110 | the handler's loop over the required keys followed by the id comparison gives the same verdict as `UpdateVerdict` |
| `Models.PropertiesSchema` | dibs/models.js:7-13 | optional string `user`; required strings `room`, `description`, `contents`; boolean `unpacked` with default `false` |
| `Models.ReservationsSchema` | dibs/models.js:28-34 | the same five paths as `PropertiesSchema` |
| `Models.Errors` | dibs/models.js:7-13 | a name is reported exactly when some declared path of that name fails |
| `Models.DefaultOf` | dibs/models.js:12 | a default found for a name is the default some path of that name declares |
| `Models.DefaultOfUndeclared` | dibs/models.js:12 | a name no path declares has no default |
| `Models.DefaultOfFirst` | dibs/models.js:12 | the default of a name is the one its first declaration gives |
| `Models.DefaultOfDistinct` | dibs/models.js:12 | when no name is declared twice, the default of a name is the one of its only declaration |
| `Models.PropertiesDistinctNames` | dibs/models.js:7-34 | neither schema declares a name twice |
| `Models.Populate` | dibs/models.js:7-13 | a new document keeps only declared keys, keeps supplied declared values verbatim, fills unsupplied declared keys from their defaults, and leaves out keys with neither |
| `Models.Create` | dibs/models.js:7-13 | creation succeeds exactly when no path fails; a created document carries the given id and only declared keys; a refusal names exactly the names of the failing paths, and at least one |
| `Models.SchemasIdentical` | dibs/models.js:7-34 | the `Properties` and `Reservations` schemas are identical, so creation under either gives the same result |
| `Models.RequiredPaths` | dibs/models.js:7-13 | the required paths are exactly `room`, `description` and `contents`; `user` and `unpacked` are optional |
| `Models.MissingRequiredRejected` | dibs/models.js:9-11 | a document lacking `room`, `description` or `contents`, or giving it as "", is refused and the refusal names that path |
| `Models.PropertiesNames` | dibs/models.js:7-13 | the schema declares exactly `user`, `room`, `description`, `contents`, `unpacked` |
| `Models.CreateSucceedsIff` | dibs/models.js:7-13 | creation succeeds exactly when the three required strings are non-empty strings and `user`/`unpacked`, when given, have their declared types |
| `Models.CreatedKeepsSupplied` | dibs/models.js:7-13 | an acceptable document is created, and the created document carries the given id, keeps supplied declared values verbatim, and holds no undeclared key |
| `Models.PropertiesDefaults` | dibs/models.js:12 | `unpacked` has the default `false` and `user` has none |
| `Models.CreatedDefaults` | dibs/models.js:8-12 | an acceptable document is created with `unpacked` false when none was supplied and no `user` when none was supplied |
| `Models.RequiredSupplied` | dibs/models.js:9-11 | a document whose `room`, `description` and `contents` are present and not "" supplies every required path |
| `Models.Serialize` | dibs/models.js:15-24 | the public shape has exactly the keys `user`, `room`, `description`, `contents`, `id`, `unpacked`; `id` is the document's `_id`; the other five are copied unchanged |
| `Models.SerializeReadsOnlyPublic` | dibs/models.js:15-24 | documents that agree on `_id` and the five copied fields serialize identically, so nothing else leaks |
| `Models.SerializeInjectiveOnPublic` | dibs/models.js:15-24 | the public shape determines the `_id` and the five copied fields |
| `Models.ListResponse` | dibs/router.js:16-26 | the list response has one entry per stored document, in order, each the document's public shape with its `_id` as `id` |
| `Agreement.RouterRequiredIsSchemaRequired` | dibs/router.js:32 | the router's required keys are exactly the required paths of both schemas |
| `Agreement.FilledIsNonEmpty` | dibs/router.js:59 | a value that passes the length check is not the empty string |
| `Agreement.AcceptedSuppliesRequired` | dibs/router.js:32-78 | any body `POST /` accepts supplies every required path of both schemas |
| `Agreement.FilledIsAcceptable` | dibs/models.js:8-12 | a body whose `room`, `description` and `contents` are non-blank after trimming, and which has no `unpacked`, meets every condition the schema sets for creation |
| `Agreement.AcceptedBodyRoundTrip` | dibs/models.js:7-24 | an accepted body without `unpacked` would be created under the `Properties` schema, and its public shape would show `user`, `room`, `description`, `contents` as sent, `unpacked` false and the given id |
| `Agreement.MissingRefusedByBoth` | dibs/router.js:32-42 | a body lacking a required key is refused by the router at that key, and the schema refuses it naming the same path |

## Left out

- Storing, updating and deleting: `Box.create`, `Box.findByIdAndUpdate` and `Box.findByIdAndRemove` (dibs/router.js:80-91, 111-112, 119-122) are database calls, and `Box` is never defined in dibs/router.js. The model stops at the validation in front of them; the 201, 204 and 500 replies are not modelled.
- `Properties.find()` and `Reservations.find()` are database queries; only the mapping of `serialize` over their result (`Models.ListResponse`) is modelled, and the 500 on a query failure is not.
- Authentication: the `jwtAuth` passport middleware (dibs/router.js:11) verifies signed tokens through an external library; it is not modelled.
- The 404 fallback (dibs/router.js:125-127), the JSON body parser, CORS, logging and the server lifecycle are framework and I/O.
- Non-string body values: the model's bodies map keys to strings. A number, boolean or `null` value would make `trim()` throw, and a numeric body `id` would always differ from the string path id under `!==`.
- `Agreement.AcceptedBodyRoundTrip`: requires the body to have no `unpacked` key, because the database library's conversion of strings such as "true" to booleans is not modelled; in the model a string `unpacked` is a type failure.
- `Models.Create`: the database library's casting of values between types, its generated ids and its version key are not modelled; `id` is a parameter.
- The JSON encoding of the public shape, which drops `undefined` values such as an absent `user`, is not modelled; `None` stands for that value.
- `Router.ValidateCreate`: lengths are counted in Unicode code points, where JavaScript's `length` counts UTF-16 code units; the two differ only for characters outside the Basic Multilingual Plane, and not at all for the bound 1 that `PostRules` uses. Rule sets outside `Router.Rules` are not modelled: on them the code would call `trim` on a missing value, skip an empty name, let `Object.keys` reorder digit-only names, find a name such as `toString` on every body through the prototype chain, or write a bound above 2^53 with rounded digits or in exponent form.
- `Text.NatToString`: writes every natural number in plain decimal digits; JavaScript does so only up to 2^53, so the model applies it only to bounds of well-formed rule sets, which stay below that.
- `Text.Trim`: the whitespace set is the fixed list of code points ECMAScript's `trim` removes; no other Unicode processing is modelled.
- Logging of the PUT refusals with `console.error` (dibs/router.js:102, 108) is output only.
