# CGN operator search: request decoding, merchant search and health checks

This project models the core of the CGN operator-search service: the HTTP
functions that search online and offline merchants for the Carta Giovani
Nazionale ("CGN") programme.

It models four parts of that service.

- **Comma-separated list parameter.** The `productCategories` query
  parameter is decoded by a middleware. It builds an io-ts codec from the
  product-category enumeration (`fromEnum`). It lifts that codec to a
  comma-separated list (`CommaSeparatedListOf`): the string is split on `,`,
  each piece is trimmed, empty pieces are dropped, and the rest are decoded
  as an array. The middleware then answers `none`, `some(list)` or a
  validation-error response.
- **The two search handlers.** Each handler builds the `name_filter` SQL
  pattern and runs the query. It maps each row to a response item and
  decodes the items as the response body. A rejected query or a failed
  decode becomes an internal error. A synchronous throw in the handler's
  own code is not modelled (see "## Left out").
- **The health checks.** These are the problem strings `source|message`, the
  configuration check, the Azure Storage, Postgres and URL probes, and the
  application check, which runs the configuration check first and gates the
  database check on it.
- **The JavaScript and library behaviour these parts rely on**, modelled
  explicitly:
  - In JavaScript: `split`, `trim`, `filter(Boolean)`, truthiness,
    `String(array)`, `toLowerCase`, and the global newline `replace`.
  - In fp-ts: `fromNullable`, `toError`, and `Either` with `map`, `mapLeft`,
    `bimap`, `chain` and `fold`.
  - In io-ts: the codec record, `t.failure`, `t.string` and
    `t.readonlyArray`.

Everything in the core is pure, so the model is datatypes, functions and
lemmas. Each collaborator becomes a parameter of the function that uses
it:

- **Asynchronous ones**: the database, the storage services and the HTTP
  probe. Each is passed as the outcome it settles with, including a
  synchronous throw where the source lets one through.
- **The configuration loader**: `getConfig()` returns an `Either`
  synchronously, which utils/healthcheck.ts:50 lifts with `fromEither`. It
  is passed as that `Either` value.
- **Opaque library code**: `ProductCategoryFromModel`, `errorsToError`,
  `readableReport`, and the generated `OnlineMerchants`/`OfflineMerchants`
  decoders.

A `TaskEither` is modelled by the `Either` it resolves to.

The modules follow the source:

| module | file |
|---|---|
| `ProductCategoryList` | `optional_product_category_list_middleware.ts` |
| `HealthCheck` | `utils/healthcheck.ts` |
| `OnlineMerchants` | `GetOnlineMerchants/handler.ts` |
| `OfflineMerchants` | `GetOfflineMerchants/handler.ts` |
| `MerchantSearch` | the name filter and response pipeline that both handlers repeat |
| `JsString`, `Js`, `IoTs`, `Responses`, `Wrappers` | the language and library layer |

Three behaviours of the code that a reader might not expect:

- **Only the first problem is reported.** `checkAzureStorageHealth`
  (utils/healthcheck.ts:67-68) sequences its four service probes with fp-ts
  `array.sequence(taskEither)`. That keeps only the problem of the first
  failing service, in the order Blob, File, Queue, Table.
  `checkApplicationHealth` runs the configuration check and then a single
  database check, and the TODO at utils/healthcheck.ts:136 notes that only
  the first error is collected. `HealthCheck.SequenceResults`,
  `HealthCheck.CheckAzureStorageHealth` and
  `HealthCheck.CheckApplicationHealth` report the first failure only.
- **Some throws are not health problems.** The `tryCatch` wrappers catch
  only a rejection of the promise their thunk returns.
  - In `checkAzureStorageHealth`, `createService(connStr)` runs inside a
    promise executor. If it throws, the promise rejects with the thrown
    value. That value becomes an `AzureStorage` problem without the
    newline replacement a callback error gets
    (`HealthCheck.StorageThrowKeepsNewlines`).
  - In `checkPostgresHealth`, `new Sequelize(...)` runs in the thunk
    itself. If it throws, the exception escapes the check rather than
    becoming a `PostgresDB` problem. The model marks such a run as
    `HealthCheck.Run.Escaped` (`HealthCheck.DatabaseConstructorThrowEscapes`).
- **An empty parameter is present.** The middleware first applies
  `fromNullable`, so only `null` and `undefined` parameters give `none`. The
  empty string, or one such as `",,"` made of commas and white space, is
  present and gives `some([])` (`CategoryMiddlewareEmptyIsSomeEmpty`).
  Inside the codec, every falsy input decodes to `[]`
  (`CommaSeparatedEmptyInput`).

## Model

| member | source | states |
|---|---|---|
| JsString.TrimStart | GetOnlineMerchants/optional_product_category_list_middleware.ts:50 | the result is the longest suffix not starting with white space, and only white space was cut off |
| JsString.TrimEnd | GetOnlineMerchants/optional_product_category_list_middleware.ts:50 | the result is the longest prefix not ending with white space, and only white space was cut off |
| JsString.TrimEmptyIff | GetOnlineMerchants/optional_product_category_list_middleware.ts:50-51 | `trim` gives `""` exactly for all-white-space strings, which `filter(Boolean)` then drops |
| JsString.TrimUnchanged | GetOnlineMerchants/optional_product_category_list_middleware.ts:50 | a string with no white space at either end is left unchanged by `trim` |
| JsString.Split | GetOnlineMerchants/optional_product_category_list_middleware.ts:49 | `split(",")` never yields an empty array (the empty string gives one empty piece) |
| JsString.SplitPiecesOmitSeparator | GetOnlineMerchants/optional_product_category_list_middleware.ts:49 | no piece of a split contains the separator |
| JsString.JoinSplit | GetOnlineMerchants/optional_product_category_list_middleware.ts:49 | joining the pieces of a split with the separator gives back the input |
| JsString.SplitAfterPiece | GetOnlineMerchants/optional_product_category_list_middleware.ts:49 | a separator-free prefix followed by the separator splits off as exactly one piece |
| JsString.SplitWithoutSeparator | GetOnlineMerchants/optional_product_category_list_middleware.ts:49 | a string without the separator splits into itself alone |
| JsString.SplitJoin | GetOnlineMerchants/optional_product_category_list_middleware.ts:49 | splitting the join of separator-free pieces gives back exactly those pieces |
| JsString.SplitAllWhiteSpaceIff | GetOnlineMerchants/optional_product_category_list_middleware.ts:49-51 | every piece of the split is white space exactly when the input holds only commas and white space |
| JsString.ReplaceAll | utils/healthcheck.ts:86 | `replace(/\n/gim, " ")` keeps the length, changes every newline to a space, changes nothing else, and leaves no newline |
| JsString.LowerChar | GetOnlineMerchants/handler.ts:58-60 | an ASCII capital becomes its lower-case letter; every other character is kept |
| JsString.ToLower | GetOnlineMerchants/handler.ts:58-60 | `toLowerCase` keeps the length and lower-cases each character in place |
| JsString.ToLowerIdempotent | GetOnlineMerchants/handler.ts:58-60 | lower-casing leaves no ASCII capital, and lower-casing twice is the same as once |
| Js.FromNullable | GetOnlineMerchants/optional_product_category_list_middleware.ts:74 | `fromNullable` is `none` exactly for `null` and `undefined`, and otherwise holds the value unchanged |
| Js.Property | GetOnlineMerchants/optional_product_category_list_middleware.ts:74 | `request.query[name]` is the parameter's value, or `undefined` when the query has no such key |
| Js.NatToString | GetOnlineMerchants/optional_product_category_list_middleware.ts:46 | the array index written into an error path is a non-empty string of decimal digits that reads back as that index: `"0"` for 0, and no leading zero otherwise |
| Js.ToString | GetOnlineMerchants/optional_product_category_list_middleware.ts:56 | `String(v)` gives a string unchanged, a non-negative number as its decimal digits, and an array of strings as those strings joined with `,` (used by `toError` for non-`Error` values and by the list codec's `encode`) |
| Js.StrItems | GetOnlineMerchants/optional_product_category_list_middleware.ts:56 | the strings an array of strings holds, one per element, in order |
| Js.ErrorMessage | utils/healthcheck.ts:41 | `toError(e).message` is the message of an `Error`, and for a rejected string it is that string |
| IoTs.Failure | GetOnlineMerchants/optional_product_category_list_middleware.ts:27 | `t.failure(input, context)` fails with exactly one error, holding the input and the current path |
| IoTs.ValidateFrom | GetOnlineMerchants/optional_product_category_list_middleware.ts:46 | array validation succeeds exactly when every element does, and then holds their values in order; a failure holds every failing element's errors and no other error |
| IoTs.ValidateFromErrorsInOrder | GetOnlineMerchants/optional_product_category_list_middleware.ts:46 | a failure of array validation holds the failing elements' errors concatenated in element order, and nothing else |
| IoTs.ValidateArray | GetOnlineMerchants/optional_product_category_list_middleware.ts:46 | a non-array input fails with one error at the array's own path; an array is validated element by element from its first element |
| IoTs.EncodeArray | GetOnlineMerchants/optional_product_category_list_middleware.ts:56 | an array is encoded element by element, keeping its length and order |
| IoTs.ReadonlyArrayOf | GetOnlineMerchants/optional_product_category_list_middleware.ts:46 | `t.readonlyArray(decoder)` is named `ReadonlyArray<name>`; its `is` accepts arrays of decoder values; it validates element by element |
| IoTs.ReadonlyArrayGuardAgrees | GetOnlineMerchants/optional_product_category_list_middleware.ts:43-46 | when a decoder's `is` agrees with its `validate`, so does the array codec's: an accepted array validates, and the result encodes back to the input |
| IoTs.StringCodecDecodes | middlewares/__tests__/optional_query_param.test.ts:10 | `t.string` accepts exactly the strings, returns them unchanged, and fails with one error at the root otherwise |
| Responses.ValidationKind | GetOnlineMerchants/optional_product_category_list_middleware.ts:62 | the kind `IResponseErrorValidation` belongs to the validation-error response and to no other |
| Responses.ErrorFromValidationErrors | GetOnlineMerchants/optional_product_category_list_middleware.ts:82 | the validation-error response has kind `IResponseErrorValidation` and carries the type name and every decode error |
| ProductCategoryList.EnumValues | GetOnlineMerchants/optional_product_category_list_middleware.ts:21 | `Object.values(theEnum)` lists each member's value, one per member, in order |
| ProductCategoryList.EnumValidate | GetOnlineMerchants/optional_product_category_list_middleware.ts:26-27 | `fromEnum`'s validate succeeds exactly for the enumeration's values, with a member whose value is the input, and otherwise is `t.failure(input, context)` |
| ProductCategoryList.FindMember | GetOnlineMerchants/optional_product_category_list_middleware.ts:20-21 | a member is found exactly when the input is one of the enumeration's values, and the member found has that value |
| ProductCategoryList.FromEnum | GetOnlineMerchants/optional_product_category_list_middleware.ts:16-30 | the codec carries the enumeration's name; `is` accepts exactly the enumeration's values; encoding is the identity on values |
| ProductCategoryList.FromEnumValidates | GetOnlineMerchants/optional_product_category_list_middleware.ts:20-28 | validation succeeds exactly when `is` holds, returns a member whose value is the input, and otherwise is exactly `t.failure(input, context)` |
| ProductCategoryList.FromEnumGuardAgrees | GetOnlineMerchants/optional_product_category_list_middleware.ts:20-28 | whatever `is` accepts validates, at any path, to a value that encodes back to the input |
| ProductCategoryList.FromEnumRoundTrip | GetOnlineMerchants/optional_product_category_list_middleware.ts:26-28 | when members have distinct values, decoding a member's encoding gives that member back |
| ProductCategoryList.AllProductCategoriesComplete | GetOnlineMerchants/optional_product_category_list_middleware.ts:32-35 | every category is one of the members the codec is built from |
| ProductCategoryList.ParseProductCategory | GetOnlineMerchants/optional_product_category_list_middleware.ts:32-35 | a string reads as the category whose value it is, and as none when no category has that value |
| ProductCategoryList.ProductCategoryCodec | GetOnlineMerchants/optional_product_category_list_middleware.ts:32-35 | `productCategoryCodec` is named `ProductCategory` and encodes each category as its value |
| ProductCategoryList.ParseProductCategoryInverse | GetOnlineMerchants/optional_product_category_list_middleware.ts:32-35 | a string reads as a category exactly when it is that category's value |
| ProductCategoryList.ProductCategoryValuesArePlain | GetOnlineMerchants/optional_product_category_list_middleware.ts:49-51 | every category value is non-empty and holds no comma and no white space, so splitting and trimming leave it alone |
| ProductCategoryList.ProductCategoryCodecMatchesParse | GetOnlineMerchants/optional_product_category_list_middleware.ts:32-35 | `productCategoryCodec` decodes a string to the category it names and fails with one error on anything else |
| ProductCategoryList.TrimAll | GetOnlineMerchants/optional_product_category_list_middleware.ts:50 | `.map(e => e.trim())` trims each piece in place |
| ProductCategoryList.KeepNonEmpty | GetOnlineMerchants/optional_product_category_list_middleware.ts:51 | `.filter(Boolean)` keeps no empty string and is never longer than its input; it maps `[]` to `[]`, drops a lone `""` and keeps a lone non-empty string |
| ProductCategoryList.KeepNonEmptyAppend | GetOnlineMerchants/optional_product_category_list_middleware.ts:51 | filtering a concatenation is concatenating the filtered parts, so the kept strings stay in input order with their multiplicity |
| ProductCategoryList.KeepNonEmptyKeeps | GetOnlineMerchants/optional_product_category_list_middleware.ts:51 | `.filter(Boolean)` keeps exactly the non-empty strings; it keeps none exactly when every piece was empty |
| ProductCategoryList.StrValues | GetOnlineMerchants/optional_product_category_list_middleware.ts:47-51 | the tokens are handed to the array decoder as strings, one per token, in order |
| ProductCategoryList.ListInput | GetOnlineMerchants/optional_product_category_list_middleware.ts:47-54 | a string becomes the array of its tokens as strings, in order, each non-empty and without a comma; falsy input and strings of commas and white space become `[]`; any other input is passed on unchanged |
| ProductCategoryList.ValidateList | GetOnlineMerchants/optional_product_category_list_middleware.ts:45-55 | a string is validated as its tokens; falsy input and strings of commas and white space give `[]`; any other non-array fails at the list root |
| ProductCategoryList.EncodeList | GetOnlineMerchants/optional_product_category_list_middleware.ts:56 | a list whose elements encode as strings encodes as those strings joined by commas, in order |
| ProductCategoryList.EncodedNames | GetOnlineMerchants/optional_product_category_list_middleware.ts:56 | the strings the elements encode as, one per element, in order |
| ProductCategoryList.CommaSeparatedListOf | GetOnlineMerchants/optional_product_category_list_middleware.ts:37-57 | the list codec is named `CommaSeparatedListOf<name>`; its `is` accepts arrays of decoder values; it validates through the string-to-array conversion |
| ProductCategoryList.TrimIsInfix | GetOnlineMerchants/optional_product_category_list_middleware.ts:50 | trimming adds no character: every character of the trimmed string occurs in the string |
| ProductCategoryList.TrimmedPieceIsPlain | GetOnlineMerchants/optional_product_category_list_middleware.ts:49-50 | a trimmed piece of the split has no comma, and trimming it again changes nothing |
| ProductCategoryList.TokensArePlain | GetOnlineMerchants/optional_product_category_list_middleware.ts:47-51 | every token is non-empty, holds no comma and is already trimmed |
| ProductCategoryList.TokensEmptyIff | GetOnlineMerchants/optional_product_category_list_middleware.ts:47-53 | a string has no tokens exactly when it holds only commas and white space |
| ProductCategoryList.TokenValidationIsElementValidation | GetOnlineMerchants/optional_product_category_list_middleware.ts:46-51 | each token is validated at index k below the root of `t.readonlyArray(decoder)` |
| ProductCategoryList.CommaSeparatedValidatesTokens | GetOnlineMerchants/optional_product_category_list_middleware.ts:45-55 | decoding a string is validating its tokens as the elements of `t.readonlyArray(decoder)`, from a fresh root path whatever the caller's path |
| ProductCategoryList.ValidateTokensDecodes | GetOnlineMerchants/optional_product_category_list_middleware.ts:46 | tokens validate exactly when each of them does, and then give the decoded tokens in order |
| ProductCategoryList.ValidateTokensReportsEveryBadToken | GetOnlineMerchants/optional_product_category_list_middleware.ts:46 | a failure of the tokens holds the errors of every failing token and no other error |
| ProductCategoryList.ParsedTokensDecode | GetOnlineMerchants/optional_product_category_list_middleware.ts:46 | when each token decodes as a reading function says, the tokens validate exactly when every token reads, and give the readings in order |
| ProductCategoryList.BadIndicesFrom | GetOnlineMerchants/optional_product_category_list_middleware.ts:46 | the indices from a start position whose tokens are rejected, each once, in strictly ascending order, and every such index |
| ProductCategoryList.BadTokenErrorsAreRejected | GetOnlineMerchants/optional_product_category_list_middleware.ts:46 | the errors listed for the rejected indices are, as a set, exactly the errors of the rejected tokens |
| ProductCategoryList.TokenErrorsCons | GetOnlineMerchants/optional_product_category_list_middleware.ts:46 | the errors of an index list starting with i are the error of token i followed by those of the rest |
| ProductCategoryList.ErrorsFromAreTokenErrors | GetOnlineMerchants/optional_product_category_list_middleware.ts:46 | when each rejected token fails with its single `t.failure` error, the errors from a position on are one error per rejected token, in ascending index order |
| ProductCategoryList.ParsedTokensReportBadTokens | GetOnlineMerchants/optional_product_category_list_middleware.ts:46 | when each rejected token fails with its single `t.failure` error, a failure is exactly one error per rejected token, with the token and its index, in token order |
| ProductCategoryList.CommaSeparatedDecodesTokens | GetOnlineMerchants/optional_product_category_list_middleware.ts:45-55 | a string decodes exactly when every token decodes, and then yields the decoded tokens in input order |
| ProductCategoryList.CommaSeparatedReportsEveryBadToken | GetOnlineMerchants/optional_product_category_list_middleware.ts:45-55 | a failing token fails the whole list; the failure holds every bad token's errors and only those |
| ProductCategoryList.CommaSeparatedEmptyInput | GetOnlineMerchants/optional_product_category_list_middleware.ts:52-53 | falsy input, and strings made of commas and white space, decode to the empty list and never to a failure |
| ProductCategoryList.CommaSeparatedNonString | GetOnlineMerchants/optional_product_category_list_middleware.ts:54 | other truthy non-strings go to `t.readonlyArray(decoder).decode` unchanged; a non-array fails at the list root |
| ProductCategoryList.CommaSeparatedGuardAgrees | GetOnlineMerchants/optional_product_category_list_middleware.ts:43-46 | an array accepted by `is` validates, and the result encodes element-wise back to the array |
| ProductCategoryList.KeepAllNonEmpty | GetOnlineMerchants/optional_product_category_list_middleware.ts:51 | `filter(Boolean)` leaves a list of non-empty strings unchanged |
| ProductCategoryList.TokensOfJoin | GetOnlineMerchants/optional_product_category_list_middleware.ts:47-51 | comma-joined plain tokens tokenise back to exactly those tokens |
| ProductCategoryList.EncodeListTokens | GetOnlineMerchants/optional_product_category_list_middleware.ts:47-56 | a list whose elements encode as plain tokens encodes as their comma join, which tokenises back to exactly those tokens |
| ProductCategoryList.ValidateEncodedNames | GetOnlineMerchants/optional_product_category_list_middleware.ts:46 | when each element's encoding decodes back to it, the encodings validate as tokens to the list |
| ProductCategoryList.CommaSeparatedRoundTrip | GetOnlineMerchants/optional_product_category_list_middleware.ts:45-56 | when each element encodes as a plain token that decodes back, decoding `String(encode(xs))` gives back `xs` |
| ProductCategoryList.ProductCategoryListRoundTrip | GetOnlineMerchants/optional_product_category_list_middleware.ts:81 | every list of categories survives a round trip through its comma-separated form |
| ProductCategoryList.CategoryTokenValidation | GetOnlineMerchants/optional_product_category_list_middleware.ts:81 | a token that names a category decodes to it; any other token fails with one error naming the token and its index |
| ProductCategoryList.CategoryTokensDecodeAsParse | GetOnlineMerchants/optional_product_category_list_middleware.ts:26-27 | each category token decodes as the exhaustive match reads it, and fails with its single `t.failure` error otherwise |
| ProductCategoryList.CategoryTokensDecode | GetOnlineMerchants/optional_product_category_list_middleware.ts:46 | category tokens validate exactly when every one is a category, and give their categories in order |
| ProductCategoryList.CategoryTokensReportBadTokens | GetOnlineMerchants/optional_product_category_list_middleware.ts:46 | a failure of category tokens is exactly one error per token that is not a category, with the token and its index, in token order, and no other error |
| ProductCategoryList.ProductCategoryListDecodes | GetOnlineMerchants/optional_product_category_list_middleware.ts:81 | a category list decodes exactly when every token is a category, and yields those categories in order |
| ProductCategoryList.ProductCategoryListReportsBadTokens | GetOnlineMerchants/optional_product_category_list_middleware.ts:81-82 | a failure is exactly one error per token that is not a category, each with the token and its index, in token order |
| ProductCategoryList.OptionalQueryParam | GetOnlineMerchants/optional_product_category_list_middleware.ts:72-85 | `none` exactly for a missing, `null` or `undefined` parameter; `some(x)` only when the parameter decodes to x; a left only as the validation error holding the decode errors |
| ProductCategoryList.OptionalQueryParamOutcomes | GetOnlineMerchants/optional_product_category_list_middleware.ts:72-85 | `none` exactly for an absent parameter; `some(x)` exactly when it is present and decodes to x; otherwise a validation error holding the decode errors |
| ProductCategoryList.CategoryMiddlewareValidatesTokens | GetOnlineMerchants/optional_product_category_list_middleware.ts:74-83 | a string parameter is answered with `some` of its validated tokens, or with a validation error under `ProductCategory` holding the tokens' errors |
| ProductCategoryList.CategoryMiddlewareEmptyIsSomeEmpty | GetOnlineMerchants/optional_product_category_list_middleware.ts:52-53 | a present parameter made of commas and white space gives `some([])`, not `none` |
| ProductCategoryList.CategoryMiddlewareOnJoin | GetOnlineMerchants/optional_product_category_list_middleware.ts:72-85 | for comma-joined plain tokens, the answer is `some` of their categories in order exactly when every token is a category, and otherwise a validation error reported under `ProductCategory` |
| ProductCategoryList.CategoryMiddlewareSingleInvalid | GetOnlineMerchants/optional_product_category_list_middleware.ts:81-82 | a single token that is not a category gives a validation-error response |
| ProductCategoryList.CategoryMiddlewareEncoded | GetOnlineMerchants/optional_product_category_list_middleware.ts:72-85 | a parameter holding the encoding of a category list gives `some` of exactly that list |
| ProductCategoryList.EncodePair | GetOnlineMerchants/optional_product_category_list_middleware.ts:56 | two categories encode as their values joined by a comma |
| ProductCategoryList.CategoryMiddlewareMissing | GetOnlineMerchants/__tests__/optional_product_category_list_middleware.test.ts:12-23 | a missing parameter gives `none` |
| ProductCategoryList.CategoryMiddlewareInvalid | GetOnlineMerchants/__tests__/optional_product_category_list_middleware.test.ts:25-36 | `"something"` gives a left with kind `IResponseErrorValidation` |
| ProductCategoryList.OptionalProductCategoryListMiddleware | GetOnlineMerchants/optional_product_category_list_middleware.ts:59-85 | `none` exactly for an absent parameter; a left is always a validation error reported under `ProductCategory` |
| ProductCategoryList.OptionalQueryParamMiddleware | middlewares/__tests__/optional_query_param.test.ts:10-55 | `none` exactly for an absent parameter; a left is always a validation error reported under the codec's name |
| ProductCategoryList.ShoppingEntertainmentEncoding | GetOnlineMerchants/__tests__/optional_product_category_list_middleware.test.ts:38-57 | `"shopping,entertainment"` is the encoding of the list `[shopping, entertainment]` |
| ProductCategoryList.ShoppingEntertainmentString | GetOnlineMerchants/__tests__/optional_product_category_list_middleware.test.ts:38-57 | the test's parameter is the value of `shopping`, a comma, then the value of `entertainment` |
| ProductCategoryList.CategoryMiddlewareValid | GetOnlineMerchants/__tests__/optional_product_category_list_middleware.test.ts:38-57 | `"shopping,entertainment"` gives `some([shopping, entertainment])` |
| ProductCategoryList.StringMiddlewareScenarios | middlewares/__tests__/optional_query_param.test.ts:10-55 | with `t.string`: missing gives `none`, the number 5 gives a validation error, `"hello"` gives `some("hello")` |
| HealthCheck.SourceNamedName | utils/healthcheck.ts:23 | each problem source's tag reads back as that source, and holds neither the bar separator nor a newline |
| HealthCheck.FormatProblem | utils/healthcheck.ts:32-35 | the problem string is the source tag, then the bar separator, then the message |
| HealthCheck.FormatProblemKeepsChar | utils/healthcheck.ts:32-35 | a formatted problem holds every character of its message |
| HealthCheck.IndexOf | utils/healthcheck.ts:32-35 | the first occurrence of a character is found exactly when the string holds it, and no earlier position holds it |
| HealthCheck.SourceNamed | utils/healthcheck.ts:23 | a tag reads as a source only when it is that source's name |
| HealthCheck.IndexOfAfterPrefix | utils/healthcheck.ts:32-35 | the first separator after a separator-free prefix is right after that prefix |
| HealthCheck.ParseFormatProblem | utils/healthcheck.ts:32-35 | a formatted problem reads back as exactly its source and message, even when the message holds the bar separator |
| HealthCheck.FormatParseProblem | utils/healthcheck.ts:32-35 | every string that reads as a problem is the formatting of what it reads as |
| HealthCheck.FormatProblemInjective | utils/healthcheck.ts:32-35 | problems with different sources or messages are different strings |
| HealthCheck.ToHealthProblems | utils/healthcheck.ts:38-42 | exactly one problem, attributed to the given source, whose message is `toError(e).message` |
| HealthCheck.SequenceResults | utils/healthcheck.ts:67-68 | sequencing succeeds exactly when every check does, with their values in order; otherwise it carries the problems of the first failing check |
| HealthCheck.CheckConfigHealth | utils/healthcheck.ts:49-55 | a good configuration passes through; otherwise there is one `Config` problem per decoding error, in order, each with the readable report of that error alone |
| HealthCheck.StorageFailure | utils/healthcheck.ts:83-90 | a failed probe is one `AzureStorage` problem: a `createService` throw with its `toError` message, a callback error with its message newline-replaced |
| HealthCheck.CheckStorageService | utils/healthcheck.ts:77-91 | one service's check succeeds exactly when its callback returns the properties, and then holds them; otherwise it fails with one `AzureStorage` problem |
| HealthCheck.StorageProblemsShape | utils/healthcheck.ts:86-90 | a storage callback error is one `AzureStorage` problem whose message has newlines turned into spaces, and the problem holds no newline |
| HealthCheck.CheckAzureStorageHealth | utils/healthcheck.ts:64-94 | `true` exactly when all four services answer; otherwise the problems of the first failing service in the order Blob, File, Queue, Table: a callback error newline-replaced, a `createService` throw as thrown |
| HealthCheck.StorageThrowKeepsNewlines | utils/healthcheck.ts:77-90 | a `createService` throw is one `AzureStorage` problem that keeps any newline of the thrown message |
| HealthCheck.CheckPostgresHealth | utils/healthcheck.ts:103-112 | `true` exactly when the query on the given URI resolves; a rejection of the query is a `PostgresDB` problem; a throw of `new Sequelize` escapes the check, carrying what was thrown |
| HealthCheck.CheckUrlHealth | utils/healthcheck.ts:121-124 | `true` exactly when the `HEAD` request resolves, on any HTTP status; otherwise its rejection as a `Url` problem |
| HealthCheck.CheckApplicationHealth | utils/healthcheck.ts:131-143 | a configuration failure is reported as the configuration problems; otherwise the run is the Postgres check on the configured read-only URI, including an escaping constructor throw |
| HealthCheck.ApplicationHealthyIff | utils/healthcheck.ts:131-143 | the application is healthy exactly when the configuration reads and the query on the configured database resolves; health is always `true` |
| HealthCheck.ConfigFailureReportedAlone | utils/healthcheck.ts:134-136 | a configuration failure gives one `Config` problem per error, and the database is never consulted |
| HealthCheck.DatabaseFailureReported | utils/healthcheck.ts:135-143 | after a good configuration, a rejected query is one `PostgresDB` problem holding the error's message |
| HealthCheck.DatabaseConstructorThrowEscapes | utils/healthcheck.ts:106-143 | after a good configuration, a throw of `new Sequelize` is no health problem: the whole run rejects with what was thrown |
| MerchantSearch.NameFilter | GetOnlineMerchants/handler.ts:58-60 | `name_filter` is `%`, the lower-cased name (empty when absent), then `%` |
| MerchantSearch.NameFilterIgnoresCase | GetOfflineMerchants/handler.ts:51-53 | the filter ignores ASCII case, holds no ASCII capital, and treats an absent name as the empty one |
| MerchantSearch.MapRows | GetOnlineMerchants/handler.ts:67-68 | `rows.map(f)` has one item per row, in row order |
| MerchantSearch.SearchResponse | GetOnlineMerchants/handler.ts:45-82 | a failed query is an internal error with the error's message; a failed decode is an internal error with the errors' message; otherwise the decoded body is sent |
| MerchantSearch.SearchResponseKinds | GetOnlineMerchants/handler.ts:30-32 | the handlers never answer with a validation error: success exactly when the query succeeds and the items decode |
| MerchantSearch.FailedQuerySkipsDecoding | GetOnlineMerchants/handler.ts:76-81 | after a failed query, the response depends neither on the decoder nor on the row mapping |
| OnlineMerchants.QueryFor | GetOnlineMerchants/handler.ts:47-61 | the query gets the request's name, categories, page and page size, with `name_filter` built from the name |
| OnlineMerchants.ToItem | GetOnlineMerchants/handler.ts:68-74 | an item keeps every column of its row, maps each category through `ProductCategoryFromModel` in order, and copies `website_url` to `websiteUrl` |
| OnlineMerchants.GetOnlineMerchantsHandler | GetOnlineMerchants/handler.ts:39-83 | the handler never answers with a validation error; a rejected query is an internal error with its message; a success needs a successful query |
| OnlineMerchants.HandlerOutcomes | GetOnlineMerchants/handler.ts:39-83 | a failed query gives an internal error; otherwise one item per row, in order, is decoded and sent, or its decode errors become an internal error |
| OnlineMerchants.HandlerAsksOneQuery | GetOnlineMerchants/handler.ts:45-66 | the response depends on the database only through the query built from the request |
| OfflineMerchants.QueryFor | GetOfflineMerchants/handler.ts:47-54 | the query gets the whole request, with `name_filter` built from the merchant name |
| OfflineMerchants.Round | GetOfflineMerchants/handler.ts:67 | `Math.round(x)` is the integer n with n - 0.5 <= x < n + 0.5 |
| OfflineMerchants.RoundUnique | GetOfflineMerchants/handler.ts:67 | that integer is unique |
| OfflineMerchants.RoundIntegral | GetOfflineMerchants/handler.ts:67 | rounding leaves integers alone |
| OfflineMerchants.RoundDistance | models/OfflineMerchantModel.ts:14 | an `undefined` distance rounds to `NaN`; a number rounds to the nearest integer |
| OfflineMerchants.ToItem | GetOfflineMerchants/handler.ts:59-72 | an item keeps id, name, categories and coordinates; groups address and coordinates into `address`; rounds the distance; maps each category in order |
| OfflineMerchants.ToItemKeepsRow | GetOfflineMerchants/handler.ts:59-72 | every column of the row can be read back from its item; the distance can be read back when it was already an integer |
| OfflineMerchants.GetOfflineMerchantsHandler | GetOfflineMerchants/handler.ts:39-80 | the handler never answers with a validation error; a rejected query is an internal error with its message; a success needs a successful query |
| OfflineMerchants.HandlerOutcomes | GetOfflineMerchants/handler.ts:39-80 | a failed query gives an internal error; otherwise one item per row, in order, is decoded and sent, or its decode errors become an internal error |
| OfflineMerchants.HandlerAsksOneQuery | GetOfflineMerchants/handler.ts:45-58 | the response depends on the database only through the query built from the request |

## Left out

- Request wiring is not modelled: `GetOnlineMerchants` and `GetOfflineMerchants` are only `withRequestMiddlewares(ContextMiddleware(), RequiredBodyPayloadMiddleware(...))` and `wrapRequestHandler`, which are library code. The models start from the request the body middleware decoded.
- `middlewares/optional_query_param.ts` is not part of this model. `ProductCategoryList.OptionalQueryParamMiddleware` models it on the pattern of the category middleware and checks it against its test.
- The database, the Sequelize query options and the SQL text are not modelled (`utils/postgres_queries` is not part of this model). Each handler sends the database a record of the query builder's arguments plus the `name_filter` replacement, and receives the rows or a rejection. A synchronous throw inside the handlers' `tryCatch` thunk (from the query builder) or in the row mapping (from `ProductCategoryFromModel`) escapes `tryCatch` instead of becoming an internal error. The model does not represent it.
- `ProductCategoryFromModel`, `errorsToError`, `readableReport`, `getConfig` and the generated codecs (`OnlineMerchants`, `OfflineMerchants`, the search requests, the definitions behind `ProductCategoryEnum`) are not part of this model. They are function parameters.
- The enumeration's values are assumed to be the nine lower-case category names. The tests confirm only `shopping` and `entertainment`. The proofs rely only on the values being distinct, non-empty, and free of commas and white space.
- The name `ResponseErrorFromValidationErrors(ProductCategory)` reports under is taken to be `"ProductCategory"`, the generated codec's name.
- Asynchrony is not modelled. A `TaskEither` is the `Either` it settles with. The four storage probes start concurrently in the source; the model keeps only the order in which their outcomes are combined.
- HealthCheck.CheckAzureStorageHealth: states the first-failure semantics of fp-ts 1.x `array.sequence`, which the code uses. The library is not part of this model.
- HealthCheck.CheckPostgresHealth: how an exception that escapes `tryCatch` travels on (a rejected task, then whatever the caller of the health check does with it) is not modelled. The model only marks the run as `Run.Escaped` with the thrown value.
- HealthCheck.CheckConfigHealth: the configuration is reduced to the one field the checks read, the Postgres read-only URI.
- OfflineMerchants.Round: numbers are exact reals. IEEE-754 rounding, `-0`, infinities, and `NaN` inputs other than `undefined` are not modelled.
- JsString.ToLower: lower-cases only the ASCII letters A to Z. Full Unicode case mapping is not modelled.
- Js.Value: numbers are integers and strings are sequences of Dafny characters. UTF-16 surrogate pairs are not distinguished.
- Validation values:
  - `fromEnum` returns the input value on success. The model returns the enumeration member whose value it is, which encodes back to that input.
  - Element codecs that fail with an empty error list are not distinguished from ones that fail with errors.
- IoTs.ReadonlyArrayOf: its contract does not state `encode`, because a function's contract cannot quantify over all values of the element type. `IoTs.EncodeArray` states it instead.
- ProductCategoryList.CommaSeparatedListOf: the same: `ProductCategoryList.EncodeList` defines `encode`, and `CommaSeparatedRoundTrip` relates it to decoding.
- ProductCategoryList.EncodeList: encodes each element with the element codec before `String(...)`. The source's `encode` is plain `String` on the decoded array (optional_product_category_list_middleware.ts:56). The two agree only for element codecs whose `encode` is the identity, as `fromEnum`'s is. `CommaSeparatedRoundTrip` is stated about the model's `encode`.
- OnlineMerchants.ToItem: the row type `OnlineMerchantRow` assumes the four columns the handler reads. `models/OnlineMerchantModel.ts` is not part of this model.
