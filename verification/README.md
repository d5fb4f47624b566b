# A verified model of the nest-template user store and its common layer

This project models the core of a NestJS service template, which has these parts:

- **`UsersService`**: an in-memory store of `User` records with create, list, find, update and remove.
- **Pagination and string helpers**: the paginated response builder, `slugify`, `truncateText`, `omit` and `pick`.
- **`ParseUuidPipe`**: the pipe that accepts a route parameter only when it is a UUID in the layout of section 3 of RFC 4122.
- **The business exceptions**: the exceptions the store throws.
- **The global HTTP exception filter**: it turns any `HttpException` into the error envelope sent to the client.
- **The `ClientIp` decorator**: it reads the client address from `x-forwarded-for`.

The modules follow the program's structure:

| module | models |
|---|---|
| `Users` (`users.dfy`) | the `User` record and the class `UsersService`. Its `users: seq<User>` field is the private array that `create` pushes onto, `update` assigns into by index and `remove` splices. |
| `Helpers` (`helpers.dfy`) | `createPaginatedResponse`, `slugify`, `truncateText`, `omit`, `pick` |
| `ParseUuid` (`parse_uuid.dfy`) | the UUID regular expression and `transform` |
| `Exceptions` (`exceptions.dfy`) | the HTTP exceptions and the three business exceptions |
| `ExceptionFilter` (`exception_filter.dfy`) | `getErrorMessage`, `getValidationDetails` and the envelope `catch` builds |
| `ClientIp` (`client_ip.dfy`) | the decorator's header-parsing callback |
| `JsText` (`js_text.dfy`) | the ECMAScript built-ins the core relies on: `trim`, `trimEnd`, `slice` with negative indices, `split` on one character, ASCII `toLowerCase`, and the string order that stands in for `localeCompare` |
| `Wrappers` (`wrappers.dfy`) | `Option` and `Result` |
| `Scenarios` (`scenarios.dfy`) | short call sequences on a `UsersService`, checked against the contracts |

Some inputs are nondeterministic or come from outside the core. They become parameters:

- The generated id (`uuidv4()`) is `freshId`.
- The clock (`new Date().toISOString()`) is `now`.
- The filter takes the request URL.

Errors the source throws become values:

- The store returns `Result<_, StoreError>`. `ToHttpException` maps each `StoreError` to the exception the source throws.
- The pipe returns `Result<string, HttpException>`.

## Model

| member | source | states |
|---|---|---|
| `Users.RoleName` | src/modules/users/entities/user.entity.ts:1 | a role's text is one of 'admin', 'user', 'guest' |
| `Users.ToHttpException` | src/modules/users/users.service.ts:26-28 | not-found becomes a 404 and duplicate a 409 business exception with the entity's message; the probe of an empty store is no HTTP exception |
| `Users.IndexOfId` | src/modules/users/users.service.ts:75 | `findIndex`: -1 exactly when no user has the id; otherwise the first index holding it |
| `Users.EmailTaken` | src/modules/users/users.service.ts:23-25 | the `find` callback of `create` matches some stored user: some user has the email; `FindEmail` proves the loop decides it |
| `Users.EmailTakenByOther` | src/modules/users/users.service.ts:82-84 | the `find` callback of `update` matches some stored user: some user with another id has the email |
| `Users.EmailTruthy` | src/modules/users/users.service.ts:81 | `if (updateUserDto.email)`: an email is given and is not the empty string |
| `Users.IndexOfAppended` | src/modules/users/users.service.ts:38 | a user pushed with a fresh id is found at the old length |
| `Users.IndexOfRemoved` | src/modules/users/users.service.ts:106 | with distinct ids, the spliced-out id is no longer found |
| `Users.Merged` | src/modules/users/users.service.ts:90-95 | the updated record keeps id and createdAt, takes each supplied field and the old value of each other one, and has the new updatedAt |
| `Users.AppendKeepsEmailsDistinct` | src/modules/users/users.service.ts:23-38 | appending a user whose email no stored user has keeps emails distinct |
| `Users.ReplaceKeepsEmailsDistinct` | src/modules/users/users.service.ts:81-97 | replacing a record by one whose email no other user has keeps emails distinct |
| `Users.ProbeHits` | src/modules/users/users.service.ts:48 | `sort in sortedUsers[0]` on a non-empty store: true for the six fields of `User` and for the names every object inherits from `Object.prototype`; `ListViewOrder` proves what sorting by either kind does |
| `Users.SortRequested` | src/modules/users/users.service.ts:48 | `sort &&`: a sort is given and is not the empty string |
| `Users.Ascending` | src/modules/users/users.service.ts:52 | `order === 'asc'`, with 'asc' the default of line 43 |
| `Users.SortKey` | src/modules/users/users.service.ts:50-51 | `String(user[sort] ?? '')`: the field's text, or the text of the inherited value, which `InheritedKeyIsShared` proves the same for every user |
| `Users.InOrder` | src/modules/users/users.service.ts:52-54 | the comparator's verdict that `a` may precede `b`: keys in string order for 'asc', reversed otherwise; `InOrderTotal` and `InOrderTransitive` prove it a total preorder |
| `Users.InOrderTotal` | src/modules/users/users.service.ts:49-55 | the comparator orders any two users one way or the other |
| `Users.InOrderTransitive` | src/modules/users/users.service.ts:49-55 | the comparator's order is transitive |
| `Users.Insert` | src/modules/users/users.service.ts:49 | inserting one user gives a permutation of the list plus that user |
| `Users.SortUsers` | src/modules/users/users.service.ts:49-55 | the sorted copy is a permutation of the stored users |
| `Users.InsertInFront` | src/modules/users/users.service.ts:49-55 | a user that may precede the head of a sorted list may precede the whole list |
| `Users.InsertBehindHead` | src/modules/users/users.service.ts:49-55 | the head of a sorted list stays first after another user is inserted behind it |
| `Users.InsertSorted` | src/modules/users/users.service.ts:49-55 | insertion keeps a list sorted |
| `Users.SortUsersSorted` | src/modules/users/users.service.ts:49-55 | the sorted copy is ordered by the field's text, ascending for 'asc' and descending otherwise |
| `Users.SortUsersTies` | src/modules/users/users.service.ts:49 | when all keys tie, the stable sort returns the list unchanged |
| `Users.InheritedKeyIsShared` | src/modules/users/users.service.ts:50-51 | a sort name that `in` finds only on `Object.prototype` gives every user the same key |
| `Users.ListView` | src/modules/users/users.service.ts:45-56 | the list before slicing is a permutation of the stored users |
| `Users.ListViewOrder` | src/modules/users/users.service.ts:45-56 | without a sort, or with a sort that names no field, insertion order is kept; with a field, the list is ordered by it in the requested direction |
| `Users.PageOf` | src/modules/users/users.service.ts:60-61 | `slice(start, start + perPage)` for a page: never more users than the list holds, nor more than perPage |
| `Users.PageOfPositive` | src/modules/users/users.service.ts:60-61 | for page and perPage of at least 1, a page starts at (page-1)*perPage and has min(perPage, max(0, total-start)) users |
| `Users.PagesPrefix` | src/modules/users/users.service.ts:60-61 | pages 1 to n concatenate to the first n*perPage users |
| `Users.PagesCover` | src/modules/users/users.service.ts:59-63 | pages 1 to totalPages concatenate to the whole list: every user is on exactly one page, in order |
| `Users.UsersService.constructor` | src/modules/users/users.service.ts:19 | the store starts empty |
| `Users.UsersService.FindIndex` | src/modules/users/users.service.ts:75 | the loop returns the index `IndexOfId` specifies |
| `Users.UsersService.FindEmail` | src/modules/users/users.service.ts:82-84 | the loop finds a user with the email, other than the one with the excluded id when one is given, exactly when there is one |
| `Users.UsersService.Create` | src/modules/users/users.service.ts:21-40 | a taken email fails with Duplicate("User","email") and changes nothing; otherwise exactly one record is appended, with the given name and email, the given role or 'user', and both timestamps now; preserves distinct emails and, for a fresh id, distinct ids |
| `Users.UsersService.FindAll` | src/modules/users/users.service.ts:42-64 | fails exactly when a sort is requested on an empty store; otherwise the data is the requested page (page and perPage default to 1 and 10) of the possibly sorted list, total is the store size and totalPages the ceiling; the store is not modified |
| `Users.UsersService.FindOne` | src/modules/users/users.service.ts:66-72 | NotFound("User", id) exactly when no user has the id; otherwise the first user with it |
| `Users.UsersService.Update` | src/modules/users/users.service.ts:74-99 | not-found and duplicate-email failures leave the store as it was; otherwise the record at the same index is replaced by the merged one and every other index is untouched; preserves distinct ids, and, when ids are distinct, distinct emails for any patch whose email is not the empty string |
| `Users.UsersService.Remove` | src/modules/users/users.service.ts:101-107 | not-found leaves the store as it was; otherwise exactly that index is deleted and the rest keep their order; preserves distinct ids and emails |
| `Helpers.CeilQuotient` | src/common/utils/helpers.ts:12 | `Math.ceil(total / perPage)`: the least k with k*perPage >= total for positive perPage, the matching bound for negative perPage, and Infinity, -Infinity or NaN for a zero perPage |
| `Helpers.CeilBounds` | src/common/utils/helpers.ts:12 | the integer quotient (t + d - 1) / d is the ceiling of t / d |
| `Helpers.CeilQuotientIsLeast` | src/common/utils/helpers.ts:12 | k pages of perPage hold total items exactly when k is at least totalPages |
| `Helpers.CreatePaginatedResponse` | src/common/utils/helpers.ts:6-20 | success is true, data passes through unchanged, page, perPage and total are copied, and totalPages is the least sufficient page count for a positive perPage |
| `Helpers.SlugCharIsPlain` | src/common/utils/helpers.ts:44-49 | a slug character is untouched by each step of slugify |
| `Helpers.LettersAndDigitsAppend` | src/common/utils/helpers.ts:43-50 | the letters and digits of a concatenation are those of each part, in order |
| `Helpers.LettersAndDigitsNone` | src/common/utils/helpers.ts:47-49 | text with no lower-case letter or digit has none to keep |
| `Helpers.DropWordlessPrefix` | src/common/utils/helpers.ts:46 | dropping a prefix without letters or digits keeps every letter and digit in order |
| `Helpers.DropWordlessSuffix` | src/common/utils/helpers.ts:46 | dropping a suffix without letters or digits keeps every letter and digit in order |
| `Helpers.LettersAndDigitsFrame` | src/common/utils/helpers.ts:46 | cutting away ends without letters or digits keeps every letter and digit in order |
| `Helpers.TrimKeepsWords` | src/common/utils/helpers.ts:46 | `trim` removes no letter or digit and keeps their order |
| `Helpers.RemoveUnsafe` | src/common/utils/helpers.ts:47 | keeps exactly the word characters, whitespace and hyphens, and every lower-case letter and digit in its order |
| `Helpers.RunwiseSkipsRun` | src/common/utils/helpers.ts:48 | inside a run of separators, the rest of the run yields nothing |
| `Helpers.RunwiseKeepsWords` | src/common/utils/helpers.ts:48 | replacing separator runs by hyphens keeps every lower-case letter and digit in its order |
| `Helpers.RunwiseChars` | src/common/utils/helpers.ts:48 | replacing separator runs leaves no whitespace or underscore and brings in only hyphens |
| `Helpers.CollapseSeparators` | src/common/utils/helpers.ts:48 | agrees with the character-by-character reference `CollapseRunwise`, in which each maximal run of whitespace and underscores becomes exactly one hyphen and every other character stays in place; so no separator is left, only hyphens are added, and every letter and digit is kept in order |
| `Helpers.HyphenEndsKeepWords` | src/common/utils/helpers.ts:49 | removing hyphens at both ends removes no letter or digit |
| `Helpers.StripHyphens` | src/common/utils/helpers.ts:49 | the result neither starts nor ends with a hyphen, adds no character, and keeps every letter and digit in order |
| `Helpers.Slugify` | src/common/utils/helpers.ts:43-50 | `slugify`, the five steps composed, over ASCII text only: the result has only lower-case letters, digits and hyphens, no hyphen at either end, and exactly the letters and digits of the lower-cased text in their order; `SlugifyIdempotent` proves that slugifying it again changes nothing |
| `Helpers.RemoveUnsafeKeepsSlugChars` | src/common/utils/helpers.ts:47 | removing unsafe characters leaves slug characters as they are |
| `Helpers.CollapseKeepsSlugChars` | src/common/utils/helpers.ts:48 | collapsing separators leaves slug characters as they are |
| `Helpers.SlugLowerCaseStable` | src/common/utils/helpers.ts:45 | lower-casing leaves a slug as it is |
| `Helpers.SlugTrimStable` | src/common/utils/helpers.ts:46 | trimming leaves a slug as it is |
| `Helpers.SlugStripStable` | src/common/utils/helpers.ts:49 | stripping hyphens at both ends leaves a slug as it is |
| `Helpers.SlugIsAscii` | src/common/utils/helpers.ts:43 | a slug is ASCII text |
| `Helpers.SlugifyFixesSlugs` | src/common/utils/helpers.ts:44-49 | every step of slugify is a no-op on a slug |
| `Helpers.SlugifyIdempotent` | src/common/utils/helpers.ts:43-50 | slugify is idempotent |
| `Helpers.TruncateText` | src/common/utils/helpers.ts:55-58 | text no longer than maxLength (default 100) is returned as is; longer text gives a prefix of the slice, trailing whitespace trimmed, with "..." appended |
| `Helpers.TruncateTextBound` | src/common/utils/helpers.ts:57 | the result is at most maxLength + 3 long and what precedes the ellipsis is a prefix of the input |
| `Helpers.Omit` | src/common/utils/helpers.ts:63-72 | the loop's result lacks exactly the listed keys, and every other key keeps its value |
| `Helpers.Pick` | src/common/utils/helpers.ts:77-88 | the loop's result has exactly the listed keys the input has, each with its value |
| `JsText.DropLeading` | src/common/utils/helpers.ts:49 | drops the longest prefix of characters with the property and nothing else |
| `JsText.DropTrailing` | src/common/utils/helpers.ts:49 | drops the longest suffix of characters with the property and nothing else |
| `JsText.TrimEnd` | src/common/utils/helpers.ts:57 | `trimEnd` removes exactly the trailing whitespace |
| `JsText.LeadingSpace` | src/common/utils/helpers.ts:46 | the length of the leading whitespace |
| `JsText.Trim` | src/common/decorators/client-ip.decorator.ts:18 | `trim` returns the middle of the string between its leading and trailing whitespace |
| `JsText.ToLowerAscii` | src/common/utils/helpers.ts:45 | maps 'A'..'Z' to 'a'..'z' and leaves every other character alone |
| `JsText.LowerCase` | src/common/utils/helpers.ts:45 | lower-cases each character in place |
| `JsText.ClampIndex` | src/modules/users/users.service.ts:61 | a `slice` bound: counted from the end when negative, clamped to the length |
| `JsText.JsSlice` | src/modules/users/users.service.ts:61 | `slice` never yields more elements than the array holds, nor more than its bounds are apart |
| `JsText.JsSliceNonNegative` | src/modules/users/users.service.ts:61 | for a non-negative start, `slice` is the run from start up to the end bound or the array's end |
| `JsText.Split` | src/common/decorators/client-ip.decorator.ts:18 | `split` yields at least one piece; the first is the text before the first separator |
| `JsText.SplitJoin` | src/common/decorators/client-ip.decorator.ts:18 | joining the pieces with the separator gives back the string |
| `JsText.LexLe` | src/modules/users/users.service.ts:53-54 | `localeCompare(a, b) <= 0`, as lexicographic order on characters; the four lemmas below prove it a total order |
| `JsText.LexLeReflexive` | src/modules/users/users.service.ts:53-54 | the string order is reflexive |
| `JsText.LexLeTotal` | src/modules/users/users.service.ts:53-54 | the string order is total |
| `JsText.LexLeTransitive` | src/modules/users/users.service.ts:53-54 | the string order is transitive |
| `JsText.LexLeAntisymmetric` | src/modules/users/users.service.ts:53-54 | the string order is antisymmetric |
| `ParseUuid.Matches` | src/common/pipes/parse-uuid.pipe.ts:8-9 | an anchored match of the pattern's atoms (each class with its repeat count, the constant `UuidPattern` for this regex) consumes exactly the atoms' width |
| `ParseUuid.IsUuid` | src/common/pipes/parse-uuid.pipe.ts:8-9 | `uuidRegex.test`: an accepted string is 36 characters long; `IsUuidPositional` gives its exact layout |
| `ParseUuid.MatchesPositional` | src/common/pipes/parse-uuid.pipe.ts:8-9 | an anchored match of a sequence of repeated classes is a string of the pattern's width with each character in its position's class |
| `ParseUuid.UuidPatternWidth` | src/common/pipes/parse-uuid.pipe.ts:9 | the pattern spans 36 characters |
| `ParseUuid.UuidPatternHead` | src/common/pipes/parse-uuid.pipe.ts:9 | the classes at positions 0 to 18 |
| `ParseUuid.UuidPatternTail` | src/common/pipes/parse-uuid.pipe.ts:9 | the classes at positions 19 to 35 |
| `ParseUuid.UuidPatternLayout` | src/common/pipes/parse-uuid.pipe.ts:9 | the pattern puts hyphens at 8, 13, 18 and 23, the version class at 14, the variant class at 19 and hex digits elsewhere |
| `ParseUuid.IsUuidPositional` | src/common/pipes/parse-uuid.pipe.ts:8-9 | the regular expression accepts a string exactly when it has this 36-character layout |
| `ParseUuid.AcceptedLayout` | src/common/pipes/parse-uuid.pipe.ts:9 | an accepted string has length 36, hyphens at 8, 13, 18 and 23, hex digits of either case elsewhere, '1'..'5' at 14 and one of 8, 9, a, b, A, B at 19 |
| `ParseUuid.MatchesIgnoresCase` | src/common/pipes/parse-uuid.pipe.ts:9 | strings equal up to ASCII case are both matched or both refused |
| `ParseUuid.UuidIgnoresCase` | src/common/pipes/parse-uuid.pipe.ts:9 | the `i` flag: the pipe's verdict does not depend on letter case |
| `ParseUuid.BadRequest` | src/common/pipes/parse-uuid.pipe.ts:13 | a bad-request exception has status 400 and carries the message |
| `ParseUuid.Transform` | src/common/pipes/parse-uuid.pipe.ts:11-16 | a UUID is returned unchanged; any other string fails with status 400 and the message "'value' is not a valid UUID" |
| `Exceptions.BusinessException` | src/common/exceptions/business.exception.ts:6-17 | status is the given one or 400; the payload has success false, the message under error and the status under statusCode |
| `Exceptions.EntityNotFoundException` | src/common/exceptions/business.exception.ts:22-33 | status 404, with the payload "<entity> with id '<id>' not found" |
| `Exceptions.DuplicateEntityException` | src/common/exceptions/business.exception.ts:38-49 | status 409, with the payload "<entity> with this <field> already exists" |
| `Exceptions.NotFoundMessage` | src/common/exceptions/business.exception.ts:27 | the text "<entity> with id '<id>' not found"; `NotFoundMessageNamesId` proves it determines the id |
| `Exceptions.DuplicateMessage` | src/common/exceptions/business.exception.ts:43 | the text "<entity> with this <field> already exists" |
| `Exceptions.NotFoundMessageNamesId` | src/common/exceptions/business.exception.ts:27 | two not-found messages for the same entity are equal exactly when the ids are |
| `ExceptionFilter.GetErrorMessage` | src/common/filters/http-exception.filter.ts:57-68 | a string response verbatim; a string message as is; the first line of a message list, or "Validation failed" for an empty one; "Internal server error" without a message |
| `ExceptionFilter.GetValidationDetails` | src/common/filters/http-exception.filter.ts:70-80 | `{validation: message}` exactly when the message is a list of more than one line, nothing otherwise |
| `ExceptionFilter.LogLevelFor` | src/common/filters/http-exception.filter.ts:45-52 | logged at error level exactly when the status is 500 or more, at warn otherwise |
| `ExceptionFilter.Catch` | src/common/filters/http-exception.filter.ts:24-53 | the envelope has success false, the exception's status, the request URL and the time, the error message, details only for a multi-line message, and the level the status calls for |
| `ExceptionFilter.DetailsAgreeWithError` | src/common/filters/http-exception.filter.ts:40-43 | when details are present, the envelope's error is their first line and more lines follow |
| `ExceptionFilter.BusinessEnvelopeLosesMessage` | src/common/filters/http-exception.filter.ts:62-67 | as written, the envelope of every business exception says "Internal server error", e.g. for a 404 on a well-formed but absent UUID |
| `ExceptionFilter.GetErrorMessageIntended` | src/common/filters/http-exception.filter.ts:57-68 | as before, but an object without a message gives its error text |
| `ExceptionFilter.CatchIntended` | src/common/filters/http-exception.filter.ts:31-37 | the envelope of `Catch` with the intended message, and everything else unchanged |
| `ExceptionFilter.IntendedEnvelopeCarriesMessage` | src/common/exceptions/business.exception.ts:6-17 | with the intended message, a business exception's envelope carries its own text and status |
| `ClientIp.FirstOf` | src/common/decorators/client-ip.decorator.ts:18 | `[0]?` on the pieces of `split(',')`: the first piece, or nothing for an empty array, which `Split` proves never happens |
| `ClientIp.ClientIp` | src/common/decorators/client-ip.decorator.ts:13-21 | without a string header, the socket address or 'unknown'; with one, a result without a comma |
| `ClientIp.ForwardedAddress` | src/common/decorators/client-ip.decorator.ts:16-18 | with a string header, the result is the text before its first comma, trimmed |
| `ClientIp.ForwardedIgnoresSocketIp` | src/common/decorators/client-ip.decorator.ts:18 | the fallbacks after the first piece are never taken: the socket address plays no part once the header is a string |
| `ClientIp.EmptyForwardedHeader` | src/common/decorators/client-ip.decorator.ts:18 | an empty header gives the empty string, not a fallback |

## Left out

- I/O is not modelled: the logger calls, `response.status(...).json(...)` and the exception's stack trace. `Catch` returns the envelope and the log level instead of writing them.
- `new Date().toISOString()` is read twice in `create` (src/modules/users/users.service.ts:34-35). The model passes one `now`, so it assumes both reads give the same text.
- `localeCompare` is locale-dependent collation. The sort uses plain lexicographic order on characters in its place.
- The source's `Array.prototype.sort` is stable but is not specified further. `SortUsers` is one stable sort. Its stability is proved only for the all-ties case (`SortUsersTies`), not in general.
- Lengths and indices count characters, not the UTF-16 code units JavaScript counts. Every `truncateText` limit, `slice` bound and UUID position is the same for text in the Basic Multilingual Plane.
- Helpers.Slugify: modelled only for ASCII text, where `toLowerCase` is ASCII folding and `\w` is exact. Unicode case mapping is not modelled.
- Users.Merged: `None` stands only for an absent key. In the source, a key present with the value undefined or null is copied over the stored field by the spread at src/modules/users/users.service.ts:91-95, and for email line 81 then also skips the duplicate check; the model does not capture this.
- Helpers.TruncateText: `maxLength` is an integer. Fractional numbers and NaN are not modelled.
- Users.UsersService.FindAll: `page` and `perPage` are integers. Fractional numbers, NaN and strings are not modelled.
- Helpers.Omit: keys are string keys of the object's own properties, and the model is a `map`. Property order and symbol keys are not modelled.
- Helpers.Pick: same as `Omit`. In addition, `key in obj` also finds inherited properties, which a `map` does not have.
- Users.UsersService.Update: email uniqueness is proved only when ids are distinct and the patch's email is not the empty string. The duplicate check at src/modules/users/users.service.ts:83 skips every user that carries the target id, so with a repeated id the source does not keep emails distinct either. As written, `if (updateUserDto.email)` skips the duplicate check for "", so two users can come to share the empty email.
- `new BadRequestException(message)` builds its body inside the framework. `ParseUuid.BadRequest` states only the status and the message the pipe passes.
- The request DTOs are validated by class-validator decorators. These are not modelled, and the store accepts any input.
- src/modules/users/dto/update-user.dto.ts is not part of this model. The update payload is taken to be `CreateUserDto` with every field optional.
- `generateUuid` and `formatDate` in helpers.ts are not modelled: one draws on `Math.random`, the other reads a clock.
- The error a sort probe throws on an empty store is a `TypeError`. That error is not an `HttpException`, and the filter that would answer it is not part of this model.

Whether the list is sorted is decided by `sort in sortedUsers[0]` (src/modules/users/users.service.ts:48). Besides the six fields of `User`, `in` also finds the names every object inherits from `Object.prototype` (`toString`, `constructor`, ...), and the list is then sorted by the text of that shared value. `ListViewOrder` proves that insertion order is kept either way for a name that is not a field: every user has the same key and the sort is stable.

## Findings

| source | as written | input that shows it | evidently intended | confidence | as-written member | corrected member |
|---|---|---|---|---|---|---|
| src/common/filters/http-exception.filter.ts:62-67 | `getErrorMessage` reads only `message`. The business exceptions keep their text under `error`, so their envelope says "Internal server error". | `findOne("123e4567-e89b-42d3-a456-426614174000")` on an empty store, a well-formed UUID that passes the pipe: the envelope is status 404 with error "Internal server error" instead of "User with id '123e4567-e89b-42d3-a456-426614174000' not found". | the envelope carries the business exception's own text | not executed | `ExceptionFilter.BusinessEnvelopeLosesMessage` | `ExceptionFilter.IntendedEnvelopeCarriesMessage` |
