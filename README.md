# go-todo-app core, modelled in Dafny

This project models the core of a small task-management HTTP API written in Go. It has four parts:

- **Task store** (`task_controller.dfy`, module `TaskController`): the four task handlers, `CreateTask`, `GetTasks`, `UpdateTask` and `DeleteTask`.
  - The class `TaskStore` holds the task table as a `map<int, Task>` keyed by id, with a next-id counter.
  - Each handler is a method that takes the authenticated owner id and returns `Ok(..)` or an error: `BindError`, `Invalid(details)` or `NotFound`.
  - Every method keeps the table well formed. That means:
    - each row is stored under its own id;
    - ids lie in `[1, nextId)`;
    - each row's status and priority are valid.
  - Every method leaves the rows of other owners untouched (`OthersUnaffected`).
  - `GetTasks` is tied to the reference listing `Select`, the owner's matching rows in descending id order. It is also tied to `Window` (offset and limit) and `TotalPages`. Lemmas prove that `Select` selects exactly the matching rows, in descending order, counted correctly.
- **Enum validators** (`constants.dfy`, module `TaskConstants`): the status vocabulary ("pending", "completed"), the priority vocabulary ("low", "medium", "high"), and their linear membership scans.
- **Input validators** (`validation.dfy`, module `Validation`):
  - `IsValidEmail` trims, then matches the fixed pattern `^[a-zA-Z0-9._%+\-]+@[a-zA-Z0-9.\-]+\.[a-zA-Z]{2,}$`.
    - A hand-written backtracking-free matcher implements the pattern.
    - The matcher is proved equivalent to a declarative statement of the pattern.
  - `IsStrongPassword` checks the byte-length bounds, then runs the per-character class scan, then the ordered chain of failure messages.
- **Bearer-token gate** (`jwt_auth.dfy`, module `JwtAuth`): the `JWTAuth` middleware as a total decision from the `Authorization` header to `Reject(message)` or `Accept(userId)`.
  - The header takes the form of section 2.1 of RFC 6750, `Bearer <token>`, but the gate matches the scheme name case-sensitively and with exactly one space: "bearer abc" is refused, and in "Bearer  abc" the token handed to the parser is " abc".
  - Decoding a token and checking its signature are parameters, `parse` and `verify`.
  - Only HS256, section 3.2 of RFC 7518, is given a key.

Supporting modules:

- `gostrings.dfy` (`GoStrings`): Go's `strings.TrimSpace`, `strings.ToLower`, `strings.HasPrefix` and `strings.TrimPrefix`.
- `gostrconv.dfy` (`GoStrconv`): `strconv.ParseInt(s, 10, 64)` and `FormatInt`.
- `wrappers.dfy` (`Wrappers`): `Option` and `Result`.

Consequences of the code that a reader might not expect:

- **Blank titles.** The create binder only requires a non-empty title, and it checks before trimming. A title made only of blanks is therefore accepted and stored as "" (`BlankTitleScenario`). An update may also set the title to "" (`UpdateCanBlankTitle`). A stored title can be empty.
- **Password length.** The length bounds count UTF-8 bytes (Go's `len`), although the messages speak of "characters" (`ByteLengthIsNotCharacterCount`).
- **Listing filters.** They are lower-cased but not trimmed, so `?status= pending` is rejected. Body fields, by contrast, are trimmed and lower-cased.
- **Email domain case.** The domain is accepted in either case. This comes from the character classes of the pattern itself, not from any case folding.

## Model

| member | source | states |
|---|---|---|
| TaskConstants.Scan | models/constants.go:21-26 | the early-return scan is true exactly when some element of the list equals the argument |
| TaskConstants.IsValidStatus | models/constants.go:15-27 | true exactly for "pending" and "completed" |
| TaskConstants.IsValidPriority | models/constants.go:16-37 | true exactly for "low", "medium" and "high" |
| TaskConstants.MatchingIsExact | models/constants.go:22-32 | "High", " high", "HIGH", "Pending" and "pending " are rejected; matching is case- and blank-sensitive |
| TaskConstants.EmptyIsInvalid | models/constants.go:20-37 | "" is neither a status nor a priority |
| TaskConstants.StatusesAndPrioritiesDisjoint | models/constants.go:15-16 | no string is both a status and a priority |
| GoStrings.IsSpace | helpers/validation.go:10 | `unicode.IsSpace`: the characters with the Unicode White_Space property, the set `TrimSpace` removes (also at controllers/task_controller.go:31-42 and 135-149) |
| GoStrings.TrimSpace | helpers/validation.go:10 | the result is no longer than the input and has no leading or trailing white space |
| GoStrings.TrimSpaceSplit | helpers/validation.go:10 | the result is a slice of the input whose dropped prefix and suffix are all white space |
| GoStrings.TrimSpaceOfPadded | controllers/task_controller.go:41-42 | trimming a trimmed string padded with white space gives that string back |
| GoStrings.TrimSpaceAbsorbsPadding | controllers/task_controller.go:135-138 | extra white space around the input does not change the result, and trimming is idempotent |
| GoStrings.LowerRune | controllers/task_controller.go:31 | `unicode.ToLower` on one character, for ASCII letters, U+0130 and U+212A; its partner `LowerRuneProperties` gives which characters lower to ASCII letters |
| GoStrings.LowerRuneProperties | controllers/task_controller.go:31 | a character lowers to an ASCII lower-case letter exactly when it is an ASCII letter, U+0130 or U+212A; lowering keeps white space |
| GoStrings.ToLower | controllers/task_controller.go:72-80 | same length, each character lowered on its own |
| GoStrings.ToLowerConcat | controllers/task_controller.go:72-80 | lowering distributes over concatenation |
| GoStrings.ToLowerIdempotent | controllers/task_controller.go:141 | lowering twice is lowering once |
| GoStrings.ToLowerKeepsSpace | controllers/task_controller.go:141 | lowering keeps blank runs blank and trimmed strings trimmed |
| GoStrings.ToLowerTrimSpaceCommute | controllers/task_controller.go:141-149 | lower-casing and trimming commute |
| GoStrings.LowerLettersFixed | controllers/task_controller.go:72-80 | a string of ASCII lower-case letters is fixed by lowering |
| GoStrings.HasPrefix | middlewares/jwt_auth.go:15 | `strings.HasPrefix`: the string begins with the prefix; its partners are `TrimPrefix` and `JWTAuth` |
| GoStrings.TrimPrefix | middlewares/jwt_auth.go:19 | with the prefix present the input is prefix + result, otherwise the input is returned unchanged |
| GoStrconv.ParseInt64 | controllers/task_controller.go:113-117 | a parsed id fits in 64 bits, the text after the optional sign is all digits and non-empty, a negative value has a '-', and a '-' gives a value that is not positive |
| GoStrconv.ZerosValue | controllers/task_controller.go:113 | leading zero digits add nothing to the value |
| GoStrconv.ParsePadded | controllers/task_controller.go:113-117 | every 64-bit value, written with any number of leading zeros after its sign ('-' when negative, none or '+' otherwise), parses to that value; a '-' before zero digits also gives 0 |
| GoStrconv.ParseSignedDigits | controllers/task_controller.go:113-117 | an optional '+' or '-' followed by one or more digits parses to the signed value of those digits whenever that value fits in 64 bits |
| GoStrconv.ParsePaddedExamples | controllers/task_controller.go:165 | "007" is 7, "-05" is -5, and "+0" and "-0" are 0 |
| GoStrconv.StripLeadingZeros | controllers/task_controller.go:113 | leading '0's are dropped, keeping one digit; the result has no leading zero |
| GoStrconv.StripKeepsValue | controllers/task_controller.go:113 | stripping leading zeros keeps the digits' value |
| GoStrconv.CanonicalDigitsFormat | controllers/task_controller.go:113 | digits without a leading zero are exactly the decimal form of their value |
| GoStrconv.ParseThenFormat | controllers/task_controller.go:113-117 | every accepted id text, after its optional sign and leading zeros, is the decimal form of its value's magnitude |
| GoStrconv.FormatInt | controllers/task_controller.go:181 | `strconv.FormatInt(n, 10)`; its partner `ParseFormatRoundTrip` proves it is inverted by `ParseInt64` |
| GoStrconv.FormatNat | controllers/task_controller.go:181 | non-empty decimal digits of exactly the value, with no leading zero |
| GoStrconv.ParseFormatRoundTrip | controllers/task_controller.go:165-169 | every 64-bit id written in decimal parses back to itself |
| GoStrconv.ParseInt64Examples | controllers/task_controller.go:113-117 | "", "+", "-", " 7" and "7a" are refused; "+42" and "-42" parse |
| Validation.IndexOf | helpers/validation.go:11 | the first occurrence of a character, or the length when absent |
| Validation.LastIndexOf | helpers/validation.go:11 | the last occurrence of a character, or -1 when absent |
| Validation.MatchEmail | helpers/validation.go:11-12 | the hand-written matcher for the fixed pattern; its partner `MatchEmailCorrect` proves it accepts exactly the pattern's strings |
| Validation.MatchEmailSound | helpers/validation.go:11 | whatever the matcher accepts has the pattern's shape |
| Validation.MatchEmailComplete | helpers/validation.go:11 | every string of the pattern's shape is accepted by the matcher |
| Validation.LocalBeforeAt | helpers/validation.go:11 | in a string of the pattern's shape the first '@' ends the local part, which is all local characters |
| Validation.LabelAfterLastDot | helpers/validation.go:11 | in a string of the pattern's shape the last '.' of the domain starts a top-level label of two or more letters |
| Validation.DomainAfterAt | helpers/validation.go:11 | in a string of the pattern's shape everything after '@' is domain characters |
| Validation.MatchEmailCorrect | helpers/validation.go:11-12 | the matcher accepts exactly the strings of the pattern's shape |
| Validation.IsValidEmail | helpers/validation.go:9-13 | true exactly when the trimmed input has the pattern's shape |
| Validation.EmailIgnoresSurroundingSpace | helpers/validation.go:10 | surrounding white space never changes the verdict |
| Validation.SingleAtSign | helpers/validation.go:11 | a string of the pattern's shape holds exactly one '@' |
| Validation.AcceptedEmailShape | helpers/validation.go:9-13 | an accepted address, trimmed, has one '@', a non-empty local part of `[A-Za-z0-9._%+-]`, and ends in '.' and two or more ASCII letters |
| Validation.AcceptedWhenSplit | helpers/validation.go:9-13 | a trimmed string with a valid split is accepted |
| Validation.RejectedUnlessPattern | helpers/validation.go:9-13 | a trimmed string without the pattern's shape is refused |
| Validation.RegisteredEmailAccepted | controllers/auth_controller_test.go:37 | the address used at registration is accepted |
| Validation.PaddedEmailAccepted | helpers/validation.go:10 | that address padded with a blank and a tab is accepted |
| Validation.DoubledDotAccepted | helpers/validation.go:11 | "a@b..co" is accepted: the domain class admits dots |
| Validation.HyphenDomainAccepted | helpers/validation.go:11 | "a@-.co" is accepted: the domain class admits '-' alone |
| Validation.EmailRejectsExamples | helpers/validation.go:11 | "a@b.c", "ab.co" and "a@.co" are refused |
| Validation.Classify | helpers/validation.go:32-43 | on ASCII, the arm of the switch a character takes, tried upper, lower, number, punctuation or symbol in order; every non-ASCII character is unclassified; its partner `AsciiClassification` gives the classes |
| Validation.IsAsciiPunctOrSymbol | helpers/validation.go:40 | `unicode.IsPunct(c)` or `unicode.IsSymbol(c)` on ASCII: every printable character that is not a letter, a digit or the blank |
| Validation.AsciiClassification | helpers/validation.go:32-43 | on ASCII, exactly the blank and the control characters fall in no class; the upper, lower and number classes are 'A'-'Z', 'a'-'z' and '0'-'9', and the special class is exactly ASCII punctuation and symbols |
| Validation.RuneLen | helpers/validation.go:18-21 | one to four bytes, one exactly for ASCII |
| Validation.ByteLength | helpers/validation.go:18-21 | between the character count and four times it, equal exactly for all-ASCII text |
| Validation.ByteLengthIsNotCharacterCount | helpers/validation.go:18-19 | four two-byte characters measure 8, enough for the lower bound |
| Validation.IsStrongPassword | helpers/validation.go:17-59 | ok exactly when the byte length is in [8, 128] and there is an upper, a lower, a number and a special character; the message is empty exactly on success; the first broken rule, in source order, gives the message |
| TaskController.Owns | controllers/task_controller.go:119-123 | the scope `id = ? AND user_id = ?`: the row exists and belongs to the owner, used by update and delete |
| TaskController.Matches | controllers/task_controller.go:68-86 | the listing's WHERE clause: the owner's row, with each non-empty filter equal to the row's field |
| TaskController.Select | controllers/task_controller.go:68-95 | the owner's filtered rows in descending id order; its partners `SelectSound`, `SelectComplete`, `SelectDescending` and `SelectCount` prove it is exactly the matching rows, in order, counted |
| TaskController.SelectSound | controllers/task_controller.go:68-86 | every listed row is a stored row of the owner matching the filters |
| TaskController.SelectComplete | controllers/task_controller.go:68-86 | every stored row of the owner that matches the filters is listed |
| TaskController.SelectDescending | controllers/task_controller.go:95 | the listing is in strictly descending id order |
| TaskController.SelectCount | controllers/task_controller.go:89-92 | the listing's length is the number of matching rows |
| TaskController.SelectSameRows | controllers/task_controller.go:68 | another owner's listing depends only on rows outside the changed owner's |
| TaskController.SelectIgnoresUnmatchedTop | controllers/task_controller.go:68-86 | rows above the bound that do not match leave the listing unchanged |
| TaskController.OtherOwnersListingUnchanged | controllers/task_controller.go:68 | a change confined to one owner's rows leaves every other owner's listing unchanged |
| TaskController.Window | controllers/task_controller.go:95-98 | at most `limit` rows starting at `offset`, in their order, taken from the listing |
| TaskController.Offset | controllers/task_controller.go:64 | the offset is zero exactly on the first page |
| TaskController.WindowKeepsOrder | controllers/task_controller.go:95-98 | a page of a descending listing is descending |
| TaskController.TotalPages | controllers/task_controller.go:106 | `(total + pageSize - 1) / pageSize`; its partner `TotalPagesIsCeiling` proves it is the ceiling |
| TaskController.TotalPagesIsCeiling | controllers/task_controller.go:106 | `total_pages` is the least page count holding `total` rows |
| TaskController.PaginationExample | controllers/task_controller.go:64-106 | 25 rows in pages of 20: two pages, 20 then 5 rows, the third page empty |
| TaskController.CreatePriority | controllers/task_controller.go:31-38 | a blank priority becomes "medium"; otherwise the trimmed, lower-cased value, refused exactly when it is not a priority |
| TaskController.CreatePriorityNormalises | controllers/task_controller.go:31 | white space around and letter case of the priority do not change the outcome |
| TaskController.UpperCasePriorityAccepted | controllers/task_controller.go:31-38 | "HIGH" is accepted as "high" |
| TaskController.PaddedPriorityAccepted | controllers/task_controller.go:31-38 | " Low\n" is accepted as "low" |
| TaskController.UnknownPriorityRefused | controllers/task_controller.go:31-38 | "URGENT" is refused and "" defaults to "medium" |
| TaskController.ValidEnumsAreLowerCase | controllers/task_controller.go:72-85 | lower-casing a valid status or priority keeps it, so a valid filter matches stored rows |
| TaskController.NormalizeEnum | controllers/task_controller.go:141-149 | a supplied status or priority trimmed then lower-cased; `ToLowerTrimSpaceCommute` shows the order does not matter |
| TaskController.TextEdits | controllers/task_controller.go:134-139 | the title and description steps: a supplied field is stored trimmed, an absent one kept; `ApplyUpdate` gives the result field by field |
| TaskController.StatusEdit | controllers/task_controller.go:140-147 | the status step once the value is valid; `ApplyUpdate` gives the result field by field |
| TaskController.ApplyUpdate | controllers/task_controller.go:134-155 | id and owner never change; each supplied field is trimmed (and lower-cased for the enums) and the others are kept; an invalid status is reported before an invalid priority; it fails only on an invalid enum |
| TaskController.ApplyUpdateKeepsRowValid | controllers/task_controller.go:140-155 | an update keeps a row's status and priority valid; an empty update changes nothing |
| TaskController.UpdateStatusExample | controllers/task_controller.go:140-147 | " Completed " marks the task completed and changes nothing else |
| TaskController.PaddedCompletedNormalises | controllers/task_controller.go:141 | " Completed " normalises to "completed" |
| TaskController.UpdateCanBlankTitle | controllers/task_controller.go:134-136 | a blank title in an update stores "" and changes nothing else |
| TaskController.StoreOwnedRow | controllers/task_controller.go:156 | saving a valid row of the owner under its own id keeps the table well formed and other owners' rows intact |
| TaskController.TaskStore.CreateTask | controllers/task_controller.go:20-50 | a missing title is a bind error; a bad priority is refused with the table unchanged; otherwise one new row with the next id, the owner, trimmed text, the normalised priority and status "pending" is added and nothing else changes |
| TaskController.TaskStore.GetTasks | controllers/task_controller.go:52-109 | a bad lower-cased status (checked first) or priority filter is refused; otherwise page and size are clamped, `total` counts all matching rows, the rows are the window at `(page-1)*size` of the descending listing, at most `size` of them, each a stored matching row of the owner, and `total_pages` is the ceiling |
| TaskController.TaskStore.UpdateTask | controllers/task_controller.go:111-161 | a bad id is refused; a row absent or owned by someone else is NotFound; otherwise the row becomes the field-by-field update; every failure leaves the table unchanged, and only that row can change |
| TaskController.TaskStore.DeleteTask | controllers/task_controller.go:163-182 | a bad id is refused; the row with that id and owner is removed and its id returned, otherwise NotFound with the table unchanged; nothing else changes |
| TaskController.CreateThenListScenario | controllers/task_controller.go:20-109 | a task created with only a title is pending, medium, trimmed and owned by its creator, and listing with the filter "Medium" returns exactly it, with total 1 |
| TaskController.CreateHighThenListScenario | controllers/task_controller_test.go:56-86 | "Belajar Go" created with priority "high" is row 1, pending and high; the listing filtered by "high" holds exactly it, with pagination page 1, size 20, total 1, one page |
| TaskController.HighPriorityKept | controllers/task_controller_test.go:62 | the priority "high" is kept as "high" at creation |
| TaskController.TitleAlreadyTrimmed | controllers/task_controller_test.go:61 | the test's title "Belajar Go" is unchanged by trimming |
| TaskController.MediumFilterLowerCased | controllers/task_controller.go:79-80 | the filter "Medium" lowers to "medium" |
| TaskController.SingleRowListing | controllers/task_controller.go:68-98 | a table with one row of the owner lists exactly that row on the first page |
| TaskController.BlankTitleScenario | controllers/task_controller.go:23-41 | a title of blanks passes binding and is stored as "" |
| TaskController.CrossOwnerScenario | controllers/task_controller.go:119-123 | another owner can neither update nor delete a task; both get NotFound |
| JwtAuth.KeyFor | middlewares/jwt_auth.go:26-31 | a key, the secret, is given exactly for HS256 |
| JwtAuth.BearerToken | middlewares/jwt_auth.go:19 | the header with one leading "Bearer " removed; its partner `BearerHeaderCarriesToken` (with `TrimPrefix`) proves "Bearer " + token yields exactly the token |
| JwtAuth.Authentic | middlewares/jwt_auth.go:26-34 | a successful `ParseWithClaims` with `token.Valid`: the token decodes, is signed with HS256 and verifies under the secret |
| JwtAuth.JWTAuth | middlewares/jwt_auth.go:12-39 | a header without the case-sensitive "Bearer " is rejected with "missing bearer token"; "Bearer " alone with "empty token"; it accepts exactly when the token after one prefix decodes, is HS256 and verifies, binding the token's user id; every other failure is "invalid token" |
| JwtAuth.BearerHeaderCarriesToken | middlewares/jwt_auth.go:19-35 | "Bearer " + token is decided on exactly that token: only one prefix is removed |
| JwtAuth.OtherAlgorithmsRejected | middlewares/jwt_auth.go:27-29 | a token of any other algorithm is "invalid token", whatever the secret and the verifier |
| JwtAuth.SchemeIsCaseSensitive | middlewares/jwt_auth.go:15-17 | "bearer abc", "Bearerabc" and "" are "missing bearer token" |
| JwtAuth.AcceptedIdIsClaimedId | middlewares/jwt_auth.go:36-37 | a token that verifies under its claims is accepted with exactly its `user_id` claim |

## Left out

- **Database and HTTP plumbing.** Persistence errors and the 500 responses on create, count, query, save and delete are not modelled; the in-memory table never fails. HTTP status codes and the response envelopes (`APIResponse`, `ErrorResponse`) are left out too. Each outcome is a `Result` value; `NotFound` stands for 404 and every other error for 400.
- **JSON binding.** The binder's error texts and JSON decoding are abstract. A body is either decoded (`Bound`) or refused (`Unbindable`), and the only binding rule modelled is the create handler's required, non-empty title.
- **Query parameters.** `GetTasks` receives `page` and `page_size` as integers. The `strconv.Atoi` that turns malformed text into 0 is not modelled; 0 is clamped like any other out-of-range value.
- **Integer width.**
  - The page offset `(page - 1) * pageSize` and the ids are unbounded integers. The 64-bit overflow of the offset for huge page numbers is not modelled.
  - `nextId` stands for the database's auto-increment and is never exhausted.
  - Path ids are parsed with the 64-bit range check.
- **Timestamps.** `CreatedAt` and `UpdatedAt` come from the database and the clock; they are not part of the model. Column size limits (`size:255` and the like) are not modelled either.
- **Concurrency.** Requests are handled one at a time: each handler is one atomic step over the table. The load-then-save race of `UpdateTask` is not modelled. The source loads the row (controllers/task_controller.go:120) and saves the whole row later (line 156), so two concurrent updates to different fields of one task can lose one change. In the model both always apply.
- **Authenticated user id.** The id comes from the gin context; here it is a parameter of each handler.
- **Middleware effects.** `c.Abort`, `c.Set` and `c.Next` are the returned `Reject` or `Accept` value.
- **Token handling.** JWT decoding, HMAC-SHA256 signature checking and expiry are the parameters `parse` and `verify`. Token creation in helpers/jwt.go is not part of this model.
- **Email matching.** No general regular-expression engine is modelled, only the one fixed pattern.
- **Strings.** They are sequences of Unicode scalar values, so inputs that are not valid UTF-8 do not arise.
- Validation.Classify: decides the classes on ASCII only. Every non-ASCII character is unclassified, whereas the source's switch sends 'É' (U+00C9) to the `unicode.IsUpper` arm and other non-ASCII letters, digits, punctuation and symbols to theirs.
- Validation.IsAsciiPunctOrSymbol: covers ASCII punctuation and symbols only, not the non-ASCII characters of Unicode categories P and S.
- Validation.IsStrongPassword: character classes are decided on ASCII only. A non-ASCII character falls in no class. So, for example, a non-ASCII upper-case letter does not count as upper case here, while `unicode.IsUpper` accepts it.
- GoStrings.LowerRune: lowers ASCII capitals, U+0130 and U+212A only; every other character is returned unchanged, where `unicode.ToLower` would also lower non-ASCII capitals.
- GoStrings.ToLower: lowers only ASCII letters and the two characters whose lower case is an ASCII letter (U+0130 and U+212A). Other non-ASCII letters are left as they are. This is enough for every comparison against the lower-case vocabularies.
- **Other files.** These are not part of this model:
  - controllers/task_cotroller.go, an older duplicate of the handlers;
  - controllers/user_controller.go and the registration and login handlers exercised by controllers/auth_controller_test.go (only the address it registers is used, in `RegisteredEmailAccepted`);
  - middlewares/auth_middleware.go, not wired into routing;
  - main.go and the config package;
  - controllers/health_controller.go;
  - the logger, security and validator middlewares;
  - models/user.go;
  - internal/testutil.
