# AppSalon (MEVN) — a Dafny model of its validation and record-state logic

AppSalon is a salon booking application: an Express/Mongoose backend with a Vue/Pinia frontend.
This project models the part of it that decides things:

- the password policy, in two places:
  - the backend's ordered, first-failure-wins check list, with `isCommonPattern` and the configured forbidden patterns;
  - the frontend's `passwordRules` list;
- the pure part of the Pwned Passwords range lookup: digest prefix and suffix, line matching, fail-open;
- the user record (`User` schema) and the account lifecycle over a user store keyed by e-mail:
  - `register`, `verifyAccount`, `login`;
  - `requestAccountDeletion` with its `generateToken`;
- the service catalogue: the `Services` schema, the id-lookup middleware, and `createService`, `updateService` and `deleteService`;
- three frontend stores:
  - the alert list with its id counter;
  - the single-alert banner;
  - the duplicate-free list of selected services.

Each source file becomes one module:

| module | file | form |
|---|---|---|
| `JsText` | the JavaScript string built-ins used throughout (`trim`, `toLowerCase`, `includes`, `split`) | functions and lemmas |
| `PasswordRegex` | the regex constants, which backend and frontend declare identically, each written out as the test it performs | predicates and lemmas |
| `PasswordRules` | `frontend/src/helpers/passwordValidation.js` | pure |
| `PasswordPolicy` | `commonPatterns`, `isCommonPattern` and the check list of `backend/controllers/authControllers.js` | loops as methods, proved against functions |
| `PwnedLookup` | `isPwnedPassword` | pure |
| `UserModel` | `backend/models/user.js` and `uniqueId` | datatype, store invariant, a `UserCollection` class |
| `AuthController` | the three exported auth handlers | methods over `UserCollection`; `login` is a function because it changes nothing |
| `DeleteEmailService` | `backend/emails/deleteEmailService.js` | methods over `UserCollection` |
| `ServicesModel` | `backend/models/servicesModels.js` | the schema's casts and validators; a `ServiceCollection` class |
| `ServicesController` | `backend/controllers/servicesController.js` | methods over `ServiceCollection` |
| `AlertListStore` | `frontend/src/stores/useAlertStore.js` | class `AlertList` |
| `AlertStore` | `frontend/src/stores/alert.js` | class `AlertBanner` |
| `AppointmentsStore` | `frontend/src/stores/appointments.js` | class `Appointments` |

Everything outside the program becomes a parameter:

- SHA-1 digest, `fetch`;
- bcrypt hash and compare;
- `Date.now`, `Math.random`, `crypto.randomBytes`;
- `parseFloat`, Mongoose's `Number` cast, `String(n)`;
- `ObjectId.isValid`.

Exceptions thrown by a save, delete or mail become boolean parameters (`storeFails`, `mailFails`, `revertFails`). Each handler's answer is a status code plus a constructor that names which of its messages it sends.

Choices that follow the code:

- Store lookups use the trimmed e-mail. Mongoose casts query values through the schema's `trim` setter, so `findOne({ email })` finds the record stored under `email.trim()`.
- The user store is a map keyed by that e-mail. This is what the `unique` index guarantees: at most one record per e-mail.
- The configured forbidden patterns are matched as written. `isCommonPattern` lower-cases the password but not the patterns, so a pattern containing an upper-case letter can never match.
- `onServiceSelected` compares ids with `==`, while `isServiceSelected` uses `===`. Both compare the same string `_id`s, so the model uses one comparison.
- The services controller imports `handleNotFoundError` from `backend/helpers/errorHandling.js`, which does not export it. Its behaviour (status plus `{ msg }`) is taken from `backend/helpers/errorHandeling.js:7-16`.
- The user schema declares no `deleteToken` or `deleteTokenExpires`, yet the deletion service writes both. They are modelled as explicit optional fields of `User`; see Findings for what the schema as written does to them.

## Model

| member | source | states |
|---|---|---|
| `JsText.Trim` | backend/controllers/authControllers.js:94 | `s.trim()` is the slice of `s` after the leading whitespace; everything cut off is whitespace; neither end of the result is whitespace; the result is empty iff `s` is all whitespace |
| `JsText.TrimStartMeaning` | backend/controllers/authControllers.js:94 | the front part `trim` drops is whitespace only, and what remains is a suffix of the value that does not start with whitespace |
| `JsText.TrimEndMeaning` | backend/controllers/authControllers.js:94 | the back part `trim` drops is whitespace only, and what remains is a prefix that does not end with whitespace |
| `JsText.TrimIdempotent` | backend/models/user.js:8 | trimming an already trimmed value changes nothing |
| `JsText.TrimmedIsFixed` | backend/models/user.js:18 | a value is non-empty with non-whitespace ends iff it is non-empty and `trim` leaves it unchanged |
| `JsText.TrimOfNonBlank` | backend/controllers/authControllers.js:94 | a field the blank gate lets through trims to a non-empty value whose ends are not whitespace |
| `JsText.LowerIdempotent` | backend/controllers/authControllers.js:27 | lower-casing twice equals lower-casing once |
| `JsText.Lower` | backend/controllers/authControllers.js:27 | `toLowerCase()` on each character, ASCII letters only; its meaning is stated by `LowerMeaning` |
| `JsText.LowerMeaning` | backend/controllers/authControllers.js:27 | lower-casing keeps the length, leaves no upper-case letter, and changes a character only to the same letter in the other case |
| `JsText.Upper` | backend/controllers/authControllers.js:56 | `toUpperCase()` on each character, ASCII letters only; its meaning is stated by `UpperMeaning` |
| `JsText.UpperMeaning` | backend/controllers/authControllers.js:56 | upper-casing keeps the length, leaves no lower-case letter, and changes a character only to the same letter in the other case |
| `JsText.Split` | backend/controllers/authControllers.js:69 | `split(sep)` for a non-empty separator gives at least one piece; `JoinSplit` and `SplitPiecesOmitSeparator` state its meaning |
| `JsText.JoinSplit` | backend/controllers/authControllers.js:69 | splitting on a separator and joining back gives the original text |
| `JsText.FirstPieceIsPrefix` | backend/controllers/authControllers.js:69 | the first piece of a split is a prefix of the text |
| `JsText.SplitPiecesOmitSeparator` | backend/controllers/authControllers.js:69 | for any non-empty separator, such as `"\r\n"`, no piece of the split contains the separator |
| `JsText.SplitPiecesAvoidSeparator` | backend/controllers/authControllers.js:9 | no piece of `split(",")` contains a comma |
| `PasswordRegex.AlphabetRunIff` | backend/controllers/authControllers.js:22-23 | the 24-way letter-run regex matches iff three consecutive letters of the alphabet stand side by side, in either case |
| `PasswordRegex.DigitRunIff` | backend/controllers/authControllers.js:20-21 | the 16-way digit-run regex matches iff three digits step by one up or down (wrapping 8-9-0 and 0-9-8), other than 012, 901, 210 and 109 |
| `PasswordRegex.DigitRunListing` | frontend/src/helpers/passwordValidation.js:9-10 | "890" and "098" are caught; "012", "210" and "901" are not |
| `PasswordRegex.HasUppercase` | backend/controllers/authControllers.js:15 | `/[A-Z]/.test(s)`: some character is an ASCII upper-case letter |
| `PasswordRegex.HasLowercase` | backend/controllers/authControllers.js:16 | `/[a-z]/.test(s)`: some character is an ASCII lower-case letter |
| `PasswordRegex.HasDigit` | backend/controllers/authControllers.js:17 | `/[0-9]/.test(s)`: some character is an ASCII digit |
| `PasswordRegex.HasSpecialChar` | backend/controllers/authControllers.js:18 | some character is one of `!@#$%^&*(),.?":{}\|<>` |
| `PasswordRegex.HasRepeatedRun` | backend/controllers/authControllers.js:19 | `(.)\1{3,}` matches: some character other than a line terminator appears four times in a row |
| `PasswordRegex.HasDigitRun` | backend/controllers/authControllers.js:20-21 | one of the 16 listed digit triples occurs; `DigitRunIff` gives the independent characterisation |
| `PasswordRegex.HasAlphabetRun` | backend/controllers/authControllers.js:22-23 | one of the 24 listed letter triples occurs in the lower-cased text; `AlphabetRunIff` gives the independent characterisation |
| `PasswordRules.FailingAmong` | frontend/src/helpers/passwordValidation.js:15-48 | a rule is reported iff it is in the list and the value fails it |
| `PasswordRules.Passes` | frontend/src/helpers/passwordValidation.js:15-48 | `rule.test(value)`: false for an undefined or empty value, otherwise the rule's own test; its meaning over the whole list is `PassesAllIff` |
| `PasswordRules.FailingRules` | frontend/src/helpers/passwordValidation.js:15-48 | the reported rules are exactly those the value fails, in the order the list gives them |
| `PasswordRules.FailingAmongKeepsOrder` | frontend/src/helpers/passwordValidation.js:15-48 | filtering out passing rules keeps the remaining rules in list order |
| `PasswordRules.PassesAllIff` | frontend/src/helpers/passwordValidation.js:3-48 | a value passes every rule iff it has length ≥ 16, an upper-case letter, a lower-case letter, a digit and a special character, and no run of four, no digit run and no letter run |
| `PasswordRules.EmptyFailsEveryRule` | frontend/src/helpers/passwordValidation.js:17-46 | an undefined or empty value fails all eight rules |
| `PasswordRules.UppercaseRunRejected` | frontend/src/helpers/passwordValidation.js:11-12 | a value containing "ABC" in any mix of cases fails the letter-run rule |
| `PasswordPolicy.TrimmedNonEmpty` | backend/controllers/authControllers.js:10-11 | an entry is kept iff it is the non-empty trim of some piece |
| `PasswordPolicy.CommonPatterns` | backend/controllers/authControllers.js:7-11 | a string is a configured pattern iff it is the non-empty trim of some comma-separated piece of the setting ("" when unset); every pattern is non-empty, trimmed and comma-free |
| `PasswordPolicy.IsCommonPattern` | backend/controllers/authControllers.js:26-40 | the loop with early return answers true iff the lower-cased password contains a configured pattern, or has a run of four, a digit run or a letter run |
| `PasswordPolicy.IsCommon` | backend/controllers/authControllers.js:26-40 | the reference meaning of `isCommonPattern`: a configured pattern occurs in the lower-cased password, or a run of four, a digit run or a letter run occurs |
| `PasswordPolicy.FirstFailure` | backend/controllers/authControllers.js:103-137 | the check `register` answers with; `FirstFailureIsFirst` states which one it is |
| `PasswordPolicy.FirstFailingOfIsFirst` | backend/controllers/authControllers.js:133-137 | the check found is failed, and every check listed before it passes; none is found iff all pass |
| `PasswordPolicy.FirstFailureFails` | backend/controllers/authControllers.js:103-137 | the answered check fails and every check ranked earlier passes; no answer iff no check fails |
| `PasswordPolicy.FirstFailureIsFirst` | backend/controllers/authControllers.js:103-137 | `register` answers check `c` iff `c` fails and every check ranked before it (length, upper, lower, digit, special, common) passes |
| `PasswordPolicy.RunPasswordChecks` | backend/controllers/authControllers.js:103-137 | the loop over the check list returns the first failing check |
| `PasswordPolicy.CheckListInOrder` | backend/controllers/authControllers.js:103-137 | the list of (check, failed) pairs `register` walks has the six checks in the fixed order, each with its own verdict |
| `PasswordPolicy.CommonIsTheOnlyFailure` | backend/controllers/authControllers.js:103-137 | a password of 16 or more characters with an upper-case letter, a lower-case letter, a digit and a special character is refused as common exactly when `isCommonPattern` holds, and passes otherwise |
| `PasswordPolicy.ShortPasswordFailsLength` | backend/controllers/authControllers.js:104-106 | a password shorter than 16 is refused for its length, whatever else is wrong |
| `PasswordPolicy.AlphabetRunOfLower` | backend/controllers/authControllers.js:37 | testing the letter-run regex on the lower-cased password is the same as testing the password |
| `PasswordPolicy.AcceptedPasswordIsStrong` | backend/controllers/authControllers.js:103-137 | a password the local checks accept has length ≥ 16, all four character classes, and is not common |
| `PasswordPolicy.BackendAcceptanceImpliesFrontend` | frontend/src/helpers/passwordValidation.js:3-48 | a password the backend's local checks accept passes every frontend rule |
| `PasswordPolicy.FrontendAcceptanceDoesNotImplyBackend` | backend/controllers/authControllers.js:26-32 | the converse fails: a password every frontend rule accepts is refused as common once "salon" is configured |
| `PwnedLookup.Prefix` | backend/controllers/authControllers.js:55 | the prefix is the first five characters of the digest (the whole digest when shorter) |
| `PwnedLookup.Suffix` | backend/controllers/authControllers.js:56 | the digest after its first five characters, upper-cased; `PwnedIff` states how it is matched |
| `PwnedLookup.IsPwnedPassword` | backend/controllers/authControllers.js:52-87 | `isPwnedPassword` over the digest and the fetch outcome; its meaning is stated by `PwnedIff` and `FailOpen` |
| `PwnedLookup.RangeUrl` | backend/controllers/authControllers.js:58-60 | the URL is the API base followed by the prefix alone |
| `PwnedLookup.OnlyPrefixSent` | backend/controllers/authControllers.js:54-60 | two digests with the same five-character prefix produce the same request |
| `PwnedLookup.HashSuffix` | backend/controllers/authControllers.js:73 | the first `split(":")` piece is the line up to its first colon and contains none |
| `PwnedLookup.AnyLineMatches` | backend/controllers/authControllers.js:72-75 | true iff some line's hash part, upper-cased, equals the suffix |
| `PwnedLookup.PwnedIff` | backend/controllers/authControllers.js:52-87 | pwned iff the prefix request succeeded with an ok status and some CRLF-separated line of the body matches the upper-cased suffix; the lines rejoin to the whole body and none of them contains a CRLF |
| `PwnedLookup.FailOpen` | backend/controllers/authControllers.js:61-86 | a thrown request or a non-ok status counts as not pwned |
| `UserModel.ToBase32` | backend/helpers/errorHandeling.js:37 | `toString(32)` is non-empty, uses base-32 digits only and has no leading zero |
| `UserModel.Base32RoundTrip` | backend/helpers/errorHandeling.js:37 | reading the base-32 digits back gives the clock value |
| `UserModel.UniqueId` | backend/helpers/errorHandeling.js:36-37 | the token is non-empty, ends with the random digits, and its front encodes the clock |
| `UserModel.NewUser` | backend/models/user.js:4-33 | `new User({ name, email, password })`: trimmed fields, the given token, `verified` and `admin` false, no deletion fields; `NewUserWellFormed` and `RegisteredRecord` state its properties |
| `UserModel.NewUserWellFormed` | backend/models/user.js:4-33 | a record built from non-blank fields gets trimmed, required fields, the token default, and `verified`/`admin` false |
| `UserModel.StoreKeepsValid` | backend/models/user.js:15-20 | filing a well-formed record under its own e-mail keeps one well-formed record per e-mail |
| `UserModel.RemoveKeepsValid` | backend/emails/deleteEmailService.js:27 | removing a record keeps the store valid |
| `UserModel.UserCollection.constructor` | backend/models/user.js:35 | an empty collection satisfies the store invariant |
| `AuthController.ScreenRegistration` | backend/controllers/authControllers.js:90-150 | every refusal is 400; "fields required" iff a field is missing or blank; the password check named iff the fields are present and it is the first failing check; "public password" iff the fields are present, no check fails and the password is pwned; the request passes iff fields are present, no check fails and the password is not pwned |
| `AuthController.Missing` | backend/controllers/authControllers.js:94 | `!field \|\| field.trim() === ""` for an absent or string field |
| `AuthController.Falsy` | backend/controllers/authControllers.js:241 | `!field` for an absent or string field: absent or empty |
| `AuthController.Register` | backend/controllers/authControllers.js:90-204 | a screened-out request gets the screen's 400 and leaves the store alone; otherwise the store step runs on the new trimmed, unverified record with the `uniqueId` token |
| `AuthController.SaveNewUser` | backend/controllers/authControllers.js:152-203 | a throwing duplicate lookup gives 500 and no change; a taken e-mail gives 409 and no change; a failing hash or save gives 500 and no change; otherwise 201 with exactly that record added |
| `AuthController.RegisteredRecord` | backend/controllers/authControllers.js:166-173 | the stored record is filed under the trimmed e-mail, unverified, not admin, with a non-empty token and the hash as password |
| `AuthController.ScreenedPasswordIsStrong` | backend/controllers/authControllers.js:103-150 | a request that passes the screen carries a password meeting all six checks |
| `AuthController.Confirmed` | backend/controllers/authControllers.js:219-222 | confirmation sets `verified`, clears the token, and keeps every other field |
| `AuthController.VerifyAccount` | backend/controllers/authControllers.js:207-234 | an unknown token gives 401 and no change; a failing save gives 500 and no change; otherwise 200 and exactly one holder of the token is confirmed |
| `AuthController.ConfirmSpendsToken` | backend/controllers/authControllers.js:220-221 | after confirmation the record no longer holds the token, so replaying a token that only one account held fails |
| `AuthController.ConfirmedWellFormed` | backend/controllers/authControllers.js:219-222 | confirming keeps a record well-formed |
| `AuthController.Login` | backend/controllers/authControllers.js:237-288 | 400 iff e-mail or password is falsy; "user not found" (401) iff the lookup succeeds and finds no record; "not verified" (401) iff the record is unverified; "wrong password" (401) iff it is verified and bcrypt answers no; 500 iff the lookup throws, or bcrypt throws for a verified record; the "logged in" 200 iff none of these, and every 200 carries that message |
| `AuthController.UnconfirmedCannotLogIn` | backend/controllers/authControllers.js:256-262 | an account still holding its verification token never logs in |
| `DeleteEmailService.HexValue` | backend/emails/deleteEmailService.js:9 | a hex digit's value is its position among the hex digits |
| `DeleteEmailService.Hex` | backend/emails/deleteEmailService.js:9 | `toString("hex")` gives two lower-case hex digits per byte |
| `DeleteEmailService.HexRoundTrip` | backend/emails/deleteEmailService.js:9 | the bytes can be read back from the hex text |
| `DeleteEmailService.HexInjective` | backend/emails/deleteEmailService.js:9 | different random bytes give different tokens |
| `DeleteEmailService.GenerateToken` | backend/emails/deleteEmailService.js:8-10 | a token is 40 lower-case hex digits |
| `DeleteEmailService.DeletionFieldsKeepWellFormed` | backend/emails/deleteEmailService.js:41-45 | setting or clearing the deletion fields keeps the record well-formed and changes nothing else |
| `DeleteEmailService.WithdrawUndoesPending` | backend/emails/deleteEmailService.js:60-64 | withdrawing after a failed mail clears both deletion fields together and restores a record that had none |
| `DeleteEmailService.RequestAccountDeletion` | backend/emails/deleteEmailService.js:12-88 | unknown e-mail: 404 and no change; unverified account: 200 with exactly that record removed (500 and no change if the delete throws); verified account: the outcomes below, with a fresh token expiring in one hour |
| `DeleteEmailService.RequestForVerified` | backend/emails/deleteEmailService.js:40-76 | first save fails: 500 and no change; mail sent: 200 with token and expiry stored; mail fails: 500 with both withdrawn; withdrawal fails too: 500 with the token still stored; only that record changes |
| `DeleteEmailService.SentTokenIsStored` | backend/emails/deleteEmailService.js:41-59 | whenever the verified-account outcome answers 200, the record holds the mailed token and an expiry one hour after `now`, and every other record is as it was |
| `DeleteEmailService.MailedTokenNotStoredAsWritten` | backend/emails/deleteEmailService.js:42-45 | under the schema as written, the token is assigned but the saved record holds none |
| `ServicesModel.CastName` | backend/models/servicesModels.js:5-12 | the name cast yields no value only for `null` |
| `ServicesModel.CastPrice` | backend/models/servicesModels.js:13-16 | the `Number` cast of a request value: a number is kept, a string goes through the cast parameter, a boolean gives 1 or 0, `null` gives nothing |
| `ServicesModel.Validate` | backend/models/servicesModels.js:4-22 | an accepted document has both fields, a trimmed non-empty name and a price ≥ 0.01, and holds exactly the cast values |
| `ServicesModel.ValidateComplete` | backend/models/servicesModels.js:4-22 | a body whose fields cast to a valid service is accepted as that service |
| `ServicesModel.SmallPriceInvalid` | backend/models/servicesModels.js:17-20 | a price below 0.01 fails the schema |
| `ServicesModel.ServiceCollection.constructor` | backend/models/servicesModels.js:25 | an empty collection satisfies the store invariant |
| `ServicesController.FindServiceById` | backend/controllers/servicesController.js:10-42 | the service is attached iff the id is valid, the lookup does not throw and the service exists; the invalid-id 400 iff the id is invalid; the not-found 404 iff it is valid, the lookup does not throw and the service is absent; the lookup-error 500 iff it is valid and `findById` throws |
| `ServicesController.EmptyBody` | backend/controllers/servicesController.js:45-50 | the body has no keys or some string value of it is blank |
| `ServicesController.RequestPrice` | backend/controllers/servicesController.js:58 | `parseFloat` of a number gives that number; absent, `null` and booleans give `NaN` |
| `ServicesController.CreateService` | backend/controllers/servicesController.js:44-88 | an empty body or a blank string value gives 400; a price that is `NaN` or ≤ 0 gives 400; a `ValidationError` gives 400; another save error gives 500; otherwise 201 with exactly the validated service added; every failure leaves the store unchanged |
| `ServicesController.CreatedPriceIsRequestPrice` | backend/controllers/servicesController.js:58-73 | a created service's price is the price sent, and at least 0.01 |
| `ServicesController.TinyPriceReachesValidation` | backend/controllers/servicesController.js:58-83 | a price of 0.005 passes the handler's `> 0` test but fails schema validation |
| `ServicesController.Edited` | backend/controllers/servicesController.js:114-126 | the service `updateService` would save: the parsed price when a price is sent, the cast name when a truthy name is sent, otherwise the stored values; `EditedIsPartial` and `FullEditReplaces` state its properties |
| `ServicesController.EditedIsPartial` | backend/controllers/servicesController.js:123-126 | an omitted price, or an omitted or falsy name, keeps the stored value; an empty body changes nothing; the edit is idempotent |
| `ServicesController.FullEditReplaces` | backend/controllers/servicesController.js:114-126 | a body with a truthy name and a valid price determines the result whatever was stored |
| `ServicesController.UpdateService` | backend/controllers/servicesController.js:110-148 | a present price that is `NaN` or ≤ 0 gives 400 and no change; an edit failing the schema gives 400; a save error gives 500; otherwise 200 with only that service replaced by the edit |
| `ServicesController.DeleteService` | backend/controllers/servicesController.js:150-165 | 200 with exactly the attached service removed, or 500 with no change |
| `AlertListStore.Without` | frontend/src/stores/useAlertStore.js:29 | an alert survives the filter iff it was in the list and carries another id |
| `AlertListStore.WithoutAppend` | frontend/src/stores/useAlertStore.js:29 | filtering works piecewise over a concatenation, so survivors keep their order |
| `AlertListStore.WithoutAbsent` | frontend/src/stores/useAlertStore.js:29 | dismissing an id no alert carries changes nothing |
| `AlertListStore.WithoutIdempotent` | frontend/src/stores/useAlertStore.js:29 | dismissing the same id twice equals dismissing it once |
| `AlertListStore.WithoutKeepsOrder` | frontend/src/stores/useAlertStore.js:28-30 | dismissal keeps the ids strictly increasing |
| `AlertListStore.ShowThenDismiss` | frontend/src/stores/useAlertStore.js:14-30 | showing an alert and dismissing its new id restores the previous list |
| `AlertListStore.AlertList.constructor` | frontend/src/stores/useAlertStore.js:5-6 | the store starts with no alerts and counter 0 |
| `AlertListStore.AlertList.ShowAlert` | frontend/src/stores/useAlertStore.js:14-22 | appends exactly one alert whose id is the old counter and whose type defaults to 'default'; the counter rises by one; ids stay unique and increasing |
| `AlertListStore.AlertList.DismissAlert` | frontend/src/stores/useAlertStore.js:28-30 | the list becomes the filter of the old list, the counter is kept, and ids stay increasing |
| `AlertStore.AlertBanner.constructor` | frontend/src/stores/alert.js:5-7 | the initial state equals the dismissed state `(false, '', 'error')` |
| `AlertStore.AlertBanner.DisplayAlert` | frontend/src/stores/alert.js:16-25 | the banner shows exactly the given type and message, overwriting what was shown |
| `AlertStore.AlertBanner.DismissAlert` | frontend/src/stores/alert.js:27-32 | from any state the banner returns to `(false, '', 'error')`, so dismissing is idempotent |
| `AlertStore.AlertBanner.ShowMaxServicesAlertWithMessage` | frontend/src/stores/alert.js:35-37 | shows a 'warning' alert with the message |
| `AlertStore.AlertBanner.ShowWeekendAlertWithMessage` | frontend/src/stores/alert.js:39-41 | shows an 'error' alert with the message |
| `AppointmentsStore.IsServiceSelected` | frontend/src/stores/appointments.js:15-17 | true iff some entry has the given `_id` |
| `AppointmentsStore.Appointments.constructor` | frontend/src/stores/appointments.js:5 | the selection starts empty, with no duplicate ids |
| `AppointmentsStore.Appointments.OnServiceSelected` | frontend/src/stores/appointments.js:7-13 | appends the service iff no entry has its `_id`, otherwise leaves the list unchanged; afterwards the id is selected, the list has grown by at most one and ids are still distinct |
| `AppointmentsStore.Appointments.IsSelected` | frontend/src/stores/appointments.js:15-17 | the computed `isServiceSelected(id)` is true iff some current entry has that `_id` |

## Left out

- HTTP wiring is not modelled. This covers `backend/index.js`, the route files, the frontend router and `frontend/src/api/AuthAPI.js`. The auth routes import handlers (`forgotPassword`, deletion confirmation and others) that the controller does not export, so those features have no behaviour to model.
- Persistence and mail plumbing are not modelled: the database connection, the mail transport, the e-mail templates, the seed script and the frontend `services` store.
- Sending an e-mail is an outcome, not a model: its failure is `mailFails` in the deletion service. In `register` its failure is caught and changes nothing, so it does not appear at all.
- The external computations are function parameters, not models: SHA-1, bcrypt, `fetch`, `crypto.randomBytes`, `Date.now` and `Math.random`. `uniqueId` takes the clock and the random digits.
- `getServices` and `getServiceByID` only read and return data, and are not modelled.
- Timers (`setTimeout`/`clearTimeout`), the `duration` arguments of the alert stores, console logging and Vue reactivity are not modelled. In particular, the automatic dismissal after `duration` is not part of `ShowAlert` or `DisplayAlert`.
- Strings are sequences of code points:
  - `length` counts code points, not UTF-16 code units;
  - `toLowerCase`/`toUpperCase` map ASCII letters only;
  - the regex `i` flag is treated the same way;
  - no normalisation is applied.
- Request bodies hold JSON scalars only: a nested object or array as a field value is not modelled.
- `AuthController.Register` and `AuthController.Login` take every body field as an absent-or-string value. A truthy non-string field is not modelled. In `register` such a field makes `field.trim()` throw before any `try`, so the request gets no handled answer. In `login` a non-string password makes `bcrypt.compare` throw; that exception is the `compareFails` outcome (500), but the model does not derive it from the field's type.
- Prices and `parseFloat` are over the reals. `NaN` is `None`, and floating-point rounding is not modelled.
- `AuthController.VerifyAccount`: a database exception in `findOne({ token })` is outside the handler's `try`, so it is not a handled outcome and is not modelled. When several records hold the token, the model confirms some one of them, as `findOne` does.
- `DeleteEmailService.RequestAccountDeletion`: an exception thrown by the initial `findOne` (also answered 500 with no change) is not separated from the 404 path.
- `AuthController.Register` requires the bcrypt hash to be non-blank, which a bcrypt hash always is. A mongoose cast or validation error on save is folded into `storeFails` (500), which is the branch the source takes.
- `ServicesModel.CastName` states only when a value is produced. The values of the `String` cast (`String(true)`, `String(n)`) are given by its body and by the `show` parameter.
- `ServicesModel.Validate`: Mongoose's behaviour for keys the schema does not declare (they are dropped) is implicit, since the result holds only `name` and `price`.
- `PasswordPolicy.CommonPatterns`: the configured patterns are not lower-cased by the source, and the model keeps them as written.
- `UserModel.Base32Value` and `UserModel.FromBase32` read base-32 text only to state that `uniqueId` keeps the clock value. The source never parses ids back.

## Findings

| source | as written | input that shows it | evidently intended | confidence | as-written member | corrected member |
|---|---|---|---|---|---|---|
| backend/emails/deleteEmailService.js:42-45 | `deleteToken` and `deleteTokenExpires` are assigned on a `User` document and saved, but `backend/models/user.js:4-33` declares neither path | a verified account with no pending deletion and a successful mail: the service answers 200 "confirmation sent" while the saved record holds no token for the mailed one to match | both fields are declared in the schema and stored with the record, as the inline note at line 42 asks | not executed; depends on Mongoose's default strict mode dropping undeclared paths | `DeleteEmailService.MailedTokenNotStoredAsWritten` | `DeleteEmailService.RequestAccountDeletion` |
