# Sign-in form: a verified model

This project models the logic of a mock sign-in page written in TypeScript and
React. The page has an e-mail field and a password field, validates them, and
sends the credentials to a simulated login service. That service waits a random
delay and then succeeds, rejects the credentials, reports throttling or
reports a network failure. A `scenario` query parameter can force the outcome.

The model has one Dafny module per source file, plus two helper modules:

- `Wrappers` (Wrappers.dfy): `Option` and `Result`. They stand for
  `undefined`/`null` and for a promise that resolves or rejects.
- `Text` (Text.dfy): string operations.
  - The JavaScript built-ins the code calls: `trim`, with the ECMAScript
    white-space and line-terminator set (the same set is used for the
    regular-expression class `\s`), `toLowerCase` on ASCII letters, and
    `Array.prototype.join`.
  - Two helpers the code does not call. `IndexOf` serves the written-out
    e-mail check. `Split` models how a space-separated id list such as
    `aria-describedby` is read back.
- `Validators` (Validators.dfy): `validateEmail` and `validatePassword`.
  - The e-mail regular expression `^[^\s@]+@[^\s@]+\.[^\s@]+$` is modelled
    twice. `MatchesEmailPattern` is its meaning: three tokens separated by `@`
    and `.`. `IsEmailShape` is a written-out check.
  - `EmailShapeIsPattern` proves that the two agree on every string.
- `LoginApi` (LoginApi.dfy): `login` as a function.
  - Its inputs are the query parameter, two random draws in [0, 1) and the
    credentials.
  - It returns the delay and the outcome.
- `Field` (Field.dfy): the accessibility attributes the `Field` component
  derives from its props: `errorId`, `aria-describedby`, `aria-invalid`, the
  message role and text, and `data-state`.
- `LoginPage` (LoginPage.dfy): the page's state as the class `LoginForm`.
  - The class has one method per event handler.
  - Timer expiry (`TypingResetFires`) and the settling of the login promise
    (`CompleteLogin`) are explicit events.
  - `Valid()` is the invariant every handler keeps:
    - no stored field error is empty;
    - a typing flag always has its reset callback pending;
    - no server error is shown while submitting or after success.

Success is terminal in the model. `Focus`, `Blur`, `TypingResetFires` and
`TogglePasswordVisibility` leave `status` unchanged. `Edit` and `Submit` need
an enabled form. `CompleteLogin` needs a login in flight.

## Model

| member | source | states |
|---|---|---|
| `Text.TrimSpec` | src/validators/index.ts:6 | The result of `trim` has no white space at either end. It is empty exactly when the input is all white space. |
| `Text.TrimRemovesOnlyEdgeSpace` | src/validators/index.ts:10 | `trim` removes only white space: the input is the result with an all-space prefix and an all-space suffix put back. |
| `Text.TrimOfPadded` | src/api/loginApi.ts:89 | Trimming white space + trimmed core + white space gives back exactly the core. |
| `Text.TrimIdempotent` | src/validators/index.ts:10 | Trimming twice is the same as trimming once. |
| `Text.TrimStartSpec` | src/validators/index.ts:6 | Dropping leading white space leaves a suffix that does not start with white space, after an all-space prefix. |
| `Text.TrimEndSpec` | src/validators/index.ts:6 | Dropping trailing white space leaves a prefix that does not end with white space, before an all-space suffix. |
| `Text.JoinEmpty` | src/components/Field.tsx:53-55 | Joining non-empty ids gives the empty string only for an empty list. So `\|\| undefined` applies exactly when no id is present. |
| `Text.SplitJoin` | src/components/Field.tsx:53-55 | Splitting a space-joined list of space-free ids gives the ids back. |
| `Text.Trim` | src/validators/index.ts:6 | `trim` never lengthens its input. What it removes and keeps is stated by `Text.TrimSpec` and `Text.TrimRemovesOnlyEdgeSpace`. |
| `Text.Lower` | src/api/loginApi.ts:89 | `toLowerCase` keeps the length and maps each character to its lower-case form. |
| `Validators.MatchesEmailPattern` | src/validators/index.ts:3 | A string that matches the regular expression contains `@` and `.` and has at least five characters. |
| `Validators.EmailShapeIsPattern` | src/validators/index.ts:3 | The written-out shape check holds exactly when the string matches the e-mail regular expression. |
| `Validators.ValidateEmail` | src/validators/index.ts:5-15 | No error exactly when the trimmed value matches the pattern. Any error is the fixed e-mail message. |
| `Validators.ValidatePassword` | src/validators/index.ts:17-27 | No error exactly when the length is at least 8. White space is not trimmed and counts toward the length. Any error is the fixed password message. |
| `Validators.BlankEmailRejected` | src/validators/index.ts:6-8 | An empty or all-white-space value is rejected with the e-mail message. |
| `Validators.EmailIgnoresSurroundingSpace` | src/validators/index.ts:5-15 | Leading and trailing white space never change the e-mail verdict. |
| `Validators.EmailEmptyCheckRedundant` | src/validators/index.ts:6-12 | The empty-value branch is subsumed: the verdict depends only on the shape check of the trimmed value. |
| `Validators.MessagesNonEmpty` | src/validators/index.ts:5-27 | Neither validator ever yields an empty error string. |
| `Validators.AcceptsPlainAddress` | src/validators/index.ts:3-14 | `a@b.co` is accepted. |
| `Validators.AcceptsPaddedAddress` | src/validators/index.ts:5-14 | `a@b.co` with any white space around it is accepted. |
| `Validators.RejectsDomainWithoutDot` | src/validators/index.ts:10-12 | `a@b` is rejected. |
| `Validators.RejectsSecondAt` | src/validators/index.ts:10-12 | `a@@b.co` is rejected. |
| `LoginApi.ScenarioMessage` | src/api/loginApi.ts:28-32 | Every failure kind has a non-empty fixed message. |
| `LoginApi.ScenarioFromSearch` | src/api/loginApi.ts:50-59 | A scenario is forced exactly when the parameter is one of the four names, and it is the scenario of that name. An absent, empty or unknown parameter forces nothing. |
| `LoginApi.ForcingByName` | src/api/loginApi.ts:34-39 | Every scenario can be forced by its own name. |
| `LoginApi.RandomIndex` | src/api/loginApi.ts:62 | `Math.floor(u * n)` for a draw `u` in [0, 1) is a valid index below `n`. |
| `LoginApi.PickRandomScenario` | src/api/loginApi.ts:61-64 | Every draw selects an entry of the pool. |
| `LoginApi.RandomPoolWeights` | src/api/loginApi.ts:41-48 | The pool has six entries: three successes and one each of invalid, rate and network. |
| `LoginApi.LoginDelay` | src/api/loginApi.ts:72-73 | The delay lies in [900, 1400] ms. |
| `LoginApi.CredentialsMatch` | src/api/loginApi.ts:88-90 | A match requires the exact valid password and a trimmed e-mail as long as the valid address. `LoginApi.ValidPairMatches` shows which e-mail spellings match. |
| `LoginApi.ChosenScenario` | src/api/loginApi.ts:75-76 | A recognised `scenario` parameter selects the scenario of that name. Any other parameter falls back to the random draw. |
| `LoginApi.Decide` | src/api/loginApi.ts:80-96 | Success exactly when the scenario is success and the credentials match. A failure's code is the scenario, or invalid when the scenario is success. Its message is the fixed message for that code. |
| `LoginApi.Login` | src/api/loginApi.ts:68-97 | The delay is within bounds. The outcome succeeds exactly when the chosen scenario is success and the credentials match. |
| `LoginApi.ForcedNetworkFails` | src/api/loginApi.ts:80-82 | With `scenario=network`, login fails with code network and the offline message, whatever the credentials and draws. |
| `LoginApi.ForcedRateFails` | src/api/loginApi.ts:84-86 | With `scenario=rate`, login fails with code rate and the throttling message, whatever the credentials. |
| `LoginApi.ForcedInvalidFails` | src/api/loginApi.ts:92-96 | With `scenario=invalid`, login fails with code invalid, even for the valid pair. |
| `LoginApi.ForcedSuccess` | src/api/loginApi.ts:88-96 | With `scenario=success`, login succeeds for matching credentials and otherwise fails with code invalid. |
| `LoginApi.ValidPairMatches` | src/api/loginApi.ts:88-90 | The valid pair matches with any white space around the e-mail address and any capitalisation of it. The password is compared exactly. |
| `Field.ErrorId` | src/components/Field.tsx:52 | The message id is `id + "-error"` exactly when the error is a non-empty string, and is absent otherwise. |
| `Field.KeepTruthy` | src/components/Field.tsx:54 | `.filter(Boolean)`: a string is kept exactly when it is non-empty and present in the input. The result is never longer than the input. |
| `Field.KeepTruthyAppend` | src/components/Field.tsx:54 | Filtering distributes over concatenation, so the kept entries stay in their original order. |
| `Field.DescribedBy` | src/components/Field.tsx:53-55 | `aria-describedby` is absent exactly when neither id is present. Otherwise it is `describedBy`, the error id, or both joined by one space, in that order. |
| `Field.Attributes` | src/components/Field.tsx:52-94 | `data-state` is the state prop. `aria-invalid` and the `alert` role hold exactly when the error is non-empty. The message text is the error or `''`. The message id exists exactly when `aria-invalid` holds, and then `aria-describedby` is present. |
| `Field.DescribedByNamesMessage` | src/components/Field.tsx:52-55 | Read as an id list, `aria-describedby` names the helper text and then the message element. The message element is named exactly when the field is invalid. |
| `LoginPage.Validate` | src/components/LoginPage.tsx:91-92 | The validator for the field. Its messages are never empty. |
| `LoginPage.SubmitErrors` | src/components/LoginPage.tsx:113-125 | A field has an entry exactly when its validator fails, and the entry is that validator's message. |
| `LoginPage.FirstInvalidField` | src/components/LoginPage.tsx:99-111 | Focus goes to e-mail when it has an error. Otherwise it goes to password when that has an error. Otherwise nowhere. |
| `LoginPage.ResolveRejection` | src/components/LoginPage.tsx:146-151 | A `LoginError` is kept as it is. Any other rejection becomes a network error whose message equals the service's offline message. |
| `LoginPage.LoginForm.constructor` | src/components/LoginPage.tsx:14-29 | The initial state: empty values, nothing touched, no errors, no focus, idle, password hidden. |
| `LoginPage.LoginForm.FormDisabled` | src/components/LoginPage.tsx:46-48 | The form is disabled exactly when it is not idle, i.e. while submitting or after success. |
| `LoginPage.LoginForm.GetFieldState` | src/components/LoginPage.tsx:160-178 | Invalid exactly when the field has an error. Typing only when the field is both the typing field and the focused field. The order is invalid, typing, focused, valid (touched), idle. |
| `LoginPage.LoginForm.ScheduleTypingReset` | src/components/LoginPage.tsx:50-58 | The single pending reset callback is replaced by one for this field. |
| `LoginPage.LoginForm.Edit` | src/components/LoginPage.tsx:60-69 | Only this field's value changes. The server error is cleared. The field becomes the typing field with its reset pending. Errors, touched and status are unchanged. A focused field without an error shows typing. |
| `LoginPage.LoginForm.TypingResetFires` | src/components/LoginPage.tsx:55-57 | The callback clears the typing flag only if it still names the scheduled field. Under the invariant this leaves no typing flag and no pending callback. Nothing else changes. |
| `LoginPage.LoginForm.Focus` | src/components/LoginPage.tsx:71-74 | The field becomes focused and the typing flag is cleared. The field shows focused, or invalid if it has an error. |
| `LoginPage.LoginForm.SetFieldError` | src/components/LoginPage.tsx:76-86 | A non-empty message is stored for the field. Otherwise the field's entry is removed. The other entry is unchanged. |
| `LoginPage.LoginForm.Blur` | src/components/LoginPage.tsx:88-97 | Focus and typing are cleared only if they name this field. Only this field becomes touched. Its error becomes its validator's verdict on the current value, and the other error is kept. The field then shows invalid or valid. |
| `LoginPage.LoginForm.ValidateBeforeSubmit` | src/components/LoginPage.tsx:113-129 | Errors become exactly the validators' verdicts on both values, and both fields become touched. |
| `LoginPage.LoginForm.Submit` | src/components/LoginPage.tsx:131-141 | The server error is cleared and both fields are validated and touched. With any error, status is unchanged, login is not called, and focus goes to the first invalid field. Otherwise status becomes submitting and the current values are sent. |
| `LoginPage.LoginForm.CompleteLogin` | src/components/LoginPage.tsx:143-157 | A resolved login makes status success. A rejected one makes status idle, shows the resolved error and focuses the error summary. |
| `LoginPage.LoginForm.TogglePasswordVisibility` | src/components/LoginPage.tsx:180-182 | Password visibility flips and the invariant is kept. |
| `LoginPage.LoginForm.FieldPropsOf` | src/components/LoginPage.tsx:212-247 | The props of each field: its id (`email` or `password`), its stored error or nothing, its state from `getFieldState`, and the helper text as `describedBy` for e-mail only. |
| `LoginPage.EmailFieldDescribedBy` | src/components/LoginPage.tsx:212-230 | The e-mail input is described by `signin-helper`, and also by `email-error` exactly while it has an error. |
| `LoginPage.PasswordFieldDescribedBy` | src/components/LoginPage.tsx:232-247 | The password input is described by `password-error` exactly while it has an error, and otherwise by nothing. |
| `LoginPage.MessageShowsStoredError` | src/components/LoginPage.tsx:223-241 | Each field's message element shows exactly the stored error, or `''` when there is none. |
| `LoginPage.EmptySubmit` | src/components/LoginPage.tsx:131-139 | Submitting the untouched form shows both fields invalid, focuses e-mail and does not call login. |
| `LoginPage.SubmitAndSettle` | src/components/LoginPage.tsx:131-157 | With valid values, submit sends them to login. A rejection shows the resolved error and leaves the form enabled. A success leaves it disabled. |

## Left out

- JSX, CSS classes and DOM focus calls are not modelled. A focus target is returned as a field name, and the error-summary focus as a flag.
- The mount effect is not modelled: the initial focus of the e-mail input and the cleanup that clears the timer on unmount. A client can model the initial focus by calling `Focus(Email)`.
- A login that settles after the component is torn down is not modelled.
- Timers and `await` become events: `TypingResetFires` is the 600 ms callback and `CompleteLogin` is the settled promise. The 0 ms timer that focuses the error summary is the flag `CompleteLogin` returns.
- `Math.random()` is an input draw `u` in [0, 1), and arithmetic on it is exact real arithmetic. Floating-point rounding is not modelled.
- `URLSearchParams` and `window.location` are not modelled. The `scenario` parameter is an optional, already decoded string.
- `LoginApi.ScenarioFromSearch`: has exactly the four keys of `scenarioParamMap`. In JavaScript, an inherited key such as `toString` or `constructor` returns a non-null value. `login` then fails with code invalid instead of drawing a random scenario.
- `Text.Lower`: lower-cases ASCII letters only. `toLowerCase` also maps other Unicode letters.
- `Validators.ValidatePassword`: counts Unicode code points. `.length` counts UTF-16 code units, so a character outside the Basic Multilingual Plane counts once here and twice in the source.
- `LoginApi.LoginError`: only `code` and `message` are kept. `name` is the constant `Name()`. The rest of `Error` (stack, prototype) is not modelled.
- `LoginPage.LoginForm.Edit`: requires the form to be enabled, because a disabled fieldset stops input events.
- `LoginPage.LoginForm.Submit`: requires the form to be enabled, because the disabled submit button stops submission.
- `LoginPage.LoginForm.CompleteLogin`: requires a login in flight, that is status `Submitting`.
- `LoginPage.LoginForm.Blur`: validates the stored value of the field. The source reads `event.target.value`, which equals the stored value for a controlled input.
- React's batching of state updates is not modelled. Each handler's updates are applied in order, which gives the same final state.
- src/components/Button.tsx is not part of this model. It is presentational (`disabled || loading` and a label swap).

## Notes on the code's behaviour

- Submit marks both fields touched whether or not validation fails (src/components/LoginPage.tsx:127).
- An edit does not reset `touched`. Once a field is touched, it stays touched (src/components/LoginPage.tsx:60-69).
- There is one typing-reset timer for the whole form, not one per field. An edit of either field replaces it (src/components/LoginPage.tsx:34, 50-58).
- The service matches the e-mail after trimming and lower-casing it, and the password exactly (src/api/loginApi.ts:88-90). The validators trim only the e-mail (src/validators/index.ts:6, 17-24).
