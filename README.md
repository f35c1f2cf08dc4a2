# Session, credential and navigation layer of the test-taking web client

This project models in Dafny the client-side session logic of `auth.js`.
That file is the front end of a web application where teachers create tests and students take them.
The model covers five parts:

- **Session store** (`Session`). Local storage is a map from key to a stored entry. `getUsers` and `getCurrentUser` read the `users` and `currentUser` entries and fall back to `{}` and `null`. `setCurrentUser` replaces the `currentUser` entry. `logout` removes it and redirects to `index.html`. `SessionStore` is a class whose `items` field the mutating methods reassign. `JSON.parse` is abstracted: an entry is a user record, the registry object, the empty string (falsy, never parsed), or text that cannot be parsed.
- **Credential encoder** (`Credential`, `Base64`, `Utf8`, `JsonText`). `getAuthHeader` returns no header without a session. Otherwise it returns exactly `Authorization: Bearer <token>` in the b64token shape of section 2.1 of RFC 6750. The token is `btoa(unescape(encodeURIComponent(JSON.stringify({login, role}))))`. The model spells this out as JSON text (RFC 8259, with `JSON.stringify`'s escaping), then UTF-8 (RFC 3629), then Base64 (section 4 of RFC 4648). Each layer has a decoder, and the proofs show the token decodes to exactly the login and role. So the header depends on those two fields and no others, and two sessions share a header only when their logins and roles match.
- **Form logic** (`AuthForms`). Validation of the registration and login forms runs in a fixed order. The model builds the request bodies and maps a reply (`ok`, `error`, `user`, or a network failure) to an outcome. A submit handler runs these steps against a `SessionStore`.
- **Navigation view-model** (`Nav`). `initIndexNav` leaves the region untouched without a session. Otherwise it clears the region and appends items one by one: `[create link, dashboard link, logout, avatar]` for a teacher and `[action button, logout, avatar]` for any other role. The model also covers the avatar initial and the role label.
- **Profile window** (`Profile`). The modal is created once and reused. It shows the rounded mean of the completed tests' percentages, the red/orange/green band (thresholds 30 and 60), the avatar colour, the role label and which statistics section appears.

`JsString` gives the two ECMAScript string operations the code relies on: `trim` and `toUpperCase` of one character.

Three behaviours of `auth.js` worth knowing, all of which the model keeps:

- The profile window labels every role other than `teacher` as a student ('Ученик'). It does not fall back to the raw role. Only the navigation bar's label falls back to the raw role, and the code computes that label without displaying it (auth.js:148-149).
- The source comment on the red band says "< 30%", but the code makes 30 itself red. The model follows the code: red up to and including 30.
- A successful reply without a `user` field makes `setCurrentUser(undefined)` store the text "undefined". `getCurrentUser` later rejects that text. The handler still redirects as if sign-in succeeded, but no session exists afterwards. `SessionStore.SetCurrentUser(None)` models this.

## Model

| member | source | states |
|---|---|---|
| `Session.StoredEntry` | auth.js:22-24 | what `setCurrentUser` leaves in storage: a user record exactly when it is given a user, otherwise an entry no read accepts |
| `Session.SessionStore.CurrentUser` | auth.js:13-20 | a session exists exactly when the `currentUser` entry is a user record, and it is that record; a missing, empty or unparseable entry gives no session, never a failure |
| `Session.SessionStore.Users` | auth.js:4-11 | the stored registry when there is one; the empty mapping when the entry is missing, empty or unparseable |
| `Session.SessionStore.SetCurrentUser` | auth.js:22-24 | only the `currentUser` entry changes; the next read gives back exactly the value stored; the registry is unchanged |
| `Session.SessionStore.Logout` | auth.js:33-38 | the `currentUser` entry is gone whether or not it existed, so there is no session; nothing else changes; the redirect is always `index.html` |
| `JsString.Trim` | auth.js:62 | the trimmed login is the slice of the input with only ECMAScript whitespace outside it and no whitespace at either end; it is empty exactly when the input is all whitespace |
| `JsString.TrimUnique` | auth.js:109 | exactly one string meets that description, so the contract of `Trim` determines `trim` |
| `JsString.TrimIdempotent` | auth.js:109 | trimming an already trimmed login changes nothing |
| `JsString.UpperCase` | auth.js:154 | one character upper-cases to one or two characters; ASCII letters move to their capitals; uncased characters stay |
| `JsString.UpperCaseStable` | auth.js:154 | every character of an upper-cased result upper-cases to itself |
| `Base64.DigitChar` | auth.js:29 | every value 0..63 has an alphabet character, and decoding that character gives the value back |
| `Base64.Encode` | auth.js:29 | `btoa` output is four characters per started group of three bytes: alphabet digits, with one or two '=' only at the end |
| `Base64.Decode` | auth.js:29 | text that decodes has a length that is a multiple of four, and it decodes to no bytes only when it is empty |
| `Base64.DecodeEncode` | auth.js:29 | decoding the Base64 text gives back exactly the bytes that were encoded |
| `Base64.EncodeDecode` | auth.js:29 | the decoder accepts only what `btoa` produces: text that decodes is the encoding of its result |
| `Base64.EncodeInjective` | auth.js:29 | two byte strings have the same encoding exactly when they are equal |
| `Utf8.EncodeChar` | auth.js:29 | a character takes one to four bytes, and one byte exactly when it is ASCII |
| `Utf8.Encode` | auth.js:29 | a string takes at least one byte per character, and exactly one per character exactly when it is all ASCII |
| `Utf8.DecodeEncode` | auth.js:29 | decoding the UTF-8 bytes of `encodeURIComponent`/`unescape` gives back the serialized text |
| `JsonText.EscapeChar` | auth.js:29 | an escaped character contains no control character and never starts with a quotation mark; it stays a single character, itself, exactly when it is not a control character, quotation mark or backslash |
| `JsonText.Escape` | auth.js:29 | the escaped text is no shorter than the string and has no control character; it is the string itself exactly when no character needs escaping |
| `JsonText.Quote` | auth.js:29 | `JSON.stringify` of a string is the escaped text between two quotation marks, with no control character |
| `JsonText.ReadEscape` | auth.js:29 | an escaped string followed by a quotation mark reads back as the original string, and reading stops right after that mark |
| `JsonText.ReadQuote` | auth.js:29 | a quoted string, as `JSON.stringify` writes it, reads back as the original string, whatever follows it |
| `Credential.Serialize` | auth.js:29 | `JSON.stringify({login, role})` is one object, from '{' to '}', with no control character and longer than login and role together |
| `Credential.Token` | auth.js:29 | the token matches the b64token syntax of RFC 6750: alphabet characters, then any '=' padding |
| `Credential.CanonicalIsB64Token` | auth.js:29-30 | any non-empty `btoa` output can stand after `Bearer ` as an RFC 6750 b64token |
| `Credential.AuthHeader` | auth.js:26-31 | no session gives the empty header map; a session gives exactly the key `Authorization` with value `Bearer ` followed by the token of its login and role |
| `Credential.GetAuthHeader` | auth.js:26-31 | the header for the session the store holds: empty exactly when there is none |
| `Credential.ParseSerialize` | auth.js:29 | the serialized `{login, role}` reads back as that login and role |
| `Credential.TokenRoundTrip` | auth.js:29 | Base64-decoding, UTF-8-decoding and parsing the token gives exactly the login and role: the token holds nothing else and no secret |
| `Credential.HeaderRoundTrip` | auth.js:26-31 | the header value carries a Bearer token from which the session's login and role are recovered |
| `Credential.HeaderDeterminedByLoginAndRole` | auth.js:26-31 | two sessions get the same header exactly when their logins and roles agree; the id plays no part |
| `AuthForms.ValidateRegister` | auth.js:62-75 | missing fields are rejected first; only when every field is present is a password mismatch rejected; otherwise the request is sent with the trimmed login, the password as typed and the role, and the login is already trimmed |
| `AuthForms.ValidateLogin` | auth.js:109-115 | rejection with the fixed message happens exactly when the login is all whitespace or the password is empty; otherwise the trimmed, non-empty login and the untrimmed password are sent |
| `AuthForms.FailureText` | auth.js:84-86 | a refusal shows the server's non-empty `error`, or else the form's own default text |
| `AuthForms.HandleReply` | auth.js:83-93 | sign-in happens exactly on an ok reply, storing `data.user` and redirecting to `index.html`; a refusal shows its error text; a network failure shows the fixed network message |
| `AuthForms.Submit` | auth.js:77-93 | a rejected form sends nothing and changes no storage; otherwise the request is sent, and only a successful reply changes the session entry, clears the message and redirects |
| `AuthForms.SubmitRegister` | auth.js:54-94 | the request is sent exactly when the form validates, with the trimmed login; a rejected form shows the validator's message, sends nothing and changes nothing; a refusal or network failure shows the reply's text and changes nothing; an ok reply stores the reply's user, clears the message and redirects to `index.html` |
| `AuthForms.SubmitLogin` | auth.js:103-134 | the request is sent exactly when the form validates, with the trimmed login; a rejected form shows the fixed prompt, sends nothing and changes nothing; a refusal or network failure shows the reply's text and changes nothing; an ok reply stores the reply's user, clears the message and redirects to `index.html` |
| `Nav.Initial` | auth.js:154 | an empty login shows "?"; otherwise the avatar shows the upper-cased first character, which upper-cases to itself |
| `Nav.RoleLabel` | auth.js:148-149 | the two known roles get their names; the label equals the raw role exactly when the role is neither |
| `Nav.NavItems` | auth.js:160-197 | a teacher gets four items and any other role three; links appear exactly for a teacher, create-test before dashboard; any other role starts with the action button; the last two items are always logout and then the user's avatar |
| `Nav.NavRegion.Clear` | auth.js:146 | clearing leaves the region with no children |
| `Nav.NavRegion.Append` | auth.js:177-180 | appending adds one child at the end and keeps the others in order |
| `Nav.InitIndexNav` | auth.js:137-198 | a missing region or a missing session leaves the region unchanged; otherwise the region holds exactly the user's items, in order |
| `Profile.Completed` | auth.js:250-251 | a percentage is kept exactly when some assignment has it as a non-null percentage; nothing is kept exactly when no assignment has one; every test is kept exactly when every test is completed |
| `Profile.CompletedOne` | auth.js:251 | one test contributes its percentage when it is completed and nothing otherwise |
| `Profile.CompletedAppend` | auth.js:251 | filtering distributes over concatenation, so together with `CompletedOne` it fixes the order and multiplicity of what is kept |
| `Profile.Sum` | auth.js:254 | every percentage is at most the total |
| `Profile.SumAppend` | auth.js:254 | the total of two runs of percentages is the sum of their totals |
| `Profile.RoundedMean` | auth.js:255 | `Math.round` of the mean: the integer within one half of it, with halves rounded up |
| `Profile.Average` | auth.js:250-256 | there is no mean exactly when no test is completed; otherwise the mean is the `Math.round` of the completed percentages' total divided by their count |
| `Profile.BandColor` | auth.js:263-267 | each band has its own colour: red `#dc3545`, orange `#ff9500`, green `#28a745` |
| `Profile.BandOf` | auth.js:262-268 | red when there is no mean or it is at most 30; orange when it is above 30 and at most 60; green when it is above 60 |
| `Profile.StudentAverage` | auth.js:243-260 | a mean exists only for a student whose reply carries `tests`, so a non-student, a failed fetch and a reply without `tests` all give none; fetched tests give their average |
| `Profile.ProfileRoleLabel` | auth.js:279 | the teacher label for `teacher`, and the student label for every other role |
| `Profile.View` | auth.js:240-293 | avatar colour by teacher/other; the initial and login; the role label; no stats section exactly for a non-student; the "no completed tests" note exactly for a student without a mean; otherwise the mean in its band's colour |
| `Profile.SumAtLeast` | auth.js:254 | when every percentage is at least some bound, their sum is at least their count times that bound |
| `Profile.SumAtMost` | auth.js:254 | when every percentage is at most some bound, their sum is at most their count times that bound |
| `Profile.RoundingBounds` | auth.js:255 | when the exact mean lies between two integers, its rounding does too |
| `Profile.MeanBounds` | auth.js:253-256 | when every completed percentage lies between two bounds, so does the rounded mean |
| `Profile.AverageAtMostHundred` | auth.js:250-256 | when every percentage is at most 100, the shown mean is at most 100 |
| `Profile.MeanOfTwoIsOrange` | auth.js:251-268 | [80, null, 40] averages to 60, which is orange, not green |
| `Profile.RepeatedScoresCount` | auth.js:251-255 | [80, 80, 20] averages to 60: a repeated percentage counts each time |
| `Profile.SingleMeanIsGreen` | auth.js:253-268 | [65] averages to 65, which is green |
| `Profile.NoCompletedTestsNote` | auth.js:282-293 | a student with no completed test gets the "no completed tests" note, whether the tests are all null, missing, or the fetch failed |
| `Profile.OpenProfileModal` | auth.js:211-297 | the window is created on first use and reused afterwards; its final content is exactly the view for the user and the tests reply |

## Left out

- Network I/O: `fetch`, `async`/`await` and `res.json()` are not modelled. A reply is an input value. A thrown `fetch`, or a body that is not JSON, is the `NetworkFailure` / `FetchFailed` input. The request URLs, headers and `API_BASE` are not modelled.
- DOM construction and event wiring are not modelled: `createElement`, `innerHTML` templates, CSS classes and styles, the `DOMContentLoaded` hookup, `initTeacherLogout` and `initStudentLogout`, the click handlers, the ESC and outside-click listeners, the close button, and the `hidden` class. They are UI plumbing. Only the ordered nav items, the window's content, the colours and the labels are kept, as values.
- The message element is assumed present. The source skips writing text when `#message` is missing (`if (message)`), and does nothing when the form or `.nav-right` is missing. Of these, only the missing nav region is modelled.
- The loading placeholder (auth.js:236) is modelled only as an intermediate state. It is overwritten within the same call, because the model has no suspension point. The uncancelled fetch racing a closed window is concurrency and is not modelled.
- Failures of local storage itself (`getItem` or `removeItem` throwing, as the `try`/`catch` blocks allow) are not modelled: storage is always available.
- Stored JSON of other shapes is not modelled. A `currentUser` entry holding other valid JSON, such as the registry object or a number, would be returned as is by the source. Text `null` gives `null` in both.
- Session.SessionStore.Users: the contract does not say what a user record stored under `users` reads as. The source returns that object; the model returns the empty mapping.
- JsString.UpperCase: covers Basic Latin, Latin-1 Supplement and basic Cyrillic only. Other characters are returned unchanged. Because JavaScript strings are UTF-16, a login starting with a character above U+FFFF has a lone surrogate as `login[0]`, which the model's characters cannot express.
- Nav.RoleLabel: roles that name properties inherited from `Object.prototype` (such as `constructor`) are not modelled. The source computes the label but never displays it.
- Credential.ParsePair and JsonText.ReadString are reference readers for the exact text `JSON.stringify` writes. They do not accept whitespace, other member orders, or `\u` escapes of surrogates, as `JSON.parse` would.
- Profile.RoundedMean: floating-point division is not modelled. Percentages are non-negative integers, and `Math.round` is round-half-up on the exact rational mean.
- Strings are sequences of Unicode scalar values. A login or role holding a lone UTF-16 surrogate makes `encodeURIComponent` throw a URIError, so `getAuthHeader` throws (auth.js:29). The model cannot express such a string.
- A reply whose JSON body is `null` makes reading `data.error` or `data.user` throw. The `catch` then shows the network message (auth.js:83-92, 123-132). `Reply.Answered` always has fields, so it cannot express this reply; in the model an answered reply always gives the refusal text or a sign-in.
- `console.error` logging on a failed stats fetch is not modelled.
