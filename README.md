# Registration, input rules and push-token bookkeeping of backend_template

This project models three parts of the `backend_template` service in Dafny and
proves properties of the model.

- **Push-token bookkeeping** for `NotificationsServices` (module
  `Notifications`). `sendPushNotification` sends to one user.
  `sendPushNotificationToAllUsers` does the following:
  - collects every user that has tokens and joins their token lists;
  - cuts the joined list into multicasts of at most 500 tokens;
  - adds up the success and failure counts;
  - collects the tokens whose reply says the registration is dead;
  - writes back every user list that loses a token.

  The token column of the user table is a `TokenStore` class. It holds a map
  from user id to token list, plus a log with one user id per
  `prisma.user.update` the sends issue. Firebase Cloud Messaging (FCM) is
  reduced to its answer: one `SendResponse` per token sent, in order.
- **Registration** `createUserIntoDB` (module `Auths`). It refuses an email
  that is already taken. Otherwise it writes two rows in one step: an
  unverified user with a hashed password, and one `VERIFY_EMAIL` one-time
  code. It returns the user without the password. The pure transition is
  `Register` over a `Store` of both tables. The `IdentityStore` class runs it
  in place.
- **Input rules** of the register schema (module `AuthsValidation`): the
  password schema, and the name, phone and email fields.
  - A schema is a list of checks. Every check runs, and each failing check
    reports its message in order.
  - Lengths are JavaScript string lengths: UTF-16 code units, so a character
    outside the Basic Multilingual Plane counts twice.
  - The regular expressions are given a meaning by a small matcher
    (module `Patterns`). It covers exactly the constructs these rules use:
    literal text, character classes, alternation, concatenation and
    `{n}` repetition.

Facts the model makes visible:
- The length bounds are inclusive. A 32-character password passes even though
  its message reads "less than 32 characters". The same holds for a
  50-character name.
- An accepted phone number has 11 characters, or 14 in the `+8801…` form
  (13 digits plus the `+`).
- A duplicate registration is answered with `400 Bad Request` and
  "User already exists" (`src/app/modules/auths/auths.service.ts:20-21`).

`Wrappers` holds `Option` and `Result`. `ApiErrors` holds the error value and
the two HTTP status codes used.

## Model

| member | source | states |
|---|---|---|
| Notifications.DeadTokensIff | src/app/modules/notifications/notifications.service.ts:58-68 | a token is marked invalid iff some position holding it has an unsuccessful reply whose code is `messaging/registration-token-not-registered` or `messaging/invalid-registration-token`; success and other codes never mark it |
| Notifications.DeadTokensLength | src/app/modules/notifications/notifications.service.ts:58-68 | at most one token is collected per reply |
| Notifications.CollectInvalid | src/app/modules/notifications/notifications.service.ts:56-68 | the reply loop returns exactly the dead tokens, in token order |
| Notifications.CountsAddUp | src/app/modules/notifications/notifications.service.ts:81-84 | every reply is counted once, as a success or as a failure |
| Notifications.WithoutCounts | src/app/modules/notifications/notifications.service.ts:75 | the filtered list keeps each live token as often as it occurred and holds no dead token |
| Notifications.WithoutMembers | src/app/modules/notifications/notifications.service.ts:75 | a token is in the filtered list iff it was stored and is not dead |
| Notifications.WithoutSubsequence | src/app/modules/notifications/notifications.service.ts:75 | the filtered list is a subsequence of the stored one, in the same order |
| Notifications.WithoutUnchanged | src/app/modules/notifications/notifications.service.ts:180-182 | filtering leaves a list equal iff none of its tokens is dead; it changes the list iff it shortens it; it never lengthens it |
| Notifications.SingleUserSurvivors | src/app/modules/notifications/notifications.service.ts:58-79 | after a single-user send, a token survives iff it was stored and no position holding it got a dead reply |
| Notifications.TokenStore.SendToUser | src/app/modules/notifications/notifications.service.ts:14-85 | unknown user: 404 "User not found"; no tokens: 400 "User has no FCM tokens"; both leave the store and the update log alone. Otherwise it returns the reply counts. With no dead token nothing is written. Otherwise exactly this user's list is replaced by its filtered form, and one update is logged |
| Notifications.BatchesShape | src/app/modules/notifications/notifications.service.ts:127-132 | every chunk holds 1 to 500 tokens, every chunk but the last exactly 500, and there are ceil(n/500) chunks |
| Notifications.BatchesFlatten | src/app/modules/notifications/notifications.service.ts:127-132 | the chunks joined in order give back the combined list |
| Notifications.SplitIntoBatches | src/app/modules/notifications/notifications.service.ts:127-132 | the `i += 500` slicing loop produces exactly `Batches(all)` |
| Notifications.ActiveEntriesTokens | src/app/modules/notifications/notifications.service.ts:113-120 | dropping users without tokens leaves the combined token list the same as joining every user's list in table order |
| Notifications.ActiveEntriesMembers | src/app/modules/notifications/notifications.service.ts:113-118 | an entry is collected iff its user is in the table with that exact, non-empty token list |
| Notifications.TableTokensEmpty | src/app/modules/notifications/notifications.service.ts:120-124 | the combined list is empty, so the bulk send raises 400, iff no user has a token |
| Notifications.SendBatches | src/app/modules/notifications/notifications.service.ts:134-175 | the chunk loop's running totals are the per-chunk success and failure counts summed, and the invalid set is the union of every chunk's dead tokens |
| Notifications.TotalsAreCounts | src/app/modules/notifications/notifications.service.ts:160-161 | the summed totals are the counts over all replies of all chunks |
| Notifications.TotalsAddUp | src/app/modules/notifications/notifications.service.ts:134-161 | the two totals add up to the number of tokens in the combined list |
| Notifications.DeadUnionIff | src/app/modules/notifications/notifications.service.ts:164-174 | a token is in the invalid set iff it was sent in some chunk at a position whose reply is dead |
| Notifications.PrunedTableProperties | src/app/modules/notifications/notifications.service.ts:180 | after pruning, each user's list holds exactly its live tokens, keeps their order, and equals the old list iff none of them was dead |
| Notifications.PruneAll | src/app/modules/notifications/notifications.service.ts:179-193 | writing back only the lists that got shorter leaves every listed user with its filtered list and every other user untouched |
| Notifications.PruneTable | src/app/modules/notifications/notifications.service.ts:177-193 | when the table order lists every user, the update loop gives every user its filtered list, so a dead token is removed from every list that holds it |
| Notifications.ChangedUsersIff | src/app/modules/notifications/notifications.service.ts:182-191 | a user is written back iff it is in the table order and its list holds a dead token |
| Notifications.NothingDead | src/app/modules/notifications/notifications.service.ts:178 | with an empty invalid set, pruning changes nothing and writes no user |
| Notifications.TokenStore.PruneUsers | src/app/modules/notifications/notifications.service.ts:179-193 | the update loop's new table and log are those of `Prune` and `ChangedUsers` over the entries |
| Notifications.TokenStore.SendToAllUsers | src/app/modules/notifications/notifications.service.ts:102-199 | no tokens anywhere: 400 "No FCM tokens found for any user", and nothing changes. Otherwise it returns the summed counts, every user's list loses its dead tokens, and the log gains exactly the users that lost one, in table order |
| Auths.PasswordRoundTrip | src/app/modules/auths/auths.service.ts:69-71 | removing the password loses no other field: putting it back restores the user, and each projection undoes the other |
| Auths.RegisterRejectsDuplicate | src/app/modules/auths/auths.service.ts:14-22 | a taken email yields 400 "User already exists" and both tables stay as they were |
| Auths.RegisterCreatesUser | src/app/modules/auths/auths.service.ts:24-43 | a free email adds exactly one user under that email. The user is unverified, its password is `Hash(plaintext, salt)`, and it carries the payload's fields. Every other user is unchanged |
| Auths.RegisterAddsOneOtp | src/app/modules/auths/auths.service.ts:45-54 | a free email adds exactly one `VERIFY_EMAIL` row for that email with the given code and expiry; the existing rows are unchanged |
| Auths.RegisterReturnsStoredUser | src/app/modules/auths/auths.service.ts:69-71 | the returned value is the stored user without its password |
| Auths.RegisterAtomic | src/app/modules/auths/auths.service.ts:39-76 | either the call fails and neither table changes, or it succeeds and both the user and its code row are added |
| Auths.RegisterKeepsConsistent | src/app/modules/auths/auths.service.ts:14-43 | registration keeps every user filed under its own email |
| Auths.RegisterTwice | src/app/modules/auths/auths.service.ts:14-43 | after a successful registration, any registration with the same email fails and changes nothing |
| Auths.IdentityStore.CreateUser | src/app/modules/auths/auths.service.ts:12-79 | the in-place method returns and leaves exactly what `Register` computes from the old tables, and keeps the store consistent |
| AuthsValidation.IssuesEmptyIff | src/app/modules/auths/auths.validation.ts:4-11 | a schema reports no issue iff the input passes every one of its checks |
| AuthsValidation.IssuesExactlyOne | src/app/modules/auths/auths.validation.ts:4-11 | when exactly one check fails, its message is the only one reported |
| AuthsValidation.PasswordRules | src/app/modules/auths/auths.validation.ts:4-11 | each password check means: length at least 8; length at most 32; an A-Z; an a-z; a 0-9; one of `@$!%*?&#` |
| AuthsValidation.PasswordAcceptedIff | src/app/modules/auths/auths.validation.ts:4-11 | a password is accepted iff 8 <= length <= 32 and it has an upper-case letter, a lower-case letter, a digit and a special character |
| AuthsValidation.PasswordOnlyIssue | src/app/modules/auths/auths.validation.ts:4-11 | a password that breaks one rule and no other is rejected with that rule's message alone |
| AuthsValidation.PasswordBoundaries | src/app/modules/auths/auths.validation.ts:6-7 | 8 and 32 characters are accepted; 7 and 33 are rejected with the length message alone |
| AuthsValidation.PasswordRulesIndependent | src/app/modules/auths/auths.validation.ts:8-11 | for each character-class rule, an 8-character password meets every other rule and fails that one |
| AuthsValidation.NameAcceptedIff | src/app/modules/auths/auths.validation.ts:14-17 | a name is accepted iff its length is 2..50 inclusive |
| AuthsValidation.PhoneAcceptedIff | src/app/modules/auths/auths.validation.ts:20-22 | a phone number is accepted iff it is `01` or `+8801`, then a digit 3-9, then exactly eight ASCII digits, and nothing else |
| AuthsValidation.PhoneShape | src/app/modules/auths/auths.validation.ts:20-22 | an accepted number has 11 characters, or 14 exactly when it starts with `+`; every other character is an ASCII digit |
| AuthsValidation.PhoneExamples | src/app/modules/auths/auths.validation.ts:22 | `01712345678` and `+8801912345678` are accepted; `01212345678`, `0171234567` and `8801712345678` are rejected |
| AuthsValidation.TrimStart | src/app/modules/auths/auths.validation.ts:19 | the result is a suffix of the input that does not start with whitespace, and every character cut off before it is whitespace |
| AuthsValidation.TrimEnd | src/app/modules/auths/auths.validation.ts:19 | the result is a prefix of the input that does not end with whitespace, and every character cut off after it is whitespace |
| AuthsValidation.TrimSlice | src/app/modules/auths/auths.validation.ts:19 | `.trim()` keeps one slice of the input and cuts off only whitespace, at its start and at its end |
| AuthsValidation.TrimClean | src/app/modules/auths/auths.validation.ts:19 | the trimmed text neither starts nor ends with whitespace |
| AuthsValidation.NormalizeEmailProperties | src/app/modules/auths/auths.validation.ts:19 | the normalised email has no edge whitespace and no ASCII upper-case letter, and normalising it again changes nothing |
| AuthsValidation.NormalizeEmailExact | src/app/modules/auths/auths.validation.ts:19 | the normalised email is the lower-cased input with exactly its leading and trailing whitespace cut off: everything cut is whitespace, and what is kept neither starts nor ends with whitespace |
| AuthsValidation.EmailExample | src/app/modules/auths/auths.validation.ts:19 | the transforms turn `"  A@X.Com\n"` into `"a@x.com"`; the whole email rule would refuse this input, because its format check runs first |
| Patterns.Range | src/app/modules/auths/auths.validation.ts:8-10 | a character is in `[lo-hi]` iff lo <= c <= hi |
| Patterns.ClassSearch | src/app/modules/auths/auths.validation.ts:8-11 | an unanchored one-class pattern finds a match iff some character of the input is in the class |
| Patterns.RepeatClassEnds | src/app/modules/auths/auths.validation.ts:22 | a class repeated n times matches at i exactly the next n characters, when they are all in the class |
| Patterns.ClassThenRepeatEnds | src/app/modules/auths/auths.validation.ts:22 | `[a]` followed by `[b]{n}` matches at i exactly n+1 characters, when they have that shape |

## Left out

- The FCM call `sendEachForMulticast` is reduced to its replies. Not modelled:
  the message it is sent (title, body, data, Android and APNs priority), the
  Firebase client, and its setup (`firebaseAdmin.ts`, `firebase.config.ts`).
  `successCount` and `failureCount` are the counts of successful and failed
  replies, which is how a Firebase batch response computes them.
- Notifications.TokenStore.SendToUser and Notifications.TokenStore.SendToAllUsers
  assume every FCM call returns one reply per token. In the source, an
  exception from FCM or from the database ends the operation part-way. That
  leaves earlier bulk updates in place. The model does not capture such
  partial runs.
- Notifications.TokenStore.SendToAllUsers takes the order in which the
  database lists its users as a parameter (`order`). It requires that this
  order names exactly the users of the table.
- Registration: the database assigns the user id, hashing draws a random
  salt, and the one-time code generator picks the code and its expiry. These
  are inputs (`id`, `salt`, `code`, `expiresAt`). `generateHelpers.ts` is not
  part of this model, so `generateOTP(6, 10)` being a 6-digit code valid for
  10 minutes is not stated.
- Auths.PasswordHash: bcrypt is symbolic. `Hash(password, salt)` records what
  was hashed. The model does not say that the hash hides the password.
- The verification email sent with `setImmediate` is left out, along with its
  logging. It is asynchronous I/O outside the transaction. The transaction
  timeout and database isolation are left out too. In particular, the model
  ignores a second registration that lands between the duplicate check and
  the insert.
- The user table is one table, `prisma.user`. The model splits it into two
  stores that are not connected: `Auths.IdentityStore`, keyed by email, and
  `Notifications.TokenStore`, keyed by user id. So a user that registration
  creates never appears in `TokenStore`. Registration writes the `fcmToken`
  column (one optional string). The notification service reads and writes
  the `fcmTokens` column (a list). The model keeps both as written.
- Auths.RegisterReturnsStoredUser: the returned user (`SafeUser`) holds only
  `id`, the payload fields and `isVerified`. In the source,
  `createUserIntoDB` returns every column of the created row except the
  password. That includes the columns the database fills in, such as
  `fcmTokens` and any defaults or timestamps. The database schema is not
  part of this model, so those columns are left out.
- The email format check `z.email`, the image URL check and the role enum are
  left out. They delegate to the validation library's format parser and the
  database enum. In that library the format check runs on the input before
  `.trim()` and `.toLowerCase()` are applied. `NormalizeEmail` models only
  the transforms.
- AuthsValidation.LowerChar: lower-cases only `A`-`Z`.
  `String.prototype.toLowerCase` also maps non-ASCII letters, so
  `NormalizeEmail` agrees with the source on ASCII input only.
- Patterns: only the regular-expression constructs the four rules use are
  given a meaning, and no regular-expression flags. `\d` stands for the
  ASCII digits.
- Login, code verification, forgot, reset and change password, and token
  refresh have no implementation in the sources, so they are not modelled.
  Also left out: the JWT helpers, controllers, routes, configuration, the
  commented-out rate limiter and the notification request schema.
