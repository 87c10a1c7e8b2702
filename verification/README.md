# Stargram account, translation, feed and session logic in Dafny

Stargram is a small photo-sharing demo: an ASP.NET Core backend with email/password and Google sign-in, and a React frontend with a feed. This project models the parts of it that make decisions, and proves what those decisions guarantee:

- **The account store.** These are the `Users` and `PasswordResetTokens` tables, with their unique indexes and cascading foreign key. Every write keeps the store invariant.
- **The account endpoints.** Registration rejects a known email and stores the hash of the password. Login looks the account up by email and checks the password against the stored hash. The Google callback finds or creates an account. A new account's user name is the normalised display name when that is free, and otherwise that name with the least free numeric suffix from 2 upwards. The session token carries exactly the user's id, user name and email.
- **The reset email.** Four placeholders are replaced, in a fixed order, in an HTML template.
- **Translation lookup.** A dotted key is walked through nested tables, with fallback to the Portuguese table and then to the key itself. The chosen language persists across reloads.
- **The feed page.** This covers merging and prepending posts, the `??`/`||` fallback chains for like count, liked flag and owner name, the likes line, relative times, and the composer guards.
- **The client session.** Persist, restore, logout and sign-in work over browser storage. `logged` means that both user and token are set.

Collaborators are passed in as values: the database state, the password hasher, the token serialiser, the clock and the configuration. JavaScript values are modelled by the `Js` datatype, which has its own truthiness, `??`, `||`, optional chaining, `===`, `String(v)`, and the `JSON.stringify`/`JSON.parse` round trip.

Modules, one per file:

| module | models |
|---|---|
| `Wrappers` | `Option` and `Result` |
| `Text` | decimal rendering and parsing; `Split`; .NET and JavaScript `Trim`; ordinal `Replace`; ASCII `ToLowerInvariant`; `includes` on strings |
| `JsValue` | JavaScript values and their operators |
| `UserStore` | the tables and their constraints (`AppDbContext`) |
| `UserNames` | `GenerateUniqueUserName` |
| `AuthController` | `Login`, `Register`, `GoogleCallback`, `GenerateToken` |
| `ResetEmail` | `SendResetPasswordAsync` |
| `I18n` | `t` and the language state of `LanguageProvider` |
| `Feed` | the helpers of `Feed.jsx` |
| `AuthSession` | `AuthProvider` |

Behaviour of the code worth noting:

- **Google callback without an email.** The code answers `BadRequest` with "Não foi possível obter o e-mail do Google.".
- **Login to an account without a password.** The code has no special "created via Google" message. The absent hash goes to the password verifier, and in the model whatever it answers decides the outcome.
- **Duplicate user name on registration.** Only the email is checked before saving. A duplicate user name is rejected by the unique index at save time, which surfaces as a server error and not as a validation message.
- **Endpoint paths.** The controller is mounted at `/auth/...`. The frontend calls `/api/Auth/login` with a field `emailOrUserName`, which the backend does not bind. Each side is modelled on its own terms.

## Model

| member | source | states |
|---|---|---|
| Text.NatToString | backend/Stargram.Api/Controllers/AuthController.cs:210 | the decimal form of a suffix is non-empty, all digits, and has no leading zero unless it is 0 |
| Text.NatToStringRoundTrip | backend/Stargram.Api/Controllers/AuthController.cs:210 | reading the decimal digits of `n` gives back `n` |
| Text.NatToStringInjective | backend/Stargram.Api/Controllers/AuthController.cs:210 | distinct suffixes render as distinct strings |
| Text.IntToStringRoundTrip | backend/Stargram.Api/Controllers/AuthController.cs:227 | `int.ToString` followed by parsing gives back the id, negatives included |
| Text.CountText | frontend/src/pages/Feed.jsx:690-696 | a count rendered before its unit is the number followed by the unit, and the number reads back as the count |
| Text.IndexOf | backend/Stargram.Api/Controllers/AuthController.cs:157 | the position of the first separator, or the length when there is none |
| Text.Split | backend/Stargram.Api/Controllers/AuthController.cs:157 | `Split(c)` gives at least one piece, and no piece contains the separator |
| Text.SplitHead | backend/Stargram.Api/Controllers/AuthController.cs:157 | the first piece is the text before the first separator; without one, it is the whole string |
| Text.JoinSplit | frontend/src/i18n.jsx:247 | joining the pieces with the separator gives back the string |
| Text.SplitJoin | frontend/src/i18n.jsx:247 | splitting a join of separator-free pieces gives back the pieces |
| Text.JoinAppend | frontend/src/i18n.jsx:247 | joining two lists of pieces is joining each and putting the separator between them |
| Text.SplitAppend | frontend/src/i18n.jsx:247 | splitting `a + sep + b` gives the pieces of `a` followed by those of `b` |
| Text.TrimStart | backend/Stargram.Api/Controllers/AuthController.cs:197 | the result is the suffix that starts at the first non-space, and everything dropped is white space |
| Text.TrimEnd | backend/Stargram.Api/Controllers/AuthController.cs:197 | the result is the prefix that ends at the last non-space, and everything dropped is white space |
| Text.Trim | backend/Stargram.Api/Controllers/AuthController.cs:197 | the result is an infix surrounded only by white space, does not start or end with white space, and is empty exactly when the input is all white space |
| Text.TrimNoop | frontend/src/pages/Feed.jsx:313 | a string that neither starts nor ends with white space is its own trim |
| Text.TrimIdempotent | frontend/src/pages/Feed.jsx:516 | trimming twice is trimming once |
| Text.Replace | backend/Stargram.Api/Services/EmailService.cs:70-74 | a replacement as long as the pattern keeps the length, and every character of the result comes from the input or the replacement |
| Text.Mismatch | backend/Stargram.Api/Services/EmailService.cs:70-74 | one differing character rules out an occurrence at that position |
| Text.ReplaceNoMatch | backend/Stargram.Api/Services/EmailService.cs:70-74 | `Replace` leaves a string without occurrences unchanged |
| Text.ReplaceAtFront | backend/Stargram.Api/Services/EmailService.cs:70-74 | an occurrence at the front is replaced, and scanning resumes after it |
| Text.ReplaceSkip | backend/Stargram.Api/Services/EmailService.cs:70-74 | a prefix in which no occurrence starts is copied unchanged |
| Text.ToLowerInvariant | backend/Stargram.Api/Controllers/AuthController.cs:199 | the length is kept, no upper-case ASCII letter remains, and exactly the upper-case ASCII letters change |
| Text.Contains | frontend/src/pages/Feed.jsx:401 | `includes` on a string holds exactly when the needle occurs somewhere |
| JsValue.Coalesce | frontend/src/pages/Feed.jsx:396-397 | `a ?? b` is one of its operands, `a` whenever it is neither null nor undefined, and nullish only when both are |
| JsValue.Either | frontend/src/pages/Feed.jsx:428-432 | `a || b` is one of its operands, `a` whenever it is truthy, and truthy exactly when one of them is |
| JsValue.Prop | frontend/src/i18n.jsx:250 | a property read gives an object's own field, an array's `length` or the element at a canonical decimal index, a string's `length` in UTF-16 code units, and `undefined` on booleans and numbers |
| JsValue.ArrayIndexRead | frontend/src/i18n.jsx:250 | reading the decimal text of an index in range gives that element of the array |
| JsValue.Utf16Length | frontend/src/pages/Feed.jsx:397 | a string's `length` lies between its character count and twice that |
| JsValue.BmpLength | frontend/src/pages/Feed.jsx:397 | text without characters beyond U+FFFF has one code unit per character |
| JsValue.AstralLength | frontend/src/pages/Feed.jsx:397 | each character beyond U+FFFF counts as two code units |
| JsValue.OptProp | frontend/src/i18n.jsx:250 | `v?.[k]` is `undefined` on null, undefined, numbers and booleans, and an object's own field (or `undefined`) on objects |
| JsValue.StrictEquals | frontend/src/pages/Feed.jsx:81 | `===` holds only between equal values; equal primitives are always `===`; arrays and objects from distinct parses never are |
| JsValue.ToJsString | frontend/src/pages/Feed.jsx:401 | `String(v)` of a string is the string, of a number reads back as the number, of an object is "[object Object]", of an empty array is empty, and of a one-string array is that string |
| JsValue.Jsonify | frontend/src/auth/AuthContext.jsx:36-39 | the stringify/parse round trip keeps truthiness, nullishness, array length, and the object keys whose values are not `undefined` |
| JsValue.JsonifyKeepsJson | frontend/src/auth/AuthContext.jsx:23 | a JSON value survives the round trip unchanged |
| JsValue.JsonifyIsJson | frontend/src/auth/AuthContext.jsx:23 | the round trip of anything but `undefined` is a JSON value |
| JsValue.JsonifyIdempotent | frontend/src/auth/AuthContext.jsx:36-39 | a second round trip changes nothing |
| UserStore.Valid | backend/Stargram.Api/Data/AppDbContext.cs:20-35 | in a state the constraints allow, the next id is free, distinct rows differ in id, email and user name, and every reset token belongs to a stored user |
| UserStore.FindByEmail | backend/Stargram.Api/Controllers/AuthController.cs:44-45 | finds a user exactly when one has the email, and returns that stored record |
| UserStore.FindStoredUser | backend/Stargram.Api/Controllers/AuthController.cs:163-164 | in a valid store, looking a stored user up by its email finds that user |
| UserStore.InsertUser | backend/Stargram.Api/Data/AppDbContext.cs:20-24 | a save fails exactly when the email or the user name is taken; otherwise exactly one user is added under a fresh id, and the invariant holds |
| UserStore.InsertResetToken | backend/Stargram.Api/Data/AppDbContext.cs:27-35 | a token is stored exactly when its user exists and its string is unused; the invariant holds |
| UserStore.DeleteUser | backend/Stargram.Api/Data/AppDbContext.cs:27-32 | deleting a user removes exactly that user and its reset tokens; the invariant holds |
| UserNames.Normalise | backend/Stargram.Api/Controllers/AuthController.cs:196-199 | the normalised name is as long as the trimmed display name, and empty exactly when the display name is all white space |
| UserNames.DotLowerChars | backend/Stargram.Api/Controllers/AuthController.cs:198-199 | replacing spaces and lower-casing maps each character independently |
| UserNames.DotLowerShape | backend/Stargram.Api/Controllers/AuthController.cs:198-199 | replacing spaces and lower-casing a string without white space at either end leaves no space, no capital, and no white space at either end |
| UserNames.NormalisedShape | backend/Stargram.Api/Controllers/AuthController.cs:196-199 | every normalised name is in normal form: no space, no upper-case ASCII letter, and no white space at either end |
| UserNames.DotLowerFixes | backend/Stargram.Api/Controllers/AuthController.cs:198-199 | a name without spaces or capitals is left alone by the last two steps |
| UserNames.NormaliseFixes | backend/Stargram.Api/Controllers/AuthController.cs:196-199 | a name in normal form is unchanged by normalisation |
| UserNames.NormaliseIdempotent | backend/Stargram.Api/Controllers/AuthController.cs:196-199 | normalising twice is normalising once |
| UserNames.Candidate | backend/Stargram.Api/Controllers/AuthController.cs:210 | a candidate starts with the base name and ends in digits that read back as the suffix |
| UserNames.CandidateInjective | backend/Stargram.Api/Controllers/AuthController.cs:210 | distinct suffixes give distinct candidate names |
| UserNames.TriedStep | backend/Stargram.Api/Controllers/AuthController.cs:207-211 | trying one more suffix adds exactly one candidate that was not tried before |
| UserNames.TriedShrinks | backend/Stargram.Api/Controllers/AuthController.cs:207-211 | probing a taken candidate leaves strictly fewer taken names untried |
| UserNames.ProbeProgress | backend/Stargram.Api/Controllers/AuthController.cs:207-211 | each iteration of the loop decreases its variant and keeps every tried name taken |
| UserNames.TriedAllTaken | backend/Stargram.Api/Controllers/AuthController.cs:207-211 | the tried names are all taken exactly when every candidate below the current suffix is taken |
| UserNames.LeastFreeSuffixUnique | backend/Stargram.Api/Controllers/AuthController.cs:204-213 | the least free suffix is unique |
| UserNames.FreeSuffix | backend/Stargram.Api/Controllers/AuthController.cs:204-213 | the search returns a free suffix with every suffix between the start and it taken |
| UserNames.FreeName | backend/Stargram.Api/Controllers/AuthController.cs:201-213 | the result is never taken: it is the base when that is free, otherwise the base with the least free suffix from 2 |
| UserNames.UniqueUserName | backend/Stargram.Api/Controllers/AuthController.cs:194-214 | the same, stated for the normalised display name |
| UserNames.NeverSuffixOne | backend/Stargram.Api/Controllers/AuthController.cs:204-210 | the suffix 1 is never produced |
| UserNames.ProbeFinds | backend/Stargram.Api/Controllers/AuthController.cs:204-213 | when the loop stops, its suffix is the least free one and the name is the one `FreeName` specifies |
| UserNames.ProbeSuffixes | backend/Stargram.Api/Controllers/AuthController.cs:201-213 | the probing loop terminates with a free name, and it is the least one |
| UserNames.GenerateUniqueUserName | backend/Stargram.Api/Controllers/AuthController.cs:194-214 | the generated name is not taken and is the one `UniqueUserName` specifies |
| AuthController.FindClaim | backend/Stargram.Api/Controllers/AuthController.cs:109-111 | `FindFirst` finds a claim exactly when one of that type exists, and returns the value of the first such claim |
| AuthController.GenerateToken | backend/Stargram.Api/Controllers/AuthController.cs:219-241 | signing fails exactly without a key; otherwise the claims are exactly id, username and email, the token expires eight hours after issue, and it is signed with HMAC-SHA256 under the configured key, issuer and audience |
| AuthController.TokenClaimsRoundTrip | backend/Stargram.Api/Controllers/AuthController.cs:107-111 | a reader of the token recovers the user's id, user name and email |
| AuthController.Respond | backend/Stargram.Api/Controllers/AuthController.cs:55-63 | the response carries the serialised token and the user's id, user name and email, or is a server error when no key is configured |
| AuthController.Login | backend/Stargram.Api/Controllers/AuthController.cs:41-64 | login never writes; it is unauthorized with one fixed message exactly when the email is unknown or the hash rejects the password; otherwise the reply is exactly `Respond` for the stored user with that email: its signed token with its id, user name and email, or a server error without a key |
| AuthController.LoginFailureIndistinguishable | backend/Stargram.Api/Controllers/AuthController.cs:47-53 | an unknown email and a wrong password produce identical outcomes |
| AuthController.Register | backend/Stargram.Api/Controllers/AuthController.cs:70-100 | a known email gives BadRequest and an unchanged store; a taken user name gives a server error and an unchanged store; otherwise exactly one user with the hashed password is added, and the response describes it |
| AuthController.LoginAfterRegister | backend/Stargram.Api/Controllers/AuthController.cs:70-100 | with a hasher that accepts its own hashes, logging in after registering succeeds for the same account |
| AuthController.GoogleName | backend/Stargram.Api/Controllers/AuthController.cs:157 | the identity name, or else the part of the email before the first `@` |
| AuthController.ResolveGoogleUser | backend/Stargram.Api/Controllers/AuthController.cs:163-179 | an existing account is reused with no write; otherwise exactly one passwordless user with the generated user name is inserted, and the save cannot fail; afterwards a lookup by the email finds the returned user |
| AuthController.GoogleCallback | backend/Stargram.Api/Controllers/AuthController.cs:142-189 | a failed authentication or a missing or empty email ends with no write; otherwise the store is the one the email resolves to (unchanged for a known email), and the reply redirects to the frontend callback with the token of the account with that email, or is a server error exactly when that token cannot be signed |
| AuthController.GoogleCallbackIdempotent | backend/Stargram.Api/Controllers/AuthController.cs:163-188 | repeating the callback with the same principal creates nothing more and gives the same reply |
| ResetEmail.Token | backend/Stargram.Api/Services/EmailService.cs:71-74 | every marker starts with `{{` and has no other `{` |
| ResetEmail.TokensDiffer | backend/Stargram.Api/Services/EmailService.cs:71-74 | distinct markers differ at their third character |
| ResetEmail.WholeHours | backend/Stargram.Api/Services/EmailService.cs:73 | the whole hours of the span, truncated toward zero |
| ResetEmail.ExpiresText | backend/Stargram.Api/Services/EmailService.cs:73 | the hours text is a number followed by " hora", and the number reads back as the whole hours |
| ResetEmail.ResetPasswordMail | backend/Stargram.Api/Services/EmailService.cs:55-79 | a missing template is the not-found error and nothing is sent; otherwise the filled template goes to `toEmail` with the fixed subject |
| ResetEmail.SkipPlain | backend/Stargram.Api/Services/EmailService.cs:70-74 | replacing a marker copies a plain prefix unchanged: one without `{{` that does not end in `{` |
| ResetEmail.SkipOtherToken | backend/Stargram.Api/Services/EmailService.cs:70-74 | replacing one marker copies another marker unchanged |
| ResetEmail.FillStage | backend/Stargram.Api/Services/EmailService.cs:70-74 | one replacement fills every occurrence of its placeholder and nothing else |
| ResetEmail.PlainValues | backend/Stargram.Api/Services/EmailService.cs:71-74 | the app name, the hours text and the year contain no `{`, so they are plain |
| ResetEmail.FillTemplateFillsHoles | backend/Stargram.Api/Services/EmailService.cs:70-74 | when the literal text and the URL are plain (no `{{`, no trailing `{`), every placeholder becomes its value and the rest of the template is unchanged |
| ResetEmail.FillTemplate | backend/Stargram.Api/Services/EmailService.cs:70-74 | a plain template, in which no marker can start, is sent as it is |
| ResetEmail.LaterMarkerInsideUrl | backend/Stargram.Api/Services/EmailService.cs:70-74 | the order matters: a `{{YEAR}}` inside the reset URL is replaced by the year |
| I18n.SelectTable | frontend/src/i18n.jsx:245 | the table of the language, or the Portuguese table when that one is missing |
| I18n.Walk | frontend/src/i18n.jsx:249-252 | walking a non-empty path from null or undefined, or from an object without its first segment, ends at `undefined` |
| I18n.WalkAppend | frontend/src/i18n.jsx:249-252 | walking a path in two pieces is walking it whole |
| I18n.WalkLoop | frontend/src/i18n.jsx:248-252 | the loop with its early `break` computes the segment-by-segment walk |
| I18n.Translate | frontend/src/i18n.jsx:246-262 | `t` never yields `undefined`; it returns the walked value when found, else the value found in Portuguese, else the key |
| I18n.TranslateLoop | frontend/src/i18n.jsx:246-262 | the lookup as written, with both loops, agrees with `Translate` |
| I18n.UnknownLanguageIsPortuguese | frontend/src/i18n.jsx:245 | a language without a table translates exactly as Portuguese |
| I18n.NestedLookup | frontend/src/i18n.jsx:247-252 | `t("a.b")` is field `b` of the object at `a` |
| I18n.IndexedLookup | frontend/src/i18n.jsx:247-252 | `t("a.0")` is the first element of the array at `a` |
| I18n.MissingKeyShownAsIs | frontend/src/i18n.jsx:253-260 | a key found in neither table is shown as it is |
| I18n.Persist | frontend/src/i18n.jsx:240-242 | the language is written under "lang" and other stored entries are untouched |
| I18n.Mount | frontend/src/i18n.jsx:235-242 | the initial language is the saved one unless it is absent or empty, else "pt"; it is written back and every other stored entry is untouched |
| I18n.SetLanguage | frontend/src/i18n.jsx:240-242 | a language change is stored under "lang" and every other stored entry is untouched |
| I18n.LanguageSurvivesReload | frontend/src/i18n.jsx:235-242 | a chosen language comes back after a reload; an empty choice comes back as "pt" |
| I18n.MountStable | frontend/src/i18n.jsx:235-242 | reloading without a change keeps language and storage |
| Feed.SameId | frontend/src/pages/Feed.jsx:81 | `p.id === updated.id` needs equal ids; equal numeric or string ids match, two posts without an id match, and array or object ids never do |
| Feed.Spread | frontend/src/pages/Feed.jsx:81 | the merged post has the fields of both, and the updated values win |
| Feed.HandlePostUpdated | frontend/src/pages/Feed.jsx:79-83 | length and order are kept; posts with the updated id take its fields and keep their others; the rest are unchanged |
| Feed.HandlePostUpdatedKeepsIds | frontend/src/pages/Feed.jsx:79-83 | every post keeps its id |
| Feed.HandlePostUpdatedIdempotent | frontend/src/pages/Feed.jsx:79-83 | delivering the same update twice equals delivering it once |
| Feed.HandlePostCreated | frontend/src/pages/Feed.jsx:86-88 | the new post is first, followed by the previous list |
| Feed.UpdateAfterCreate | frontend/src/pages/Feed.jsx:79-88 | an update reaches a new post whether it arrives before or after the post is prepended |
| Feed.LikeCount | frontend/src/pages/Feed.jsx:396-397 | the first non-nullish of likesCount, likedBy.length and likeCount, else 0; never nullish |
| Feed.LikeCountKeepsZero | frontend/src/pages/Feed.jsx:396-397 | an explicit count of 0 is kept |
| Feed.LikeCountFromLikers | frontend/src/pages/Feed.jsx:396-397 | without likesCount, an array of likers gives its length |
| Feed.Includes | frontend/src/pages/Feed.jsx:401 | `includes` on an array is membership under `===`; on a string it is substring search; a missing list gives `undefined`; other values throw |
| Feed.IsLiked | frontend/src/pages/Feed.jsx:399-402 | the server's flag when present; else membership of the user's id among array likers, or substring search of its text in string likers; else false for missing likers; a TypeError for booleans, numbers and objects; never nullish |
| Feed.ListedUserLikes | frontend/src/pages/Feed.jsx:399-402 | a user whose id is listed sees the post as liked |
| Feed.EmailPrefix | frontend/src/pages/Feed.jsx:431 | only a string email has a prefix: the text before its first `@` |
| Feed.OwnerName | frontend/src/pages/Feed.jsx:428-432 | the first truthy of userName, displayName and the email prefix, else "star"; always truthy |
| Feed.OwnerFromEmail | frontend/src/pages/Feed.jsx:428-432 | a post with only an email is attributed to the part before the `@` |
| Feed.LikesLabel | frontend/src/pages/Feed.jsx:475-478 | the line is shown exactly for a positive count, with the plural exactly above one |
| Feed.LikesLabelCount | frontend/src/pages/Feed.jsx:475-478 | the count can be read back from the line |
| Feed.MinutesToHours | frontend/src/pages/Feed.jsx:689-692 | flooring to minutes and then to hours is flooring to hours |
| Feed.HoursToDays | frontend/src/pages/Feed.jsx:692-694 | flooring to hours and then to days is flooring to days |
| Feed.AgeText | frontend/src/pages/Feed.jsx:690-698 | "agora"; or the count followed by " min", " h" or " d", where the number reads back as the bucket's count; or the formatted date |
| Feed.AgeOf | frontend/src/pages/Feed.jsx:688-698 | "agora" under a minute (future included), minutes under an hour, hours under a day, days under a week, else the absolute date; each number is the floored quotient |
| Feed.FormatDate | frontend/src/pages/Feed.jsx:677-702 | falsy, invalid and unrecognised timestamps give "agora"; dates are bucketed by their age |
| Feed.FormatDateMonotonic | frontend/src/pages/Feed.jsx:688-695 | an older post never shows a finer bucket or a smaller number |
| Feed.JsTrim | frontend/src/pages/Feed.jsx:313 | `trim()` gives an infix surrounded only by white space, without white space at either end, empty exactly when the input is blank |
| Feed.HandlePublish | frontend/src/pages/Feed.jsx:309-346 | no user gives the login alert; no file and a blank caption gives the empty-post alert; otherwise the trimmed caption is sent with the user's id |
| Feed.PublishedCaptionTrimmed | frontend/src/pages/Feed.jsx:325-340 | a sent caption has no white space at either end |
| Feed.SubmitComment | frontend/src/pages/Feed.jsx:516-524 | a comment is skipped exactly when its text is blank; otherwise the non-empty trimmed text is sent |
| Feed.CommentTrimStable | frontend/src/pages/Feed.jsx:516-523 | resubmitting the sent text would send the same text |
| AuthSession.Logged | frontend/src/auth/AuthContext.jsx:96 | being logged in needs both user and token present; for an object user and a string token it holds exactly when the token is not empty |
| AuthSession.Initial | frontend/src/auth/AuthContext.jsx:13-15 | before the start-up effect nobody is logged in, loading is on, and storage is as found |
| AuthSession.ParseStored | frontend/src/auth/AuthContext.jsx:23 | parsing succeeds exactly for stored JSON and yields the round-tripped value |
| AuthSession.Restore | frontend/src/auth/AuthContext.jsx:19-31 | loading ends and storage is kept; user and token change only when JSON was stored; a stored value that parses to null leaves them unchanged, any other parsed value gives them its `user` and `token` properties; malformed or missing data is ignored |
| AuthSession.PersistAuth | frontend/src/auth/AuthContext.jsx:33-40 | user and token are set and stored together under "stargram_auth"; nothing else changes |
| AuthSession.Logout | frontend/src/auth/AuthContext.jsx:86-90 | user and token become null, the saved copy is removed, every other stored entry is kept as it was, and `logged` becomes false |
| AuthSession.RestoreAfterPersist | frontend/src/auth/AuthContext.jsx:20-25 | a reload restores the round trip of what was persisted |
| AuthSession.ReloadKeepsSession | frontend/src/auth/AuthContext.jsx:20-39 | JSON user and token are restored exactly, and `logged` is the same |
| AuthSession.ReloadAfterLogout | frontend/src/auth/AuthContext.jsx:19-31 | after logout a reload restores nobody |
| AuthSession.UserOf | frontend/src/auth/AuthContext.jsx:57 | the stored user has exactly the id, userName and email of the response |
| AuthSession.Authenticate | frontend/src/auth/AuthContext.jsx:50-59 | a non-ok response throws its text or the default message and changes nothing; an unreadable body changes nothing; otherwise user and token from the body are persisted |
| AuthSession.Register | frontend/src/auth/AuthContext.jsx:43-60 | failure without a text gives "Erro ao cadastrar."; success logs in exactly when the token is truthy |
| AuthSession.Login | frontend/src/auth/AuthContext.jsx:63-83 | failure without a text gives "Usuário ou senha inválidos."; success logs in exactly when the token is truthy |
| AuthSession.SignInLogsIn | frontend/src/auth/AuthContext.jsx:78-82 | a sign-in with a truthy token logs in, and a reload keeps the session logged in |

## Left out

- **Password hashing and verification, token serialisation and HMAC signing.** These are opaque functions passed in (`Services`).
- **The cookie handshake and the challenge of `GoogleLogin`.** The callback receives its authentication result as input.
- **The `Me` endpoint.** It is not modelled as an endpoint. Its claim lookups appear only as `FindClaim` in the token round trip.
- **The password-reset lifecycle.** No forgot-password or reset-password endpoint exists in the code. Only the table constraints and the email are modelled. The code has no expiry or single-use rule. The reset-token row holds the user reference and the token string.
- **File reading, SMTP sending, the clock, and `Intl.DateTimeFormat`.** The template is an optional string, the time and year are numbers, and the date formatter is a function parameter.
- **Concurrency.** The check-then-insert races in user-name generation and account creation are not modelled: each request runs alone.
- **Database collation.** Email and user-name comparisons are exact.
- **Framework wiring, routing, React rendering and DOM effects.** This includes the alerts' display and the stories and scroll code.
- **`JsValue.Prop`.** Prototype members are not modelled: inherited properties such as `constructor` or `toString`. Numeric indices of strings, which read UTF-16 code units, are not modelled either. A translation key naming one of them resolves to `undefined` here.
- **JavaScript numbers.** They are integers: no fractions, NaN or infinities.
- **`Feed.Includes`.** It compares array elements with `===`. It matches SameValueZero for everything the model represents, since NaN is not represented.
- **Text.ToLowerInvariant.** Only ASCII letters are lower-cased. .NET also lower-cases other Unicode letters, so names with accented capitals normalise differently.
- **ResetEmail.WholeHours.** `TotalHours` is a double. The model truncates the exact quotient, which differs only for spans of more than about 250,000 hours, where double rounding can reach the next whole hour.
- **AuthController.GenerateToken.** Only an absent or empty key is treated as a failure. The signing library's minimum key length is not modelled.
- **Feed.LikesLabel.** It takes an integer count. `>` on non-number counts, such as strings, coerces and is not modelled.
- **Feed.FormatDate.** It receives the timestamp already classified, with date-string parsing abstracted. A truthy non-date timestamp, such as a number, is read as the current time and shows "agora", as the code does.
- **AuthController.FindClaim.** Claim types are compared exactly. .NET's `FindFirst` compares them ignoring case; the tokens built here use one spelling per type, so the results agree.
- **32-bit integers.** `AppUser.Id` and the suffix counter of `GenerateUniqueUserName` are 32-bit `int` in the code; the model uses unbounded integers, so overflow after 2^31 ids or suffixes is not modelled.
- **Password login to a Google-created account.** ASP.NET's `PasswordHasher` throws on a null hash, so the endpoint answers a server error. The model's verifier is a parameter that receives the absent hash and must answer, so that throw is not modelled.
- **Network failures in the frontend.** A `fetch` that rejects is not modelled; every call receives a response.
- **AuthSession.Restore.** Browser storage is abstracted to blank, not-JSON, or the `JSON.stringify` of a value. Arbitrary JSON text written by other code is represented by the value it denotes.
