# Blog backend: accounts, tokens and owner-scoped posts

A Dafny model of a small Express blog backend. Users sign up and sign in with an email and a password. Signing in returns a JSON Web Token. With that token in an `Authorization: Bearer <token>` header, a user can create posts, and can update and delete their own posts. Anyone can read one post or list a page of posts.

The model is a sequential state machine over an in-memory store, `Server.BlogServer`. It holds the `User` and `Post` tables as sequences in insertion order, together with their auto-increment counters. Each route is one method that returns a `Response`: a status code and what the JSON body carries.

The three guarded routes (`CreatePost`, `UpdatePost`, `DeletePost`) are split the way Express chains them:
- The route's validation rules run first, but they only record errors.
- `validateToken` (`TokenGuard.Guard`) then decides, before anything looks at those errors.
- Then the route's handler (`CreatePostAs`, `UpdatePostAs`, `DeletePostAs`) runs with `req.user` and reads the validation outcome.
- The handler's outcome is stated once, as a two-state predicate (`CreatedAs`, `UpdatedAs`, `DeletedAs`) that both methods share.

Modules, one per file:
- `Wrappers`: `Option` and `Result`.
- `Text`: JavaScript's `split`, and joining.
- `Decimal`: decimal notation of naturals.
- `Digest`: a deterministic stand-in for cryptographic digests.
- `Bcrypt`: `hash` and `compare`.
- `Jwt`: `sign` and `verify`.
- `Validator`: the express-validator and validator.js primitives the rules use: `notEmpty`, `isLength`, `isInt`, `toInt` and `default`.
- `UserValidate`: `validates/user.validate.js`.
- `PostValidate`: `validates/post.validate.js`.
- `UserEntity` and `PostEntity`: the two Sequelize models and the queries the handlers issue.
- `TokenGuard`: `validateToken`.
- `Server`: the route handlers.

The store invariant (`Server.StoreValid`) combines the schema constraints with what the handlers keep true on top of them:
- Keys are distinct and below the next auto-increment value.
- Every post references an existing user.
- Emails are distinct.
- Every stored email passes the email rule.
- Passwords are stored only as cost-10 bcrypt hashes.
- Titles and contents are non-empty.

Every handler preserves the invariant.

Clock and randomness are parameters:
- `now` is the current time in seconds, as `jwt.sign` and `jwt.verify` read it.
- `salt` is the random salt `bcrypt.hash` draws.
- The signing secret (`JWT_SECRET_KEY`) is fixed when the server is constructed.

## Model

| member | source | states |
|---|---|---|
| Text.Split | index.js:83 | `split(" ")` always yields at least one piece, and no piece contains the separator |
| Text.JoinSplit | index.js:83 | joining the pieces of a split with the separator gives the string back |
| Text.SplitJoin | index.js:83 | splitting pieces joined with the separator gives the pieces back, when no piece holds the separator |
| Text.SplitAround | index.js:83 | splitting around one separator splits the text on each side independently |
| Text.SplitWithoutSeparator | index.js:83 | text without the separator splits into one piece, itself |
| TokenGuard.ExtractToken | index.js:82-83 | the token is the second space-separated word of the header, kept only when it is non-empty; a missing header gives no token |
| TokenGuard.SecondWordIsToken | index.js:82-83 | for any scheme word, `scheme + " " + token` (with or without more words after it) yields exactly the token; the scheme word is never checked |
| TokenGuard.OneWordHeaderHasNoToken | index.js:83-87 | a header without a space (such as `"Bearer"`) yields no token, hence 401 |
| TokenGuard.EmptySecondWordHasNoToken | index.js:83-87 | a header ending in the space after its first word (`"Bearer "`), or with two spaces there (`"Bearer  x"`), has an empty second word, hence no token and 401 |
| TokenGuard.Guard | index.js:81-96 | `validateToken` answers "no token" (401) exactly when the header yields no token, and it lets a request through only with claims that have not expired |
| TokenGuard.IssuedTokenLastsAnHour | index.js:214-218 | a token that sign-in issues at `now` authenticates as its claims at every time before `now + 3600` and is refused as expired from then on |
| TokenGuard.IssuedTokenAuthenticates | index.js:89-95 | a token signed under the server's secret passes the guard until it expires, and `req.user` is exactly its claims |
| TokenGuard.ExpiredTokenRejected | index.js:89-92 | from `exp` on, the same header is refused (403) as expired |
| TokenGuard.AuthenticatedOnlyBySignedToken | index.js:89-95 | the guard lets a request through only when the token is the signature of the claims it attaches, and those claims have not expired |
| Jwt.Sign | index.js:214-218 | a token is a non-empty word of digits and dots, so it never contains the space the guard splits on |
| Jwt.Issue | index.js:214-218 | the signed claims are the user's id and email, issued now, with `exp` one hour (3600 s) after `iat` |
| Jwt.Verify | index.js:89 | `jwt.verify` succeeds only before the `exp` of the claims it returns |
| Jwt.VerifySigned | index.js:89-95 | before `exp`, verifying a signed token under the same secret yields exactly the signed claims |
| Jwt.VerifyExpired | index.js:89-92 | from `exp` on, a signed token fails verification as expired |
| Jwt.VerifySound | index.js:89-95 | a token that verifies is the signature of the claims it yields, and `now < exp` |
| Jwt.TamperedSignatureRejected | index.js:89-92 | replacing the signature segment of a signed token with any other value fails verification as an invalid signature, at any time |
| Jwt.DecodeSegments | index.js:89-95 | decoding the payload segments of a claim set gives the claim set back |
| Jwt.SegmentsOfDecoded | index.js:89-95 | the only payload that decodes to given claims is the one that encodes them |
| Jwt.CharsOfCodes | index.js:214-218 | the email's code points decode back to the email |
| Bcrypt.Hash | entities/User.js:30-33 | the stored hash has cost 10 and the drawn salt, and `compare` accepts the password it was made from |
| Bcrypt.CompareIsRehash | index.js:209 | for a cost-10 hash, `bcrypt.compare` accepts a password exactly when hashing it again with the stored salt reproduces the stored hash |
| UserEntity.Create | entities/User.js:28-33 | the stored row has the given key and email, and its `password` is a cost-10 hash that `compare` accepts for the plain password |
| UserEntity.ReadHidesOnlyPassword | entities/User.js:21-26 | two rows read the same under the default scope exactly when they agree on `id` and `email`: the read keeps both and cannot depend on the stored hash |
| UserEntity.SchemaAllowsDuplicateEmails | entities/User.js:14-17 | the schema alone admits two rows with the same email; uniqueness rests on the signup look-up |
| UserEntity.FindByEmail | index.js:149 | the look-up returns a stored row with that email, or none exists |
| UserEntity.FindById | entities/Post.js:22-30 | the look-up by primary key returns the row with that id, or none exists |
| UserEntity.FindByEmailFindsRow | index.js:201-205 | when emails are distinct, looking up a row's email finds that very row |
| PostEntity.OwnersSurviveNewUser | entities/Post.js:22-30 | adding a user row keeps every post's reference valid |
| PostEntity.InsertKeepsTable | index.js:271 | an insert with the next key and an existing owner keeps the keys distinct, positive and below the counter, and every reference valid |
| PostEntity.FindPost | index.js:421-427 | `findOne({where: {id}})` returns a position holding that key, or no row has it |
| PostEntity.FindOwned | index.js:329 | `findOne({where: {id, userId}})` returns the first row with that key and owner, or none has both |
| PostEntity.ScopedLookupHidesOwner | index.js:329-332 | the scoped look-up fails exactly when the key is missing or the post belongs to someone else, so the two cases look the same |
| PostEntity.Apply | index.js:336-342 | an update never changes a post's key or owner |
| PostEntity.UpdateWhere | index.js:340-342 | `Post.update` keeps the table's length, every key and owner, and every row that does not match |
| PostEntity.DestroyWhere | index.js:392 | `Post.destroy` never adds rows |
| PostEntity.DestroyWhereFilters | index.js:392 | after `Post.destroy` every remaining row was in the table and does not match the filter, and every row that does not match remains |
| PostEntity.DestroyOnly | index.js:392 | when exactly one row matches, `Post.destroy` removes that row and keeps the others in order |
| PostEntity.UpdateWhereRewritesOne | index.js:340-342 | with distinct keys the update rewrites exactly the row the look-up found |
| PostEntity.RereadFindsUpdated | index.js:344 | after the update, reading back with the same filter finds the rewritten row at the same place |
| PostEntity.DestroyWhereRemovesOne | index.js:392 | with distinct keys the destroy removes exactly the row the look-up found, keeping the others in order |
| PostEntity.NothingToDestroy | index.js:392 | a destroy whose filter matches nothing leaves the table as it was |
| Validator.NotEmpty | validates/user.validate.js:5 | `notEmpty` passes exactly when the field is present and holds at least one character |
| Validator.IsLength | validates/user.validate.js:17 | `isLength({min})` passing implies at least `min` characters, and without variation selectors it passes exactly when there are at least `min` |
| Validator.IntValue | validates/post.validate.js:12 | `isInt` accepts exactly the texts of the form `[-+]?[0-9]+`, and an unsigned run of digits denotes its decimal value, leading zeros included |
| Validator.IsInt | validates/post.validate.js:12 | an accepted id is non-empty, and with a minimum of 1 no negative numeral passes |
| Validator.IntTextParses | validates/post.validate.js:4-5 | text that `isInt` accepts is read by `toInt` as the same integer |
| Validator.ParseInt | validates/post.validate.js:5-6 | `parseInt` gives a number only when the text holds a digit |
| Validator.ToInt | validates/post.validate.js:5-6 | `toInt` of a missing query value is NaN, which `default` then replaces |
| Validator.Length | validates/user.validate.js:17 | `isLength` counts at most one per character, and exactly the number of characters when there is no variation selector |
| Validator.IntValueOfNotation | validates/post.validate.js:12 | every natural written in decimal passes `isInt` with its own value |
| Validator.DigitPrefixOfNotation | validates/post.validate.js:5-6 | `parseInt` reads exactly the leading digits of its input |
| Validator.ParseIntOfDigits | validates/post.validate.js:5-6 | `toInt` of a run of digits, optionally followed by a non-digit, is the value of the digits, leading zeros included |
| Validator.ParseIntOfNotation | validates/post.validate.js:5-6 | `toInt` of a decimal numeral, optionally followed by a non-digit, is its value |
| Validator.ParseIntNoDigits | validates/post.validate.js:5-6 | `toInt` of a string without digits is NaN |
| UserValidate.EmailPattern | validates/user.validate.js:8-9 | what the regular expression matches has at least six characters (as `a@b.cc`) |
| UserValidate.IsEmail | validates/user.validate.js:8-9 | an email the computed check accepts holds an `@` and has at least six characters |
| UserValidate.IndexOf | validates/user.validate.js:8 | the position found is the first `@` of the email, or it has none |
| UserValidate.LastIndexOf | validates/user.validate.js:8 | the position found is the last `.` of the domain, or it has none |
| UserValidate.EmailCheckSound | validates/user.validate.js:8-9 | every string the computed check accepts matches the email regular expression |
| UserValidate.EmailCheckComplete | validates/user.validate.js:8-9 | every string the regular expression matches passes the computed check |
| UserValidate.EmailCheckIsPattern | validates/user.validate.js:8-9 | the computed check accepts exactly the strings the regular expression matches |
| UserValidate.EmailHasOneAt | validates/user.validate.js:8 | a valid email holds exactly one `@` |
| UserValidate.AuthValidate | validates/user.validate.js:3-19 | no errors exactly when the email matches the pattern and the password has at least 8 characters; each of the four messages appears exactly when its own check fails |
| UserValidate.AcceptedBodyHasFields | validates/user.validate.js:3-19 | a body that passes the rules carries a valid email and a password of at least 8 characters |
| PostValidate.ListRules | validates/post.validate.js:4-7 | a `perpage` or `page` that `toInt` reads as NaN (missing, or no digit where `parseInt` looks, as in `abc1`) becomes 10 or 1, and a value that `toInt` reads as a number is kept as that number |
| PostValidate.ListDefaults | validates/post.validate.js:4-7 | missing values, and values with no digits, become `perpage` 10 and `page` 1 |
| PostValidate.ListNumbers | validates/post.validate.js:4-7 | numerals are passed through as their values, zero included: the `min: 1` check has no effect on the values |
| PostValidate.PostIdRules | validates/post.validate.js:8-14 | no errors exactly when the id is an integer of at least 1; the "required" message appears exactly when the id is empty |
| PostValidate.PostIdValue | validates/post.validate.js:8-14 | an accepted id denotes a positive key |
| PostValidate.PositiveIdAccepted | validates/post.validate.js:8-14 | every positive key, written in decimal, is accepted and denotes itself |
| PostValidate.UpdateRules | validates/post.validate.js:19-25 | update reports no error exactly when the id is an integer of at least 1, and every error it reports is about `post_id` |
| PostValidate.UpdateIgnoresBody | validates/post.validate.js:19-25 | update's errors are the same whatever the body: a missing or empty title or content is never an error |
| PostValidate.CreateRules | validates/post.validate.js:15-18 | no errors exactly when title and content are both non-empty; each message appears exactly when its field is empty |
| Server.WithAuthor | index.js:421-427 | the join keeps the post and attaches the email of the user with the post's `userId`; it has no author only when no such user exists |
| Server.Joined | index.js:467-474 | each listed row is kept in order and carries the email of a user whose id is its `userId`, and carries none only when no user has that id |
| Server.ListedRowsHaveAuthors | index.js:467-474 | in a valid store every listed row carries its author's email |
| Server.Offset | index.js:463 | page 1 starts at offset 0; a page of at least 1 never has a negative offset; page 0 or below with a positive `perpage` has a negative one |
| Server.Page | index.js:463-474 | the page holds the rows from `offset` on, in table order, at most `limit` of them |
| Server.PageSplit | index.js:463-474 | two adjacent windows read the same rows as one window as long as both |
| Server.PagesTile | index.js:463 | page `n + 1` starts where page `n` ends, and pages 1 to `n` together are the first `n * perpage` rows |
| Server.SecondPageOfFifteen | index.js:463-474 | with fifteen posts, `perpage=10&page=2` reads the 11th to the 15th post |
| Server.ForeignPostNotOwned | index.js:329-332 | with distinct keys, no caller other than its author owns a post, so their update or delete gets the 404 a missing key gets |
| Server.NewAccountCanSignIn | index.js:201-212 | the row that signup stores lets its email and password sign in |
| Server.NewUserKeepsStore | index.js:149-154 | inserting a user with the next key and a new, valid email keeps the store invariant |
| Server.Changes | index.js:336-338 | `updateData` holds the title and the content exactly when each is given non-empty, and then holds the given value |
| Server.UpdateRewritesOwned | index.js:336-344 | the scoped update with that `updateData` rewrites only the owned row, keeps its key and owner, overwrites only the non-empty fields, and the re-read answers with that row |
| Server.NewPostKeepsStore | index.js:271 | inserting a post with the next key, an existing owner and non-empty fields keeps the store invariant |
| Server.UpdateKeepsStore | index.js:336-342 | an update that writes only non-empty values keeps the store invariant |
| Server.RemoveKeepsStore | index.js:392 | removing one post keeps the store invariant |
| Server.BlogServer.constructor | index.js:25-32 | a fresh database: the store starts with empty tables whose auto-increment counters hand out key 1 first, and they satisfy the invariant |
| Server.BlogServer.SignUp | index.js:140-157 | invalid body gives 400 with the rule errors and no change. A taken email gives 400 and no change. Otherwise exactly one row is added, with the next key and a hashed password, and the response is that row without `password` |
| Server.BlogServer.SignIn | index.js:192-223 | invalid body gives 400. When no stored row has the email with a matching password, the answer is the same 401 whether the email is unknown or the password wrong. Otherwise it returns the row without `password` and a token signed for `{userId, email}`, issued now and expiring 3600 s later. The store never changes |
| Server.BlogServer.CreatePostAs | index.js:262-274 | empty title or content gives 400 and no change. An owner id with no row gives 500 and no change. Otherwise exactly one post is appended, with the next key and the token's `userId` as owner |
| Server.BlogServer.UpdatePostAs | index.js:315-348 | a bad id gives 400. A missing post and one owned by someone else both give 404 and no change. Otherwise only that post changes: a field is overwritten only when the supplied value is non-empty, key and owner stay, and the response is the post read back |
| Server.BlogServer.DeletePostAs | index.js:373-395 | a bad id gives 400. A missing post and one owned by someone else both give 404 and no change. Otherwise exactly that post is removed and the others keep their order |
| Server.BlogServer.CreatePost | index.js:262-274 | no token gives 401 and a rejected token 403, whatever the body, and neither changes the store; otherwise the handler runs as the token's user |
| Server.BlogServer.UpdatePost | index.js:315-348 | no token gives 401, a rejected token 403, with no change; otherwise the update handler runs as the token's user |
| Server.BlogServer.DeletePost | index.js:373-395 | no token gives 401, a rejected token 403, with no change; otherwise the delete handler runs as the token's user |
| Server.BlogServer.GetPost | index.js:418-433 | needs no token and changes nothing. It answers 200 exactly when the id is an integer that some post has as key, and then returns that post with its author's email; otherwise 404 |
| Server.BlogServer.ListPosts | index.js:460-477 | needs no token and changes nothing. It echoes the sanitized `perpage` and `page`, counts the whole table, and returns the page at `(page - 1) * perpage` of at most `perpage` rows in table order, each with its author's email. A negative offset or limit gives 500 |

## Left out

- Express plumbing is not modelled: server setup, body parsers, Swagger generation and `/docs`, `server.listen`, `sequelize.sync` and console logging. These are I/O.
- The error middleware is left out. A query that fails is modelled as a 500 `ServerError` response that leaves the store unchanged. In the code the middleware is registered before the routes, and a rejected `async` handler never reaches it: Express 4 sends no response, the request hangs, and the unhandled rejection can end the Node process. A request without a token reaches this through `GET /posts?page=0` (a negative offset, index.js:463).
- `createdAt` and `updatedAt` are not modelled. Sequelize adds them to both tables and they appear in responses.
- JavaScript numbers are modelled as unbounded integers. Values beyond 2^53 lose precision in the code but not in the model.
- The check-then-create race in signup is left out, because it needs concurrent requests. Under concurrency, two requests with the same email can both pass the look-up.
- bcrypt internals are left out: Blowfish, the 72-byte password limit, and the `$2b$` string encoding. `Bcrypt.Compare` recomputes a deterministic checksum over cost, salt and password.
- jsonwebtoken internals are left out: base64url JSON segments, the header, HMAC-SHA256 and constant-time comparison. `Jwt.Sign` writes the claims as dot-separated decimal segments followed by a digest of the secret and the payload. What the core relies on is kept: a token is one space-free word, verification recovers exactly the signed claims until `exp`, and a token with a changed signature is rejected.
- Digest.Fingerprint is deterministic only. It is not collision-resistant, so the model makes no claim about forging a signature without the secret.
- Request bodies are modelled as strings only. Non-string JSON values are not modelled (numbers, arrays, objects, booleans), nor are query parameters given several times.
- Server.BlogServer.GetPost: the raw `post_id` is compared with keys by its `isInt` value. A parameter that is not an integer finds nothing. How the database coerces such strings depends on the SQL dialect, which is not part of this model.
- Server.BlogServer.ListPosts: a negative offset or limit is modelled as a failed query (500). A zero limit is modelled as an empty page. Some SQL dialects treat `LIMIT 0` differently.
- Rows are listed in insertion order. `findAll` has no `ORDER BY`, so this is an assumption about the database.
- `validates/index.js` (`validateParameters`) is not part of this model. No route uses it.
- The list rules' `isInt({min: 1})` failures are recorded but never read, because the list handler does not call `validationResult`. So `page=0` or `perpage=0` reaches the query unchanged, as `PostValidate.ListNumbers` states.
- Server.BlogServer.constructor: the model starts from a fresh, empty database. `sequelize.sync({alter: true})` keeps the rows an existing database already holds; such a database is assumed to satisfy `Server.StoreValid`.
- Email look-ups compare exactly, character by character (`UserEntity.FindByEmail`, `UserEntity.EmailsDistinct`). The code leaves the comparison to the database collation. Under a case-insensitive collation (MySQL's default), signing up `A@x.co` after `a@x.co` gives 400, while the model stores a second row.
- The 255-character limit of `DataTypes.STRING` (`VARCHAR(255)`) on `email` and `title` is not modelled. Under strict MySQL or Postgres a longer value makes the insert or update fail; the model stores it. (`content` is `DataTypes.TEXT`, with no such limit, and `password` only ever holds the fixed-length hash that the `beforeCreate` hook writes.)
