# Identity and owned-article services

A model of the two services behind a small news backend:

- `AuthModule` — the identity service (`AuthService`). Users sign up with an
  email, a password and a name. Sign-up refuses an email already in use. It
  stores the user with a salted hash of the password and `isActive = true`,
  and answers with an access token and the public view `{id, email, name}`.
  Sign-in finds the user by email and checks the password. An unknown email
  and a wrong password raise the very same `Unauthorized("Invalid credentials")`.
  `validateUser` and `getCurrentUser` resolve a user id to the stored record
  without its password.
- `NewsModule` — the owned-article service (`NewsService`). `create` stores an
  article owned by the caller with no views. `findOne` counts one view and
  saves it. `update` and `remove` pass only for the article's owner; anyone
  else gets a NotFound, as for a missing id. `findAll` and `findByAuthor`
  list the table.
- `Scenario` — the two services used together: Alice and Bob sign up, Alice
  creates an article, Bob's update and delete are refused, Alice's pass.

State is a `map` from id to record: the user repository is
`AuthService.users`, the news repository `NewsService.news`. Each service is a
class whose methods update that field. The read-only identity operations are
functions over the user table.

The libraries the identity service calls become a `Crypto` value handed to
its constructor: `hash(password, salt)`, `compare(password, digest)` and
`sign(payload)`. The only law assumed of them is `Sound`: a password
compares equal to every hash made of it. `randomUUID()` becomes an id
argument that must not be in the table yet. `new Date()` becomes a `now`
argument. bcrypt's random salt becomes a `salt` argument.

The pure functions `Step` and `Run` give the news table after one call and
after a sequence of calls. `Create`, `FindOne`, `UpdateAndSave` and `Remove`
state their new table as `Step` of the old one. The lemmas about `Run` state what holds over any
sequence of calls: an article changes only through its owner, its owner
is never reassigned, and its view count grows by exactly the number of reads.

- A non-owner's update or delete fails with NotFound, like a missing id, but
  with a different message ("You can only update your own news" against
  "News with ID … not found"), so the refusal reveals that the article
  exists; `RefusalRevealsExistence` proves this.
- Sign-in does not look at `isActive`.
- Token verification, token expiry and resolving a token are not in the
  service code. They belong to guards that are not part of this model.

## Model

| member | source | states |
|---|---|---|
| `AuthModule.FindByEmail` | src/auth/auth.service.ts:66-68 | finds a user exactly when some stored user has the email; the user found is the stored record with that email |
| `AuthModule.SignIn` | src/auth/auth.service.ts:62-91 | succeeds exactly when a stored user has the email and the password compares equal to its stored hash; every failure is the one value `Unauthorized("Invalid credentials")`; on success the response user is the matched stored user's id, email and name, and the token is signed over `{email, sub: id}` |
| `AuthModule.ValidateUser` | src/auth/auth.service.ts:93-103 | null exactly when no user has the id; otherwise the id, email, name and isActive of the stored user, and no password |
| `AuthModule.GetCurrentUser` | src/auth/auth.service.ts:105-111 | throws `Unauthorized("User not found")` exactly when `validateUser` returns null, and otherwise returns what `validateUser` returns |
| `AuthModule.SignUpEnablesSignIn` | src/auth/auth.service.ts:35-46 | inserting a user with a fresh id, an unused email and the hash of the password keeps emails unique, and sign-in with that email and password then succeeds for that id |
| `AuthModule.SignInFailuresIndistinguishable` | src/auth/auth.service.ts:66-77 | sign-in with an unknown email and sign-in with a known email and a wrong password give equal results |
| `AuthModule.SignInSubjectResolves` | src/auth/auth.service.ts:80-89 | the id a successful sign-in returns (the token's subject) resolves through `getCurrentUser` to a user with the same id, email and name |
| `AuthModule.ResponsesIgnorePassword` | src/auth/auth.service.ts:101-102 | changing a user's stored hash keeps the table well formed, changes no `validateUser` result, and leaves the response built for that user (token and `{id, email, name}`) unchanged; whether sign-in succeeds does depend on the hash |
| `AuthModule.AuthService.constructor` | src/auth/auth.service.ts:17-21 | the service starts over the given well-formed user table and libraries |
| `AuthModule.AuthService.SignUp` | src/auth/auth.service.ts:23-60 | a registered email gives `Conflict("User with this email already exists")` and an unchanged table; otherwise exactly one user is added under the fresh id with the email, the name, the hash of the password and `isActive = true`, all others unchanged; emails stay unique; the response is the token over `{email, sub: id}` and `{id, email, name}`; the same email and password then sign in to the same response |
| `NewsModule.Patched` | src/news/news.service.ts:63-63 | title and content are replaced exactly where the update request gives them; id, owner, views and creation time are unchanged |
| `NewsModule.OwnedItem` | src/news/news.service.ts:54-61 | passes exactly for an existing article owned by the caller and returns it; a missing id fails with `NotFound("News with ID <id> not found")`, a foreign article with `NotFound(<denial message>)`; every failure is a NotFound |
| `NewsModule.FindOneReply` | src/news/news.service.ts:37-47 | fails with NotFound exactly for a missing id; otherwise returns the very article the read saves, with one more view than stored before |
| `NewsModule.UpdateReply` | src/news/news.service.ts:49-65 | succeeds exactly for the owner of an existing article and returns it patched by the request; otherwise the guard's NotFound |
| `NewsModule.Step` | src/news/news.service.ts:21-78 | the table after one call. Its `Update` case is the saved (corrected) update, not the code as written; its `Create` case overwrites an article already stored under the id, as `save` does. Contract: a create leaves an article owned by the caller with no views under its id; any other call leaves its target either absent or with the same owner and creation time and no fewer views; a non-owner's update or delete leaves the table unchanged; a read keeps the set of ids |
| `NewsModule.StepTouchesOnlyItsTarget` | src/news/news.service.ts:21-77 | every call leaves every article other than its own target present or absent as before, and unchanged |
| `NewsModule.RunKeepsWellKeyed` | src/news/news.service.ts:21-30 | after any sequence of calls every article is still stored under its own id |
| `NewsModule.ArticleChangesOnlyThroughOwner` | src/news/news.service.ts:59-77 | unless its owner updates or deletes it, and as long as no create reuses its id, an article survives any sequence of calls with title, content, owner and creation time unchanged, and its views grow by exactly the number of reads of it |
| `NewsModule.OwnerNeverReassigned` | src/news/news.service.ts:21-27 | while no create reuses its id, an article that is still stored keeps its owner and creation time and has at least its first view count |
| `NewsModule.NeverRecreated` | src/news/news.service.ts:67-78 | a deleted article stays absent through any calls unless a create reuses its id |
| `NewsModule.OnlyTheOwnerPasses` | src/news/news.service.ts:59-61 | the owner passes the ownership check; any other caller gets `NotFound(<denial message>)` |
| `NewsModule.RefusalRevealsExistence` | src/news/news.service.ts:68-75 | a non-owner's refusal and the missing-article failure are both NotFound but are different values, for update and for delete |
| `NewsModule.UpdateNotPersisted` | src/news/news.service.ts:63-64 | as written, update replies with the new title while the next read still shows the old one |
| `NewsModule.UpdatePersists` | src/news/news.service.ts:49-64 | with the update saved, the next read returns what the update replied, with one more view |
| `NewsModule.CreateListsUnderAuthor` | src/news/news.service.ts:21-30 | creating an article adds it to its author's `findByAuthor` list and to no other user's |
| `NewsModule.NewsService.constructor` | src/news/news.service.ts:10-13 | the service starts over the given well-keyed news table |
| `NewsModule.NewsService.Create` | src/news/news.service.ts:14-31 | adds exactly one article under the fresh id with the given title and content, the caller as owner, no views and the given creation time; every other article is unchanged |
| `NewsModule.NewsService.FindAll` | src/news/news.service.ts:33-35 | returns every stored article and nothing else; changes nothing |
| `NewsModule.NewsService.FindOne` | src/news/news.service.ts:37-47 | a missing id raises `NotFound("News with ID <id> not found")` and changes nothing; otherwise that article's views go up by exactly one, no other field and no other article changes, and the saved article is returned |
| `NewsModule.NewsService.Update` | src/news/news.service.ts:49-65 | replies exactly as `UpdateReply`: succeeds exactly for the owner of an existing article and returns it with title and content replaced only where given; a missing id and a non-owner both get NotFound; the table is never changed |
| `NewsModule.NewsService.UpdateAndSave` | src/news/news.service.ts:49-65 | the same replies as `Update`, and an owner's patched article is saved in place of the old one |
| `NewsModule.NewsService.Remove` | src/news/news.service.ts:67-78 | succeeds exactly for the owner of an existing article and then deletes exactly that article; a missing id and a non-owner both get NotFound and the table is unchanged |
| `NewsModule.NewsService.FindByAuthor` | src/news/news.service.ts:80-83 | returns exactly the stored articles owned by the user; changes nothing |

## Findings

| source | as written | input that shows it | evidently intended | confidence | as-written member | corrected member |
|---|---|---|---|---|---|---|
| src/news/news.service.ts:63-64 | `update` applies the request to the fetched article and returns it, but never saves it | the owner updates article `id` with `{title: "x"}` where the stored title is not `"x"`: the reply shows `"x"`, the next `findOne` shows the old title | the patched article is saved, so the next read returns what the update replied | high; not executed | `NewsModule.NewsService.Update` (with `NewsModule.UpdateNotPersisted`) | `NewsModule.NewsService.UpdateAndSave` (with `NewsModule.UpdatePersists`); `Step` and every lemma about `Run` use the saved update |

## Left out

- Hashing and signing internals: bcrypt's cost factor 10, its timing behaviour and the JWT encoding. Only `hash`, `compare` and `sign` remain, with the one law `Sound`.
- Token verification, expiry and the guard that turns a bearer token into a user id: that code is not part of this model. `SignInSubjectResolves` covers the step after it.
- Token issue times: a real token also carries its issue time, so two tokens for the same user differ. Here `sign` is a function of `{email, sub}` alone, so `AuthModule.AuthService.SignUp`'s round-trip clause equates the two tokens.
- Randomness and clocks: `randomUUID()`, `new Date()` and the bcrypt salt are arguments. A UUID collision (`save` of a stored id overwrites it) is excluded by the fresh-id precondition of the methods. `Step` keeps the overwrite and the lemmas about `Run` exclude it.
- `AuthModule.FindByEmail`, `AuthModule.SignIn`, `AuthModule.ValidateUser` and `AuthModule.GetCurrentUser` require email uniqueness, which every service method keeps. With duplicate emails the database would return an arbitrary match, and that case is not modelled.
- AuthModule.AuthService.SignUp: states that the stored password is `hash(password, salt)`, not that this differs from the plaintext; that is a property of bcrypt, and `Sound` does not assume it.
- AuthModule.FindByEmail: compares emails exactly, while the database compares them under the column's collation, which is case-insensitive by MySQL's default (the `email` column and its unique index declare no collation). Two emails differing only in case are one account in the program and two in the model: the program signs in `Alice@Example.com` to the account of `alice@example.com` and refuses its sign-up with Conflict, while the model's `SignIn` fails and `SignUp` adds a second user.
- The `author` field of a create request: it is spread into the article but has no column, so it is not stored. `save` hands back the object it was given, so `create`'s reply in the program still carries `author`; the model's reply does not.
- The `updatedAt` property that `update` adds to the returned object: the article has no such column.
- Request properties beyond the declared request types: the model takes each request body as typed. In the program the create body is spread after `id: randomUUID()`, so a body carrying an `id` replaces the fresh id and overwrites that article with the caller as owner; an update body carrying `userId` would, once saved, reassign the owner. `OwnerNeverReassigned`, `ArticleChangesOnlyThroughOwner`, `NeverRecreated` and the other lemmas about `Run` hold only for bodies as typed.
- `findAll` and `findByAuthor` return arrays; the model returns sets, so the order of the rows is not modelled (ids are distinct, so no row is lost).
- `views` is a JavaScript number. The model uses an unbounded natural, with no floating-point limit.
- Concurrency: every call is one atomic step. This leaves out the check-then-insert race between two sign-ups with one email, and lost view increments under concurrent reads.
- The HTTP controller, the response cache and its invalidation, migrations, data-source configuration and module wiring. These are framework plumbing around the services.
- Logging (`console.log`) and `async`/`await`.
