# Credential lifecycle and session gating of the VIP access server

The server (`server.js`) sells time-limited logins. The flow is:

- A confirmed payment maps the product name to a category (`pack`, `casino`, `bet` or `temp`).
- It then generates a username/password pair and appends it, stamped with the current time, to that category's list in an in-memory store mirrored to `credentials.json`.
- A credential is valid for 12 hours.
- An hourly sweep deletes expired credentials.
- The login handler also deletes the expired credentials it walks past, and it tells an expired credential apart from a wrong one.
- Protected pages sit behind a session gate that re-checks the session's credential on every request.
- Three of the four pages also run a five-minute VIP timer. It starts at the first visit and is never refreshed.

This Dafny project models that core as pure functions over immutable data and proves what it promises.

| file | module | contents |
|---|---|---|
| `wrappers.dfy` | `Wrappers` | `Option` |
| `seqs.dfy` | `Seqs` | order-preserving `Filter` and `Map` with their laws |
| `text.dfy` | `Text` | decimal rendering of numbers, ASCII upper-casing, `includes` |
| `expiration.dfy` | `Expiration` | the 12-hour and 5-minute constants; the strict expiry tests |
| `store.dfy` | `CredStore` | the store as an ordered list of categories; the periodic cleanup |
| `load.dfy` | `CredFile` | normalising the parsed file into the store; writing it back |
| `generator.dfy` | `Generator` | `gerarCredencial` |
| `payment.dfy` | `Payment` | `/confirm-payment`: validation, product mapping, append |
| `session.dfy` | `Sessions` | session fields, pages, the redirect table |
| `login.dfy` | `Login` | `/api/login`: the scan, the removals, the three outcomes |
| `gate.dfy` | `Gate` | `isAuthenticated`, `handleVipSectionAccess`, the page routes |
| `journeys.dfy` | `Journeys` | pay, then log in, then open pages; concrete scenarios |

Modelling choices:

- **The store** is `seq<Entry>`, a list of categories with distinct names, each holding a list of `Cred`. A map would lose the order, and the login handler walks the categories in the object's property order, so the first live match depends on it. `Put` behaves like JavaScript property assignment: an existing category is overwritten in place, and a new one goes at the end.
- **Falsy values.** The empty string stands for a falsy or missing `username` or `password`.
- **Timestamps.** `createdAt` and the VIP entry time are `Option<int>`. Both are tested for truthiness, so `None` and `Some(0)` behave alike (`Expiration.IsSet`). A record without a usable `createdAt` never expires. No code path gives a loaded record a creation time.
- **Time and randomness are parameters.** `now` is a parameter; one value per request. The random draws of `gerarCredencial` are a `Draws` value whose ranges are what `Math.floor(Math.random() * w + b)` yields.
- **File writes** are counted:
  - the cleanup returns a `saved` flag;
  - a login returns `saves`, one write per record it removes;
  - a confirmed payment writes once.
- **The session** is a `Session` value. `req.session.destroy()` becomes `FreshSession`: the next request of that browser has no login.

## Model

| member | source | states |
|---|---|---|
| Expiration.ExpiryBoundary | server.js:187-188 | the window is 43 200 000 ms and closes strictly: a record exactly 12 h old is valid and one 1 ms older is expired; a record without a (truthy) `createdAt` is never expired |
| Expiration.ExpiryIsMonotone | server.js:237-238 | once a record is expired it stays expired at every later time |
| Expiration.VipBoundary | server.js:401 | the VIP window is 300 000 ms and closes strictly: exactly 5 min after entry is still allowed, 1 ms more is not |
| CredStore.Put | server.js:38-45 | assigning a category's list: reading that category gives the new list; every other category reads as before; the category names stay distinct and the new name (if new) goes last |
| CredStore.SweepCategory | server.js:185-194 | the backward splice loop over one list leaves exactly the non-expired records in their original order, and flags a change iff some record was expired |
| CredStore.CleanupExpiredCredentials | server.js:177-200 | the sweep yields the store with every expired record removed from every category, and saves iff at least one record was expired |
| CredStore.SweepStoreProperties | server.js:182-196 | after the sweep every category is still there; each list is a subsequence of the old one; every survivor is live and was there before; every live record survives; a list keeps its length iff it had no expired record |
| CredStore.CleanupIdempotent | server.js:177-200 | after one sweep nothing is expired, so a second sweep at the same instant changes nothing and does not save |
| CredFile.Lookup | server.js:36-37 | a property is found iff some member carries that key, and its value is that of the last member carrying it (the last occurrence wins, as in `JSON.parse`) |
| CredFile.ConvertItems | server.js:38-39 | an array entry becomes the records of exactly its object elements (null and scalars dropped), in order |
| CredFile.NormaliseEntry | server.js:37-45 | an array keeps its object elements; a bare object with truthy `username` and `password` becomes a one-record list; any other object, and every scalar or null, becomes the empty list |
| CredFile.LoadMembersProperties | server.js:35-47 | every visited key becomes a category holding the normalised value of its last occurrence; keys not visited keep what was there |
| CredFile.Load | server.js:31-54 | a missing or unreadable file gives the empty store; otherwise the categories are exactly the keys the loop visits, each with its normalised list, and the names are distinct |
| CredFile.CredJsonRoundTrip | server.js:170 | a record written as a JSON object reads back as the same record |
| CredFile.LoadSaveRoundTrip | server.js:168-175 | writing the store and loading the file back gives the same store: same categories in the same order, same records in the same order |
| Text.NatToString | server.js:130-131 | a number concatenated into a string is a non-empty run of decimal digits with no leading zero |
| Text.ParseNatToString | server.js:131 | reading back the decimal digits of a number gives the number |
| Generator.GerarCredencial | server.js:128-142 | the username is "MGL", the category with an upper-cased first letter, then a five-digit number; the password is pk/cs/bt (tmp for any other category), two lower-case letters, then a three-digit number |
| Generator.GeneratorRoundTrip | server.js:129-141 | the number and letter draws can be read back from the generated username and password |
| Generator.GeneratorInjective | server.js:128-142 | different draws for one category give different credentials |
| Payment.ProductCategory | server.js:301-313 | every product maps to one of pack, casino, bet, temp |
| Payment.ProductCategoryPriority | server.js:304-313 | PACK anywhere, or both bots, buys pack; the casino bot alone buys casino; the sports bot alone buys bet; none of them buys temp |
| Payment.ProductCategoryIgnoresCase | server.js:302 | the category does not depend on the letter case of the product name |
| Payment.Append | server.js:321-324 | the category's list gains the record at its end (a missing category starts empty); every other category is unchanged; the names stay distinct; the category set grows by at most that one name |
| Payment.ConfirmPayment | server.js:294-326 | rejected (with the store unchanged and nothing written) iff name, phone or product is missing; otherwise the category is that of the product, the record is stamped `now` and has the generator's shape, it is appended to its category, nothing else changes, and the file is written once |
| Payment.SequentialPaymentsKeepBoth | server.js:321-326 | after two confirmed payments both new records are in the store |
| Login.ScanCreds | server.js:233-255 | the inner loop stops at the first live record matching both fields; before that point exactly the expired complete records are removed; the expired-match flag is set iff a removed record matched both fields |
| Login.ScanStore | server.js:230-260 | the outer loop stops in the first category with a live match; every category before it is swept whole; that category is scanned up to the match; later categories are untouched; the removal count is the drop in total records |
| Login.LoginAttempt | server.js:222-291 | success iff some category holds a live match (named category); the category is the first such; the redirect follows the table; the session is logged in with the VIP timer cleared, or left as it was; "expired" iff there is no live match but a removed record matched both fields; one write per removed record |
| Login.LoginKeepsLiveRecords | server.js:235-248 | a login attempt removes only expired records with a truthy username and password: every other record stays in its category, and none is added |
| Login.ExpiredAnswerPurgesCredential | server.js:262-265 | after an "expired" answer no record with the submitted username and password is left anywhere |
| Sessions.RedirectTimedIffPaidCategory | server.js:273-285 | exactly pack, packvip, casino and bet logins are redirected to a page that runs the VIP timer; temp goes to the generic dashboard |
| Gate.FindByUsername | server.js:352 | `find` by username returns the first record with that username, or nothing if none has it; the password is not looked at |
| Gate.IsAuthenticated | server.js:345-390 | lets the request through iff the session has loggedIn, username and userType and the first record with that username in that category exists and is not expired; a session without those fields is sent away untouched; a failing logged-in session is destroyed |
| Gate.HandleVipSectionAccess | server.js:392-424 | with no timer, the visit starts it at `now` and is served; with a timer, the visit is served iff at most 5 min have passed and the timer is not moved; otherwise the session is destroyed |
| Gate.ServePage | server.js:428-456 | a page is served iff the gate passes and, on the three timed pages, the VIP deadline has not passed; the dashboard never touches the timer |
| Gate.FreshSessionLocked | server.js:384-389 | a session lacking any of loggedIn, username or userType (a destroyed, fresh session among them) is sent to the login page on every request, whatever the pages, and its fields stay as they were |
| Gate.VipTimerRunning | server.js:396-401 | on a logged-in session whose timer is set (to a truthy start time), and while the session's credential stays valid at every visit, a run of timed visits is served exactly while it and every earlier visit fall within 5 min of the start |
| Gate.VipHardDeadline | server.js:392-424 | on a logged-in session with no timer yet, first visited at a truthy time, and while the session's credential stays valid at every visit, a run of timed visits is served exactly while every visit so far is within 5 min of the first; moving between timed pages never resets the timer |
| Gate.GateIgnoresPageCategory | server.js:428-451 | the timed pages do not check the session's category: a user of any category is served one exactly when served another |
| Journeys.LoginThenGate | server.js:267-271 | on a store with distinct category names whose records all have a truthy username and password, a successful login passes the gate at the same instant and its redirect page is served |
| Journeys.PasswordlessRecordBlocksGate | server.js:352-354 | the completeness hypothesis above is needed: the login loop skips a record with a falsy password (server.js:235) but the gate's `find` does not, so an expired password-less record ahead of a live one with the same username lets the login succeed and the next gate check destroy the session |
| Journeys.PaymentThenLogin | server.js:315-326 | on a store with distinct category names, none of them the empty string, a credential just paid for logs in at any time up to 12 h after the payment |
| Journeys.OneRecordLogin | server.js:236-265 | with a single record that has a truthy username and password, in a category with a non-empty name, logging in with its fields succeeds while it is live; once it is expired the answer is "expired", the record is removed and the file written once |
| Journeys.CasinoJourney | server.js:304-326 | a casino bot bought at a truthy time t0 on an empty store logs in to /casino-page.html at exactly t0 + 12 h and is "expired" (and removed) 1 ms later |
| Journeys.PackVipJourney | server.js:428-446 | a pack holder is served the pack page at t and the casino page at t + 4 min, and is logged out at t + 6 min |
| Journeys.GateUsesFirstRecordOfUsername | server.js:352-354 | two records share a username: until the sweep, an expired first one ends the session even though the second is live; after the sweep the same session passes on the second record, whichever password opened it |

## Left out

- Redis and express-session setup, cookies, `trust proxy` (server.js:7-20, 56-120): library configuration.
- The Telegram notification (server.js:145-166, 329-341): a network call whose failure is only logged.
- JSON parsing, JSON printing and the file system (server.js:32-34, 48-54, 168-175):
  - the file arrives as a parsed `Json` value, and `None` stands for a missing or unparsable file;
  - a save is counted, and a failed write, which the source only logs, is not modelled.
- Static routes, the logout route, the 404 and 500 handlers, `headersSent` checks and log lines (server.js:202-220, 458-504): HTTP plumbing.
- The `destroy` error callback that answers 500 on VIP expiry (server.js:405-411): the model always destroys the session.
- `setInterval` and the start-up call of the cleanup (server.js:506-507), and the interleaving of concurrent requests: each handler is one atomic step.
  - `Gate.Browse` replays page visits against a fixed store, so no sweep, payment or login runs between them.
- `Math.random` and `Date.now`: parameters.
  - Login: the handler calls `Date.now()` again for each record it inspects. The model uses one instant per request.
- Non-integral numbers: timestamps are integers.
- CredFile.StringField: a `username` or `password` that is not a string (a number, say) reads as absent. This is weaker than JavaScript, where `===` against the submitted value could still match.
- CredFile.TimeField: a `createdAt` holding a numeric string or an array never expires here. JavaScript coerces it to a number in the subtraction.
- Category names that are integer-like strings ("0", "17"): JavaScript enumerates them first, in ascending order. The model keeps insertion order for every name.
- A category named `__proto__` in the file: assigning it in JavaScript replaces the prototype instead of creating a category. The model treats it like any other name.
- Payment.ProductCategory: upper-cases ASCII letters only. `toUpperCase` is Unicode-wide and can change the length of the string, for example for ß.
- A product that is not a string makes `toUpperCase` throw. The model's product is always a string.
- The HTTP reply of `/confirm-payment` carries only a success flag and a message (server.js:342). `Payment.Confirmed` holds the category and the credential the handler issued. The credential leaves the server only in the administrator's Telegram message, which is left out.
- The redirect URLs to /login.html (server.js:380, 387, 415) are represented by `Gate.Reason`, one constructor per `message` value.
- Generator.GerarCredencial: upper-cases the first letter of the category in ASCII only. The categories it is called with are ASCII.
- Giving a creation time to records loaded without one: the code has no such step, so here, as there, such a record never expires.
