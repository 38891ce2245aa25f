# JobTracker backend core, modelled in Dafny

This project models the two route modules of the JobTracker backend that hold its logic.

- **The job store** (`BackEnd/routes/jobs.js`) is a module-level list of job records plus an id counter. Four routes work on it:
  - list, with an optional status filter;
  - create, which validates the body, trims fields, canonicalises the status and fills defaults;
  - update by id;
  - delete by id.

  A `resetJobs` hook puts the store back in its initial state. The model is the class `Jobs.JobStore`: `jobs: seq<Job>` and `nextId: nat`, with one method per route.
- **Registration and login** (`BackEnd/routes/auth.js`) work over the users table. The model is the class `Auth.UserStore`: `users: seq<User>` and an AUTOINCREMENT counter `nextUserId`.
  - bcrypt `hash` and `compare` and JWT `sign` are function values passed in a `Crypto` record, and the model knows nothing about them.
  - The one assumption is that a password matches its own hash. It is `HashMatches`, and only the login-after-register guarantee uses it.
- The JavaScript string built-ins these routes rely on are modelled in `JsText`:
  - truthiness of a body field;
  - `trim`, with the full ECMAScript whitespace set;
  - `toLowerCase`/`toUpperCase`;
  - the UTF-16 `length`;
  - `parseInt` on a path segment, with leading whitespace, a sign, the `0x` prefix and trailing garbage.

The clock is a parameter. Create takes `today` (the default application date) and `now` (the `createdAt` value). Update takes `now` (the `updatedAt` value).

The jobs routes in `BackEnd/routes/jobs.js` keep their records in memory and work on all of them alike:
- no record carries an owner id, and no jobs route checks a token;
- the list comes back in insertion order.

A `company` or `title` made only of whitespace passes the presence check, because it is a non-empty string, and it is stored as `""` (`Jobs.BlankCompanyStoredEmpty`).

Files: `text.dfy` (module `JsText`), `jobs.dfy` (module `Jobs`), `auth.dfy` (module `Auth`).

## Model

| member | source | states |
|---|---|---|
| `JsText.TrimStart` | BackEnd/routes/jobs.js:39-40 | the result is the suffix of the input after its leading whitespace; everything dropped is whitespace; the result does not start with whitespace |
| `JsText.TrimEnd` | BackEnd/routes/jobs.js:39-40 | the result is the prefix before the trailing whitespace; everything dropped is whitespace; the result does not end with whitespace |
| `JsText.Truthy` | BackEnd/routes/jobs.js:24 | a body field is falsy exactly when it is absent or the empty string; a string of spaces is truthy |
| `JsText.Trim` | BackEnd/routes/jobs.js:39-40 | the result is a slice of the input with only whitespace before and after it; it neither starts nor ends with whitespace; it is empty exactly when the input is all whitespace |
| `JsText.TrimIdempotent` | BackEnd/routes/jobs.js:39-40 | trimming twice gives the same string as trimming once |
| `JsText.Lower` | BackEnd/routes/jobs.js:14 | lower-casing keeps the length, leaves no upper-case letter, and agrees with the input up to case at every position |
| `JsText.Utf16Length` | BackEnd/routes/auth.js:23 | the JavaScript length counts UTF-16 code units: at least the number of code points and at most twice it |
| `JsText.Utf16LengthChar` | BackEnd/routes/auth.js:23 | one code point has length 2 above U+FFFF and length 1 otherwise |
| `JsText.Utf16LengthAppend` | BackEnd/routes/auth.js:23 | the length of a concatenation is the sum of the lengths, so with the previous row the length is the code point count plus one per code point above U+FFFF |
| `JsText.DigitPrefix` | BackEnd/routes/jobs.js:55 | parseInt reads the longest prefix of digits: every character in it is a digit, and the next character is not |
| `JsText.ParseIntDecimal` | BackEnd/routes/jobs.js:55 | parseInt reads a decimal id back from the URL, whatever non-digit text follows, except that "0" followed by "x" starts a hexadecimal number |
| `JsText.ParseInt` | BackEnd/routes/jobs.js:55 | parseInt gives NaN for a blank string and for one whose first non-whitespace character is neither a sign nor a decimal digit; only a leading "-" gives a negative number |
| `JsText.ParseSigned` | BackEnd/routes/jobs.js:55 | after the whitespace, NaN unless the text starts with a sign or a decimal digit; a negative result needs a leading "-" |
| `JsText.ParseMagnitude` | BackEnd/routes/jobs.js:55 | the unsigned reading is never negative; it is NaN when the text does not start with a decimal digit, and NaN when "0x" is followed by no hexadecimal digit |
| `JsText.ParseIntMinus` | BackEnd/routes/jobs.js:55 | after any leading whitespace, a "-" negates the magnitude that follows, and NaN stays NaN |
| `JsText.ParseIntPlus` | BackEnd/routes/jobs.js:55 | after any leading whitespace, a "+" leaves the magnitude that follows unchanged |
| `JsText.ParseIntUnsigned` | BackEnd/routes/jobs.js:55 | after any leading whitespace and without a sign, the value is the magnitude |
| `JsText.ParseIntHexPrefix` | BackEnd/routes/jobs.js:55 | after any leading whitespace, "0x" or "0X" followed by hexadecimal digits reads their hexadecimal value, whatever non-hexadecimal text follows |
| `JsText.DecimalString` | BackEnd/routes/jobs.js:55 | the decimal rendering of an id is non-empty, all digits, and has no leading zero |
| `Jobs.IsValidStatus` | BackEnd/routes/jobs.js:30-31 | a status is accepted exactly when its canonical spelling is one of Applied, Interviewing, Rejected, Offer |
| `Jobs.Canonicalize` | BackEnd/routes/jobs.js:41 | the stored spelling has the input's length, agrees with it up to case at every position, does not start with a lower-case letter and has no upper-case letter after the first |
| `Jobs.CanonicalizeIgnoresCase` | BackEnd/routes/jobs.js:41 | canonicalising a status gives the same result as canonicalising its lower-cased form |
| `Jobs.CanonicalizeSameLower` | BackEnd/routes/jobs.js:41 | two statuses that differ only in case are stored alike |
| `Jobs.LowerOfCanonicalize` | BackEnd/routes/jobs.js:41 | a canonical status lower-cases to the lower-cased input, so the list filter (`:14`) matches it |
| `Jobs.CanonicalizeValid` | BackEnd/routes/jobs.js:30-41 | every accepted status is stored as exactly one of Applied, Interviewing, Rejected, Offer |
| `Jobs.CanonicalizeIdempotent` | BackEnd/routes/jobs.js:41 | canonicalising a canonical status changes nothing |
| `Jobs.AppliedInAnyCase` | BackEnd/routes/jobs.js:41 | "applied" and "APPLIED" both become "Applied" |
| `Jobs.ValidationError` | BackEnd/routes/jobs.js:24-35 | a body is accepted exactly when company, title and status are truthy and the lower-cased status is one of the four; the presence error takes precedence; a body with the three fields and any other status gets "Invalid status. Must be: Applied, Interviewing, Rejected, or Offer"; only those two messages occur |
| `Jobs.NotesOrEmpty` | BackEnd/routes/jobs.js:43 | stored notes are a slice of the given notes with only whitespace around it, never start or end with whitespace, and are empty exactly when the notes are absent or all whitespace |
| `Jobs.NewJob` | BackEnd/routes/jobs.js:37-45 | the new record has the given id; company and title are trimmed; the status is canonical and case-equal to the request's; the application date is the request's if truthy, else today; notes are trimmed or ""; createdAt is now; there is no updatedAt |
| `Jobs.Revised` | BackEnd/routes/jobs.js:74-82 | the revision keeps id and createdAt; company and title are trimmed; the status is canonical; the application date falls back to the stored one; notes are reset to "" when omitted; updatedAt is set to now |
| `Jobs.BlankCompanyStoredEmpty` | BackEnd/routes/jobs.js:24-40 | a company of only spaces passes validation and is stored as "" |
| `Jobs.FilterByStatus` | BackEnd/routes/jobs.js:12-16 | a job is in the result exactly when it is stored and its lower-cased status equals the lower-cased filter |
| `Jobs.FilterByStatusAppend` | BackEnd/routes/jobs.js:13-15 | filtering keeps the stored order: filtering a concatenation is concatenating the filtered parts |
| `Jobs.CreatedJobListedLast` | BackEnd/routes/jobs.js:13-15 | after a create, filtering by the status as the request spelled it ends with the new job |
| `Jobs.FindIndexById` | BackEnd/routes/jobs.js:55 | gives the first position whose id equals the parsed id; gives None exactly when the id is NaN or absent from the store |
| `Jobs.AppendKeepsIdsIncreasing` | BackEnd/routes/jobs.js:37-47 | appending a record under an id above every stored id keeps the ids strictly increasing |
| `Jobs.RemoveKeepsIdsIncreasing` | BackEnd/routes/jobs.js:97 | removing one record keeps the ids strictly increasing |
| `Jobs.AppendKeepsStoreInvariant` | BackEnd/routes/jobs.js:37-47 | appending a record with the counter's id and a canonical status, then bumping the counter, keeps the store invariant (increasing ids below the counter, canonical statuses) |
| `Jobs.ReplaceKeepsStoreInvariant` | BackEnd/routes/jobs.js:74-84 | replacing a record by one with the same id and a canonical status keeps the store invariant |
| `Jobs.RemoveKeepsStoreInvariant` | BackEnd/routes/jobs.js:97 | removing a record keeps the store invariant, and no remaining record has the removed id |
| `Jobs.FindByEchoedId` | BackEnd/routes/jobs.js:55 | the id that create echoed, written into a later URL, finds exactly that record |
| `Jobs.JobStore.constructor` | BackEnd/routes/jobs.js:5-6 | the store starts empty with next id 1, and its invariant holds |
| `Jobs.JobStore.List` | BackEnd/routes/jobs.js:8-19 | with no status, or with "all", the whole store is returned in stored order; otherwise exactly the case-insensitively matching jobs, in stored order; an empty store gives an empty list |
| `Jobs.JobStore.Create` | BackEnd/routes/jobs.js:21-49 | a rejected body leaves jobs and nextId unchanged; an accepted one appends exactly one record with id old nextId, bumps nextId by one and leaves the other records unchanged; ids stay increasing and statuses canonical |
| `Jobs.JobStore.Update` | BackEnd/routes/jobs.js:51-86 | an unknown id gives NotFound before any validation and changes nothing; a rejected body changes nothing; otherwise only the found index is replaced by its revision; nextId never changes |
| `Jobs.JobStore.Delete` | BackEnd/routes/jobs.js:88-99 | an unknown id changes nothing; otherwise exactly the found record is removed and returned, the rest keep their order, and no remaining record has its id |
| `Jobs.JobStore.Reset` | BackEnd/routes/jobs.js:101-104 | the store is empty and the next id is 1 |
| `Auth.RegistrationError` | BackEnd/routes/auth.js:15-25 | a registration body passes exactly when all four fields are truthy, the passwords match and the password is at least 6 UTF-16 units long; a missing field is reported first; a mismatch is reported even when the password is also short; a matching password shorter than 6 units gets "Password must be at least 6 characters" |
| `Auth.FindByEmail` | BackEnd/routes/auth.js:28 | the lookup finds a stored user with exactly that email, and finds none exactly when no stored user has it |
| `Auth.LoginDecision` | BackEnd/routes/auth.js:85-108 | login succeeds exactly when a user was found and the password matches its hash; every failure is the same 401 "Invalid email or password"; a success carries the user's id, email and name and a token over its id and email |
| `Auth.UnknownEmailLikeWrongPassword` | BackEnd/routes/auth.js:85-97 | an unknown email and a wrong password give identical answers |
| `Auth.FoundIsOnlyCandidate` | BackEnd/routes/auth.js:80-97 | with unique emails, some user can log in under an email exactly when the user the lookup finds matches the password |
| `Auth.UserStore.constructor` | BackEnd/database.js:21-28 | the users table starts empty with next id 1, and its invariant (unique emails, increasing ids) holds |
| `Auth.UserStore.Register` | BackEnd/routes/auth.js:11-66 | a rejected body gives 400 and an already stored email gives 409, both changing nothing; otherwise exactly one user is appended with id old nextUserId, the hash of the password (not the password) and the given name and email; the reply is 201 with that id, email, name and a token over the id and email; emails stay unique; if a password matches its hash, the new user can then log in with that password |
| `Auth.UserStore.Login` | BackEnd/routes/auth.js:71-111 | a missing email or password gives 400; otherwise the answer is the login decision for the user the email lookup finds, so login succeeds exactly when a stored user has that email and the password matches its hash, and every failure with both fields present is the same 401 "Invalid email or password"; a success carries that user's id, email, name and a token over its id and email; the table is only read |

## Left out

- Status 500 branches (`BackEnd/routes/auth.js:29-31, 39-41, 48-50, 81-83, 91-93`): these are storage and library failures. The model has no failing database or hash call.
- bcrypt and JWT internals, the signing secret and the seven-day expiry: these are foreign libraries. Hash, compare and sign are opaque function values, and the expiry is folded into sign.
- The SQLite connection and DDL (`BackEnd/database.js`): these are I/O. The UNIQUE email constraint appears as the `EmailsUnique` part of `UserStore.Valid`. ON DELETE CASCADE is not modelled, because no code deletes users.
- Concurrency: the email check and the insert in register are separated by asynchronous callbacks. Two concurrent registrations with one email could both pass the check, and the second insert would then fail on the UNIQUE constraint with a 500. The model runs each route to completion.
- Express wiring, JSON parsing, the 404/500 handlers and `listen` (`BackEnd/index.js`): these are HTTP plumbing.
- Non-string JSON values in a body or query: the model takes every field as an optional string. A numeric `company` would make `trim` throw, and an array-valued `?status=` would make `toLowerCase` throw. On create, `nextId++` (`BackEnd/routes/jobs.js:38`) runs before those `trim` calls (:39-43), so such a request fails but still uses up an id. The model does not have this state change on a failed request.
- Case mapping: only ASCII letters are mapped. JavaScript's full Unicode `toLowerCase`/`toUpperCase` is not modelled.
- `JsText.ParseIntDecimal`: ids are unbounded integers. parseInt's loss of precision above 2^53 is not modelled.
- The clock and date formatting (`new Date().toISOString()`): `today` and `now` are parameters.
- All frontend files (React UI, `fetch`, `localStorage`): these are user interface code. `validateForm` only duplicates the backend checks.
