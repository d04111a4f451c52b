# LEONI supplier platform — a Dafny model of its authentication and import core

The LEONI platform is a Streamlit application for two suppliers (MD ELEKTRONIK and
Rosenberger). Users register and log in with an e-mail and a bcrypt-hashed password.
Every login attempt with a well-formed e-mail is recorded, and the last ten successful ones can be reviewed.
Once logged in, a user can bulk-import a folder of images and a semicolon-separated
CSV file into a MongoDB store, clear both collections, and search them by file name.

This project models that core in Dafny:

- `Validators` (validators.dfy) holds the three pure validators.
  - The e-mail check is the regular expression `^[a-zA-Z0-9_.+-]+@[a-zA-Z0-9-]+\.[a-zA-Z0-9-.]+$` under `re.match`. The check is modelled as the pattern's left-to-right automaton (`Scan`). It is proved equal to the pattern's own reading: a split at an `@` and a `.` with three non-empty runs. The `$` also accepts one trailing newline, and the model keeps that.
  - The password check applies three ordered rules and reports the first that fails.
  - The CSV check is modelled on an abstract file record: a regular-file flag, a size, the text of the exception that opening or reading the file raises (if any), and the lines.
- `Accounts` (accounts.dfy) models the credential store as values.
  - A user lookup returns the earliest user with a given e-mail.
  - Login and registration are each decided by a pure function.
  - The failed-attempt count is proved equal to the number of matching records.
  - The history query is proved to return the latest successful attempts, newest first, at most ten. Identical records are counted with their repeats.
  - bcrypt is a `Hasher` pair of functions. The general lemmas assume of it, as a `requires`, only `Sound`: a password always checks against a digest made from it. `MistypedPasswordScenario` has one more premise: the typed password does not check against the stored digest.
- `Imports` (imports.dfy) says which directory entries become image records and which parsed rows become CSV records. It also holds the exact-match lookups of the search tab.
- `Platform` (platform.dfy) is the imperative part. Class `App` holds the four collections (`users`, `logins`, `images`, `csv_files`) as `seq` fields, and the session fields `logged_in`, `user_email` and `current_page`. Each button handler is a method that updates them in place.
  - Each method states its whole new state, tied to the pure functions above.
  - Every method keeps the invariant `Valid()`: a session is logged in exactly when it holds an e-mail, and that e-mail is well-formed and registered.

Behaviour of the code that the model keeps:

- A CSV import that passes validation empties the collection before pandas parses the file. A parse failure therefore leaves the collection empty, not untouched. Only a file that fails validation leaves it untouched.
- A CSV file of fewer than three lines is rejected. This includes a header with one data row. The reason is the `StopIteration` raised by `next(f)`, so the message is `"Validation error: "`.
- A folder path that exists but cannot be listed is handled as follows: the image collection has already been cleared when `os.listdir` raises, and the loop never runs.
- Double registration under one e-mail is possible. Lookups keep returning the earlier user, so the later password never decides a login (`LoginIgnoresLaterDuplicate`).
- Failed attempts are counted but never consulted: `DecideLogin` takes no attempt records, so there is no lockout.

## Model

| member | source | states |
|---|---|---|
| `Validators.ValidateEmailMatchesPattern` | STREAM.py:21-24 | `validate_email` accepts exactly the strings `re.match` accepts with the pattern: local run, `@`, domain run, `.`, suffix run, optionally followed by one newline |
| `Validators.ScanLocal` | STREAM.py:23 | from any position, the automaton in the local run accepts exactly local characters up to an `@`, then domain characters up to a `.`, then a non-empty suffix run |
| `Validators.ScanMatches` | STREAM.py:23-24 | the automaton accepts exactly the strings that have some split matching the pattern (the regex's backtracking adds nothing) |
| `Validators.AcceptedEmailShape` | STREAM.py:21-24 | an accepted e-mail has exactly one `@`, a non-empty part before it, and a `.` at least two positions after it |
| `Validators.ShortAddressAccepted` | STREAM.py:21-24 | one local character, `@`, one domain character, `.`, and any non-empty suffix run are accepted |
| `Validators.AcceptsShortAddress` | STREAM.py:21-24 | `x@y.com` is accepted |
| `Validators.RejectsAddressWithoutAt` | STREAM.py:21-24 | `not-an-email` is rejected |
| `Validators.ValidatePassword` | STREAM.py:26-34 | valid exactly when at least 8 characters, an uppercase letter and a digit are all present; otherwise the message of the first failing rule in the order length, uppercase, digit |
| `Validators.PasswordExamples` | STREAM.py:26-34 | `short1A` is rejected as too short; `LongEnough1` is accepted |
| `Validators.ValidateCsvFile` | STREAM.py:192-208 | missing file, then empty file, then an exception while opening or reading (reported as `Validation error: ` and its text), then fewer than three lines each give their own failure; otherwise valid exactly when the first three lines have equal `;` counts |
| `Validators.DistinctCounts` | STREAM.py:202-204 | `len(set(counts)) > 1` holds exactly when the three counts are not all equal |
| `Accounts.FindUser` | STREAM.py:270 | none found exactly when no user has the e-mail; otherwise the earliest user with that e-mail |
| `Accounts.DuplicateRegistrationShadowed` | STREAM.py:248-270 | appending a user under an e-mail that is already registered does not change what the lookup returns |
| `Accounts.DecideLogin` | STREAM.py:266-295 | malformed exactly when the e-mail check fails; unknown exactly when no user has the e-mail; success exactly when the earliest user with the e-mail has a digest the password checks against |
| `Accounts.CheckRegistration` | STREAM.py:237-256 | invalid e-mail exactly when the e-mail check fails; a weak password then reports the password check's message; a mismatch exactly when both checks pass but the confirmation differs; registered exactly when all three hold |
| `Accounts.RegisteredUserCanLogIn` | STREAM.py:247-272 | with a sound hasher, a user registered under a fresh e-mail logs in with the same password |
| `Accounts.LoginIgnoresLaterDuplicate` | STREAM.py:266-272 | once an e-mail is registered, a later registration under it never changes a login outcome |
| `Accounts.FailedAttemptsCountsRecords` | STREAM.py:135-139 | the failed-attempt count equals the number of records with that e-mail and `success` false |
| `Accounts.FailedAttemptsAppend` | STREAM.py:135-139 | storing one attempt adds one matching failed record for an e-mail exactly when the attempt has that e-mail and failed, and none otherwise |
| `Accounts.SortNewestFirst` | STREAM.py:433-437 | the result is a permutation of the input ordered by non-increasing login time |
| `Accounts.RecentSuccessfulLogins` | STREAM.py:433-437 | exactly min(10, number of successful records) records, newest first, drawn from the successful records with no record more often than the log holds it |
| `Accounts.HistoryHoldsLatest` | STREAM.py:433-437 | the history is full or holds every success, and every successful record it leaves out, counted with repeats (so also a further copy of a record it shows), is no more recent than each one it shows |
| `Accounts.FailedAttemptNotInHistory` | STREAM.py:433-437 | a failed attempt never appears in the history |
| `Imports.ImportedImagesExactly` | STREAM.py:305-316 | a record is imported exactly when some listed entry has a case-insensitive `.png`/`.jpg`/`.jpeg` name and a successful read, with that name and content |
| `Imports.ImportedImagesCount` | STREAM.py:305-316 | the number of imported records equals the number of entries with an image extension whose read succeeded |
| `Imports.FailedImportsExactly` | STREAM.py:305-316 | a name is reported as failed exactly when some listed entry of that name has an image extension and a read that raised |
| `Imports.EveryCandidateAccounted` | STREAM.py:305-316 | imported records plus reported failures equal the number of entries with an image extension |
| `Imports.ExtensionExamples` | STREAM.py:306 | `photo.PNG`, `scan.Jpeg` and `a.jpg` are candidates; `notes.txt` and `photo.png.bak` are not |
| `Imports.ImportExample` | STREAM.py:301-317 | three readable images and one text file give exactly the three image records, in listing order |
| `Imports.FindImage` | STREAM.py:472 | none found exactly when no record has exactly that filename; otherwise the first such record |
| `Imports.FoundAfterImport` | STREAM.py:472 | after an import, a search succeeds exactly for names of imported entries |
| `Imports.KeepNonBlankRows` | STREAM.py:370-371 | keeps exactly the parsed rows with at least one non-missing cell, each as many times as it was parsed |
| `Seqs.FilterCounts` | STREAM.py:370-371 | the kept rows are the parsed rows that pass the test, each kept exactly as many times as it was parsed |
| `Seqs.FilterConcat` | STREAM.py:370-371 | the kept rows come in their parsed order: filtering two consecutive parts and joining the results filters the whole |
| `Imports.FindCsvRecords` | STREAM.py:473 | returns exactly the rows whose `Nom du fichier` cell equals the query, each as many times as it is stored |
| `Platform.App.constructor` | STREAM.py:179-185 | a new session is logged out, holds no e-mail, and starts on the home page |
| `Platform.App.Navigate` | STREAM.py:188-189 | sets the page and nothing else |
| `Platform.App.ChooseAuthPage` | STREAM.py:225-227 | a logged-out session's sidebar moves it to Register or Login and changes nothing else |
| `Platform.App.Register` | STREAM.py:230-256 | on the Register page, appends one user with the hashed password and moves to Login exactly when `CheckRegistration` passes; otherwise the users and the page are unchanged |
| `Platform.App.Login` | STREAM.py:261-295 | on the Login page of a logged-out session, the outcome is `DecideLogin` on the users; a malformed e-mail records nothing; any other e-mail appends one attempt whose success is the outcome; only success logs the session in with that e-mail and moves to Options, otherwise it stays logged out on Login |
| `Platform.App.Logout` | STREAM.py:218-223 | a logged-in session becomes logged out, holds no e-mail, and is on the Login page |
| `Platform.App.AuthGate` | STREAM.py:537-539 | a logged-out session ends every run on the Login page; a logged-in one keeps its page |
| `Platform.App.ImportImages` | STREAM.py:301-319 | on a supplier page of a logged-in session, a missing folder leaves the images alone; otherwise the collection becomes exactly the imported records of the listing, the reported count is their number, which is the number of image-named entries read successfully, and the failures are the image names whose read raised |
| `Platform.App.ClearImages` | STREAM.py:333-336 | empties the images and returns the prior count |
| `Platform.App.ImportCsv` | STREAM.py:342-380 | a file the validator rejects leaves the rows untouched and reports its message; otherwise the rows become the non-blank parsed rows, or none when parsing failed |
| `Platform.App.ClearCsv` | STREAM.py:398-401 | empties the CSV rows and returns the prior count |
| `Platform.MistypedPasswordScenario` | STREAM.py:225-295 | a new session picks Register in the sidebar and registers an accepted e-mail and password. A login with a password that does not check against the stored digest then fails. The store then holds that one user and one failed attempt, the failed-attempt query over it counts one, and the history built from it is empty |

## Left out

- Validators.ValidatePassword: counts only ASCII `A`–`Z` as uppercase and `0`–`9` as digits. Python's `str.isupper` and `str.isdigit` also accept non-ASCII uppercase letters and digits, and their Unicode tables are not modelled.
- Imports.HasImageExtension lowers ASCII letters only. No non-ASCII character lowers to a letter of `.png`, `.jpg` or `.jpeg`, so the outcome is the same as `str.lower`.
- bcrypt internals. `hashpw` and `checkpw` are the two functions of a `Hasher`, and the salt `gensalt` draws is a parameter. The model never relies on a wrong password failing the check: bcrypt looks only at the first 72 bytes of a password, so that does not hold in general.
- base64 encoding and PIL decoding (`encode_image_to_base64`, `decode_image`), and the Show Images and Show CSV Data buttons that display the collections. An entry's content is the encoded text, or `None` when reading raised.
- pandas. Parsing, the encoding and engine fallback, type inference, and empty strings read as NaN are not modelled. The parse result is a parameter of `ImportCsv`. A numeric `Nom du fichier` value that pandas would turn into a number is not distinguished from text.
- `validate_csv_file`: the text of an exception raised while opening or reading the file (an `OSError`, bytes that are not UTF-8) is the `readError` field of the file record. The model does not derive it from the file's bytes or permissions.
- `display_clusters` and the cluster download: file I/O and UI.
- The MongoDB client, its timeouts, the ping, and the DNS resolver override. Store operations never fail in the model, so the `except` branches around `insert_one`, `delete_many` and `insert_many` are not modelled. Neither is the CSV sample shown after a failed import.
- `datetime.now()`: it is the `now` parameter of `Login`.
- `find_one` returns the first document in insertion order here. MongoDB's natural order is usually that, but it is not guaranteed.
- Documents with equal `login_time` may come back in any order from MongoDB. The history's contracts therefore state only newest-first order and that it holds the latest records.
- The fixed order of one run of the script (sidebar, then page bodies, then the gate) is not composed into one step. Each handler is its own method.
- Streamlit rendering, CSS, toasts and tabs: UI with no behaviour to state.
- Concurrent sessions, and the race between delete and insert in the imports: the model has one session at a time.
