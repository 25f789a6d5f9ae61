# Password generator and credential store, modelled in Dafny

This is a model of the two pieces of logic in `password_generator.py`, a Tkinter and SQLite desktop tool.

- **Generation.** The tool builds a character set from four flags. The flags select uppercase, lowercase, digits and punctuation, and the alphabets are appended in that order. An empty set is refused. Otherwise the tool draws `length` characters from the set and replaces the contents of the password entry with them.
- **Storage.** The tool keeps a `passwords` table of (service, password, created_at) rows, and `service` is UNIQUE. Saving refuses an empty service or password. Saving refuses a service that is already stored; this is the `IntegrityError` case. Otherwise saving inserts one row. Listing returns every row, or reports that there are none.

Modules:

- `Alphabets` (`alphabets.dfy`): Python's `string.ascii_uppercase`, `ascii_lowercase`, `digits` and `punctuation` as literal constants. Beside them are independent character-class predicates, and lemmas that tie each constant to its class.
- `Generator` (`generator.dfy`): `Charset` is the specification of the character set. `BuildCharset` builds the set by successive appends. `DrawPassword` is the draw loop.
- `Store` (`store.dfy`): the table is the class `CredentialStore`. It holds a map from service to (password, timestamp), which makes the UNIQUE column part of the type. It also holds a flag saying whether the table exists yet, so that `CREATE TABLE IF NOT EXISTS` can be modelled.
- `App` (`app.dfy`): the class `PasswordGenerator` holds the password entry and the store. `Save` is the specification of saving as a value, with lemmas about it.

Inputs the program takes from its environment become parameters:

- The random source is an oracle `pick: nat -> nat`. The i-th `secrets.choice(chars)` yields `chars[pick(i) % |chars|]`.
- `datetime.now()` is the `now: Timestamp` argument.
- The Tk variables for length and the four flags are plain arguments.
- The service entry's text is the `service` argument of `SavePassword`.
- The database file's contents at start-up are the `DbFile` argument of the constructor.

`length` is any integer. `range(length)` is empty for a negative value, so such a length yields an empty password (`Count`). The 8–128 range belongs only to the Spinbox widget, and the generator does not enforce it.

## Model

| member | source | states |
|---|---|---|
| Alphabets.AsciiRange | password_generator.py:83-90 | the range from `lo` to `hi` has `hi - lo + 1` characters, starts at `lo` and ends at `hi` |
| Alphabets.RangeIncreasing | password_generator.py:83-90 | a range lists its characters in strictly increasing code-point order |
| Alphabets.AlphabetsAreRanges | password_generator.py:83-90 | each `string` alphabet is the contiguous code-point range of its class; punctuation is the four non-alphanumeric printable ranges in order |
| Alphabets.AlphabetSizes | password_generator.py:83-90 | the alphabets have 26, 26, 10 and 32 characters |
| Alphabets.AlphabetMembers | password_generator.py:83-90 | a character is in an alphabet iff it satisfies that alphabet's class predicate (upper, lower, digit, printable non-alphanumeric) |
| Alphabets.RangeMembers | password_generator.py:83-90 | a character is in a code-point range iff it lies between the range's ends |
| Alphabets.AlphabetsDistinct | password_generator.py:83-90 | no alphabet repeats a character |
| Alphabets.AlphabetsDisjoint | password_generator.py:83-90 | no character belongs to two alphabets |
| Generator.Charset | password_generator.py:81-90 | the set's size is the sum of the sizes of the enabled alphabets |
| Generator.CharsetEmpty | password_generator.py:81-94 | the set is empty iff all four flags are false |
| Generator.CharsetMembers | password_generator.py:81-90 | a character is in the set iff it belongs to an enabled class |
| Generator.CharsetDistinct | password_generator.py:81-90 | no character occurs twice in the set |
| Generator.DistinctConcat | password_generator.py:81-90 | appending an alphabet disjoint from the set so far keeps the set free of repeats |
| Generator.DistinctConcat4 | password_generator.py:81-90 | the same for four pairwise disjoint alphabets appended in order |
| Generator.BuildCharset | password_generator.py:81-90 | the `+=` steps yield exactly the in-order concatenation of the enabled alphabets |
| Generator.DrawPassword | password_generator.py:96 | the password has `max(length, 0)` characters; the i-th is the oracle's i-th choice from the set, so each is a member of the set |
| Generator.DrawnInEnabledClasses | password_generator.py:83-96 | every character of a generated password lies in an enabled class, and its length is `max(length, 0)` |
| Generator.DigitsOnly | password_generator.py:87-88 | with only digits enabled, every generated character is between '0' and '9' |
| Store.RecordsOfMembers | password_generator.py:27 | a record is listed iff its service maps to its password and timestamp; no two listed records share a service |
| Store.RecordsOfInsert | password_generator.py:114-116 | inserting a new service adds exactly its record to the stored set and keeps every other record |
| Store.CredentialStore.Connect | password_generator.py:22-23 | opening the file exposes the rows it holds, or no table at all |
| Store.CredentialStore.InitDb | password_generator.py:24-32 | afterwards the table exists and the rows are the same as before; a second call changes nothing |
| Store.CredentialStore.Insert | password_generator.py:114-120 | succeeds iff the service is new, and then adds (password, now) under it; otherwise the rows are unchanged |
| Store.CredentialStore.SelectAll | password_generator.py:123-124 | returns exactly the stored records, one per service, as many as there are rows |
| App.Save | password_generator.py:109-120 | every existing record is kept unchanged; at most the given service is added |
| App.SaveMissingField | password_generator.py:109-111 | an empty service or password is refused and the table is unchanged |
| App.SaveServiceExists | password_generator.py:113-120 | non-empty fields for a service already stored give `ServiceExists` (the `IntegrityError` path) and leave the table unchanged |
| App.SaveAddsOneRecord | password_generator.py:109-120 | a save succeeds iff both fields are non-empty and the service is new; on success exactly one record (service, password, now) is added; on failure the table is unchanged |
| App.SavedServiceListedOnce | password_generator.py:114-116 | after a successful save, the only listed record for that service carries the saved password and time |
| App.SaveTwiceSameService | password_generator.py:27 | a second save of a stored service fails (IntegrityError when its password is non-empty) and the first record's password and timestamp stay as they were |
| App.PasswordGenerator.constructor | password_generator.py:13-32 | start-up opens the file and creates the table if missing, keeping the file's rows; the password entry is empty |
| App.PasswordGenerator.GeneratePassword | password_generator.py:79-98 | refuses exactly when no flag is set, leaving the entry unchanged; only the entry changes, so the store's validity is kept; otherwise the entry holds exactly the new password: `max(length, 0)` oracle draws from the enabled set, each character in an enabled class |
| App.PasswordGenerator.SavePassword | password_generator.py:105-120 | the outcome and the new table are those of `Save` on the old table, the service and the entry's password |
| App.PasswordGenerator.ViewPasswords | password_generator.py:122-128 | reports "none stored" iff the table is empty; otherwise lists exactly the stored records, each service once |

## Left out

- Tkinter UI: `setup_ui`, `toggle_show`, message boxes, the listing and QR windows (password_generator.py:34-77, 100-103, 130-141). This is presentation only. The error dialogs become the `NoCharacterType`, `MissingField`, `ServiceExists` and `NoPasswordsStored` results.
- QR rendering, `show_qr` (password_generator.py:143-162): the work is done by the `qrcode` and PIL libraries, which are not part of this model. Its guard refuses an empty password entry.
- Clearing the service entry after a successful save (password_generator.py:118): the service entry is not state in this model, because its text is the `service` argument.
- Typing into the password entry by hand: the entry changes only through `GeneratePassword`.
- SQLite connection, cursor, commit and file path (password_generator.py:22-23, 32, 116): these are replaced by the in-memory map. Durability and failures to open the file are not modelled.
- The `id INTEGER PRIMARY KEY` column (password_generator.py:26): the listing never reads it.
- Row order of the `SELECT` without `ORDER BY` (password_generator.py:123): this order is defined by the database engine. `SelectAll` and `ViewPasswords` promise only which records appear, and that each appears once.
- The quality of `secrets.choice` (password_generator.py:96): uniformity and unpredictability are properties of the library. The oracle `pick` stands in for it.
- `datetime.now()` (password_generator.py:115): it is the `now` parameter, so timestamps carry no ordering claim.
- `length_var.get()` failing on text that is not an integer (a Tk `TclError`): this is not modelled, and `length` is always an integer here.
