# Account and file store (ACC/api.py) in Dafny

This project models the backend in `ACC/api.py`. It is a small account-and-file
store behind a Flask web API. The model has two pieces of state:

- the `informacoes` table, a sequence of rows (`NomeUsuario`, `SenhaUsuario`, `NomeCompleto`, `Email`);
- the `uploads` folder, a map from flat file name to content.

The read-only `arquivos_padrao` folder is a fixed, optional map (absent when the
folder does not exist). Each entry is a regular file or something else. Only
regular files are copied.

Modules, one per layer of the source:

- `Wrappers` (wrappers.dfy): the `byte` type, `Option`, and a `Result` that is either a value or a Python exception.
- `Password` (password.dfy): `generate_salt`, `generate_salted_hash` and `verify_password`,
  with hex encoding and Python's `str.split`. SHA-256 of the UTF-8 encoding is a
  parameter `sha256: string -> seq<byte>`. It is total, since a Dafny string cannot hold
  a lone surrogate, and nothing else is assumed about it. The 16
  bytes of `os.urandom(16)` are a parameter too.
- `Files` (files.dfy): ownership by file-name prefix (`username + "_"`), the copies of
  the default files, and the upload folder after a reset.
- `Table` (table.dfy): what the SQL statements do to the table (SELECT by username,
  DELETE by username, UPDATE by e-mail, and the count of rows an UPDATE changed).
- `Api` (server.dfy): class `Server`, with one method per HTTP handler. Each method
  takes the request fields its handler reads and returns the HTTP status. A field
  read with `data.get(...)` is an `Option<string>`; a field read with `data[...]`
  is a `string`.
- `Scenarios` (scenarios.dfy): four runs of the handlers, proved from the handlers'
  contracts alone.

Behaviour the model makes explicit:

- Prefix ownership is not exclusive. `alice` also owns every file of `alice_x`,
  because `alice_x_report.pdf` starts with `alice_`. So listing, account deletion
  and reset for `alice` also reach `alice_x`'s files (`Files.OwnershipOverlaps`,
  `Files.OverlapExample`).
- `verify_password` unpacks `stored.split(':')` into two names. A stored value
  with two or more colons therefore raises `ValueError` instead of returning
  false, and `login` has no handler for it, so the answer is 500. Values written
  by `generate_salted_hash` always hold exactly one colon, so only rows written by
  something else can trigger this. The code splits on every colon, not just the
  first, and the model follows the code.
- `deletar_conta` without a username runs the DELETE with NULL, which matches no
  row. The prefix `None + "_"` is built inside the listing's filter, once per
  file. So it raises `TypeError` (answer 500) only when the upload folder holds
  a file. With an empty folder the answer is 200. Nothing changes either way.
- `trocar_senha` and `trocar_nome` answer 404 when the UPDATE changed no row.
  The cursor's `rowcount` counts rows actually changed, because the connection
  does not ask for found rows. So renaming a user to the full name already
  stored gives 404, although the e-mail exists.
- `deletar_arquivo` removes any named file, whoever owns it.
- Rejecting a wrong password is proved only on the hypothesis that the digest
  has no collisions (`Password.VerifyRejectsOtherPassword`). Without it, the model
  says only that a candidate is accepted exactly when its salted digest equals
  the stored one (`Password.VerifySaltedHash`).

## Model

| member | source | states |
|---|---|---|
| `Password.HexEncode` | ACC/api.py:49 | hex encoding gives two lower-case hex digits per byte |
| `Password.HexEncodeInjective` | ACC/api.py:49 | distinct byte strings have distinct hex encodings |
| `Password.Count` | ACC/api.py:58 | the number of occurrences of a character is zero exactly when the character is absent |
| `Password.IndexOf` | ACC/api.py:60 | the first occurrence of the separator: it is there and no earlier one is |
| `Password.Split` | ACC/api.py:60 | `str.split(sep)` gives at least one piece, and no piece contains the separator |
| `Password.JoinSplit` | ACC/api.py:60 | joining the pieces of a split back with the separator gives the original string |
| `Password.SplitLength` | ACC/api.py:60 | a string with n separators splits into n + 1 pieces |
| `Password.SplitPair` | ACC/api.py:55-60 | `a + ":" + b` with no colon in a or b splits into exactly `[a, b]` |
| `Password.HexDigest` | ACC/api.py:54 | `hexdigest()` is lower-case hex and never contains ':' |
| `Password.GenerateSalt` | ACC/api.py:48-49 | the salt is 32 lower-case hex characters and contains no ':' |
| `Password.GenerateSaltedHash` | ACC/api.py:51-55 | the stored value holds exactly one ':', preceded by the 32-character salt |
| `Password.VerifyPassword` | ACC/api.py:57-62 | false when the stored value is empty or has no ':'; raises ValueError exactly when it has two or more |
| `Password.VerifyOneColon` | ACC/api.py:57-62 | for `salt:digest` with no other colon, checking a password compares the digest of the salt followed by the password with `digest` |
| `Password.VerifySaltedHash` | ACC/api.py:51-62 | a candidate is accepted by a freshly stored value exactly when its salted digest equals the stored password's |
| `Password.VerifyAcceptsOwnPassword` | ACC/api.py:51-62 | round trip: `verify_password(generate_salted_hash(p), p)` is true for every p and every salt |
| `Password.VerifyRejectsOtherPassword` | ACC/api.py:53-62 | with a collision-free digest, any other password is rejected |
| `Files.DefaultCopiesAreOwned` | ACC/api.py:120-127 | every default copy is named `username_d` for some regular default file d; every regular default file d has the copy `username_d`, which holds d's content |
| `Files.OwnedListing` | ACC/api.py:167 | given a username, the listing is that user's files; without one it raises TypeError exactly when the folder is non-empty, and otherwise lists nothing |
| `Files.CopiesSize` | ACC/api.py:123-127 | copying n regular default files writes n distinct names |
| `Files.RemoveOwnedLeavesOthers` | ACC/api.py:167-172 | after removing a user's files the user owns none, and exactly the files without the prefix remain |
| `Files.ResetOwnsExactlyDefaults` | ACC/api.py:203-217 | after a reset the user owns exactly the prefixed default names, as many as the regular default files (none without a defaults folder); files without the prefix are untouched |
| `Files.OwnershipOverlaps` | ACC/api.py:45 | every file of a user named `username_...` is also a file of `username` |
| `Files.OverlapExample` | ACC/api.py:45 | `alice_x_notes.txt` is listed both for `alice_x` and for `alice` |
| `Table.Lookup` | ACC/api.py:137-138 | SELECT by username finds nothing exactly when no row has the username, else a row of the table with it |
| `Table.LookupFindsTheRow` | ACC/api.py:137-138 | with unique usernames, the row found is the one holding the username |
| `Table.DeleteWhereUsername` | ACC/api.py:164 | DELETE keeps exactly the rows whose username differs |
| `Table.DeleteWithoutMatchIsIdentity` | ACC/api.py:164 | DELETE of an absent username leaves the table unchanged |
| `Table.DeletePreservesUnique` | ACC/api.py:164 | DELETE keeps usernames unique |
| `Table.UpdateWhereEmail` | ACC/api.py:237 | UPDATE keeps length, usernames and e-mails, sets only the chosen column of matching rows, and leaves other rows as they were |
| `Table.MatchedRows` | ACC/api.py:237 | the number of rows the WHERE clause matches is zero exactly when no row has the e-mail |
| `Table.ChangedRows` | ACC/api.py:237-241 | `rowcount` is at most the number of matched rows, and zero exactly when the assignment would change no matching row |
| `Table.UpdateIsIdentityIffNoChange` | ACC/api.py:237-242 | the UPDATE leaves the table as it was exactly when `rowcount` is zero |
| `Table.UpdatePreservesUnique` | ACC/api.py:237 | UPDATE keeps usernames unique |
| `Table.InsertPreservesUnique` | ACC/api.py:78-103 | inserting after the existence check keeps usernames unique |
| `Table.LookupAfterInsert` | ACC/api.py:90-103 | after inserting a new username, looking it up finds the inserted row |
| `Table.LookupAfterDelete` | ACC/api.py:164 | after deleting a username, looking it up finds nothing |
| `Api.Server.constructor` | ACC/api.py:15-21 | the server starts from the given table, upload folder, defaults folder, digest and sanitiser |
| `Api.Server.Upload` | ACC/api.py:23-37 | 400 and no change without a file or with an empty name; otherwise stores the content under `secure_filename(username_name)`, replacing a file of that name, and returns that name |
| `Api.Server.ListFiles` | ACC/api.py:43-46 | the listing holds exactly the uploaded names that start with `username_` |
| `Api.Server.CopyDefaults` | ACC/api.py:120-127 | the upload folder becomes the old one overwritten by the prefixed copies of the regular default files (no change without a defaults folder) |
| `Api.Server.RemoveFiles` | ACC/api.py:168-172 | the loop removes exactly the listed files and leaves every other file as it was |
| `Api.Server.Register` | ACC/api.py:72-118 | duplicate username: 400, table and files unchanged; otherwise 200, exactly one row appended, its password verifies, defaults copied, no other file changed; uniqueness kept |
| `Api.Server.Login` | ACC/api.py:129-153 | 200 with the row minus the password exactly when the user exists and the password verifies; the same 401 and no data for an unknown user and for a wrong password; 500 when unpacking raises; no state change |
| `Api.Server.DeleteAccount` | ACC/api.py:155-179 | removes every row with the username (zero rows too) and exactly the files with its prefix, after which login finds nothing and the listing is empty; a missing username changes nothing and gives 200 when the upload folder is empty and 500 otherwise |
| `Api.Server.DeleteFile` | ACC/api.py:181-196 | 400 without a name, 404 with no change for a missing file, otherwise only that file is removed |
| `Api.Server.ResetFiles` | ACC/api.py:198-219 | 400 with no change without a username; otherwise the user owns exactly the prefixed default names, as many as the regular default files, and other files are untouched |
| `Api.Server.ChangePassword` | ACC/api.py:222-250 | 400 with no change when a field is missing; 404 with the table unchanged exactly when the UPDATE changes no row (always when no row has the e-mail); otherwise the UPDATE's result; either way every row with the e-mail then verifies against the new password |
| `Api.Server.ChangeFullName` | ACC/api.py:253-279 | 400 with no change when a field is missing; 404 with the table unchanged exactly when every row with the e-mail already holds the new name (none having it included); otherwise only the full name of matching rows changes; either way every row with the e-mail then holds the new name |
| `Scenarios.RegisterLoginDelete` | ACC/api.py:72-179 | register, log in, register again, delete, log in: 200, 200, 400, 200, 401 |
| `Scenarios.DeleteWithoutUsername` | ACC/api.py:155-176 | deleting without a username gives 200 with an empty upload folder and 500 once it holds a file |
| `Scenarios.RenameToStoredName` | ACC/api.py:253-270 | renaming to the stored full name gives 404 although the e-mail exists; a different name then gives 200 |
| `Scenarios.UploadThenList` | ACC/api.py:23-46 | with an identity sanitiser, `report.pdf` uploaded for `alice` is stored as `alice_report.pdf` and listed for alice |

## Left out

- Flask routing, JSON envelopes and their message strings, and CORS are left out. Handlers return only the status and any payload (stored name, listing, profile).
- `download_arquivo` (`send_from_directory` streaming) is left out because it is framework code.
- Database and filesystem failures are left out: failing connections, `execute`, `commit`, `os.remove`, `shutil.copy2` or `file.save`, and the 500 answers they cause. This also covers the 500 `salvar_dados` gives when copying fails after the row was committed.
- A JSON body that is not an object, a missing key read with `data['...']` (an unhandled KeyError in `salvar_dados` and `login`), and non-string field values are left out. All are outside the modelled inputs.
- Column comparison is exact string equality. MySQL compares under the column's collation, and the model does not capture that. The MySQL 8 default, utf8mb4_0900_ai_ci, ignores case and accents. Older PAD SPACE collations also ignore trailing spaces.
- SELECT without ORDER BY returns the first matching row in table order. Registration keeps usernames unique, so at most one row matches anyway.
- `rowcount` after an UPDATE is taken as the number of rows changed. This rests on the connector's default client flags, which do not include found rows. Whether a row changed is decided by exact equality of the stored values.
- `secure_filename` is an abstract function, because its rules belong to Werkzeug. `os.path.join`, path traversal and nested folders are left out: file names are flat keys.
- The `isfile` check is the `RegularFile` flag of an entry. Per-file delete failures and their `print` logging are left out: removing a key cannot fail.
- Check-then-insert and last-writer-wins races are left out, because they involve concurrent requests.
- SHA-256 and `os.urandom` are parameters, and constant-time comparison is not modelled.
- Strings are sequences of Unicode scalar values, so a field holding a lone surrogate cannot be represented. Flask's JSON decoder turns `"\ud800"` into one. `.encode('utf-8')` in `generate_salted_hash` and `verify_password` (ACC/api.py:54, 61) then raises UnicodeEncodeError. Nothing catches it in `salvar_dados`, `login` or `trocar_senha`, so each answers 500. The model gives those handlers no such path.
- `file.save` (ACC/api.py:34) is outside any `try`, so a failing save is an unhandled 500. One case is `secure_filename` returning "", for an empty username and the file name ".". The model instead stores the content under the key "" and answers 200.
- ACC/app.js is browser code and is not part of this model.
- Api.Server.ListFiles: returns a set, not a list in directory order, because the order of `os.listdir` is unspecified. The deletion and copy loops likewise visit names in an arbitrary order.
- Api.Server.Register: takes the 16 salt bytes as a parameter with `requires |random| == 16`, because `os.urandom(16)` always returns 16 bytes; this is not a demand on callers. Api.Server.ChangePassword does the same.
- Password.VerifyRejectsOtherPassword: proves rejection of a wrong password only for a collision-free digest. The uninterpreted digest alone gives only Password.VerifySaltedHash.
