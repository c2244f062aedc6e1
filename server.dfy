/**
 * The request handlers of ACC/api.py as methods of a server object that holds
 * the two pieces of state the handlers change: the `informacoes` table and the
 * upload folder. The defaults folder and SHA-256 are fixed when the server is
 * made. Each handler takes the request fields it reads and returns the HTTP
 * status of its response.
 *
 * A field read with `data.get(...)` is an `Option<string>` (None when the key is
 * missing or null); a field read with `data[...]` is a plain string.
 */
module Api {
  import opened Wrappers
  import opened Password
  import opened Files
  import opened Table

  const StatusOk := 200
  const StatusBadRequest := 400
  const StatusUnauthorized := 401
  const StatusNotFound := 404
  const StatusServerError := 500

  /** Python truthiness of an optional string field: a missing key, null and "" are all false. */
  predicate Present(field: Option<string>) {
    field.Some? && field.value != ""
  }

  /** The text Python's f-string gives for a form field: `None` when it is missing. */
  function FormText(field: Option<string>): string {
    if field.None? then "None" else field.value
  }

  /** The `arquivo` part of a multipart upload: its client-side file name and its bytes. */
  datatype UploadedFile = UploadedFile(filename: string, content: Content)

  class Server {
    const sha256: string -> seq<byte>
    /** Werkzeug's `secure_filename`, whose rules are not modelled. */
    const secureFilename: string -> string
    const defaults: Option<map<string, Entry>>
    var table: seq<Row>
    var uploads: map<string, Content>

    constructor (sha256: string -> seq<byte>, secureFilename: string -> string,
                 defaults: Option<map<string, Entry>>, table: seq<Row>, uploads: map<string, Content>)
      ensures this.sha256 == sha256 && this.secureFilename == secureFilename && this.defaults == defaults
      ensures this.table == table && this.uploads == uploads
    {
      this.sha256 := sha256;
      this.secureFilename := secureFilename;
      this.defaults := defaults;
      this.table := table;
      this.uploads := uploads;
    }

    /**
     * `upload_arquivo`: 400 without a file part or with an empty file name;
     * otherwise the file is saved as `secure_filename(username + "_" + name)`,
     * replacing a file of that name, and that name is returned.
     */
    method Upload(file: Option<UploadedFile>, username: Option<string>) returns (status: int, stored: Option<string>)
      modifies this`uploads
      ensures file.None? || file.value.filename == "" ==>
        status == StatusBadRequest && stored.None? && uploads == old(uploads)
      ensures file.Some? && file.value.filename != "" ==>
        && status == StatusOk
        && stored == Some(secureFilename(FormText(username) + "_" + file.value.filename))
        && uploads == old(uploads)[stored.value := file.value.content]
    {
      if file.None? || file.value.filename == "" {
        return StatusBadRequest, None;
      }
      var name := secureFilename(FormText(username) + "_" + file.value.filename);
      uploads := uploads[name := file.value.content];
      status, stored := StatusOk, Some(name);
    }

    /** `listar_arquivos(username)`: the names in the upload folder that start with `username_`. */
    function ListFiles(username: string): (names: set<string>)
      reads this
      ensures names <= uploads.Keys
      ensures forall f :: f in uploads && StartsWith(f, OwnerPrefix(username)) ==> f in names
      ensures forall f :: f in names ==> StartsWith(f, OwnerPrefix(username))
    {
      OwnedBy(uploads, username)
    }

    /**
     * `copiar_arquivos_padrao(username)`: every regular file `d` of the defaults
     * folder is copied to `username_d`, replacing a file of that name; an absent
     * folder copies nothing.
     */
    method CopyDefaults(username: string)
      modifies this`uploads
      ensures uploads == old(uploads) + DefaultCopies(defaults, username)
    {
      if defaults.Some? {
        var dir := defaults.value;
        var pending := dir.Keys;
        assert Copies(dir, dir.Keys - pending, username) == map[];
        while pending != {}
          invariant pending <= dir.Keys
          invariant uploads == old(uploads) + Copies(dir, dir.Keys - pending, username)
          decreases pending
        {
          var name :| name in pending;
          ghost var done := dir.Keys - pending;
          CopiesInsert(dir, done, name, username);
          assert dir.Keys - (pending - {name}) == done + {name};
          if dir[name].RegularFile? {
            var target := OwnerPrefix(username) + name;
            UnionUpdate(old(uploads), Copies(dir, done, username), target, dir[name].content);
            uploads := uploads[target := dir[name].content];
          }
          pending := pending - {name};
        }
      }
    }

    /** The loop of `deletar_conta` and `resetar_arquivos` that removes each listed file. */
    method RemoveFiles(listed: set<string>)
      modifies this`uploads
      ensures uploads == old(uploads) - listed
    {
      var pending := listed;
      while pending != {}
        invariant pending <= listed
        invariant uploads == old(uploads) - (listed - pending)
        decreases pending
      {
        var f :| f in pending;
        uploads := uploads - {f};
        pending := pending - {f};
      }
    }

    /**
     * `salvar_dados`: a username already in the table is refused with 400 and
     * nothing changes; otherwise one row is appended, holding the salted hash
     * of the password, and the default files are copied for the new user.
     */
    method Register(username: string, password: string, fullName: string, email: string, random: seq<byte>)
      returns (status: int)
      requires |random| == 16
      modifies this
      ensures HasUser(old(table), username) ==>
        status == StatusBadRequest && table == old(table) && uploads == old(uploads)
      ensures !HasUser(old(table), username) ==>
        && status == StatusOk
        && table == old(table) + [Row(username, GenerateSaltedHash(sha256, random, password), fullName, email)]
        && uploads == old(uploads) + DefaultCopies(defaults, username)
      ensures status == StatusOk ==>
        && Lookup(table, username).Some?
        && VerifyPassword(sha256, Lookup(table, username).value.password, password) == Ok(true)
        && DefaultCopies(defaults, username).Keys <= ListFiles(username)
      ensures UniqueUsernames(old(table)) ==> UniqueUsernames(table)
    {
      if HasUser(table, username) {
        return StatusBadRequest;
      }
      var hashed := GenerateSaltedHash(sha256, random, password);
      var row := Row(username, hashed, fullName, email);
      if UniqueUsernames(table) {
        InsertPreservesUnique(table, row);
      }
      LookupAfterInsert(table, row);
      VerifyAcceptsOwnPassword(sha256, random, password);
      table := table + [row];
      CopyDefaults(username);
      DefaultCopiesAreOwned(defaults, username);
      status := StatusOk;
    }

    /**
     * `login`: the row for the username, without its password, when the password
     * verifies; 401 both for an unknown username and for a wrong password; 500 when
     * the stored value has two or more colons and unpacking it raises.
     * The method has no modifies clause: login changes nothing.
     */
    method Login(username: string, password: string) returns (status: int, profile: Option<Profile>)
      ensures status == StatusOk <==>
        Lookup(table, username).Some? &&
        VerifyPassword(sha256, Lookup(table, username).value.password, password) == Ok(true)
      ensures status == StatusOk ==> profile == Some(WithoutPassword(Lookup(table, username).value))
      ensures status == StatusUnauthorized <==>
        Lookup(table, username).None? ||
        VerifyPassword(sha256, Lookup(table, username).value.password, password) == Ok(false)
      ensures status == StatusServerError <==>
        Lookup(table, username).Some? &&
        VerifyPassword(sha256, Lookup(table, username).value.password, password).Raised?
      ensures status != StatusOk ==> profile == None
    {
      var user := Lookup(table, username);
      if user.None? {
        return StatusUnauthorized, None;
      }
      var verdict := VerifyPassword(sha256, user.value.password, password);
      match verdict
      case Raised(_) =>
        status, profile := StatusServerError, None;
      case Ok(true) =>
        status, profile := StatusOk, Some(WithoutPassword(user.value));
      case Ok(false) =>
        status, profile := StatusUnauthorized, None;
    }

    /**
     * `deletar_conta`: deletes every row with the username (none is not an
     * error), then lists and removes every file starting with `username_`.
     * A missing username runs the DELETE with NULL, which matches no row; the
     * listing then raises TypeError on `None + "_"` as soon as the folder holds a
     * file, giving 500, while an empty folder lists nothing and gives 200.
     */
    method DeleteAccount(username: Option<string>) returns (status: int)
      modifies this
      ensures username.None? ==>
        && table == old(table) && uploads == old(uploads)
        && status == (if old(uploads) == map[] then StatusOk else StatusServerError)
      ensures username.Some? ==>
        && status == StatusOk
        && table == DeleteWhereUsername(old(table), username.value)
        && uploads == old(uploads) - OwnedBy(old(uploads), username.value)
      ensures username.Some? ==> Lookup(table, username.value).None? && ListFiles(username.value) == {}
      ensures UniqueUsernames(old(table)) ==> UniqueUsernames(table)
    {
      if username.Some? {
        var u := username.value;
        if UniqueUsernames(table) {
          DeletePreservesUnique(table, u);
        }
        LookupAfterDelete(table, u);
        table := DeleteWhereUsername(table, u);
        RemoveOwnedLeavesOthers(uploads, u);
      }
      var listing := OwnedListing(uploads, username);
      if listing.Raised? {
        return StatusServerError;
      }
      RemoveFiles(listing.value);
      status := StatusOk;
    }

    /**
     * `deletar_arquivo`: 400 without a file name, 404 when no such file exists,
     * otherwise that one file is removed. Any file may be named, whoever owns it.
     */
    method DeleteFile(filename: Option<string>) returns (status: int)
      modifies this`uploads
      ensures !Present(filename) ==> status == StatusBadRequest && uploads == old(uploads)
      ensures Present(filename) && filename.value !in old(uploads) ==>
        status == StatusNotFound && uploads == old(uploads)
      ensures Present(filename) && filename.value in old(uploads) ==>
        status == StatusOk && uploads == old(uploads) - {filename.value}
    {
      if !Present(filename) {
        return StatusBadRequest;
      }
      if filename.value in uploads {
        uploads := uploads - {filename.value};
        status := StatusOk;
      } else {
        status := StatusNotFound;
      }
    }

    /**
     * `resetar_arquivos`: 400 without a username; otherwise the user's files are
     * removed and the defaults copied again, so the user then owns exactly the
     * prefixed default names and every other file is untouched.
     */
    method ResetFiles(username: Option<string>) returns (status: int)
      modifies this`uploads
      ensures !Present(username) ==> status == StatusBadRequest && uploads == old(uploads)
      ensures Present(username) ==>
        status == StatusOk && uploads == AfterReset(old(uploads), defaults, username.value)
      ensures Present(username) ==>
        && ListFiles(username.value) == DefaultCopies(defaults, username.value).Keys
        && |ListFiles(username.value)| == DefaultCount(defaults)
    {
      if !Present(username) {
        return StatusBadRequest;
      }
      var u := username.value;
      RemoveFiles(OwnedBy(uploads, u));
      CopyDefaults(u);
      ResetOwnsExactlyDefaults(old(uploads), defaults, u);
      status := StatusOk;
    }

    /**
     * `trocar_senha`: 400 unless both fields are given; otherwise every row with
     * the e-mail gets a new salted hash of the new password. The answer is 404,
     * with the table unchanged, when the UPDATE changed no row: no row has the
     * e-mail, or every such row already holds exactly the new hash.
     */
    method ChangePassword(email: Option<string>, newPassword: Option<string>, random: seq<byte>)
      returns (status: int)
      requires |random| == 16
      modifies this`table
      ensures !Present(email) || !Present(newPassword) ==>
        status == StatusBadRequest && table == old(table)
      ensures Present(email) && Present(newPassword) ==>
        var assignment := SetPassword(GenerateSaltedHash(sha256, random, newPassword.value));
        && (status == StatusNotFound <==> ChangedRows(old(table), email.value, assignment) == 0)
        && (MatchedRows(old(table), email.value) == 0 ==> status == StatusNotFound)
        && (status == StatusNotFound ==> table == old(table))
        && (status != StatusNotFound ==>
              status == StatusOk && table == UpdateWhereEmail(old(table), email.value, assignment))
      ensures Present(email) && Present(newPassword) ==>
        forall i :: 0 <= i < |table| && table[i].email == email.value ==>
          VerifyPassword(sha256, table[i].password, newPassword.value) == Ok(true)
      ensures UniqueUsernames(old(table)) ==> UniqueUsernames(table)
    {
      if !Present(email) || !Present(newPassword) {
        return StatusBadRequest;
      }
      var hashed := GenerateSaltedHash(sha256, random, newPassword.value);
      var assignment := SetPassword(hashed);
      if UniqueUsernames(table) {
        UpdatePreservesUnique(table, email.value, assignment);
      }
      UpdateIsIdentityIffNoChange(table, email.value, assignment);
      VerifyAcceptsOwnPassword(sha256, random, newPassword.value);
      var rowcount := ChangedRows(table, email.value, assignment);
      table := UpdateWhereEmail(table, email.value, assignment);
      if rowcount == 0 {
        return StatusNotFound;
      }
      status := StatusOk;
    }

    /**
     * `trocar_nome`: 400 unless both fields are given; otherwise every row with
     * the e-mail gets the new full name. The answer is 404, with the table
     * unchanged, when the UPDATE changed no row: no row has the e-mail, or every
     * such row already holds that name.
     */
    method ChangeFullName(email: Option<string>, newName: Option<string>) returns (status: int)
      modifies this`table
      ensures !Present(email) || !Present(newName) ==>
        status == StatusBadRequest && table == old(table)
      ensures Present(email) && Present(newName) ==>
        && (status == StatusNotFound <==>
              forall i :: 0 <= i < |old(table)| && old(table)[i].email == email.value ==>
                old(table)[i].fullName == newName.value)
        && (status == StatusNotFound ==> table == old(table))
        && (status != StatusNotFound ==>
              status == StatusOk && table == UpdateWhereEmail(old(table), email.value, SetFullName(newName.value)))
      ensures Present(email) && Present(newName) ==>
        forall i :: 0 <= i < |table| && table[i].email == email.value ==> table[i].fullName == newName.value
      ensures UniqueUsernames(old(table)) ==> UniqueUsernames(table)
    {
      if !Present(email) || !Present(newName) {
        return StatusBadRequest;
      }
      var assignment := SetFullName(newName.value);
      if UniqueUsernames(table) {
        UpdatePreservesUnique(table, email.value, assignment);
      }
      UpdateIsIdentityIffNoChange(table, email.value, assignment);
      var rowcount := ChangedRows(table, email.value, assignment);
      table := UpdateWhereEmail(table, email.value, assignment);
      if rowcount == 0 {
        return StatusNotFound;
      }
      status := StatusOk;
    }
  }
}
