/**
 * Client runs of the handlers, proved from the handlers' contracts alone.
 */
module Scenarios {
  import opened Wrappers
  import opened Password
  import opened Files
  import opened Table
  import opened Api

  /**
   * Register `alice`, log in, register `alice` again, delete the account and log
   * in again: 200, 200, 400, 200, 401.
   */
  method RegisterLoginDelete(sha256: string -> seq<byte>, secureFilename: string -> string, random: seq<byte>)
    returns (registered: int, loggedIn: int, again: int, deleted: int, afterDelete: int)
    requires |random| == 16
    ensures registered == StatusOk && loggedIn == StatusOk && again == StatusBadRequest
    ensures deleted == StatusOk && afterDelete == StatusUnauthorized
  {
    var server := new Server(sha256, secureFilename, None, [], map[]);
    registered := server.Register("alice", "secret", "Alice Souza", "alice@example.com", random);
    var profile;
    loggedIn, profile := server.Login("alice", "secret");
    assert profile == Some(Profile("alice", "Alice Souza", "alice@example.com"));
    again := server.Register("alice", "other", "Someone Else", "else@example.com", random);
    deleted := server.DeleteAccount(Some("alice"));
    afterDelete, profile := server.Login("alice", "secret");
  }

  /**
   * With a sanitiser that keeps names as they are, uploading `report.pdf` for
   * `alice` stores `alice_report.pdf`, which alice's listing then contains.
   */
  method UploadThenList(sha256: string -> seq<byte>, content: Content)
    returns (status: int, stored: Option<string>, listed: set<string>)
    ensures status == StatusOk && stored == Some("alice_report.pdf")
    ensures "alice_report.pdf" in listed
  {
    var server := new Server(sha256, s => s, None, [], map[]);
    status, stored := server.Upload(Some(UploadedFile("report.pdf", content)), Some("alice"));
    assert "alice" + "_" + "report.pdf" == "alice_report.pdf";
    var f := "alice_report.pdf";
    assert StartsWith(f, OwnerPrefix("alice")) by {
      assert f[..|OwnerPrefix("alice")|] == OwnerPrefix("alice");
    }
    listed := server.ListFiles("alice");
  }

  /**
   * Deleting an account without a username: with an empty upload folder the
   * answer is 200, and once the folder holds a file it is 500; neither run
   * changes the table or the folder.
   */
  method DeleteWithoutUsername(sha256: string -> seq<byte>, secureFilename: string -> string, content: Content)
    returns (emptyFolder: int, withFile: int)
    ensures emptyFolder == StatusOk && withFile == StatusServerError
  {
    var row := Row("alice", "", "Alice Souza", "alice@example.com");
    var server := new Server(sha256, secureFilename, None, [row], map[]);
    emptyFolder := server.DeleteAccount(None);
    server := new Server(sha256, secureFilename, None, [row], map["alice_report.pdf" := content]);
    assert "alice_report.pdf" in server.uploads;
    withFile := server.DeleteAccount(None);
  }

  /**
   * Renaming to the full name already stored changes no row, so the answer is
   * 404 although the e-mail is in the table; a different name then gives 200.
   */
  method RenameToStoredName(sha256: string -> seq<byte>, secureFilename: string -> string)
    returns (same: int, renamed: int)
    ensures same == StatusNotFound && renamed == StatusOk
  {
    var row := Row("alice", "", "Alice Souza", "alice@example.com");
    var server := new Server(sha256, secureFilename, None, [row], map[]);
    same := server.ChangeFullName(Some("alice@example.com"), Some("Alice Souza"));
    assert server.table[0].email == "alice@example.com" && server.table[0].fullName != "Alice Lima";
    renamed := server.ChangeFullName(Some("alice@example.com"), Some("Alice Lima"));
  }
}
