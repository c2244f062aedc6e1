/**
 * The `informacoes` table of ACC/api.py as a sequence of rows, with the meaning
 * of the SQL statements the handlers run on it. Column comparison is exact
 * string equality.
 */
module Table {
  import opened Wrappers

  /** A row: NomeUsuario, SenhaUsuario, NomeCompleto, Email. */
  datatype Row = Row(username: string, password: string, fullName: string, email: string)

  /** A row with its password column removed, as login returns it. */
  datatype Profile = Profile(username: string, fullName: string, email: string)

  function WithoutPassword(row: Row): Profile {
    Profile(row.username, row.fullName, row.email)
  }

  predicate HasUser(t: seq<Row>, username: string) {
    exists i :: 0 <= i < |t| && t[i].username == username
  }

  /** The uniqueness of usernames that registration's existence check maintains. */
  predicate UniqueUsernames(t: seq<Row>) {
    forall i, j :: 0 <= i < j < |t| ==> t[i].username != t[j].username
  }

  /** The first row of `SELECT * FROM informacoes WHERE NomeUsuario = username`. */
  function Lookup(t: seq<Row>, username: string): (r: Option<Row>)
    ensures r.None? <==> !HasUser(t, username)
    ensures r.Some? ==> r.value in t && r.value.username == username
  {
    if t == [] then None
    else if t[0].username == username then Some(t[0])
    else
      var r := Lookup(t[1..], username);
      assert HasUser(t[1..], username) ==> HasUser(t, username) by {
        if HasUser(t[1..], username) {
          var i :| 0 <= i < |t[1..]| && t[1..][i].username == username;
          assert t[i + 1].username == username;
        }
      }
      r
  }

  /** With unique usernames the row found is the one row holding that username. */
  lemma {:induction false} LookupFindsTheRow(t: seq<Row>, i: int)
    requires UniqueUsernames(t)
    requires 0 <= i < |t|
    ensures Lookup(t, t[i].username) == Some(t[i])
  {
    if i > 0 {
      assert t[0].username != t[i].username;
      assert UniqueUsernames(t[1..]) by {
        forall a, b | 0 <= a < b < |t[1..]| ensures t[1..][a].username != t[1..][b].username {
          assert t[1..][a] == t[a + 1] && t[1..][b] == t[b + 1];
        }
      }
      LookupFindsTheRow(t[1..], i - 1);
    }
  }

  /** `DELETE FROM informacoes WHERE NomeUsuario = username`. */
  function DeleteWhereUsername(t: seq<Row>, username: string): (r: seq<Row>)
    ensures forall row :: row in r <==> row in t && row.username != username
    ensures |r| <= |t|
  {
    if t == [] then []
    else if t[0].username == username then DeleteWhereUsername(t[1..], username)
    else [t[0]] + DeleteWhereUsername(t[1..], username)
  }

  /** Deleting is idempotent: with no row for `username` the table is unchanged. */
  lemma {:induction false} DeleteWithoutMatchIsIdentity(t: seq<Row>, username: string)
    requires !HasUser(t, username)
    ensures DeleteWhereUsername(t, username) == t
  {
    if t != [] {
      assert t[0].username != username;
      DeleteWithoutMatchIsIdentity(t[1..], username);
      assert t == [t[0]] + t[1..];
    }
  }

  /** Deleting rows keeps usernames unique. */
  lemma {:induction false} DeletePreservesUnique(t: seq<Row>, username: string)
    requires UniqueUsernames(t)
    ensures UniqueUsernames(DeleteWhereUsername(t, username))
  {
    if t != [] {
      assert UniqueUsernames(t[1..]) by {
        forall a, b | 0 <= a < b < |t[1..]| ensures t[1..][a].username != t[1..][b].username {
          assert t[1..][a] == t[a + 1] && t[1..][b] == t[b + 1];
        }
      }
      DeletePreservesUnique(t[1..], username);
      var rest := DeleteWhereUsername(t[1..], username);
      if t[0].username != username {
        var r := [t[0]] + rest;
        forall a, b | 0 <= a < b < |r| ensures r[a].username != r[b].username {
          if a == 0 {
            assert r[b] == rest[b - 1] && rest[b - 1] in t[1..];
            var k :| 0 <= k < |t[1..]| && t[1..][k] == rest[b - 1];
            assert t[k + 1] == rest[b - 1];
          } else {
            assert r[a] == rest[a - 1] && r[b] == rest[b - 1];
          }
        }
      }
    }
  }

  /** The column a handler's UPDATE statement sets. */
  datatype Assignment = SetPassword(hash: string) | SetFullName(name: string)

  function Assign(row: Row, a: Assignment): Row {
    match a
    case SetPassword(h) => row.(password := h)
    case SetFullName(n) => row.(fullName := n)
  }

  /** `UPDATE informacoes SET <column> = <value> WHERE Email = email`. */
  function UpdateWhereEmail(t: seq<Row>, email: string, a: Assignment): (r: seq<Row>)
    ensures |r| == |t|
    ensures forall i :: 0 <= i < |t| ==>
      r[i].username == t[i].username && r[i].email == t[i].email &&
      (t[i].email != email ==> r[i] == t[i])
    ensures forall i :: 0 <= i < |t| && t[i].email == email ==>
      match a
      case SetPassword(h) => r[i].password == h && r[i].fullName == t[i].fullName
      case SetFullName(n) => r[i].fullName == n && r[i].password == t[i].password
  {
    seq(|t|, i requires 0 <= i < |t| => if t[i].email == email then Assign(t[i], a) else t[i])
  }

  /** The number of rows `WHERE Email = email` matches. */
  function MatchedRows(t: seq<Row>, email: string): (n: nat)
    ensures n <= |t|
    ensures n == 0 <==> forall i :: 0 <= i < |t| ==> t[i].email != email
  {
    if t == [] then 0
    else
      var n := MatchedRows(t[1..], email);
      assert forall i :: 1 <= i < |t| ==> t[i] == t[1..][i - 1];
      (if t[0].email == email then 1 else 0) + n
  }

  /**
   * The cursor's `rowcount` after the UPDATE: the matched rows whose column the
   * assignment actually changes. A row already holding the new value is matched
   * but not counted.
   */
  function ChangedRows(t: seq<Row>, email: string, a: Assignment): (n: nat)
    ensures n <= MatchedRows(t, email)
    ensures n == 0 <==> forall i :: 0 <= i < |t| && t[i].email == email ==> Assign(t[i], a) == t[i]
  {
    if t == [] then 0
    else
      var n := ChangedRows(t[1..], email, a);
      assert forall i :: 1 <= i < |t| ==> t[i] == t[1..][i - 1];
      (if t[0].email == email && Assign(t[0], a) != t[0] then 1 else 0) + n
  }

  /** The UPDATE leaves the table as it was exactly when it changes no row. */
  lemma UpdateIsIdentityIffNoChange(t: seq<Row>, email: string, a: Assignment)
    ensures UpdateWhereEmail(t, email, a) == t <==> ChangedRows(t, email, a) == 0
  {
    var r := UpdateWhereEmail(t, email, a);
    if r == t {
      forall i | 0 <= i < |t| && t[i].email == email ensures Assign(t[i], a) == t[i] {
        assert r[i] == Assign(t[i], a);
      }
    }
  }

  /** UPDATE never touches the username column, so uniqueness is kept. */
  lemma UpdatePreservesUnique(t: seq<Row>, email: string, a: Assignment)
    requires UniqueUsernames(t)
    ensures UniqueUsernames(UpdateWhereEmail(t, email, a))
  {
  }

  /** Inserting a row for a username not yet present keeps usernames unique. */
  lemma InsertPreservesUnique(t: seq<Row>, row: Row)
    requires UniqueUsernames(t) && !HasUser(t, row.username)
    ensures UniqueUsernames(t + [row])
  {
    var r := t + [row];
    forall i, j | 0 <= i < j < |r| ensures r[i].username != r[j].username {
      if j == |t| {
        assert r[i] == t[i];
      } else {
        assert r[i] == t[i] && r[j] == t[j];
      }
    }
  }

  /** After inserting a row for a new username, looking the username up finds that row. */
  lemma {:induction false} LookupAfterInsert(t: seq<Row>, row: Row)
    requires !HasUser(t, row.username)
    ensures Lookup(t + [row], row.username) == Some(row)
  {
    if t == [] {
    } else {
      assert t[0].username != row.username;
      assert (t + [row])[1..] == t[1..] + [row];
      LookupAfterInsert(t[1..], row);
    }
  }

  /** After deleting a username, looking it up finds nothing. */
  lemma LookupAfterDelete(t: seq<Row>, username: string)
    ensures Lookup(DeleteWhereUsername(t, username), username) == None
  {
  }
}
