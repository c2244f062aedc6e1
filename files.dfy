/**
 * The upload folder of ACC/api.py as a map from flat file name to content, and
 * the ownership convention on it: a file belongs to user `u` when its name starts
 * with `u + "_"`. The read-only defaults folder is an optional map (absent when
 * the folder does not exist) whose entries are regular files or something else.
 */
module Files {
  import opened Wrappers

  type Content = seq<byte>

  /** An entry of the defaults folder; only regular files are copied. */
  datatype Entry = RegularFile(content: Content) | NotAFile

  predicate StartsWith(s: string, prefix: string) {
    |prefix| <= |s| && s[..|prefix|] == prefix
  }

  /** The prefix that marks a file as belonging to `username`. */
  function OwnerPrefix(username: string): string {
    username + "_"
  }

  /** `[f for f in os.listdir(folder) if f.startswith(username + "_")]`, as a set. */
  function OwnedBy(files: map<string, Content>, username: string): set<string> {
    set f | f in files && StartsWith(f, OwnerPrefix(username))
  }

  /**
   * The same listing for a username that may be missing. The prefix
   * `username + "_"` is built inside the filter, once per listed file, so a
   * missing username raises TypeError only when the folder holds a file.
   */
  function OwnedListing(files: map<string, Content>, username: Option<string>): (r: Result<set<string>>)
    ensures username.Some? ==> r == Ok(OwnedBy(files, username.value))
    ensures username.None? ==> (r.Raised? <==> files != map[])
    ensures username.None? && r.Ok? ==> r.value == {}
    ensures r.Raised? ==> r.error == TypeError
  {
    if username.Some? then Ok(OwnedBy(files, username.value))
    else if files == map[] then Ok({})
    else Raised(TypeError)
  }

  /** The names among `names` that are regular files of `dir`. */
  function RegularNames(dir: map<string, Entry>, names: set<string>): set<string> {
    set n | n in names && n in dir && dir[n].RegularFile?
  }

  lemma PrefixCancel(prefix: string, a: string, b: string)
    requires prefix + a == prefix + b
    ensures a == b
  {
    assert (prefix + a)[|prefix|..] == a;
    assert (prefix + b)[|prefix|..] == b;
  }

  /** The files copying the regular files among `names` of `dir` for `username` writes. */
  function Copies(dir: map<string, Entry>, names: set<string>, username: string): map<string, Content> {
    var prefix := OwnerPrefix(username);
    assert forall a, b :: prefix + a == prefix + b ==> a == b by {
      forall a, b | prefix + a == prefix + b ensures a == b { PrefixCancel(prefix, a, b); }
    }
    map n | n in RegularNames(dir, names) :: prefix + n := dir[n].content
  }

  /** What `copiar_arquivos_padrao(username)` writes into the upload folder. */
  function DefaultCopies(defaults: Option<map<string, Entry>>, username: string): map<string, Content> {
    if defaults.None? then map[] else Copies(defaults.value, defaults.value.Keys, username)
  }

  /** The number of regular files in the defaults folder (none when it is absent). */
  function DefaultCount(defaults: Option<map<string, Entry>>): nat {
    if defaults.None? then 0 else |RegularNames(defaults.value, defaults.value.Keys)|
  }

  /** The upload folder after `resetar_arquivos(username)`. */
  function AfterReset(files: map<string, Content>, defaults: Option<map<string, Entry>>, username: string): map<string, Content> {
    (files - OwnedBy(files, username)) + DefaultCopies(defaults, username)
  }

  // ---------------------------------------------------------------------------
  // Lemmas
  // ---------------------------------------------------------------------------

  /** Adding one more default name adds at most the one prefixed copy of it. */
  lemma CopiesInsert(dir: map<string, Entry>, names: set<string>, n: string, username: string)
    ensures Copies(dir, names + {n}, username)
         == if n in dir && dir[n].RegularFile?
            then Copies(dir, names, username)[OwnerPrefix(username) + n := dir[n].content]
            else Copies(dir, names, username)
  {
    var prefix := OwnerPrefix(username);
    forall a, b | prefix + a == prefix + b ensures a == b { PrefixCancel(prefix, a, b); }
  }

  /** Writing one more file after a batch of writes is the same as including it in the batch. */
  lemma UnionUpdate(files: map<string, Content>, written: map<string, Content>, f: string, c: Content)
    ensures files + written[f := c] == (files + written)[f := c]
  {
  }

  /**
   * Each default copy is `username_d` for a regular default file `d`, and each
   * regular default file `d` has the copy `username_d` holding its content.
   */
  lemma {:induction false} DefaultCopiesAreOwned(defaults: Option<map<string, Entry>>, username: string)
    ensures forall f :: f in DefaultCopies(defaults, username) ==>
      && StartsWith(f, OwnerPrefix(username))
      && defaults.Some?
      && exists n :: n in defaults.value && defaults.value[n].RegularFile? && f == OwnerPrefix(username) + n
    ensures defaults.Some? ==> forall n :: n in defaults.value && defaults.value[n].RegularFile? ==>
      var f := OwnerPrefix(username) + n;
      f in DefaultCopies(defaults, username) && DefaultCopies(defaults, username)[f] == defaults.value[n].content
  {
    var prefix := OwnerPrefix(username);
    forall f | f in DefaultCopies(defaults, username)
      ensures StartsWith(f, prefix)
      ensures defaults.Some? && exists n :: n in defaults.value && defaults.value[n].RegularFile? && f == prefix + n
    {
      var n :| n in RegularNames(defaults.value, defaults.value.Keys) && f == prefix + n;
      assert f[..|prefix|] == prefix;
    }
  }

  /** A prefixed name is among the copies exactly when the unprefixed name is a regular file among those copied. */
  lemma CopiesHasName(dir: map<string, Entry>, names: set<string>, n: string, username: string)
    ensures OwnerPrefix(username) + n in Copies(dir, names, username) <==> n in RegularNames(dir, names)
  {
    var prefix := OwnerPrefix(username);
    if prefix + n in Copies(dir, names, username) {
      var m :| m in RegularNames(dir, names) && prefix + n == prefix + m;
      PrefixCancel(prefix, n, m);
    }
  }

  /** One more default name adds one copy exactly when it adds one regular file. */
  lemma CopiesSizeStep(dir: map<string, Entry>, rest: set<string>, n: string, username: string)
    requires n !in rest
    ensures |Copies(dir, rest + {n}, username)| - |Copies(dir, rest, username)|
         == |RegularNames(dir, rest + {n})| - |RegularNames(dir, rest)|
  {
    CopiesInsert(dir, rest, n, username);
    if n in dir && dir[n].RegularFile? {
      CopiesHasName(dir, rest, n, username);
      assert RegularNames(dir, rest + {n}) == RegularNames(dir, rest) + {n};
    } else {
      assert RegularNames(dir, rest + {n}) == RegularNames(dir, rest);
    }
  }

  /** Copying n regular files writes n distinct names. */
  lemma {:induction false} CopiesSize(dir: map<string, Entry>, names: set<string>, username: string)
    ensures |Copies(dir, names, username)| == |RegularNames(dir, names)|
    decreases names
  {
    if names == {} {
      assert RegularNames(dir, names) == {};
      assert Copies(dir, names, username) == map[];
    } else {
      var n :| n in names;
      var rest := names - {n};
      assert names == rest + {n};
      CopiesSize(dir, rest, username);
      CopiesSizeStep(dir, rest, n, username);
    }
  }

  /** Removing a user's files leaves exactly the files without that user's prefix, unchanged. */
  lemma RemoveOwnedLeavesOthers(files: map<string, Content>, username: string)
    ensures OwnedBy(files - OwnedBy(files, username), username) == {}
    ensures forall f :: f in files - OwnedBy(files, username) <==>
      f in files && !StartsWith(f, OwnerPrefix(username))
  {
  }

  /**
   * After a reset the user owns exactly the prefixed default names (none when the
   * defaults folder is absent), as many as there are regular default files, and
   * every file without the user's prefix is as it was.
   */
  lemma {:induction false} ResetOwnsExactlyDefaults(files: map<string, Content>, defaults: Option<map<string, Entry>>, username: string)
    ensures OwnedBy(AfterReset(files, defaults, username), username) == DefaultCopies(defaults, username).Keys
    ensures |OwnedBy(AfterReset(files, defaults, username), username)| == DefaultCount(defaults)
    ensures defaults.None? ==> OwnedBy(AfterReset(files, defaults, username), username) == {}
    ensures forall f :: !StartsWith(f, OwnerPrefix(username)) ==>
      (f in AfterReset(files, defaults, username) <==> f in files) &&
      (f in files ==> AfterReset(files, defaults, username)[f] == files[f])
  {
    DefaultCopiesAreOwned(defaults, username);
    var after := AfterReset(files, defaults, username);
    assert OwnedBy(after, username) == DefaultCopies(defaults, username).Keys;
    if defaults.Some? {
      CopiesSize(defaults.value, defaults.value.Keys, username);
    }
  }

  /** A prefix of a prefix is a prefix. */
  lemma StartsWithTransitive(s: string, p: string, q: string)
    requires StartsWith(s, p) && StartsWith(p, q)
    ensures StartsWith(s, q)
  {
    assert s[..|q|] == s[..|p|][..|q|];
  }

  /**
   * Ownership by prefix is not exclusive: every file of a user whose name starts
   * with `username_` (such as `alice_x` for `alice`) also counts as a file of `username`.
   */
  lemma {:induction false} OwnershipOverlaps(files: map<string, Content>, username: string, other: string)
    requires StartsWith(other, OwnerPrefix(username))
    ensures OwnedBy(files, other) <= OwnedBy(files, username)
  {
    forall f | f in OwnedBy(files, other) ensures f in OwnedBy(files, username) {
      StartsWithTransitive(OwnerPrefix(other), other, OwnerPrefix(username));
      StartsWithTransitive(f, OwnerPrefix(other), OwnerPrefix(username));
    }
  }

  /** The concrete instance: `alice_x_notes.txt` is listed for both `alice_x` and `alice`. */
  lemma OverlapExample(content: Content)
    ensures "alice_x_notes.txt" in OwnedBy(map["alice_x_notes.txt" := content], "alice_x")
    ensures "alice_x_notes.txt" in OwnedBy(map["alice_x_notes.txt" := content], "alice")
  {
    var f := "alice_x_notes.txt";
    assert f[..|OwnerPrefix("alice_x")|] == OwnerPrefix("alice_x");
    assert f[..|OwnerPrefix("alice")|] == OwnerPrefix("alice");
  }
}
