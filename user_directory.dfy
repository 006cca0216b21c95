/** The in-memory user directory of the authentication example: a module-level array
    of user records, seeded with two users, searched by credentials or by e-mail and
    grown by `push`. The directory is the `records` field of one `Directory` object. */
module UserDirectory {
  import opened Wrappers

  /** A stored user, with its password. */
  datatype UserRecord = UserRecord(id: string, name: string, password: string, email: string, role: string)

  /** The user object the directory hands out; it has no password field. */
  datatype User = User(id: string, name: string, email: string, role: string)

  /** The fields of a record that the directory hands out. */
  function Public(r: UserRecord): User {
    User(r.id, r.name, r.email, r.role)
  }

  /** The two users every process starts with. */
  function Seed(): seq<UserRecord> {
    [ UserRecord("1", "Usuário Admin", "123456", "admin@email.com", "admin"),
      UserRecord("2", "Usuário Teste", "123456", "teste@email.com", "user") ]
  }

  /** The two conditions the directory searches by. */
  datatype Query = ByCredentials(email: string, password: string) | ByEmail(email: string)

  predicate Matches(q: Query, r: UserRecord) {
    match q
    case ByCredentials(e, p) => e == r.email && p == r.password
    case ByEmail(e) => e == r.email
  }

  /** `records.find(...)`, as an index: the first record that matches. */
  function FirstMatch(rs: seq<UserRecord>, q: Query): (r: Option<nat>)
    ensures r.Some? ==> r.value < |rs| && Matches(q, rs[r.value])
                        && forall j :: 0 <= j < r.value ==> !Matches(q, rs[j])
    ensures r.None? ==> forall j :: 0 <= j < |rs| ==> !Matches(q, rs[j])
  {
    if rs == [] then None
    else if Matches(q, rs[0]) then Some(0)
    else match FirstMatch(rs[1..], q)
      case Some(i) => Some(i + 1)
      case None => None
  }

  function Found(rs: seq<UserRecord>, i: Option<nat>): Option<User>
    requires i.Some? ==> i.value < |rs|
  {
    match i
    case Some(k) => Some(Public(rs[k]))
    case None => None
  }

  /** What `userLogin(email, password)` returns for the records `rs`. */
  function LoginResult(rs: seq<UserRecord>, email: string, password: string): (u: Option<User>)
    ensures email == "" || password == "" ==> u == None
    ensures u.Some? <==> email != "" && password != ""
                         && exists i :: 0 <= i < |rs| && rs[i].email == email && rs[i].password == password
    ensures u.Some? ==> exists i :: 0 <= i < |rs| && rs[i].email == email && rs[i].password == password
                                    && u.value == Public(rs[i])
                                    && forall j :: 0 <= j < i ==> !(rs[j].email == email && rs[j].password == password)
  {
    if email == "" || password == "" then None
    else Found(rs, FirstMatch(rs, ByCredentials(email, password)))
  }

  /** What `getUser(email)` returns for the records `rs`. */
  function UserByEmail(rs: seq<UserRecord>, email: string): (u: Option<User>)
    ensures email == "" ==> u == None
    ensures u.Some? <==> email != "" && exists i :: 0 <= i < |rs| && rs[i].email == email
    ensures u.Some? ==> exists i :: 0 <= i < |rs| && rs[i].email == email && u.value == Public(rs[i])
                                    && forall j :: 0 <= j < i ==> rs[j].email != email
  {
    if email == "" then None
    else Found(rs, FirstMatch(rs, ByEmail(email)))
  }

  /** The records a directory can hold: the seed, then records added by `userAdd`,
      all of which have the empty password. */
  ghost predicate Reachable(rs: seq<UserRecord>) {
    && 2 <= |rs|
    && rs[..2] == Seed()
    && forall i :: 2 <= i < |rs| ==> rs[i].password == ""
  }

  class Directory {
    var records: seq<UserRecord>

    ghost predicate Valid()
      reads this
    {
      Reachable(records)
    }

    /** The directory as a process starts with it. */
    constructor ()
      ensures Valid() && records == Seed()
    {
      records := Seed();
    }

    /** `userLogin`: the first record whose e-mail and password both equal the given
        ones, without its password; none when either is empty. */
    method Login(email: string, password: string) returns (u: Option<User>)
      ensures u == LoginResult(records, email, password)
    {
      if email == "" || password == "" {
        return None;
      }
      var i := 0;
      while i < |records| && !(email == records[i].email && password == records[i].password)
        invariant 0 <= i <= |records|
        invariant forall j :: 0 <= j < i ==> !Matches(ByCredentials(email, password), records[j])
      {
        i := i + 1;
      }
      if i < |records| {
        u := Some(Public(records[i]));
      } else {
        u := None;
      }
    }

    /** `getUser`: the first record with the given e-mail, without its password; none
        when the e-mail is empty. */
    method GetUser(email: string) returns (u: Option<User>)
      ensures u == UserByEmail(records, email)
    {
      if email == "" {
        return None;
      }
      var i := 0;
      while i < |records| && email != records[i].email
        invariant 0 <= i <= |records|
        invariant forall j :: 0 <= j < i ==> !Matches(ByEmail(email), records[j])
      {
        i := i + 1;
      }
      if i < |records| {
        u := Some(Public(records[i]));
      } else {
        u := None;
      }
    }

    /** `userAdd`: appends a record with the empty password. The identifier, which the
        source takes from the clock, is a parameter. */
    method Add(id: string, name: string, email: string, role: string) returns (u: User)
      requires Valid()
      modifies this
      ensures Valid()
      ensures records == old(records) + [UserRecord(id, name, "", email, role)]
      ensures u == User(id, name, email, role)
    {
      var r := UserRecord(id, name, "", email, role);
      records := records + [r];
      u := Public(r);
    }
  }

  // ---------------------------------------------------------------------------
  // Properties

  /** Searching after an append finds the earlier match if there is one, else the
      appended record if it matches. */
  lemma {:induction false} FirstMatchAppend(rs: seq<UserRecord>, x: UserRecord, q: Query)
    ensures FirstMatch(rs + [x], q) ==
              if FirstMatch(rs, q).Some? then FirstMatch(rs, q)
              else if Matches(q, x) then Some(|rs|)
              else None
  {
    if rs != [] {
      assert (rs + [x])[1..] == rs[1..] + [x];
      FirstMatchAppend(rs[1..], x, q);
    }
  }

  /** After `userAdd(name, email, role)`, `getUser(email)` finds a user: an earlier one
      with that e-mail if there is one, otherwise the one just added. */
  lemma AddThenGetUser(rs: seq<UserRecord>, id: string, name: string, email: string, role: string)
    requires email != ""
    ensures UserByEmail(rs + [UserRecord(id, name, "", email, role)], email) ==
              if UserByEmail(rs, email).Some? then UserByEmail(rs, email) else Some(User(id, name, email, role))
  {
    var x := UserRecord(id, name, "", email, role);
    FirstMatchAppend(rs, x, ByEmail(email));
    assert (rs + [x])[|rs|] == x;
    if FirstMatch(rs, ByEmail(email)).Some? {
      var k := FirstMatch(rs, ByEmail(email)).value;
      assert (rs + [x])[k] == rs[k];
    }
  }

  /** A record added by `userAdd` never changes what `userLogin` returns: its password
      is empty, and an empty password is refused before the search. */
  lemma AddLeavesLogin(rs: seq<UserRecord>, x: UserRecord, email: string, password: string)
    requires x.password == ""
    ensures LoginResult(rs + [x], email, password) == LoginResult(rs, email, password)
  {
    if email != "" && password != "" {
      FirstMatchAppend(rs, x, ByCredentials(email, password));
      if FirstMatch(rs, ByCredentials(email, password)).Some? {
        var k := FirstMatch(rs, ByCredentials(email, password)).value;
        assert (rs + [x])[k] == rs[k];
      }
    }
  }

  /** In any directory the program can reach, `userLogin` answers exactly as it does for
      the two seeded users: only they can log in with a password. */
  lemma {:induction false} LoginOnlySeeded(rs: seq<UserRecord>, email: string, password: string)
    requires Reachable(rs)
    ensures LoginResult(rs, email, password) == LoginResult(Seed(), email, password)
    decreases |rs|
  {
    if |rs| > 2 {
      var init := rs[..|rs| - 1];
      assert init[..2] == rs[..2];
      assert Reachable(init);
      LoginOnlySeeded(init, email, password);
      assert rs == init + [rs[|rs| - 1]];
      AddLeavesLogin(init, rs[|rs| - 1], email, password);
    } else {
      assert rs == rs[..2];
    }
  }

  /** The seeded credentials log in as the seeded users. */
  lemma SeedLogins()
    ensures LoginResult(Seed(), "admin@email.com", "123456") == Some(User("1", "Usuário Admin", "admin@email.com", "admin"))
    ensures LoginResult(Seed(), "teste@email.com", "123456") == Some(User("2", "Usuário Teste", "teste@email.com", "user"))
    ensures LoginResult(Seed(), "admin@email.com", "") == None
  {
  }
}
