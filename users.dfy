/** The user repository (src/services/userDB.ts): one parameterised statement
    per call against the table users_and_admins, wrapped in a Status.

    Every call takes `dbFails`, which stands for the store raising an error
    (connectivity, constraint, syntax): the call then returns its failure
    envelope and the table is left as it was. The SELECT variants are
    functions of the table; the INSERT, UPDATE and DELETE variants are methods
    of UserTable. */
module Users {
  import opened DbStatus
  import opened Tables

  /** A row of users_and_admins, columns in the order the INSERT fills them. */
  datatype User = User(
    id: int,
    isAdmin: bool,
    fullName: string,
    email: string,
    hashedPassword: string,
    isActive: bool)

  /** The identity a route passes to deleteUser and upgradeUserToAdmin
      (src/classes/DBUser.ts). */
  datatype DbUser = DbUser(userId: int, fullName: string, isAdmin: bool, email: string, hashedPassword: string)

  /** The primary key. */
  function Id(u: User): int {
    u.id
  }

  predicate UniqueIds(table: seq<User>) {
    UniqueKeys(table, Id)
  }

  /** The failure message of most SELECT variants (a full stop after "wrong") ... */
  const FailedPeriod := "Something went wrong. We are working on it."
  /** ... and the one of createOne, findEmails and the writes (a comma). */
  const FailedComma := "Something went wrong, we are working on it"

  // ---------------------------------------------------------------------
  // WHERE clauses, one per statement

  function AllUsersWhere(): User -> bool {
    (u: User) => !u.isAdmin
  }

  function OneAdminWhere(id: int): User -> bool {
    (u: User) => u.id == id && u.isAdmin && u.isActive
  }

  function OneAdminAltWhere(fullName: string, email: string): User -> bool {
    (u: User) => (u.fullName == fullName || u.email == email) && u.isAdmin && u.isActive
  }

  function OneWhere(id: int): User -> bool {
    (u: User) => u.id == id && u.isActive
  }

  function OneAltWhere(fullName: string, email: string): User -> bool {
    (u: User) => !u.isAdmin && (u.fullName == fullName || u.email == email) && u.isActive
  }

  function EmailsWhere(email: string): User -> bool {
    (u: User) => u.email == email && u.isActive
  }

  function UpdateEmailWhere(id: int, oldEmail: string): User -> bool {
    (u: User) => u.id == id && u.email == oldEmail && u.isActive
  }

  function UpdatePasswordWhere(id: int): User -> bool {
    (u: User) => u.id == id && u.isActive
  }

  /** The statement at src/services/userDB.ts:223 names a column `user_id`;
      the table's key is `id` everywhere else (the INSERT, IUser, the other
      statements), so the model reads that condition as `id = ?`. */
  function DeleteUserWhere(who: DbUser): User -> bool {
    (u: User) => u.id == who.userId && !u.isAdmin && u.fullName == who.fullName && u.email == who.email && u.isActive
  }

  /** The WHERE clause the upgrade statement evidently means; note that it
      does not test `is_active`. */
  function UpgradeWhere(who: DbUser): User -> bool {
    (u: User) => u.id == who.userId && u.isAdmin == who.isAdmin && u.fullName == who.fullName && u.email == who.email
  }

  function DowngradeWhere(id: int, fullName: string, email: string): User -> bool {
    (u: User) => u.id == id && u.isAdmin && u.fullName == fullName && u.email == email
  }

  // ---------------------------------------------------------------------
  // SELECT variants

  /** findAllUsers. Its statement spells WHERE as `WHRE`, which MySQL reads
      as a table alias followed by a stray condition: a syntax error on every
      call, so the call always takes its failure path. */
  function FindAllUsers(table: seq<User>, dbFails: bool): (s: Status<User>)
    ensures s.IsFailure() && s.status == 1
    ensures s.message == FailedPeriod && s.rows == False
  {
    Status(1, FailedPeriod, False)
  }

  /** findAllUsers with the keyword spelt correctly: every non-admin row,
      active or not. */
  function FindAllUsersCorrected(table: seq<User>, dbFails: bool): (s: Status<User>)
    ensures dbFails ==> s == Status(1, FailedPeriod, False)
    ensures !dbFails ==> s.status == 0 && s.message == "Rows found." && s.rows.Selected?
    ensures !dbFails ==> forall u :: u in s.rows.records <==> u in table && !u.isAdmin
  {
    if dbFails then Status(1, FailedPeriod, False)
    else Status(0, "Rows found.", Selected(Filter(table, AllUsersWhere())))
  }

  /** The misspelt keyword loses every non-admin row the corrected statement
      would list. */
  lemma FindAllUsersLosesRows(table: seq<User>, u: User)
    requires u in table && !u.isAdmin
    ensures !FindAllUsers(table, false).Ok()
    ensures u in FindAllUsersCorrected(table, false).rows.records
  {
  }

  /** findOneAdmin: the active admin with that id. */
  function FindOneAdmin(table: seq<User>, id: int, dbFails: bool): (s: Status<User>)
    ensures dbFails ==> s == Status(1, FailedPeriod, False)
    ensures !dbFails ==> s.status == 0 && s.message == "Rows found." && s.rows.Selected?
    ensures !dbFails ==> forall u :: u in s.rows.records <==> u in table && u.id == id && u.isAdmin && u.isActive
  {
    if dbFails then Status(1, FailedPeriod, False)
    else Status(0, "Rows found.", Selected(Filter(table, OneAdminWhere(id))))
  }

  /** findOneAdminAlt: active admins whose name or whose email matches. */
  function FindOneAdminAlt(table: seq<User>, fullName: string, email: string, dbFails: bool): (s: Status<User>)
    ensures dbFails ==> s == Status(1, FailedPeriod, Null)
    ensures !dbFails ==> s.status == 0 && s.message == "Rows found." && s.rows.Selected?
    ensures !dbFails ==> forall u :: u in s.rows.records <==>
      u in table && (u.fullName == fullName || u.email == email) && u.isAdmin && u.isActive
  {
    if dbFails then Status(1, FailedPeriod, Null)
    else Status(0, "Rows found.", Selected(Filter(table, OneAdminAltWhere(fullName, email))))
  }

  /** findOne: the active row with that id, of either tier. The source takes
      the id as a string and lets the store convert it; the model takes the
      number. */
  function FindOne(table: seq<User>, id: int, dbFails: bool): (s: Status<User>)
    ensures dbFails ==> s == Status(1, FailedPeriod, Null)
    ensures !dbFails ==> s.status == 0 && s.message == "Rows found." && s.rows.Selected?
    ensures !dbFails ==> forall u :: u in s.rows.records <==> u in table && u.id == id && u.isActive
  {
    if dbFails then Status(1, FailedPeriod, Null)
    else Status(0, "Rows found.", Selected(Filter(table, OneWhere(id))))
  }

  /** findOneAlt: active non-admins whose name or whose email matches. Its
      success message is capitalised differently from the others. */
  function FindOneAlt(table: seq<User>, fullName: string, email: string, dbFails: bool): (s: Status<User>)
    ensures dbFails ==> s == Status(1, FailedPeriod, Null)
    ensures !dbFails ==> s.status == 0 && s.message == "Rows Found." && s.rows.Selected?
    ensures !dbFails ==> forall u :: u in s.rows.records <==>
      u in table && !u.isAdmin && (u.fullName == fullName || u.email == email) && u.isActive
  {
    if dbFails then Status(1, FailedPeriod, Null)
    else Status(0, "Rows Found.", Selected(Filter(table, OneAltWhere(fullName, email))))
  }

  /** findEmails: active rows of either tier holding that email. */
  function FindEmails(table: seq<User>, email: string, dbFails: bool): (s: Status<User>)
    ensures dbFails ==> s == Status(1, FailedComma, Null)
    ensures !dbFails ==> s.status == 0 && s.message == "User looked up" && s.rows.Selected?
    ensures !dbFails ==> forall u :: u in s.rows.records <==> u in table && u.email == email && u.isActive
  {
    if dbFails then Status(1, FailedComma, Null)
    else Status(0, "User looked up", Selected(Filter(table, EmailsWhere(email))))
  }

  /** A lookup by primary key returns at most one row, in both tiers. */
  lemma LookupByIdAtMostOne(table: seq<User>, id: int)
    requires UniqueIds(table)
    ensures |FindOne(table, id, false).rows.records| <= 1
    ensures |FindOneAdmin(table, id, false).rows.records| <= 1
  {
    AtMostOneWithKey(table, Id, id, OneWhere(id));
    AtMostOneWithKey(table, Id, id, OneAdminWhere(id));
  }

  /** findOne does not filter on the tier: it returns the active admin with
      that id too, which is why its caller re-checks `is_admin`. */
  lemma FindOneIncludesAdmins(table: seq<User>, id: int)
    ensures forall u :: u in FindOneAdmin(table, id, false).rows.records ==> u in FindOne(table, id, false).rows.records
    ensures forall u :: u in FindOne(table, id, false).rows.records && u.isAdmin ==> u in FindOneAdmin(table, id, false).rows.records
  {
  }

  /** The two name-or-email lookups never share a row: one sees only admins,
      the other only non-admins. */
  lemma AltLookupsDisjoint(table: seq<User>, fullName: string, email: string)
    ensures forall u :: u in FindOneAdminAlt(table, fullName, email, false).rows.records ==>
      u !in FindOneAlt(table, fullName, email, false).rows.records
  {
  }

  // ---------------------------------------------------------------------
  // The tables the writes leave behind

  /** The row createOne inserts: not an admin, active. */
  function Registered(id: int, fullName: string, email: string, hashedPassword: string): User {
    User(id, false, fullName, email, hashedPassword, true)
  }

  function SetEmail(newEmail: string): User -> User {
    (u: User) => u.(email := newEmail)
  }

  function SetPassword(newHashedPassword: string): User -> User {
    (u: User) => u.(hashedPassword := newHashedPassword)
  }

  function MakeAdmin(u: User): User {
    u.(isAdmin := true)
  }

  function MakeUser(u: User): User {
    u.(isAdmin := false)
  }

  /** updateEmail's UPDATE: only the email column changes, and only on the
      active row with that id whose email is still `oldEmail`. */
  function UpdateEmailRows(table: seq<User>, id: int, oldEmail: string, newEmail: string): (r: seq<User>)
    ensures |r| == |table|
    ensures forall i :: 0 <= i < |table| ==> r[i].(email := table[i].email) == table[i]
    ensures forall i :: 0 <= i < |table| ==>
      r[i].email == if table[i].id == id && table[i].email == oldEmail && table[i].isActive then newEmail else table[i].email
  {
    Update(table, UpdateEmailWhere(id, oldEmail), SetEmail(newEmail))
  }

  /** When no row matches the identity the caller thinks is current, the
      update touches nothing and reports zero affected rows. */
  lemma UpdateEmailStaleIsNoOp(table: seq<User>, id: int, oldEmail: string, newEmail: string)
    requires forall u :: u in table ==> !(u.id == id && u.email == oldEmail && u.isActive)
    ensures UpdateEmailRows(table, id, oldEmail, newEmail) == table
    ensures |Filter(table, UpdateEmailWhere(id, oldEmail))| == 0
  {
    NoMatchNoUpdate(table, UpdateEmailWhere(id, oldEmail), SetEmail(newEmail));
  }

  /** updatePassword's UPDATE: only the hash changes, on the active row with
      that id, admin or not. */
  function UpdatePasswordRows(table: seq<User>, id: int, newHashedPassword: string): (r: seq<User>)
    ensures |r| == |table|
    ensures forall i :: 0 <= i < |table| ==> r[i].(hashedPassword := table[i].hashedPassword) == table[i]
    ensures forall i :: 0 <= i < |table| ==>
      r[i].hashedPassword == if table[i].id == id && table[i].isActive then newHashedPassword else table[i].hashedPassword
  {
    Update(table, UpdatePasswordWhere(id), SetPassword(newHashedPassword))
  }

  /** With unique ids, a password update changes at most one row. */
  lemma UpdatePasswordOneRow(table: seq<User>, id: int, newHashedPassword: string)
    requires UniqueIds(table)
    ensures |Filter(table, UpdatePasswordWhere(id))| <= 1
    ensures forall i, j :: 0 <= i < j < |table| && UpdatePasswordRows(table, id, newHashedPassword)[i] != table[i] ==>
      UpdatePasswordRows(table, id, newHashedPassword)[j] == table[j]
  {
    AtMostOneWithKey(table, Id, id, UpdatePasswordWhere(id));
  }

  /** deleteUser's DELETE: removes exactly the active non-admin rows matching
      the whole identity, and keeps every other row in order. */
  function DeleteUserRows(table: seq<User>, who: DbUser): (r: seq<User>)
    ensures forall u :: u in r <==>
      (u in table && !(u.id == who.userId && !u.isAdmin && u.fullName == who.fullName && u.email == who.email && u.isActive))
    ensures |r| + |Filter(table, DeleteUserWhere(who))| == |table|
  {
    FilterComplement(table, DeleteUserWhere(who));
    Filter(table, Not(DeleteUserWhere(who)))
  }

  /** The delete goes through the table row by row: the rows it keeps from
      `a + b` are those it keeps from `a` followed by those it keeps from `b`. */
  lemma DeleteUserRowsAppend(a: seq<User>, b: seq<User>, who: DbUser)
    ensures DeleteUserRows(a + b, who) == DeleteUserRows(a, who) + DeleteUserRows(b, who)
  {
    FilterAppend(a, b, Not(DeleteUserWhere(who)));
  }

  /** Row by row: a row is dropped exactly when it is an active non-admin
      matching the whole identity, and a kept row stays behind the rows kept
      before it (no reordering, no duplication). */
  lemma DeleteUserRowsSnoc(a: seq<User>, x: User, who: DbUser)
    ensures DeleteUserRows(a + [x], who) == DeleteUserRows(a, who) +
      (if x.id == who.userId && !x.isAdmin && x.fullName == who.fullName && x.email == who.email && x.isActive then [] else [x])
  {
    DeleteUserRowsAppend(a, [x], who);
    assert [x][1..] == [];
  }

  /** The upgrade statement as evidently intended (LIMIT 1 included): only
      the tier flag changes, only on a row matching the identity, and on at
      most one row. */
  function UpgradeRows(table: seq<User>, who: DbUser): (r: seq<User>)
    ensures |r| == |table|
    ensures forall i :: 0 <= i < |table| ==> r[i].(isAdmin := table[i].isAdmin) == table[i]
    ensures forall i :: 0 <= i < |table| && r[i] != table[i] ==> UpgradeWhere(who)(table[i]) && r[i].isAdmin
    ensures forall i, j :: 0 <= i < j < |table| && r[i] != table[i] ==> r[j] == table[j]
    ensures forall i :: 0 <= i < |table| && UpgradeWhere(who)(table[i]) && (forall j :: 0 <= j < i ==> !UpgradeWhere(who)(table[j])) ==>
      r[i] == MakeAdmin(table[i])
  {
    UpdateFirst(table, UpgradeWhere(who), MakeAdmin)
  }

  /** The corrected upgrade promotes the first row matching the identity,
      which is exactly what the statement as written never does. */
  lemma UpgradePromotesFirstMatch(table: seq<User>, who: DbUser, i: int)
    requires 0 <= i < |table| && UpgradeWhere(who)(table[i]) && !who.isAdmin
    requires forall j :: 0 <= j < i ==> !UpgradeWhere(who)(table[j])
    ensures UpgradeRows(table, who)[i] == table[i].(isAdmin := true)
    ensures UpgradeRows(table, who) != table
  {
    assert UpgradeRows(table, who)[i] != table[i];
  }

  /** Ids are unique and the upgrade's WHERE clause fixes the id, so at most
      one row matches and `LIMIT 1` makes no difference: the corrected upgrade
      promotes every matching row. */
  lemma UpgradeRowsUnlimited(table: seq<User>, who: DbUser)
    requires UniqueIds(table)
    ensures UpgradeRows(table, who) == Update(table, UpgradeWhere(who), MakeAdmin)
  {
    AtMostOneWithKey(table, Id, who.userId, UpgradeWhere(who));
    UpdateFirstIsUpdate(table, UpgradeWhere(who), MakeAdmin);
  }

  /** downgradeAdminToUser's UPDATE: clears the tier flag on every admin row
      matching id, name and email, active or not; nothing else changes. */
  function DowngradeRows(table: seq<User>, id: int, fullName: string, email: string): (r: seq<User>)
    ensures |r| == |table|
    ensures forall i :: 0 <= i < |table| ==> r[i].(isAdmin := table[i].isAdmin) == table[i]
    ensures forall i :: 0 <= i < |table| ==>
      r[i].isAdmin == (table[i].isAdmin && !(table[i].id == id && table[i].fullName == fullName && table[i].email == email))
  {
    Update(table, DowngradeWhere(id, fullName, email), MakeUser)
  }

  /** A second identical downgrade changes nothing. */
  lemma DowngradeIdempotent(table: seq<User>, id: int, fullName: string, email: string)
    ensures DowngradeRows(DowngradeRows(table, id, fullName, email), id, fullName, email) == DowngradeRows(table, id, fullName, email)
  {
    UpdateIdempotent(table, DowngradeWhere(id, fullName, email), MakeUser);
  }

  /** Upgrading a non-admin and then downgrading the same identity restores
      the table, provided no row with that id is already an admin. */
  lemma UpgradeThenDowngradeRestores(table: seq<User>, who: DbUser)
    requires UniqueIds(table)
    requires !who.isAdmin
    requires forall u :: u in table && u.id == who.userId ==> !u.isAdmin
    ensures DowngradeRows(UpgradeRows(table, who), who.userId, who.fullName, who.email) == table
  {
    var up := UpgradeRows(table, who);
    var down := DowngradeRows(up, who.userId, who.fullName, who.email);
    forall i | 0 <= i < |table|
      ensures down[i] == table[i]
    {
      assert table[i] in table;
      if up[i] != table[i] {
        assert up[i] == table[i].(isAdmin := true);
      } else {
        assert !table[i].isAdmin || table[i].id != who.userId;
      }
    }
  }

  // ---------------------------------------------------------------------
  // The table as a mutable object

  /** users_and_admins together with its AUTO_INCREMENT counter. */
  class UserTable {
    var rows: seq<User>
    var nextId: int

    ghost predicate Valid()
      reads this
    {
      UniqueIds(rows) && forall u :: u in rows ==> u.id < nextId
    }

    constructor ()
      ensures Valid() && rows == [] && nextId == 1
    {
      rows := [];
      nextId := 1;
    }

    /** createOne: inserts one non-admin active row under a fresh id. */
    method CreateOne(fullName: string, email: string, hashedPassword: string, dbFails: bool) returns (s: Status<User>)
      requires Valid()
      modifies this
      ensures Valid()
      ensures dbFails ==> s == Status(1, FailedComma, Null) && rows == old(rows) && nextId == old(nextId)
      ensures !dbFails ==> s == Status(0, "User created", Written(1, old(nextId)))
      ensures !dbFails ==> rows == old(rows) + [Registered(old(nextId), fullName, email, hashedPassword)]
      ensures !dbFails ==> nextId > old(nextId) && forall u :: u in old(rows) ==> u.id != old(nextId)
    {
      if dbFails {
        return Status(1, FailedComma, Null);
      }
      var u := Registered(nextId, fullName, email, hashedPassword);
      rows := rows + [u];
      s := Status(0, "User created", Written(1, nextId));
      nextId := nextId + 1;
    }

    /** updateEmail: the optimistic email change. Zero matched rows is still
        a success. */
    method UpdateEmail(id: int, oldEmail: string, newEmail: string, dbFails: bool) returns (s: Status<User>)
      requires Valid()
      modifies this
      ensures Valid() && nextId == old(nextId)
      ensures dbFails ==> s == Status(1, FailedComma, Null) && rows == old(rows)
      ensures !dbFails ==> rows == UpdateEmailRows(old(rows), id, oldEmail, newEmail)
      ensures !dbFails ==> s == Status(0, "User email updated", Written(|Filter(old(rows), UpdateEmailWhere(id, oldEmail))|, 0))
    {
      if dbFails {
        return Status(1, FailedComma, Null);
      }
      var matched := |Filter(rows, UpdateEmailWhere(id, oldEmail))|;
      UpdateKeepsKeys(rows, UpdateEmailWhere(id, oldEmail), SetEmail(newEmail), Id);
      rows := UpdateEmailRows(rows, id, oldEmail, newEmail);
      s := Status(0, "User email updated", Written(matched, 0));
    }

    /** updatePassword. On failure the source leaves its connection open;
        connections are not modelled. */
    method UpdatePassword(id: int, newHashedPassword: string, dbFails: bool) returns (s: Status<User>)
      requires Valid()
      modifies this
      ensures Valid() && nextId == old(nextId)
      ensures dbFails ==> s == Status(1, FailedComma, Null) && rows == old(rows)
      ensures !dbFails ==> rows == UpdatePasswordRows(old(rows), id, newHashedPassword)
      ensures !dbFails ==> s == Status(0, "password updated.", Written(|Filter(old(rows), UpdatePasswordWhere(id))|, 0))
    {
      if dbFails {
        return Status(1, FailedComma, Null);
      }
      var matched := |Filter(rows, UpdatePasswordWhere(id))|;
      UpdateKeepsKeys(rows, UpdatePasswordWhere(id), SetPassword(newHashedPassword), Id);
      rows := UpdatePasswordRows(rows, id, newHashedPassword);
      s := Status(0, "password updated.", Written(matched, 0));
    }

    /** deleteUser: a hard delete matched on the whole identity. On failure
        the source leaves its connection open. */
    method DeleteUser(who: DbUser, dbFails: bool) returns (s: Status<User>)
      requires Valid()
      modifies this
      ensures Valid() && nextId == old(nextId)
      ensures dbFails ==> s == Status(1, FailedComma, Null) && rows == old(rows)
      ensures !dbFails ==> rows == DeleteUserRows(old(rows), who)
      ensures !dbFails ==> s == Status(0, "User " + who.fullName + " (" + who.email + ") deleted.",
                                       Written(|Filter(old(rows), DeleteUserWhere(who))|, 0))
    {
      if dbFails {
        return Status(1, FailedComma, Null);
      }
      var matched := |Filter(rows, DeleteUserWhere(who))|;
      FilterKeepsUniqueKeys(rows, Not(DeleteUserWhere(who)), Id);
      rows := DeleteUserRows(rows, who);
      s := Status(0, "User " + who.fullName + " (" + who.email + ") deleted.", Written(matched, 0));
    }

    /** upgradeUserToAdmin as written: `SET is_admin = TRUE AND WHERE ...` is
        a syntax error, so every call fails and the table is left alone (and,
        in the source, the connection is left open). */
    method UpgradeUserToAdmin(who: DbUser, dbFails: bool) returns (s: Status<User>)
      ensures s.IsFailure() && s == Status(1, FailedComma, Null)
    {
      s := Status(1, FailedComma, Null);
    }

    /** upgradeUserToAdmin with the stray `AND` removed. */
    method UpgradeUserToAdminCorrected(who: DbUser, dbFails: bool) returns (s: Status<User>)
      requires Valid()
      modifies this
      ensures Valid() && nextId == old(nextId)
      ensures dbFails ==> s == Status(1, FailedComma, Null) && rows == old(rows)
      ensures !dbFails ==> rows == UpgradeRows(old(rows), who) == Update(old(rows), UpgradeWhere(who), MakeAdmin)
      ensures !dbFails ==> s == Status(0, "User " + who.fullName + " (" + who.email + ") upgraded to admin.",
                                       Written(if Filter(old(rows), UpgradeWhere(who)) == [] then 0 else 1, 0))
    {
      if dbFails {
        return Status(1, FailedComma, Null);
      }
      var matched := if Filter(rows, UpgradeWhere(who)) == [] then 0 else 1;
      var r := UpgradeRows(rows, who);
      UpgradeRowsUnlimited(rows, who);
      assert forall i :: 0 <= i < |rows| ==> r[i].id == rows[i].id;
      assert forall u :: u in r ==> u.id < nextId by {
        forall u | u in r
          ensures u.id < nextId
        {
          var i :| 0 <= i < |r| && r[i] == u;
          assert rows[i] in rows;
        }
      }
      rows := r;
      s := Status(0, "User " + who.fullName + " (" + who.email + ") upgraded to admin.", Written(matched, 0));
    }

    /** downgradeAdminToUser. */
    method DowngradeAdminToUser(id: int, fullName: string, email: string, dbFails: bool) returns (s: Status<User>)
      requires Valid()
      modifies this
      ensures Valid() && nextId == old(nextId)
      ensures dbFails ==> s == Status(1, "Query run failed", Null) && rows == old(rows)
      ensures !dbFails ==> rows == DowngradeRows(old(rows), id, fullName, email)
      ensures !dbFails ==> s == Status(0, "Query run succeded", Written(|Filter(old(rows), DowngradeWhere(id, fullName, email))|, 0))
    {
      if dbFails {
        return Status(1, "Query run failed", Null);
      }
      var matched := |Filter(rows, DowngradeWhere(id, fullName, email))|;
      UpdateKeepsKeys(rows, DowngradeWhere(id, fullName, email), MakeUser, Id);
      rows := DowngradeRows(rows, id, fullName, email);
      s := Status(0, "Query run succeded", Written(matched, 0));
    }
  }

  /** Registration: when the pre-check lookup by name or email found no
      active non-admin, the same lookup after createOne returns exactly the
      new row. */
  lemma RegisterThenFind(table: seq<User>, id: int, fullName: string, email: string, hashedPassword: string)
    requires FindOneAlt(table, fullName, email, false).rows.records == []
    ensures FindOneAlt(table + [Registered(id, fullName, email, hashedPassword)], fullName, email, false).rows.records
         == [Registered(id, fullName, email, hashedPassword)]
  {
    var u := Registered(id, fullName, email, hashedPassword);
    FilterAppend(table, [u], OneAltWhere(fullName, email));
  }
}
