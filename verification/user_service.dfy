/** Role ("access") administration: creating a role with its per-menu flags and
    updating a role while replacing its whole flag set. Names are unique up to
    case, name and description are word-capitalised when written, and the
    writes of one call form a single transaction that either commits or leaves
    the role and detail tables as they were. */
module UserService {
  import opened Results
  import opened Text
  import Utils
  import UserPipe
  import Json
  import Transform

  const NameTaken := "Name already exists"
  const CreatedMessage := "Successfully created"
  const UpdatedMessage := "Successfully updated"
  const LandingPath := "/dashboard"

  /** Column defaults that apply because the request schema strips `permission` and `m_view`. */
  const DefaultPermission := 0
  const DefaultStatus := 1
  const DefaultView := 1

  datatype Role = Role(
    id: nat,
    name: string,
    description: string,
    path: string,
    permission: int,
    status: int,
    createdBy: Option<int>,
    updatedBy: Option<int>)

  /** One capability row: a role's flags for one menu. */
  datatype DetailRow = DetailRow(accessId: nat, menuId: int, mCreated: int, mView: int, mUpdated: int, mDeleted: int)

  /** The role table, the detail table, the ids of the menu table (the detail rows'
      foreign key) and the role table's next auto-increment id. */
  datatype AccessDb = AccessDb(roles: seq<Role>, details: seq<DetailRow>, menus: set<int>, nextId: nat)

  datatype Fault = BadRequest(message: string) | NotFound | TransactionFailed

  /** The `{message}` body both operations return. */
  datatype Ack = Ack(message: string)

  datatype Outcome = Outcome(reply: Result<Ack, Fault>, db: AccessDb)

  // ---------------------------------------------------------------------------
  // Lookups.

  /** The position of the first role whose lower-cased name equals the lower-cased `name`. */
  function FindByNameCI(roles: seq<Role>, name: string): (r: Option<nat>)
    ensures r.Some? ==> r.value < |roles| && LowerAll(roles[r.value].name) == LowerAll(name)
    ensures r.Some? ==> forall k :: 0 <= k < r.value ==> LowerAll(roles[k].name) != LowerAll(name)
    ensures r.None? ==> forall k :: 0 <= k < |roles| ==> LowerAll(roles[k].name) != LowerAll(name)
  {
    if roles == [] then None
    else if LowerAll(roles[0].name) == LowerAll(name) then Some(0)
    else match FindByNameCI(roles[1..], name)
      case None => None
      case Some(k) => Some(k + 1)
  }

  /** The position of the first role with the given id. */
  function FindById(roles: seq<Role>, id: int): (r: Option<nat>)
    ensures r.Some? ==> r.value < |roles| && roles[r.value].id == id
    ensures r.None? ==> forall k :: 0 <= k < |roles| ==> roles[k].id != id
  {
    if roles == [] then None
    else if roles[0].id == id then Some(0)
    else match FindById(roles[1..], id)
      case None => None
      case Some(k) => Some(k + 1)
  }

  function RoleIds(roles: seq<Role>): set<nat>
  {
    set k | 0 <= k < |roles| :: roles[k].id
  }

  /** The detail rows of one role, in table order. */
  function DetailsOf(details: seq<DetailRow>, id: int): (r: seq<DetailRow>)
    ensures forall d :: d in r <==> d in details && d.accessId == id
  {
    if details == [] then []
    else (if details[0].accessId == id then [details[0]] else []) + DetailsOf(details[1..], id)
  }

  /** The detail table after deleting one role's rows. */
  function DetailsNotOf(details: seq<DetailRow>, id: int): (r: seq<DetailRow>)
    ensures forall d :: d in r <==> d in details && d.accessId != id
  {
    if details == [] then []
    else (if details[0].accessId != id then [details[0]] else []) + DetailsNotOf(details[1..], id)
  }

  /** One detail row per submitted entry, in order, tagged with the role id; `m_view` takes its column default. */
  function DetailRows(accessId: nat, entries: seq<UserPipe.DetailInput>): (rows: seq<DetailRow>)
    ensures |rows| == |entries|
    ensures forall i :: 0 <= i < |rows| ==>
      && rows[i].accessId == accessId && rows[i].menuId == entries[i].menuId
      && rows[i].mCreated == entries[i].mCreated && rows[i].mUpdated == entries[i].mUpdated
      && rows[i].mDeleted == entries[i].mDeleted && rows[i].mView == DefaultView
  {
    seq(|entries|, i requires 0 <= i < |entries| =>
      DetailRow(accessId, entries[i].menuId, entries[i].mCreated, DefaultView, entries[i].mUpdated, entries[i].mDeleted))
  }

  /** The bulk insert succeeds when every row names an existing menu. */
  predicate MenusExist(rows: seq<DetailRow>, menus: set<int>) {
    forall i :: 0 <= i < |rows| ==> rows[i].menuId in menus
  }

  /** Every submitted menu exists in the menu table. */
  predicate SubmittedMenusExist(entries: seq<UserPipe.DetailInput>, menus: set<int>) {
    forall i :: 0 <= i < |entries| ==> entries[i].menuId in menus
  }

  // ---------------------------------------------------------------------------
  // The transaction runner.

  /** Commit the staged tables, or roll the role and detail tables back to the
      snapshot taken before; role ids drawn inside the transaction stay consumed. */
  function RunTransaction(before: AccessDb, staged: AccessDb, commits: bool, message: string): (o: Outcome)
    ensures o.reply.Ok? <==> commits
    ensures o.reply.Ok? ==> o.reply.value == Ack(message) && o.db == staged
    ensures o.reply.Err? ==>
      && o.reply.error == TransactionFailed
      && o.db.roles == before.roles && o.db.details == before.details && o.db.menus == before.menus
  {
    if commits then Outcome(Ok(Ack(message)), staged)
    else Outcome(Err(TransactionFailed), before.(nextId := staged.nextId))
  }

  // ---------------------------------------------------------------------------
  // createAccess and updateAccess.

  /** createAccess: refuse a name taken up to case, else insert the role and its
      detail rows in one transaction. */
  function CreateAccess(db: AccessDb, dto: UserPipe.CreateAccessDto, actor: int): (o: Outcome)
    ensures o.reply == Err(BadRequest(NameTaken)) <==>
      exists k :: 0 <= k < |db.roles| && LowerAll(db.roles[k].name) == LowerAll(dto.name)
    ensures (forall k :: 0 <= k < |db.roles| ==> LowerAll(db.roles[k].name) != LowerAll(dto.name)) ==>
      (o.reply.Ok? <==> SubmittedMenusExist(dto.accessDetail, db.menus))
    ensures o.reply.Err? ==> o.reply.error == BadRequest(NameTaken) || o.reply.error == TransactionFailed
    ensures o.reply.Err? ==> o.db.roles == db.roles && o.db.details == db.details
    ensures o.reply.Ok? ==>
      && o.reply.value == Ack(CreatedMessage)
      && o.db.roles == db.roles + [Role(db.nextId, Utils.ValidateUpperCase(dto.name), Utils.ValidateUpperCase(dto.description),
                                        LandingPath, DefaultPermission, DefaultStatus, Some(actor), None)]
      && o.db.details == db.details + DetailRows(db.nextId, dto.accessDetail)
      && o.db.menus == db.menus
      && o.db.nextId == db.nextId + 1
  {
    match FindByNameCI(db.roles, dto.name)
    case Some(_) => Outcome(Err(BadRequest(NameTaken)), db)
    case None =>
      var id := db.nextId;
      var role := Role(id, Utils.ValidateUpperCase(dto.name), Utils.ValidateUpperCase(dto.description),
                       LandingPath, DefaultPermission, DefaultStatus, Some(actor), None);
      var rows := DetailRows(id, dto.accessDetail);
      var staged := db.(roles := db.roles + [role], details := db.details + rows, nextId := id + 1);
      RunTransaction(db, staged, MenusExist(rows, db.menus), CreatedMessage)
  }

  /** The role row as the update writes it; `permission` is not in the request, so it keeps its value. */
  function Rewritten(r: Role, dto: UserPipe.UpdateAccessDto, actor: int): Role
  {
    r.(name := Utils.ValidateUpperCase(dto.name), description := Utils.ValidateUpperCase(dto.description),
       path := LandingPath, status := dto.status, updatedBy := Some(actor))
  }

  /** updateAccess: NotFound for an unknown id; refuse a name whose first
      case-insensitive match is another role; else rewrite the role, delete its
      detail rows and insert the submitted ones, in one transaction. */
  function UpdateAccess(db: AccessDb, dto: UserPipe.UpdateAccessDto, actor: int): (o: Outcome)
    ensures o.reply == Err(NotFound) <==> forall k :: 0 <= k < |db.roles| ==> db.roles[k].id != dto.id
    ensures o.reply == Err(BadRequest(NameTaken)) <==>
      && (exists k :: 0 <= k < |db.roles| && db.roles[k].id == dto.id)
      && FindByNameCI(db.roles, dto.name).Some?
      && db.roles[FindByNameCI(db.roles, dto.name).value].id != dto.id
    ensures (exists k :: 0 <= k < |db.roles| && db.roles[k].id == dto.id) && o.reply != Err(BadRequest(NameTaken)) ==>
      (o.reply.Ok? <==> SubmittedMenusExist(dto.accessDetail, db.menus))
    ensures o.reply.Err? ==> o.reply.error in {NotFound, BadRequest(NameTaken), TransactionFailed}
    ensures o.reply.Err? ==> o.db == db
    ensures o.reply.Ok? ==>
      && o.reply.value == Ack(UpdatedMessage)
      && |o.db.roles| == |db.roles|
      && (forall k :: 0 <= k < |db.roles| ==>
            o.db.roles[k] == if db.roles[k].id == dto.id then Rewritten(db.roles[k], dto, actor) else db.roles[k])
      && o.db.details == DetailsNotOf(db.details, dto.id) + DetailRows(dto.id, dto.accessDetail)
      && o.db.menus == db.menus && o.db.nextId == db.nextId
  {
    match FindById(db.roles, dto.id)
    case None => Outcome(Err(NotFound), db)
    case Some(_) =>
      var clash := FindByNameCI(db.roles, dto.name);
      if clash.Some? && db.roles[clash.value].id != dto.id then Outcome(Err(BadRequest(NameTaken)), db)
      else
        var id: nat := dto.id;
        var roles := seq(|db.roles|, k requires 0 <= k < |db.roles| =>
          if db.roles[k].id == dto.id then Rewritten(db.roles[k], dto, actor) else db.roles[k]);
        var rows := DetailRows(id, dto.accessDetail);
        var staged := db.(roles := roles, details := DetailsNotOf(db.details, id) + rows);
        RunTransaction(db, staged, MenusExist(rows, db.menus), UpdatedMessage)
  }

  // ---------------------------------------------------------------------------
  // The table invariant and its preservation.

  predicate FlagsBinary(d: DetailRow) {
    0 <= d.mCreated <= 1 && 0 <= d.mView <= 1 && 0 <= d.mUpdated <= 1 && 0 <= d.mDeleted <= 1
  }

  predicate IdsDistinct(roles: seq<Role>) {
    forall i, j :: 0 <= i < j < |roles| ==> roles[i].id != roles[j].id
  }

  predicate IdsBelow(roles: seq<Role>, nextId: nat) {
    forall i :: 0 <= i < |roles| ==> roles[i].id < nextId
  }

  predicate NamesDistinct(roles: seq<Role>) {
    forall i, j :: 0 <= i < j < |roles| ==> LowerAll(roles[i].name) != LowerAll(roles[j].name)
  }

  /** A detail row belongs to one of the roles `ids`, names an existing menu, and has 0/1 flags. */
  predicate RowValid(d: DetailRow, ids: set<nat>, menus: set<int>) {
    d.accessId in ids && d.menuId in menus && FlagsBinary(d)
  }

  predicate RowsValid(rows: seq<DetailRow>, ids: set<nat>, menus: set<int>) {
    forall d :: d in rows ==> RowValid(d, ids, menus)
  }

  /** Role ids are distinct and below the next id, names are distinct up to case,
      every detail row belongs to an existing role and menu, and its flags are 0 or 1. */
  predicate Valid(db: AccessDb) {
    && IdsDistinct(db.roles)
    && IdsBelow(db.roles, db.nextId)
    && NamesDistinct(db.roles)
    && RowsValid(db.details, RoleIds(db.roles), db.menus)
  }

  lemma NewRowsValid(id: nat, entries: seq<UserPipe.DetailInput>, ids: set<nat>, menus: set<int>)
    requires id in ids && MenusExist(DetailRows(id, entries), menus)
    requires forall i :: 0 <= i < |entries| ==> UserPipe.ValidDetail(entries[i])
    ensures RowsValid(DetailRows(id, entries), ids, menus)
  {
    var rows := DetailRows(id, entries);
    forall d | d in rows
      ensures RowValid(d, ids, menus)
    {
      var i :| 0 <= i < |rows| && rows[i] == d;
      assert UserPipe.ValidDetail(entries[i]);
    }
  }

  lemma RowsValidAppend(a: seq<DetailRow>, b: seq<DetailRow>, ids: set<nat>, menus: set<int>)
    requires RowsValid(a, ids, menus) && RowsValid(b, ids, menus)
    ensures RowsValid(a + b, ids, menus)
  {
  }

  lemma RowsValidWiden(rows: seq<DetailRow>, ids: set<nat>, ids': set<nat>, menus: set<int>)
    requires RowsValid(rows, ids, menus) && ids <= ids'
    ensures RowsValid(rows, ids', menus)
  {
    forall d | d in rows
      ensures RowValid(d, ids', menus)
    {
      assert RowValid(d, ids, menus);
    }
  }

  /** Appending a role with the next id and a name no role holds up to case keeps the role table valid. */
  lemma AppendFreshRole(roles: seq<Role>, role: Role, nextId: nat)
    requires IdsDistinct(roles) && IdsBelow(roles, nextId) && NamesDistinct(roles)
    requires role.id == nextId
    requires forall k :: 0 <= k < |roles| ==> LowerAll(roles[k].name) != LowerAll(role.name)
    ensures IdsDistinct(roles + [role]) && IdsBelow(roles + [role], nextId + 1) && NamesDistinct(roles + [role])
    ensures RoleIds(roles + [role]) == RoleIds(roles) + {nextId}
  {
    var all := roles + [role];
    assert forall k :: 0 <= k < |roles| ==> all[k] == roles[k];
    assert all[|roles|] == role;
    forall x | x in RoleIds(roles) + {nextId}
      ensures x in RoleIds(all)
    {
      if x == nextId {
        assert all[|roles|].id == x;
      } else {
        var k :| 0 <= k < |roles| && roles[k].id == x;
        assert all[k].id == x;
      }
    }
  }

  /** A create from a well-formed request keeps the tables valid, whatever its outcome. */
  lemma CreatePreservesValid(db: AccessDb, dto: UserPipe.CreateAccessDto, actor: int)
    requires Valid(db) && UserPipe.ValidCreate(dto)
    ensures Valid(CreateAccess(db, dto, actor).db)
  {
    var o := CreateAccess(db, dto, actor);
    if o.reply.Ok? {
      var rows := DetailRows(db.nextId, dto.accessDetail);
      var role := o.db.roles[|db.roles|];
      Utils.UpperCaseKeepsLowerForm(dto.name);
      assert LowerAll(role.name) == LowerAll(dto.name);
      assert FindByNameCI(db.roles, dto.name).None?;
      assert o.db.roles == db.roles + [role];
      AppendFreshRole(db.roles, role, db.nextId);
      var ids := RoleIds(o.db.roles);
      RowsValidWiden(db.details, RoleIds(db.roles), ids, db.menus);
      NewRowsValid(db.nextId, dto.accessDetail, ids, db.menus);
      RowsValidAppend(db.details, rows, ids, db.menus);
    }
  }

  /** Rewriting one role's name to one no other role holds up to case keeps the role table valid. */
  lemma RewriteKeepsRoles(roles: seq<Role>, roles': seq<Role>, at: nat, name: string)
    requires IdsDistinct(roles) && NamesDistinct(roles) && at < |roles|
    requires |roles'| == |roles|
    requires forall i :: 0 <= i < |roles| ==> roles'[i].id == roles[i].id
    requires forall i :: 0 <= i < |roles| && i != at ==> roles'[i].name == roles[i].name
    requires LowerAll(roles'[at].name) == LowerAll(name)
    requires forall i :: 0 <= i < |roles| && i != at ==> LowerAll(roles[i].name) != LowerAll(name)
    ensures IdsDistinct(roles') && NamesDistinct(roles') && RoleIds(roles') == RoleIds(roles)
  {
    assert forall x :: x in RoleIds(roles) ==> x in RoleIds(roles') by {
      forall x | x in RoleIds(roles) ensures x in RoleIds(roles') {
        var k :| 0 <= k < |roles| && roles[k].id == x;
        assert roles'[k].id == x;
      }
    }
  }

  /** An update from a well-formed request keeps the tables valid, whatever its outcome. */
  lemma UpdatePreservesValid(db: AccessDb, dto: UserPipe.UpdateAccessDto, actor: int)
    requires Valid(db) && UserPipe.ValidUpdate(dto)
    ensures Valid(UpdateAccess(db, dto, actor).db)
  {
    var o := UpdateAccess(db, dto, actor);
    if o.reply.Ok? {
      var at := FindById(db.roles, dto.id).value;
      var clash := FindByNameCI(db.roles, dto.name);
      assert clash.Some? ==> clash.value == at;
      Utils.UpperCaseKeepsLowerForm(dto.name);
      forall i | 0 <= i < |db.roles| && i != at
        ensures LowerAll(db.roles[i].name) != LowerAll(dto.name)
      {
        if clash.Some? {
          assert LowerAll(db.roles[clash.value].name) == LowerAll(dto.name);
        }
      }
      assert o.db.roles[at] == Rewritten(db.roles[at], dto, actor);
      RewriteKeepsRoles(db.roles, o.db.roles, at, dto.name);
      var rows := DetailRows(dto.id, dto.accessDetail);
      var kept := DetailsNotOf(db.details, dto.id);
      assert dto.id in RoleIds(db.roles) by { assert db.roles[at].id == dto.id; }
      NewRowsValid(dto.id, dto.accessDetail, RoleIds(db.roles), db.menus);
      RowsValidAppend(kept, rows, RoleIds(db.roles), db.menus);
    }
  }

  // ---------------------------------------------------------------------------
  // Name checks.

  /** Creating a role whose name matches an existing one up to case is refused and writes nothing. */
  lemma DuplicateCreateRefused(db: AccessDb, dto: UserPipe.CreateAccessDto, actor: int, k: nat)
    requires k < |db.roles| && LowerAll(db.roles[k].name) == LowerAll(dto.name)
    ensures CreateAccess(db, dto, actor) == Outcome(Err(BadRequest(NameTaken)), db)
  {
  }

  /** Creating twice with names equal up to case: the second call is refused, whatever
      the first call's outcome did to the role table. */
  lemma SecondCreateWithSameNameRefused(
    db: AccessDb, dto: UserPipe.CreateAccessDto, again: UserPipe.CreateAccessDto, actor: int)
    requires CreateAccess(db, dto, actor).reply.Ok?
    requires LowerAll(again.name) == LowerAll(dto.name)
    ensures var db1 := CreateAccess(db, dto, actor).db;
            CreateAccess(db1, again, actor) == Outcome(Err(BadRequest(NameTaken)), db1)
  {
    var db1 := CreateAccess(db, dto, actor).db;
    Utils.UpperCaseKeepsLowerForm(dto.name);
    assert LowerAll(db1.roles[|db.roles|].name) == LowerAll(again.name);
  }

  /** In valid tables, an update that keeps the role's own name, in any letter case, passes the name check. */
  lemma UpdateKeepingOwnNamePasses(db: AccessDb, dto: UserPipe.UpdateAccessDto, actor: int, at: nat)
    requires Valid(db)
    requires at < |db.roles| && db.roles[at].id == dto.id
    requires LowerAll(dto.name) == LowerAll(db.roles[at].name)
    ensures UpdateAccess(db, dto, actor).reply != Err(BadRequest(NameTaken))
  {
    var clash := FindByNameCI(db.roles, dto.name);
    assert clash.Some?;
    assert clash.value == at;
  }

  /** In valid tables, an update to a name another role holds up to case is refused and writes nothing. */
  lemma UpdateToOthersNameRefused(db: AccessDb, dto: UserPipe.UpdateAccessDto, actor: int, other: nat)
    requires Valid(db)
    requires other < |db.roles| && db.roles[other].id != dto.id
    requires LowerAll(dto.name) == LowerAll(db.roles[other].name)
    requires exists k :: 0 <= k < |db.roles| && db.roles[k].id == dto.id
    ensures UpdateAccess(db, dto, actor) == Outcome(Err(BadRequest(NameTaken)), db)
  {
    var clash := FindByNameCI(db.roles, dto.name);
    assert clash.Some?;
    assert clash.value == other;
  }

  /** The outcomes of a create: NameTaken when the name is held up to case, else
      TransactionFailed when a submitted menu is missing, else success. */
  lemma CreateOutcomeCases(db: AccessDb, dto: UserPipe.CreateAccessDto, actor: int)
    ensures var o := CreateAccess(db, dto, actor);
      var taken := exists k :: 0 <= k < |db.roles| && LowerAll(db.roles[k].name) == LowerAll(dto.name);
      var menusOk := SubmittedMenusExist(dto.accessDetail, db.menus);
      && (o.reply == Err(BadRequest(NameTaken)) <==> taken)
      && (o.reply == Err(TransactionFailed) <==> !taken && !menusOk)
      && (o.reply.Ok? <==> !taken && menusOk)
  {
  }

  /** In valid tables, the outcomes of an update: NotFound for an unknown id, else
      NameTaken when another role holds the name up to case, else TransactionFailed
      when a submitted menu is missing, else success. */
  lemma UpdateOutcomeCases(db: AccessDb, dto: UserPipe.UpdateAccessDto, actor: int)
    requires Valid(db)
    ensures var o := UpdateAccess(db, dto, actor);
      var found := exists k :: 0 <= k < |db.roles| && db.roles[k].id == dto.id;
      var clash := exists k :: 0 <= k < |db.roles| && LowerAll(db.roles[k].name) == LowerAll(dto.name) && db.roles[k].id != dto.id;
      var menusOk := SubmittedMenusExist(dto.accessDetail, db.menus);
      && (o.reply == Err(NotFound) <==> !found)
      && (o.reply == Err(BadRequest(NameTaken)) <==> found && clash)
      && (o.reply == Err(TransactionFailed) <==> found && !clash && !menusOk)
      && (o.reply.Ok? <==> found && !clash && menusOk)
  {
    ClashIsFirstMatch(db.roles, dto.name, dto.id);
  }

  /** With names distinct up to case, another role holds the name exactly when the
      first case-insensitive match is a role other than `id`. */
  lemma ClashIsFirstMatch(roles: seq<Role>, name: string, id: int)
    requires NamesDistinct(roles)
    ensures (exists k :: 0 <= k < |roles| && LowerAll(roles[k].name) == LowerAll(name) && roles[k].id != id) <==>
      FindByNameCI(roles, name).Some? && roles[FindByNameCI(roles, name).value].id != id
  {
    var first := FindByNameCI(roles, name);
    if first.Some? {
      forall k | 0 <= k < |roles| && LowerAll(roles[k].name) == LowerAll(name)
        ensures k == first.value
      {
        if k > first.value {
          assert false;
        }
      }
    }
  }

  // ---------------------------------------------------------------------------
  // Detail sets: replace-all and rollback.

  lemma {:induction false} DetailsOfAppend(a: seq<DetailRow>, b: seq<DetailRow>, id: int)
    ensures DetailsOf(a + b, id) == DetailsOf(a, id) + DetailsOf(b, id)
  {
    if a != [] {
      assert (a + b)[1..] == a[1..] + b;
      DetailsOfAppend(a[1..], b, id);
    } else {
      assert a + b == b;
    }
  }

  lemma {:induction false} DetailsOfNewRows(x: nat, entries: seq<UserPipe.DetailInput>, id: int)
    ensures DetailsOf(DetailRows(x, entries), id) == if id == x then DetailRows(x, entries) else []
  {
    if entries != [] {
      DetailsOfNewRows(x, entries[1..], id);
      assert DetailRows(x, entries)[1..] == DetailRows(x, entries[1..]);
    }
  }

  lemma {:induction false} DetailsOfAfterDelete(details: seq<DetailRow>, x: int, id: int)
    ensures DetailsOf(DetailsNotOf(details, x), id) == if id == x then [] else DetailsOf(details, id)
  {
    if details != [] {
      DetailsOfAfterDelete(details[1..], x, id);
      var head := if details[0].accessId != x then [details[0]] else [];
      DetailsOfAppend(head, DetailsNotOf(details[1..], x), id);
    }
  }

  /** After a successful update the role's detail set is exactly the submission,
      one row per entry in order, and every other role's set is unchanged. */
  lemma UpdateReplacesDetails(db: AccessDb, dto: UserPipe.UpdateAccessDto, actor: int, id: int)
    requires UpdateAccess(db, dto, actor).reply.Ok?
    ensures var after := UpdateAccess(db, dto, actor).db;
            DetailsOf(after.details, id) == if id == dto.id then DetailRows(dto.id, dto.accessDetail) else DetailsOf(db.details, id)
  {
    var o := UpdateAccess(db, dto, actor);
    var x: nat := dto.id;
    var kept := DetailsNotOf(db.details, x);
    var rows := DetailRows(x, dto.accessDetail);
    assert o.db.details == kept + rows;
    DetailsOfAppend(kept, rows, id);
    DetailsOfAfterDelete(db.details, x, id);
    DetailsOfNewRows(x, dto.accessDetail, id);
  }

  /** A failed update transaction leaves the detail set of every role, and the role table, as before. */
  lemma FailedUpdateRestoresDetails(db: AccessDb, dto: UserPipe.UpdateAccessDto, actor: int, id: int)
    requires UpdateAccess(db, dto, actor).reply == Err(TransactionFailed)
    ensures DetailsOf(UpdateAccess(db, dto, actor).db.details, id) == DetailsOf(db.details, id)
    ensures UpdateAccess(db, dto, actor).db.roles == db.roles
  {
  }

  /** The update transaction fails exactly when a submitted menu id is not in the menu table
      (for an existing role whose new name is free). */
  lemma UpdateFailsOnUnknownMenu(db: AccessDb, dto: UserPipe.UpdateAccessDto, actor: int)
    requires UpdateAccess(db, dto, actor).reply != Err(NotFound)
    requires UpdateAccess(db, dto, actor).reply != Err(BadRequest(NameTaken))
    ensures UpdateAccess(db, dto, actor).reply == Err(TransactionFailed) <==>
      exists i :: 0 <= i < |dto.accessDetail| && dto.accessDetail[i].menuId !in db.menus
  {
    var rows := DetailRows(dto.id, dto.accessDetail);
    if !MenusExist(rows, db.menus) {
      var i :| 0 <= i < |rows| && rows[i].menuId !in db.menus;
      assert dto.accessDetail[i].menuId !in db.menus;
    }
  }

  /** A create whose detail insert fails leaves no role behind: the role and detail tables
      are as before, and only the consumed role id remains taken. */
  lemma FailedCreateLeavesNoRole(db: AccessDb, dto: UserPipe.CreateAccessDto, actor: int)
    requires CreateAccess(db, dto, actor).reply == Err(TransactionFailed)
    ensures CreateAccess(db, dto, actor).db == db.(nextId := db.nextId + 1)
    ensures exists i :: 0 <= i < |dto.accessDetail| && dto.accessDetail[i].menuId !in db.menus
  {
    var rows := DetailRows(db.nextId, dto.accessDetail);
    assert !MenusExist(rows, db.menus);
    var i :| 0 <= i < |rows| && rows[i].menuId !in db.menus;
    assert dto.accessDetail[i].menuId !in db.menus;
  }

  lemma {:induction false} NoDetailsOf(details: seq<DetailRow>, id: int)
    requires forall k :: 0 <= k < |details| ==> details[k].accessId != id
    ensures DetailsOf(details, id) == []
  {
    if details != [] {
      NoDetailsOf(details[1..], id);
    }
  }

  /** In valid tables, a created role's detail set is exactly its submission. */
  lemma CreatedRoleHasSubmittedDetails(db: AccessDb, dto: UserPipe.CreateAccessDto, actor: int)
    requires Valid(db)
    requires CreateAccess(db, dto, actor).reply.Ok?
    ensures DetailsOf(CreateAccess(db, dto, actor).db.details, db.nextId) == DetailRows(db.nextId, dto.accessDetail)
  {
    DetailsOfAppend(db.details, DetailRows(db.nextId, dto.accessDetail), db.nextId);
    DetailsOfNewRows(db.nextId, dto.accessDetail, db.nextId);
    forall k | 0 <= k < |db.details| ensures db.details[k].accessId != db.nextId {
      assert db.details[k] in db.details;
    }
    NoDetailsOf(db.details, db.nextId);
  }

  // ---------------------------------------------------------------------------
  // The reply, as the transform interceptor wraps it.

  function AckBody(a: Ack): Json.Value
  {
    Json.Obj(map["message" := Json.Str(a.message)])
  }

  /** A successful create or update reaches the client as the envelope whose message
      is the acknowledgement and whose data is an empty object. */
  lemma AckEnvelope(o: Outcome, statusCode: int)
    requires o.reply.Ok? && o.reply.value.message != ""
    ensures Transform.Intercept(statusCode, AckBody(o.reply.value))
         == Ok(Transform.Envelope(statusCode, Json.Str(o.reply.value.message), Json.Obj(map[])))
  {
    Transform.AcknowledgementEnvelope(statusCode, o.reply.value.message);
  }
}
