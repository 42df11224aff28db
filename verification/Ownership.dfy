/**
 Who stays in charge: the last active administrator and the last owner of a group, kept by the
 database's triggers and cascades while handlers check in one statement and write in another.
 */
module Ownership {
  import opened Prelude
  import opened Access

  datatype Account = Account(admin: bool, active: bool)

  /** The tables; members are keyed by (namespace, user), projects map to their namespace. */
  datatype Db = Db(
    users: map<int, Account>,
    namespaces: map<int, Namespace>,
    members: map<(int, int), int>,
    projects: map<int, int>)

  /** Why a statement was aborted and rolled back. */
  datatype Abort = LastAdmin | LastOwner | NotGroup | BadLevel | ForeignKey | Duplicate

  /** Which child table of `users` a delete visits first; SQLite does not document the order. */
  datatype Order = MembersFirst | NamespacesFirst

  // ---------------------------------------------------------------- the rules

  predicate IsActiveAdmin(db: Db, u: int) {
    u in db.users && db.users[u].admin && db.users[u].active
  }

  ghost predicate HasActiveAdmin(db: Db) {
    exists u :: IsActiveAdmin(db, u)
  }

  predicate OwnsGroup(members: map<(int, int), int>, ns: int, u: int) {
    (ns, u) in members && members[(ns, u)] == OWNER
  }

  ghost predicate HasOwner(db: Db, ns: int) {
    exists u :: OwnsGroup(db.members, ns, u)
  }

  predicate IsGroup(db: Db, ns: int) {
    ns in db.namespaces && db.namespaces[ns].kind == GroupSpace
  }

  /** The group is gone, or it has an owner. */
  ghost predicate OwnedOrGone(db: Db, ns: int) {
    IsGroup(db, ns) ==> HasOwner(db, ns)
  }

  /** Foreign keys hold, and each membership is of a group and at a legal level. */
  ghost predicate WellFormed(db: Db) {
    && (forall k | k in db.members :: IsGroup(db, k.0) && k.1 in db.users && IsLevel(db.members[k]))
    && (forall ns | ns in db.namespaces && db.namespaces[ns].owner.Some? :: db.namespaces[ns].owner.value in db.users)
    && (forall p | p in db.projects :: db.projects[p] in db.namespaces)
  }

  // ---------------------------------------------------------------- statements

  /** The condition both last-admin triggers test besides the row itself. */
  predicate OtherActiveAdmin(db: Db, u: int) {
    exists v | v in db.users :: v != u && IsActiveAdmin(db, v)
  }

  predicate OtherOwner(members: map<(int, int), int>, ns: int, u: int) {
    exists k | k in members :: k.0 == ns && k.1 != u && members[k] == OWNER
  }

  /** What the last-owner triggers refuse to lose. */
  predicate OnlyOwner(members: map<(int, int), int>, ns: int, u: int) {
    OwnsGroup(members, ns, u) && !OtherOwner(members, ns, u)
  }

  /** The user is the only owner of one of these namespaces, so the trigger will refuse a row. */
  predicate Refused(members: map<(int, int), int>, present: set<int>, u: int) {
    exists k | k in members :: k.1 == u && k.0 in present && OnlyOwner(members, k.0, u)
  }

  function Doomed(db: Db, u: int): set<int> {
    set ns | ns in db.namespaces && db.namespaces[ns].owner == Some(u)
  }

  /** The memberships a delete of user u cascades to. */
  function LostMembers(db: Db, u: int): set<(int, int)> {
    set k | k in db.members && (k.1 == u || k.0 in Doomed(db, u))
  }

  /** The namespaces still there when the user's own membership rows are visited. */
  function Guarded(db: Db, u: int, order: Order): set<int> {
    if order == MembersFirst then db.namespaces.Keys else db.namespaces.Keys - Doomed(db, u)
  }

  /** Deleting a user: before-trigger, cascades with their triggers, foreign keys at the end. */
  function DeleteUser(db: Db, u: int, order: Order): Result<Db, Abort> {
    if u !in db.users then Ok(db)
    else if IsActiveAdmin(db, u) && !OtherActiveAdmin(db, u) then Err(LastAdmin)
    else if Refused(db.members, Guarded(db, u, order), u) then Err(LastOwner)
    else if exists p | p in db.projects :: db.projects[p] in Doomed(db, u) then Err(ForeignKey)
    else Ok(db.(users := db.users - {u}, namespaces := db.namespaces - Doomed(db, u),
                members := db.members - LostMembers(db, u)))
  }

  function UpdateUser(db: Db, u: int, admin: Option<bool>, active: Option<bool>): Result<Db, Abort> {
    if u !in db.users then Ok(db)
    else
      var now := Account(if admin.Some? then admin.value else db.users[u].admin,
                         if active.Some? then active.value else db.users[u].active);
      if IsActiveAdmin(db, u) && !(now.admin && now.active) && !OtherActiveAdmin(db, u) then Err(LastAdmin)
      else Ok(db.(users := db.users[u := now]))
  }

  /** `INSERT ... ON CONFLICT DO UPDATE` on group_members; the insert triggers run first in both cases. */
  function UpsertMember(db: Db, ns: int, u: int, level: int): Result<Db, Abort> {
    if !IsGroup(db, ns) then Err(NotGroup)
    else if !IsLevel(level) then Err(BadLevel)
    else if level != OWNER && OnlyOwner(db.members, ns, u) then Err(LastOwner)
    else if (ns, u) !in db.members && u !in db.users then Err(ForeignKey)
    else Ok(db.(members := db.members[(ns, u) := level]))
  }

  function DeleteMember(db: Db, ns: int, u: int): Result<Db, Abort> {
    if ns in db.namespaces && OnlyOwner(db.members, ns, u) then Err(LastOwner)
    else Ok(db.(members := db.members - {(ns, u)}))
  }

  /** The cascade finds the namespace row gone already, so the owner trigger lets every row go. */
  function DeleteGroup(db: Db, ns: int): Result<Db, Abort> {
    if !IsGroup(db, ns) then Ok(db)
    else if exists p | p in db.projects :: db.projects[p] == ns then Err(ForeignKey)
    else Ok(db.(namespaces := db.namespaces - {ns}, members := db.members - set k | k in db.members && k.0 == ns))
  }

  /** A group and its first owner, in one transaction; push-time creation also sets the namespace owner. */
  function CreateGroup(db: Db, ns: int, u: int, owner: Option<int>): Result<Db, Abort> {
    if ns in db.namespaces then Err(Duplicate)
    else if u !in db.users || (owner.Some? && owner.value !in db.users) then Err(ForeignKey)
    else Ok(db.(namespaces := db.namespaces[ns := Namespace(GroupSpace, owner)],
                members := db.members[(ns, u) := OWNER]))
  }

  /** A user and its namespace, in one transaction. */
  function CreateUser(db: Db, u: int, ns: int, admin: bool): Result<Db, Abort> {
    if u in db.users || ns in db.namespaces then Err(Duplicate)
    else Ok(db.(users := db.users[u := Account(admin, true)],
                namespaces := db.namespaces[ns := Namespace(UserSpace, Some(u))]))
  }

  function PutProject(db: Db, p: int, ns: int): Result<Db, Abort> {
    if ns !in db.namespaces then Err(ForeignKey) else Ok(db.(projects := db.projects[p := ns]))
  }

  datatype Stmt =
    | DeleteUserStmt(u: int, order: Order)
    | UpdateUserStmt(u: int, admin: Option<bool>, active: Option<bool>)
    | UpsertMemberStmt(ns: int, u: int, level: int)
    | DeleteMemberStmt(ns: int, u: int)
    | DeleteGroupStmt(ns: int)
    | CreateGroupStmt(ns: int, u: int, owner: Option<int>)
    | CreateUserStmt(u: int, ns: int, asAdmin: bool)
    | PutProjectStmt(p: int, ns: int)      // create, fork or transfer
    | DeleteProjectStmt(p: int)

  function Execute(db: Db, stmt: Stmt): Result<Db, Abort> {
    match stmt
    case DeleteUserStmt(u, order) => DeleteUser(db, u, order)
    case UpdateUserStmt(u, admin, active) => UpdateUser(db, u, admin, active)
    case UpsertMemberStmt(ns, u, level) => UpsertMember(db, ns, u, level)
    case DeleteMemberStmt(ns, u) => DeleteMember(db, ns, u)
    case DeleteGroupStmt(ns) => DeleteGroup(db, ns)
    case CreateGroupStmt(ns, u, owner) => CreateGroup(db, ns, u, owner)
    case CreateUserStmt(u, ns, asAdmin) => CreateUser(db, u, ns, asAdmin)
    case PutProjectStmt(p, ns) => PutProject(db, p, ns)
    case DeleteProjectStmt(p) => Ok(db.(projects := db.projects - {p}))
  }

  /** An aborted statement leaves the database as it was. */
  function After(db: Db, stmt: Stmt): Db {
    match Execute(db, stmt)
    case Ok(now) => now
    case Err(_) => db
  }

  lemma {:induction false} StatementKeepsAdmin(db: Db, stmt: Stmt)
    requires HasActiveAdmin(db)
    ensures HasActiveAdmin(After(db, stmt))
  {
    var u :| IsActiveAdmin(db, u);
    var now := After(db, stmt);
    if !IsActiveAdmin(now, u) {
      assert (stmt.DeleteUserStmt? || stmt.UpdateUserStmt?) && stmt.u == u && OtherActiveAdmin(db, u);
      var v :| v in db.users && v != u && IsActiveAdmin(db, v);
      assert IsActiveAdmin(now, v);
    }
  }

  lemma {:induction false} StatementKeepsOwner(db: Db, stmt: Stmt, ns: int)
    requires OwnedOrGone(db, ns)
    ensures OwnedOrGone(After(db, stmt), ns)
  {
    var now := After(db, stmt);
    if IsGroup(now, ns) {
      if stmt.CreateGroupStmt? && stmt.ns == ns && ns !in db.namespaces {
        assert OwnsGroup(now.members, ns, stmt.u);
      } else {
        assert IsGroup(db, ns);
        var u :| OwnsGroup(db.members, ns, u);
        if !OwnsGroup(now.members, ns, u) {
          LosesOneOfMany(db, stmt, ns, u);
        }
      }
    }
  }

  lemma {:induction false} LosesOneOfMany(db: Db, stmt: Stmt, ns: int, u: int)
    requires OwnsGroup(db.members, ns, u) && !OwnsGroup(After(db, stmt).members, ns, u)
    requires ns in db.namespaces && ns in After(db, stmt).namespaces
    ensures HasOwner(After(db, stmt), ns)
  {
    var now := After(db, stmt);
    assert OtherOwner(db.members, ns, u);
    var k :| k in db.members && k.0 == ns && k.1 != u && db.members[k] == OWNER;
    assert k == (ns, k.1);
    assert OwnsGroup(now.members, ns, k.1);
  }

  lemma {:induction false} StatementKeepsWellFormed(db: Db, stmt: Stmt)
    requires WellFormed(db)
    ensures WellFormed(After(db, stmt))
  {
  }

  // ---------------------------------------------------------------- what statements do, row by row

  /** Which creations succeed. */
  lemma {:induction false} CreationSucceeds(db: Db, u: int, ns: int, p: int, asAdmin: bool, owner: Option<int>)
    ensures Execute(db, CreateUserStmt(u, ns, asAdmin)).Ok? <==> u !in db.users && ns !in db.namespaces
    ensures Execute(db, CreateGroupStmt(ns, u, owner)).Ok? <==>
            ns !in db.namespaces && u in db.users && (owner.Some? ==> owner.value in db.users)
    ensures Execute(db, PutProjectStmt(p, ns)).Ok? <==> ns in db.namespaces
    ensures Execute(db, DeleteProjectStmt(p)).Ok?
    ensures Execute(db, DeleteGroupStmt(ns)).Ok? <==>
            !IsGroup(db, ns) || forall q | q in db.projects :: db.projects[q] != ns
  {
  }

  /** An account after a statement: created active, deleted, updated where the update says so, or as it was. */
  lemma {:induction false} UsersAfter(db: Db, stmt: Stmt, u: int)
    ensures u in After(db, stmt).users <==>
            || (u in db.users && !(stmt.DeleteUserStmt? && stmt.u == u && Execute(db, stmt).Ok?))
            || (stmt.CreateUserStmt? && stmt.u == u && Execute(db, stmt).Ok?)
    ensures u in db.users && u in After(db, stmt).users ==>
              var was, now := db.users[u], After(db, stmt).users[u];
              if stmt.UpdateUserStmt? && stmt.u == u && Execute(db, stmt).Ok? then
                now.admin == (if stmt.admin.Some? then stmt.admin.value else was.admin)
                && now.active == (if stmt.active.Some? then stmt.active.value else was.active)
              else now == was
    ensures u !in db.users && u in After(db, stmt).users ==>
              After(db, stmt).users[u].admin == stmt.asAdmin && After(db, stmt).users[u].active
  {
  }

  /** A namespace after a statement: only creations bring one, only deletions of it or of its owner take it. */
  lemma {:induction false} NamespacesAfter(db: Db, stmt: Stmt, ns: int)
    ensures ns in After(db, stmt).namespaces && ns in db.namespaces ==>
              After(db, stmt).namespaces[ns] == db.namespaces[ns]
    ensures ns in db.namespaces ==>
              (ns !in After(db, stmt).namespaces <==>
               Execute(db, stmt).Ok?
               && ((stmt == DeleteGroupStmt(ns) && db.namespaces[ns].kind == GroupSpace)
                   || (stmt.DeleteUserStmt? && stmt.u in db.users && db.namespaces[ns].owner == Some(stmt.u))))
    ensures ns !in db.namespaces ==>
              (ns in After(db, stmt).namespaces <==>
               Execute(db, stmt).Ok? && (stmt.CreateUserStmt? || stmt.CreateGroupStmt?) && stmt.ns == ns)
    ensures ns !in db.namespaces && ns in After(db, stmt).namespaces ==>
              After(db, stmt).namespaces[ns] ==
              if stmt.CreateUserStmt? then Namespace(UserSpace, Some(stmt.u)) else Namespace(GroupSpace, stmt.owner)
  {
  }

  /** A membership after a statement: set by its own upsert or as a new group's first owner, or as it was, or gone. */
  lemma {:induction false} MembersAfter(db: Db, stmt: Stmt, ns: int, u: int)
    requires WellFormed(db)
    ensures var now := After(db, stmt);
            (ns, u) in now.members <==>
            if !Execute(db, stmt).Ok? then (ns, u) in db.members
            else if stmt.UpsertMemberStmt? && stmt.ns == ns && stmt.u == u then true
            else if stmt.CreateGroupStmt? && stmt.ns == ns && stmt.u == u then true
            else if stmt == DeleteMemberStmt(ns, u) then false
            else if stmt.DeleteUserStmt? && stmt.u == u then false
            else (ns, u) in db.members && ns in now.namespaces
    ensures (ns, u) in After(db, stmt).members ==>
              After(db, stmt).members[(ns, u)] ==
              if Execute(db, stmt).Ok? && stmt.UpsertMemberStmt? && stmt.ns == ns && stmt.u == u then stmt.level
              else if Execute(db, stmt).Ok? && stmt.CreateGroupStmt? && stmt.ns == ns && stmt.u == u then 50
              else if (ns, u) in db.members then db.members[(ns, u)] else 0
  {
  }

  /** A project after a statement: where it was last put, until it is deleted. */
  lemma {:induction false} ProjectsAfter(db: Db, stmt: Stmt, p: int)
    ensures p in After(db, stmt).projects <==>
            || (p in db.projects && stmt != DeleteProjectStmt(p))
            || (stmt.PutProjectStmt? && stmt.p == p && stmt.ns in db.namespaces)
    ensures p in After(db, stmt).projects ==>
              After(db, stmt).projects[p] ==
              if stmt.PutProjectStmt? && stmt.p == p && stmt.ns in db.namespaces then stmt.ns
              else if p in db.projects then db.projects[p] else stmt.p
  {
  }

  // ---------------------------------------------------------------- handlers: what they check before writing

  function ActiveAdmins(db: Db): set<int> {
    set u | u in db.users && IsActiveAdmin(db, u)
  }

  function Owners(db: Db, ns: int): set<(int, int)> {
    set k | k in db.members && k.0 == ns && db.members[k] == OWNER
  }

  function GroupLevel(db: Db, ns: int, u: int): int {
    if (ns, u) in db.members then db.members[(ns, u)] else 0
  }

  predicate MayRun(db: Db, ns: int, caller: int, callerAdmin: bool) {
    callerAdmin || GroupLevel(db, ns, caller) >= OWNER
  }

  datatype Refusal = Invalid | NotFound | NotAllowed | AdminConflict | OwnerConflict | ProjectsConflict

  function CheckUpdateUser(db: Db, caller: int, id: int, admin: Option<bool>,
                           active: Option<bool>): Result<Stmt, Refusal> {
    if active == Some(false) && id == caller then Err(Invalid)
    else if id !in db.users then Err(NotFound)
    else if IsActiveAdmin(db, id) && (admin == Some(false) || active == Some(false)) && |ActiveAdmins(db)| <= 1
      then Err(AdminConflict)
    else Ok(UpdateUserStmt(id, admin, active))
  }

  function CheckDeleteUser(db: Db, caller: int, id: int, order: Order): Result<Stmt, Refusal> {
    if id == caller then Err(Invalid)
    else if exists p | p in db.projects :: db.projects[p] in Doomed(db, id) then Err(ProjectsConflict)
    else if exists k | k in db.members :: k.1 == id && OnlyOwner(db.members, k.0, id) then Err(OwnerConflict)
    else Ok(DeleteUserStmt(id, order))
  }

  function CheckAddMember(db: Db, caller: int, callerAdmin: bool, ns: int, u: int, level: int): Result<Stmt, Refusal> {
    if !IsGroup(db, ns) then Err(NotFound)
    else if !MayRun(db, ns, caller, callerAdmin) then Err(NotAllowed)
    else if !IsLevel(level) then Err(Invalid)
    else if GroupLevel(db, ns, u) == OWNER && level != OWNER && |Owners(db, ns)| <= 1 then Err(OwnerConflict)
    else Ok(UpsertMemberStmt(ns, u, level))
  }

  function CheckRemoveMember(db: Db, caller: int, callerAdmin: bool, ns: int, u: int): Result<Stmt, Refusal> {
    if !IsGroup(db, ns) then Err(NotFound)
    else if u != caller && !MayRun(db, ns, caller, callerAdmin) then Err(NotAllowed)
    else if GroupLevel(db, ns, u) == OWNER && |Owners(db, ns)| <= 1 then Err(OwnerConflict)
    else Ok(DeleteMemberStmt(ns, u))
  }

  function CheckDeleteGroup(db: Db, caller: int, callerAdmin: bool, ns: int): Result<Stmt, Refusal> {
    if !MayRun(db, ns, caller, callerAdmin) then Err(NotAllowed)
    else if exists p | p in db.projects :: db.projects[p] == ns then Err(ProjectsConflict)
    else Ok(DeleteGroupStmt(ns))
  }

  datatype Request =
    | UpdateUserReq(caller: int, id: int, admin: Option<bool>, active: Option<bool>)
    | DeleteUserReq(caller: int, id: int, order: Order)
    | AddMemberReq(caller: int, callerAdmin: bool, ns: int, u: int, level: int)
    | RemoveMemberReq(caller: int, callerAdmin: bool, ns: int, u: int)
    | DeleteGroupReq(caller: int, callerAdmin: bool, ns: int)
    | DirectReq(stmt: Stmt)  // creations, and any maintenance code: no ownership check before the write

  function Check(db: Db, r: Request): Result<Stmt, Refusal> {
    match r
    case UpdateUserReq(caller, id, admin, active) => CheckUpdateUser(db, caller, id, admin, active)
    case DeleteUserReq(caller, id, order) => CheckDeleteUser(db, caller, id, order)
    case AddMemberReq(caller, callerAdmin, ns, u, level) => CheckAddMember(db, caller, callerAdmin, ns, u, level)
    case RemoveMemberReq(caller, callerAdmin, ns, u) => CheckRemoveMember(db, caller, callerAdmin, ns, u)
    case DeleteGroupReq(caller, callerAdmin, ns) => CheckDeleteGroup(db, caller, callerAdmin, ns)
    case DirectReq(stmt) => Ok(stmt)
  }

  // ---------------------------------------------------------------- interleavings

  /** The database and the writes that handlers have checked but not yet executed. */
  datatype System = System(db: Db, pending: map<nat, Stmt>)

  datatype Event = CheckStep(h: nat, r: Request) | WriteStep(h: nat) | AbandonStep(h: nat)

  predicate Enabled(s: System, e: Event) {
    match e
    case CheckStep(h, _) => h !in s.pending
    case WriteStep(h) => h in s.pending
    case AbandonStep(h) => h in s.pending
  }

  function Apply(s: System, e: Event): System
    requires Enabled(s, e)
  {
    match e
    case CheckStep(h, r) =>
      (match Check(s.db, r)
       case Ok(stmt) => s.(pending := s.pending[h := stmt])
       case Err(_) => s)
    case WriteStep(h) => System(After(s.db, s.pending[h]), s.pending - {h})
    case AbandonStep(h) => s.(pending := s.pending - {h})
  }

  ghost predicate IsRun(events: seq<Event>, states: seq<System>) {
    && |states| == |events| + 1
    && forall i | 0 <= i < |events| :: Enabled(states[i], events[i]) && states[i + 1] == Apply(states[i], events[i])
  }

  /** However checks and writes interleave, an instance with an active administrator keeps one. */
  lemma {:induction false} RunKeepsActiveAdmin(events: seq<Event>, states: seq<System>, k: nat)
    requires IsRun(events, states) && k <= |events| && HasActiveAdmin(states[0].db)
    ensures HasActiveAdmin(states[k].db)
  {
    if k > 0 {
      RunKeepsActiveAdmin(events, states, k - 1);
      if events[k - 1].WriteStep? {
        StatementKeepsAdmin(states[k - 1].db, states[k - 1].pending[events[k - 1].h]);
      }
    }
  }

  /** A group that has an owner at some point is, at every later point, gone or still owned. */
  lemma {:induction false} RunKeepsGroupOwner(events: seq<Event>, states: seq<System>, ns: int, i: nat, k: nat)
    requires IsRun(events, states) && i <= k <= |events| && OwnedOrGone(states[i].db, ns)
    ensures OwnedOrGone(states[k].db, ns)
  {
    if i < k {
      RunKeepsGroupOwner(events, states, ns, i, k - 1);
      if events[k - 1].WriteStep? {
        StatementKeepsOwner(states[k - 1].db, states[k - 1].pending[events[k - 1].h], ns);
      }
    }
  }

  lemma {:induction false} RunKeepsWellFormed(events: seq<Event>, states: seq<System>, k: nat)
    requires IsRun(events, states) && k <= |events| && WellFormed(states[0].db)
    ensures WellFormed(states[k].db)
  {
    if k > 0 {
      RunKeepsWellFormed(events, states, k - 1);
      if events[k - 1].WriteStep? {
        StatementKeepsWellFormed(states[k - 1].db, states[k - 1].pending[events[k - 1].h]);
      }
    }
  }

  /**
   From an empty database, under every interleaving: each group has an owner that is a user, and
   each membership is of an existing group at a legal level.
   */
  lemma {:induction false} FromEmptyEveryGroupIsOwned(events: seq<Event>, states: seq<System>, k: nat, ns: int)
    requires IsRun(events, states) && k <= |events| && states[0].db == Db(map[], map[], map[], map[])
    ensures WellFormed(states[k].db)
    ensures IsGroup(states[k].db, ns) ==> exists u :: u in states[k].db.users && OwnsGroup(states[k].db.members, ns, u)
  {
    RunKeepsWellFormed(events, states, k);
    RunKeepsGroupOwner(events, states, ns, 0, k);
    if IsGroup(states[k].db, ns) {
      var u :| OwnsGroup(states[k].db.members, ns, u);
      assert (ns, u) in states[k].db.members;
    }
  }

  // ---------------------------------------------------------------- what is written, and when

  /** The write a request asks for. */
  ghost predicate Asks(r: Request, stmt: Stmt) {
    || (r.UpdateUserReq? && stmt.UpdateUserStmt? && stmt.u == r.id && stmt.admin == r.admin && stmt.active == r.active)
    || (r.DeleteUserReq? && stmt.DeleteUserStmt? && stmt.u == r.id && stmt.order == r.order)
    || (r.AddMemberReq? && stmt.UpsertMemberStmt? && stmt.ns == r.ns && stmt.u == r.u && stmt.level == r.level)
    || (r.RemoveMemberReq? && stmt.DeleteMemberStmt? && stmt.ns == r.ns && stmt.u == r.u)
    || (r.DeleteGroupReq? && stmt.DeleteGroupStmt? && stmt.ns == r.ns)
    || (r.DirectReq? && stmt == r.stmt)
  }

  /** A request is refused or leads to the write it asks for; group requests are refused to all but those in charge. */
  lemma {:induction false} RequestsAskForWrites(db: Db, r: Request)
    ensures Check(db, r).Ok? ==> Asks(r, Check(db, r).value)
    ensures r.AddMemberReq? || r.DeleteGroupReq? ==>
              Check(db, r).Ok? ==> r.callerAdmin || RunsGroup(db.members, r.ns, r.caller)
    ensures r.RemoveMemberReq? && Check(db, r).Ok? ==>
              r.callerAdmin || RunsGroup(db.members, r.ns, r.caller) || r.u == r.caller
  {
  }

  /** The statement pending for h was decided at step i, and h has done nothing since. */
  ghost predicate DecidedAt(events: seq<Event>, states: seq<System>, h: nat, i: nat, k: nat)
    requires |states| == |events| + 1 && k <= |events|
  {
    && i < k && events[i].CheckStep? && events[i].h == h && h in states[k].pending
    && Check(states[i].db, events[i].r) == Ok(states[k].pending[h])
    && forall m | i < m < k :: events[m].h != h
  }

  lemma {:induction false} PendingWasDecided(events: seq<Event>, states: seq<System>, h: nat, k: nat) returns (i: nat)
    requires IsRun(events, states) && states[0].pending == map[] && k <= |events| && h in states[k].pending
    ensures DecidedAt(events, states, h, i, k)
  {
    assert k > 0;
    if events[k - 1].h == h {
      i := k - 1;
    } else {
      i := PendingWasDecided(events, states, h, k - 1);
    }
  }

  /**
   Every write executes the statement its request asked for and a check let pass, once: between two
   writes of one handler lies a check. The database changes at writes only.
   */
  lemma {:induction false} WritesWereChecked(events: seq<Event>, states: seq<System>, k: nat) returns (i: nat)
    requires IsRun(events, states) && states[0].pending == map[] && k < |events| && events[k].WriteStep?
    ensures DecidedAt(events, states, events[k].h, i, k) && Asks(events[i].r, states[k].pending[events[k].h])
    ensures match Execute(states[k].db, states[k].pending[events[k].h])
            case Ok(db) => states[k + 1].db == db
            case Err(_) => states[k + 1].db == states[k].db
    ensures events[k].h !in states[k + 1].pending
  {
    assert Enabled(states[k], events[k]);
    i := PendingWasDecided(events, states, events[k].h, k);
    RequestsAskForWrites(states[i].db, events[i].r);
  }

  lemma {:induction false} OtherStepsWriteNothing(events: seq<Event>, states: seq<System>, k: nat, h: nat)
    requires IsRun(events, states) && k < |events|
    ensures !events[k].WriteStep? ==> states[k + 1].db == states[k].db
    ensures events[k].AbandonStep? ==> states[k + 1].pending == states[k].pending - {events[k].h}
    ensures events[k].CheckStep? ==>
              (events[k].h in states[k + 1].pending <==> Check(states[k].db, events[k].r).Ok?)
    ensures events[k].h != h ==> (h in states[k + 1].pending <==> h in states[k].pending)
    ensures events[k].h != h && h in states[k].pending ==> states[k + 1].pending[h] == states[k].pending[h]
    ensures h !in states[k].pending <==> forall r :: Enabled(states[k], CheckStep(h, r))
  {
    assert Enabled(states[k], events[k]);
    assert Enabled(states[k], CheckStep(h, DirectReq(DeleteProjectStmt(0)))) <==> h !in states[k].pending;
  }

  // ---------------------------------------------------------------- the handlers' counts against the triggers

  /** A count of at most one, with one known member, says there is no other. */
  lemma {:induction false} AtMostOne<T>(s: set<T>, x: T)
    requires x in s
    ensures |s| <= 1 <==> forall y | y in s :: y == x
  {
    var rest := s - {x};
    assert |rest| == |s| - 1;
    if |s| <= 1 {
      assert rest == {};
      forall y | y in s
        ensures y == x
      {
        assert y !in rest;
      }
    }
    if forall y | y in s :: y == x {
      assert rest == {};
    }
  }

  lemma {:induction false} AdminCount(db: Db, u: int)
    requires IsActiveAdmin(db, u)
    ensures |ActiveAdmins(db)| <= 1 <==> !OtherActiveAdmin(db, u)
  {
    AtMostOne(ActiveAdmins(db), u);
    if !OtherActiveAdmin(db, u) {
      assert forall v | v in ActiveAdmins(db) :: v == u;
    } else {
      var v :| v in db.users && v != u && IsActiveAdmin(db, v);
      assert v in ActiveAdmins(db);
    }
  }

  lemma {:induction false} OwnerCount(db: Db, ns: int, u: int)
    requires OwnsGroup(db.members, ns, u)
    ensures |Owners(db, ns)| <= 1 <==> !OtherOwner(db.members, ns, u)
  {
    AtMostOne(Owners(db, ns), (ns, u));
    if OtherOwner(db.members, ns, u) {
      var k :| k in db.members && k.0 == ns && k.1 != u && db.members[k] == OWNER;
      assert k in Owners(db, ns);
    } else {
      forall k | k in Owners(db, ns)
        ensures k == (ns, u)
      {
        assert k.1 == u;
      }
    }
  }

  /** An owner of the group: a membership of it at level 50, the highest there is. */
  ghost predicate RunsGroup(members: map<(int, int), int>, ns: int, u: int) {
    (ns, u) in members && members[(ns, u)] >= 50
  }

  /** Only administrators and owners of the group write its members; members may also remove themselves. */
  lemma {:induction false} OwnersRunGroups(db: Db, caller: int, callerAdmin: bool, ns: int, u: int, level: int)
    ensures CheckAddMember(db, caller, callerAdmin, ns, u, level) == Err(NotAllowed) <==>
            IsGroup(db, ns) && !callerAdmin && !RunsGroup(db.members, ns, caller)
    ensures CheckRemoveMember(db, caller, callerAdmin, ns, u) == Err(NotAllowed) <==>
            IsGroup(db, ns) && !callerAdmin && !RunsGroup(db.members, ns, caller) && u != caller
    ensures CheckDeleteGroup(db, caller, callerAdmin, ns) == Err(NotAllowed) <==>
            !callerAdmin && !RunsGroup(db.members, ns, caller)
    ensures WellFormed(db) && RunsGroup(db.members, ns, caller) ==> db.members[(ns, caller)] == 50
  {
  }

  /** `update_user` refuses for the administrators' sake exactly the writes the trigger would abort. */
  lemma {:induction false} UpdateUserAgrees(db: Db, caller: int, id: int, admin: Option<bool>, active: Option<bool>)
    ensures var checked := CheckUpdateUser(db, caller, id, admin, active);
            && (checked.Ok? ==> Execute(db, checked.value).Ok?)
            && (checked == Err(AdminConflict) ==> UpdateUser(db, id, admin, active) == Err(LastAdmin))
            && (UpdateUser(db, id, admin, active) == Err(LastAdmin) ==>
                  checked == Err(AdminConflict) || (checked == Err(Invalid) && id == caller))
  {
    if IsActiveAdmin(db, id) {
      AdminCount(db, id);
    }
  }

  /** `add_member` refuses for the owners' sake exactly the writes the trigger would abort. */
  lemma {:induction false} AddMemberAgrees(db: Db, caller: int, callerAdmin: bool, ns: int, u: int, level: int)
    ensures var checked := CheckAddMember(db, caller, callerAdmin, ns, u, level);
            && (checked.Ok? ==> (Execute(db, checked.value).Ok? <==> u in db.users || (ns, u) in db.members))
            && (checked.Ok? && Execute(db, checked.value).Err? ==> Execute(db, checked.value) == Err(ForeignKey))
            && (checked == Err(OwnerConflict) ==> UpsertMember(db, ns, u, level) == Err(LastOwner))
            && (UpsertMember(db, ns, u, level) == Err(LastOwner) && MayRun(db, ns, caller, callerAdmin) ==>
                  checked == Err(OwnerConflict))
  {
    if OwnsGroup(db.members, ns, u) {
      OwnerCount(db, ns, u);
    }
  }

  lemma {:induction false} RemoveMemberAgrees(db: Db, caller: int, callerAdmin: bool, ns: int, u: int)
    ensures var checked := CheckRemoveMember(db, caller, callerAdmin, ns, u);
            && (checked.Ok? ==> Execute(db, checked.value).Ok?)
            && (checked == Err(OwnerConflict) ==> DeleteMember(db, ns, u) == Err(LastOwner))
            && (IsGroup(db, ns) && DeleteMember(db, ns, u) == Err(LastOwner) && checked != Err(NotAllowed) ==>
                  checked == Err(OwnerConflict))
  {
    if OwnsGroup(db.members, ns, u) {
      OwnerCount(db, ns, u);
    }
  }

  lemma {:induction false} DeleteGroupAgrees(db: Db, caller: int, callerAdmin: bool, ns: int)
    ensures var checked := CheckDeleteGroup(db, caller, callerAdmin, ns);
            && (checked.Ok? ==> Execute(db, checked.value).Ok?)
            && (IsGroup(db, ns) && checked == Err(ProjectsConflict) ==> DeleteGroup(db, ns) == Err(ForeignKey))
  {
  }

  /**
   `delete_user`, called by an active administrator, never reaches an aborting delete. Its
   sole-owner conflict agrees with the trigger when memberships cascade first; when namespaces
   cascade first the trigger objects only to a group that is not the user's own namespace.
   */
  lemma {:induction false} DeleteUserAgrees(db: Db, caller: int, id: int, order: Order)
    requires WellFormed(db) && IsActiveAdmin(db, caller)
    ensures var checked := CheckDeleteUser(db, caller, id, order);
            && (checked.Ok? ==> DeleteUser(db, id, order).Ok?)
            && (checked == Err(ProjectsConflict) ==> !DeleteUser(db, id, order).Ok?)
            && (checked == Err(OwnerConflict) && order == MembersFirst ==> DeleteUser(db, id, order) == Err(LastOwner))
            && (checked == Err(OwnerConflict) && order == NamespacesFirst ==>
                  (DeleteUser(db, id, order).Ok? <==>
                   forall k | k in db.members && k.1 == id && OnlyOwner(db.members, k.0, id) :: k.0 in Doomed(db, id)))
  {
    if id != caller && IsActiveAdmin(db, id) {
      assert OtherActiveAdmin(db, id);
    }
    var checked := CheckDeleteUser(db, caller, id, order);
    if checked == Err(OwnerConflict) {
      var k :| k in db.members && k.1 == id && OnlyOwner(db.members, k.0, id);
      assert k.0 in db.namespaces && id in db.users;
    }
    if checked == Err(ProjectsConflict) {
      var p :| p in db.projects && db.projects[p] in Doomed(db, id);
      var ns := db.projects[p];
      assert ns in db.namespaces && db.namespaces[ns].owner == Some(id);
      assert id in db.users;
    }
  }

  /** A group created by a push is its creator's own namespace, and only the check stands in the way. */
  lemma {:induction false} OwnGroupConflict()
    returns (db: Db)
    ensures WellFormed(db) && IsActiveAdmin(db, 1)
    ensures CheckDeleteUser(db, 1, 2, NamespacesFirst) == Err(OwnerConflict)
    ensures DeleteUser(db, 2, NamespacesFirst).Ok? && DeleteUser(db, 2, MembersFirst) == Err(LastOwner)
  {
    var empty := Db(map[1 := Account(true, true), 2 := Account(false, true)], map[], map[], map[]);
    db := After(empty, CreateGroupStmt(7, 2, Some(2)));
    assert (7, 2) in db.members && OnlyOwner(db.members, 7, 2);
    assert IsActiveAdmin(db, 1) && !IsActiveAdmin(db, 2);
  }

  // ---------------------------------------------------------------- the delete's cascade, row by row

  lemma {:induction false} OtherUsersUntouched(members: map<(int, int), int>, now: map<(int, int), int>, ns: int,
                                               u: int)
    requires forall k | k in members && k.0 == ns && k.1 != u :: k in now && now[k] == members[k]
    requires forall k | k in now :: k in members && now[k] == members[k]
    ensures OtherOwner(now, ns, u) == OtherOwner(members, ns, u)
  {
  }

  function RowsOf(members: map<(int, int), int>, u: int): set<(int, int)> {
    set k | k in members && k.1 == u
  }

  function MembersOf(members: map<(int, int), int>, gone: set<int>): set<(int, int)> {
    set k | k in members && k.0 in gone
  }

  /** Rows that went with their namespaces do not change what the trigger says of the others. */
  lemma {:induction false} RefusedAfterNamespaces(members: map<(int, int), int>, present: set<int>, gone: set<int>,
                                                  u: int)
    ensures Refused(members - MembersOf(members, gone), present - gone, u) == Refused(members, present - gone, u)
  {
  }

  predicate HoldsProjects(projects: map<int, int>, gone: set<int>) {
    exists p | p in projects :: projects[p] in gone
  }

  datatype Outcome = Done | Declined(refusal: Refusal) | Failed(abort: Abort)

  class Database {
    var users: map<int, Account>
    var namespaces: map<int, Namespace>
    var members: map<(int, int), int>
    var projects: map<int, int>

    function Contents(): Db
      reads this
    {
      Db(users, namespaces, members, projects)
    }

    /** The user's membership rows go one at a time, each past its before-trigger; false when one is refused. */
    method CascadeMembers(u: int) returns (ok: bool)
      modifies this`members
      ensures ok <==> !Refused(old(members), namespaces.Keys, u)
      ensures ok ==> members == old(members) - RowsOf(old(members), u)
    {
      var rows := RowsOf(members, u);
      var pending := rows;
      while pending != {}
        invariant pending <= rows
        invariant members == old(members) - (rows - pending)
        invariant forall k | k in rows - pending :: !(k.0 in namespaces && OnlyOwner(old(members), k.0, u))
        decreases pending
      {
        var row :| row in pending;
        OtherUsersUntouched(old(members), members, row.0, u);
        assert row == (row.0, u) && row in members;
        if row.0 in namespaces && OnlyOwner(members, row.0, u) {
          return false;
        }
        members := members - {row};
        pending := pending - {row};
        assert rows - pending == (rows - (pending + {row})) + {row};
      }
      assert rows - pending == rows;
      ok := true;
    }

    /** The user's namespaces go one at a time, each taking its memberships along; true when projects remain. */
    method CascadeNamespaces(u: int) returns (violated: bool)
      modifies this`namespaces, this`members
      ensures namespaces == old(namespaces) - Doomed(old(Contents()), u)
      ensures members == old(members) - MembersOf(old(members), Doomed(old(Contents()), u))
      ensures violated <==> HoldsProjects(projects, Doomed(old(Contents()), u))
    {
      var doomed := Doomed(Contents(), u);
      var pending := doomed;
      ghost var gone: set<int> := {};
      violated := false;
      while pending != {}
        invariant pending <= doomed && pending + gone == doomed
        invariant namespaces == old(namespaces) - gone
        invariant members == old(members) - MembersOf(old(members), gone)
        invariant violated <==> HoldsProjects(projects, gone)
        decreases pending
      {
        assert (forall x :: x !in pending) ==> pending == {};
        var ns :| ns in pending;
        namespaces := namespaces - {ns};
        DropMembersOf(ns);
        violated := violated || HoldsProjects(projects, {ns});
        pending := pending - {ns};
        gone := gone + {ns};
      }
    }

    /** The cascade of one deleted namespace: the owner trigger no longer finds the namespace. */
    method DropMembersOf(ns: int)
      requires ns !in namespaces
      modifies this`members
      ensures members == old(members) - MembersOf(old(members), {ns})
    {
      var rows := MembersOf(members, {ns});
      var pending := rows;
      while pending != {}
        invariant pending <= rows
        invariant members == old(members) - (rows - pending)
        decreases pending
      {
        var row :| row in pending;
        members := members - {row};
        pending := pending - {row};
        assert rows - pending == (rows - (pending + {row})) + {row};
      }
    }

    /** Both cascades in the given order; `ok` is false when the owner trigger refused a row. */
    method Cascade(u: int, order: Order) returns (ok: bool, violated: bool)
      modifies this`namespaces, this`members
      ensures var doomed := Doomed(old(Contents()), u);
              && (ok <==> !Refused(old(members), Guarded(old(Contents()), u, order), u))
              && (ok ==> namespaces == old(namespaces) - doomed)
              && (ok ==> members == old(members) - LostMembers(old(Contents()), u))
              && (ok ==> (violated <==> HoldsProjects(projects, doomed)))
    {
      violated := false;
      ghost var doomed := Doomed(old(Contents()), u);
      if order == MembersFirst {
        ok := CascadeMembers(u);
        if ok {
          violated := CascadeNamespaces(u);
        }
      } else {
        violated := CascadeNamespaces(u);
        assert namespaces.Keys == old(namespaces).Keys - doomed;
        RefusedAfterNamespaces(old(members), old(namespaces).Keys, doomed, u);
        ok := CascadeMembers(u);
      }
    }

    /** The statement as the engine runs it: trigger, row, cascades in the given order, foreign keys, rollback. */
    method DeleteUser(u: int, order: Order) returns (aborted: Option<Abort>)
      modifies this
      ensures Contents() == After(old(Contents()), DeleteUserStmt(u, order))
      ensures match Execute(old(Contents()), DeleteUserStmt(u, order))
              case Ok(_) => aborted == None
              case Err(reason) => aborted == Some(reason)
    {
      if u !in users {
        return None;
      }
      if IsActiveAdmin(Contents(), u) && !OtherActiveAdmin(Contents(), u) {
        return Some(LastAdmin);
      }
      var saved := Contents();
      users := users - {u};
      var ok, violated := Cascade(u, order);
      if !ok || violated {
        users, namespaces, members, projects := saved.users, saved.namespaces, saved.members, saved.projects;
        return Some(if !ok then LastOwner else ForeignKey);
      }
      aborted := None;
    }

    // The handlers, one at a time. Their own counts make the triggers' tests redundant: the writes
    // below happen without them and are still the statements' results.

    method HandleUpdateUser(caller: int, id: int, admin: Option<bool>, active: Option<bool>) returns (outcome: Outcome)
      modifies this
      ensures match CheckUpdateUser(old(Contents()), caller, id, admin, active)
              case Err(refusal) => outcome == Declined(refusal) && Contents() == old(Contents())
              case Ok(stmt) => outcome == Done && Execute(old(Contents()), stmt) == Ok(Contents())
    {
      UpdateUserAgrees(Contents(), caller, id, admin, active);
      if active == Some(false) && id == caller {
        return Declined(Invalid);
      }
      if id !in users {
        return Declined(NotFound);
      }
      var current := users[id];
      if current.admin && current.active && (admin == Some(false) || active == Some(false)) {
        var activeAdmins := ActiveAdmins(Contents());
        if |activeAdmins| <= 1 {
          return Declined(AdminConflict);
        }
      }
      users := users[id := Account(if admin.Some? then admin.value else current.admin,
                                   if active.Some? then active.value else current.active)];
      outcome := Done;
    }

    method HandleAddMember(caller: int, callerAdmin: bool, ns: int, u: int, level: int) returns (outcome: Outcome)
      modifies this
      ensures match CheckAddMember(old(Contents()), caller, callerAdmin, ns, u, level)
              case Err(refusal) => outcome == Declined(refusal) && Contents() == old(Contents())
              case Ok(stmt) =>
                && Contents() == After(old(Contents()), stmt)
                && outcome == if u in users || (ns, u) in old(members) then Done else Failed(ForeignKey)
      ensures outcome == Declined(NotAllowed) <==>
              IsGroup(old(Contents()), ns) && !callerAdmin && !RunsGroup(old(members), ns, caller)
    {
      AddMemberAgrees(Contents(), caller, callerAdmin, ns, u, level);
      if !IsGroup(Contents(), ns) {
        return Declined(NotFound);
      }
      if !MayRun(Contents(), ns, caller, callerAdmin) {
        return Declined(NotAllowed);
      }
      if !IsLevel(level) {
        return Declined(Invalid);
      }
      var existing := GroupLevel(Contents(), ns, u);
      if existing == OWNER && level != OWNER {
        var owners := Owners(Contents(), ns);
        if |owners| <= 1 {
          return Declined(OwnerConflict);
        }
      }
      if (ns, u) !in members && u !in users {
        return Failed(ForeignKey);
      }
      members := members[(ns, u) := level];
      outcome := Done;
    }

    method HandleRemoveMember(caller: int, callerAdmin: bool, ns: int, u: int) returns (outcome: Outcome)
      modifies this
      ensures match CheckRemoveMember(old(Contents()), caller, callerAdmin, ns, u)
              case Err(refusal) => outcome == Declined(refusal) && Contents() == old(Contents())
              case Ok(stmt) =>
                && Execute(old(Contents()), stmt) == Ok(Contents())
                && outcome == if (ns, u) in old(members) then Done else Declined(NotFound)
      ensures outcome == Declined(NotAllowed) <==>
              IsGroup(old(Contents()), ns) && !callerAdmin && !RunsGroup(old(members), ns, caller) && u != caller
    {
      RemoveMemberAgrees(Contents(), caller, callerAdmin, ns, u);
      if !IsGroup(Contents(), ns) {
        return Declined(NotFound);
      }
      if u != caller && !MayRun(Contents(), ns, caller, callerAdmin) {
        return Declined(NotAllowed);
      }
      var target := GroupLevel(Contents(), ns, u);
      if target == OWNER {
        var owners := Owners(Contents(), ns);
        if |owners| <= 1 {
          return Declined(OwnerConflict);
        }
      }
      outcome := if (ns, u) in members then Done else Declined(NotFound);
      members := members - {(ns, u)};
    }

    method HandleDeleteGroup(caller: int, callerAdmin: bool, ns: int) returns (outcome: Outcome)
      modifies this
      ensures match CheckDeleteGroup(old(Contents()), caller, callerAdmin, ns)
              case Err(refusal) => outcome == Declined(refusal) && Contents() == old(Contents())
              case Ok(stmt) =>
                && Execute(old(Contents()), stmt) == Ok(Contents())
                && outcome == if IsGroup(old(Contents()), ns) then Done else Declined(NotFound)
      ensures outcome == Declined(NotAllowed) <==> !callerAdmin && !RunsGroup(old(members), ns, caller)
    {
      if !MayRun(Contents(), ns, caller, callerAdmin) {
        return Declined(NotAllowed);
      }
      if exists p | p in projects :: projects[p] == ns {
        return Declined(ProjectsConflict);
      }
      if !IsGroup(Contents(), ns) {
        return Declined(NotFound);
      }
      namespaces := namespaces - {ns};
      DropMembersOf(ns);
      assert MembersOf(old(members), {ns}) == set k | k in old(members) && k.0 == ns;
      outcome := Done;
    }

    /** `delete_user` called by an active administrator: a deletion that passes the checks is never aborted. */
    method HandleDeleteUser(caller: int, id: int, order: Order) returns (outcome: Outcome)
      requires WellFormed(Contents()) && IsActiveAdmin(Contents(), caller)
      modifies this
      ensures match CheckDeleteUser(old(Contents()), caller, id, order)
              case Err(refusal) => outcome == Declined(refusal) && Contents() == old(Contents())
              case Ok(stmt) =>
                && Execute(old(Contents()), stmt) == Ok(Contents())
                && outcome == if id in old(users) then Done else Declined(NotFound)
    {
      DeleteUserAgrees(Contents(), caller, id, order);
      if id == caller {
        return Declined(Invalid);
      }
      if HoldsProjects(projects, Doomed(Contents(), id)) {
        return Declined(ProjectsConflict);
      }
      if exists k | k in members :: k.1 == id && OnlyOwner(members, k.0, id) {
        return Declined(OwnerConflict);
      }
      outcome := if id in users then Done else Declined(NotFound);
      var aborted := DeleteUser(id, order);
    }
  }
}
