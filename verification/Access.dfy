/** Access levels, visibility, and the decision whether a caller may act on a project. */
module Access {
  import opened Prelude

  const GUEST := 10
  const DEVELOPER := 30
  const MAINTAINER := 40
  const OWNER := 50

  const PRIVATE := 0
  const INTERNAL := 10
  const PUBLIC := 20

  predicate IsLevel(v: int) {
    v == 10 || v == 20 || v == 30 || v == 40 || v == 50
  }

  predicate IsVisibility(v: int) {
    v == PRIVATE || v == INTERNAL || v == PUBLIC
  }

  /** `AccessLevel::from_i32`. */
  function LevelOf(v: int): Option<int> {
    if IsLevel(v) then Some(v) else None
  }

  datatype Action = Read | Write | Admin

  function RequiredLevel(action: Action): int {
    match action
    case Read => GUEST
    case Write => DEVELOPER
    case Admin => MAINTAINER
  }

  datatype NamespaceKind = UserSpace | GroupSpace

  datatype Namespace = Namespace(kind: NamespaceKind, owner: Option<int>)

  datatype Project = Project(id: int, namespace: int, visibility: int, archived: bool)

  datatype User = User(id: int, admin: bool, active: bool)

  /** Membership tables, keyed by (project, user) and (namespace, user). */
  datatype Tables = Tables(
    namespaces: map<int, Namespace>,
    projectMembers: map<(int, int), int>,
    groupMembers: map<(int, int), int>)

  /** SQL MAX of two nullable levels. */
  function MaxOption(a: Option<int>, b: Option<int>): Option<int> {
    match (a, b)
    case (None, _) => b
    case (_, None) => a
    case (Some(x), Some(y)) => Some(Max(x, y))
  }

  function Lookup(table: map<(int, int), int>, at: int, user: int): Option<int> {
    if (at, user) in table then Some(table[(at, user)]) else None
  }

  function Ownership(t: Tables, user: int, namespace: int): Option<int> {
    if namespace in t.namespaces && t.namespaces[namespace].owner == Some(user) then Some(OWNER) else None
  }

  /** The largest of project membership, group membership and namespace ownership. */
  function MaxLevel(t: Tables, user: int, p: Project): Option<int> {
    MaxOption(Lookup(t.projectMembers, p.id, user),
              MaxOption(Lookup(t.groupMembers, p.namespace, user), Ownership(t, user, p.namespace)))
  }

  function EffectiveLevel(t: Tables, user: int, p: Project): Option<int> {
    match MaxLevel(t, user, p)
    case None => None
    case Some(v) => LevelOf(v)
  }

  datatype Decision = Granted | Unauthorized | Forbidden

  /** `authorize_repo`; `None` is an anonymous caller. */
  function Authorize(t: Tables, caller: Option<User>, p: Project, action: Action): Decision {
    if action == Write && p.archived then Forbidden
    else
      var visibility := if IsVisibility(p.visibility) then p.visibility else PRIVATE;
      match caller
      case None => if action == Read && visibility == PUBLIC then Granted else Unauthorized
      case Some(user) =>
        if !user.active then Forbidden
        else if user.admin then Granted
        else if action == Read && visibility >= INTERNAL then Granted
        else match EffectiveLevel(t, user.id, p)
          case Some(level) => if level >= RequiredLevel(action) then Granted else Forbidden
          case None => Forbidden
  }

  /** What the triggers and validators keep true of the tables: legal levels only. */
  ghost predicate LegalLevels(t: Tables) {
    && (forall k | k in t.projectMembers :: IsLevel(t.projectMembers[k]))
    && (forall k | k in t.groupMembers :: IsLevel(t.groupMembers[k]))
  }

  // ---------------------------------------------------------------- what a decision means

  /** Some source gives the user at least this level: a project row, a group row, or owning the namespace. */
  ghost predicate HasLevel(t: Tables, user: int, p: Project, needed: int) {
    || ((p.id, user) in t.projectMembers && t.projectMembers[(p.id, user)] >= needed)
    || ((p.namespace, user) in t.groupMembers && t.groupMembers[(p.namespace, user)] >= needed)
    || (p.namespace in t.namespaces && t.namespaces[p.namespace].owner == Some(user) && 50 >= needed)
  }

  /**
   An active member reads an internal or public project, and otherwise from level 10 on; writes from
   level 30 on unless the project is archived; administers from level 40 on.
   */
  lemma {:induction false} MemberMayAct(t: Tables, user: User, p: Project)
    requires LegalLevels(t) && user.active && !user.admin
    ensures Authorize(t, Some(user), p, Read) == Granted <==>
            HasLevel(t, user.id, p, 10) || p.visibility == 10 || p.visibility == 20
    ensures Authorize(t, Some(user), p, Write) == Granted <==> HasLevel(t, user.id, p, 30) && !p.archived
    ensures Authorize(t, Some(user), p, Admin) == Granted <==> HasLevel(t, user.id, p, 40)
  {
  }

  /** The level is stored for the user at some source, and no source stores a larger one. */
  ghost predicate IsGreatest(t: Tables, user: int, p: Project, level: int) {
    && HasLevel(t, user, p, level) && !HasLevel(t, user, p, level + 1)
  }

  /** Whatever the tables hold: only the five levels count, and a larger stored number hides the smaller ones. */
  lemma {:induction false} GreatestDecides(t: Tables, user: User, p: Project, level: int)
    requires user.active && !user.admin && p.visibility !in {10, 20} && IsGreatest(t, user.id, p, level)
    ensures Authorize(t, Some(user), p, Read) == Granted <==> level in {10, 20, 30, 40, 50}
    ensures Authorize(t, Some(user), p, Write) == Granted <==> level in {30, 40, 50} && !p.archived
    ensures Authorize(t, Some(user), p, Admin) == Granted <==> level in {40, 50}
  {
  }

  /** Without a row or the namespace only public and internal projects can be read. */
  lemma {:induction false} NoSourceNoAccess(t: Tables, user: User, p: Project, action: Action)
    requires user.active && !user.admin
    requires (p.id, user.id) !in t.projectMembers && (p.namespace, user.id) !in t.groupMembers
    requires p.namespace in t.namespaces ==> t.namespaces[p.namespace].owner != Some(user.id)
    ensures Authorize(t, Some(user), p, action) == Granted <==> action == Read && p.visibility in {10, 20}
  {
  }

  /** An active administrator may do anything but write an archived project; an inactive user may do nothing. */
  lemma {:induction false} AdminsAndInactive(t: Tables, user: User, p: Project, action: Action)
    ensures user.active && user.admin ==>
              (Authorize(t, Some(user), p, action) == Granted <==> action != Write || !p.archived)
    ensures !user.active ==> Authorize(t, Some(user), p, action) == Forbidden
    ensures Authorize(t, Some(user), p, action) != Unauthorized
  {
  }

  /** Nobody who is not signed in does more than read a public project. */
  lemma {:induction false} AnonymousMayRead(t: Tables, p: Project, action: Action)
    ensures Authorize(t, None, p, action) == Granted <==> action == Read && p.visibility == 20
    ensures Authorize(t, None, p, action) == Forbidden <==> action == Write && p.archived
  {
  }

  /** Who may administer a project may write it unless it is archived, and who may write it may read it. */
  lemma {:induction false} ActionsNest(t: Tables, caller: Option<User>, p: Project)
    requires LegalLevels(t)
    ensures Authorize(t, caller, p, Admin) == Granted && !p.archived ==> Authorize(t, caller, p, Write) == Granted
    ensures Authorize(t, caller, p, Write) == Granted ==> Authorize(t, caller, p, Read) == Granted
    ensures Authorize(t, caller, p, Admin) == Granted ==> Authorize(t, caller, p, Read) == Granted
  {
  }
}
