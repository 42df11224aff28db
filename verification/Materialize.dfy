/**
 Migration of memberships: GitLab's inherited group memberships are copied onto every
 flattened descendant group, so that rgit's flat lookup grants what the nested one did.
 */
module Materialize {
  import opened Prelude
  import opened Flatten
  import Access

  datatype Source = OnProject | OnNamespace

  datatype Member = Member(source: Source, sourceId: Id, user: Id, level: int)

  datatype GlProject = GlProject(id: Id, namespace: Id)

  type Key = (int, int)
  type Entry = (Key, int)

  // ---------------------------------------------------------------- tables of maxima

  function UpsertMax(table: map<Key, int>, key: Key, level: int): map<Key, int> {
    table[key := if key in table then Max(table[key], level) else level]
  }

  /** The table holds, for each key of the entries and no other, the largest level given for it. */
  ghost predicate IsMaxTable(table: map<Key, int>, entries: seq<Entry>) {
    && (forall e | e in entries :: e.0 in table && e.1 <= table[e.0])
    && (forall k | k in table :: (k, table[k]) in entries)
  }

  lemma {:induction false} UpsertKeepsMaxima(table: map<Key, int>, entries: seq<Entry>, key: Key, level: int)
    requires IsMaxTable(table, entries)
    ensures IsMaxTable(UpsertMax(table, key, level), entries + [(key, level)])
  {
  }

  // ---------------------------------------------------------------- what the loops visit

  function ProjectEntries(members: seq<Member>, users: set<Id>, projects: set<Id>): seq<Entry> {
    if members == [] then []
    else
      var m := members[|members| - 1];
      ProjectEntries(members[..|members| - 1], users, projects)
      + if m.source == OnProject && m.user in users && m.sourceId in projects
        then [((m.sourceId, m.user), m.level)] else []
  }

  /** One membership, copied onto the groups whose ancestry contains its source. */
  function CopiesOf(m: Member, namespaces: seq<GlNamespace>): seq<Entry> {
    if namespaces == [] then []
    else
      var n := namespaces[|namespaces| - 1];
      CopiesOf(m, namespaces[..|namespaces| - 1])
      + if n.kind == Group && m.sourceId in n.ancestry then [((n.id, m.user), m.level)] else []
  }

  /** The copies of one membership, when it is of a namespace and its user was migrated. */
  function Given(m: Member, users: set<Id>, namespaces: seq<GlNamespace>): seq<Entry> {
    if m.source == OnNamespace && m.user in users then CopiesOf(m, namespaces) else []
  }

  function GroupEntries(members: seq<Member>, users: set<Id>, namespaces: seq<GlNamespace>): seq<Entry> {
    if members == [] then []
    else GroupEntries(members[..|members| - 1], users, namespaces) + Given(members[|members| - 1], users, namespaces)
  }

  lemma {:induction false} ProjectEntryMeans(members: seq<Member>, users: set<Id>, projects: set<Id>, e: Entry)
    ensures e in ProjectEntries(members, users, projects) <==>
            exists m :: m in members && m.source == OnProject && m.user in users && m.sourceId in projects
                        && e == ((m.sourceId, m.user), m.level)
  {
    if members != [] {
      var n := |members| - 1;
      ProjectEntryMeans(members[..n], users, projects, e);
      assert members == members[..n] + [members[n]];
    }
  }

  lemma {:induction false} CopyMeans(m: Member, namespaces: seq<GlNamespace>, e: Entry)
    ensures e in CopiesOf(m, namespaces) <==>
            exists g :: g in namespaces && g.kind == Group && m.sourceId in g.ancestry
                        && e == ((g.id, m.user), m.level)
  {
    if namespaces != [] {
      var n := |namespaces| - 1;
      CopyMeans(m, namespaces[..n], e);
      assert namespaces == namespaces[..n] + [namespaces[n]];
    }
  }

  lemma {:induction false} EntryOfEither(a: seq<Entry>, b: seq<Entry>, e: Entry)
    ensures e in a + b <==> e in a || e in b
  {
  }

  lemma {:induction false} GroupEntryMeans(members: seq<Member>, users: set<Id>, namespaces: seq<GlNamespace>, e: Entry)
    ensures e in GroupEntries(members, users, namespaces) <==>
            exists m :: m in members && e in Given(m, users, namespaces)
  {
    if members != [] {
      var n := |members| - 1;
      var before, last := members[..n], members[n];
      GroupEntryMeans(before, users, namespaces, e);
      EntryOfEither(GroupEntries(before, users, namespaces), Given(last, users, namespaces), e);
      assert members == before + [last];
    }
  }

  // ---------------------------------------------------------------- the writer

  /** The namespace rows the migration writes: a user namespace without a migrated owner becomes a group. */
  function NamespaceRow(n: GlNamespace, users: set<Id>): Access.Namespace {
    if n.kind == User && n.owner.Some? && n.owner.value in users
    then Access.Namespace(Access.UserSpace, n.owner)
    else Access.Namespace(Access.GroupSpace, None)
  }

  lemma {:induction false} NextMember(members: seq<Member>, users: set<Id>, namespaces: seq<GlNamespace>, i: nat)
    requires i < |members|
    ensures GroupEntries(members[..i + 1], users, namespaces)
         == GroupEntries(members[..i], users, namespaces) + Given(members[i], users, namespaces)
  {
    assert members[..i + 1][..i] == members[..i];
  }

  lemma {:induction false} NextCopy(levels: map<Key, int>, before: seq<Entry>, m: Member,
                                    namespaces: seq<GlNamespace>, j: nat)
    requires j < |namespaces| && IsMaxTable(levels, before + CopiesOf(m, namespaces[..j]))
    ensures var n := namespaces[j];
            IsMaxTable(if n.kind == Group && m.sourceId in n.ancestry then UpsertMax(levels, (n.id, m.user), m.level)
                       else levels, before + CopiesOf(m, namespaces[..j + 1]))
  {
    var n := namespaces[j];
    var entries := before + CopiesOf(m, namespaces[..j]);
    assert namespaces[..j + 1][..j] == namespaces[..j];
    if n.kind == Group && m.sourceId in n.ancestry {
      UpsertKeepsMaxima(levels, entries, (n.id, m.user), m.level);
      assert before + CopiesOf(m, namespaces[..j + 1]) == entries + [((n.id, m.user), m.level)];
    } else {
      assert CopiesOf(m, namespaces[..j + 1]) == CopiesOf(m, namespaces[..j]);
    }
  }

  class Target {
    var projectMembers: map<Key, int>
    var groupMembers: map<Key, int>

    constructor ()
      ensures projectMembers == map[] && groupMembers == map[]
    {
      projectMembers, groupMembers := map[], map[];
    }

    /** The direct project memberships; a level the trigger refuses aborts the migration. */
    method WriteProjectMembers(members: seq<Member>, users: set<Id>, projects: set<Id>) returns (ok: bool)
      requires projectMembers == map[]
      modifies this`projectMembers
      ensures ok <==> forall e | e in ProjectEntries(members, users, projects) :: Access.IsLevel(e.1)
      ensures ok ==> IsMaxTable(projectMembers, ProjectEntries(members, users, projects))
    {
      for i := 0 to |members|
        invariant IsMaxTable(projectMembers, ProjectEntries(members[..i], users, projects))
        invariant forall e | e in ProjectEntries(members[..i], users, projects) :: Access.IsLevel(e.1)
      {
        var m := members[i];
        assert members[..i + 1][..i] == members[..i];
        if m.source == OnProject && m.user in users && m.sourceId in projects {
          if !Access.IsLevel(m.level) {
            ProjectEntryMeans(members, users, projects, ((m.sourceId, m.user), m.level));
            return false;
          }
          UpsertKeepsMaxima(projectMembers, ProjectEntries(members[..i], users, projects),
                            (m.sourceId, m.user), m.level);
          projectMembers := UpsertMax(projectMembers, (m.sourceId, m.user), m.level);
        }
      }
      assert members[..|members|] == members;
      ok := true;
    }

    /** The level map: every namespace membership against every flattened group. */
    method CollectGroupLevels(members: seq<Member>, users: set<Id>, namespaces: seq<GlNamespace>)
      returns (levels: map<Key, int>)
      ensures IsMaxTable(levels, GroupEntries(members, users, namespaces))
    {
      levels := map[];
      for i := 0 to |members|
        invariant IsMaxTable(levels, GroupEntries(members[..i], users, namespaces))
      {
        var m := members[i];
        NextMember(members, users, namespaces, i);
        if m.source != OnNamespace || m.user !in users {
          continue;
        }
        ghost var before := GroupEntries(members[..i], users, namespaces);
        assert before + CopiesOf(m, namespaces[..0]) == before;
        for j := 0 to |namespaces|
          invariant IsMaxTable(levels, before + CopiesOf(m, namespaces[..j]))
        {
          var n := namespaces[j];
          NextCopy(levels, before, m, namespaces, j);
          if n.kind == Group && m.sourceId in n.ancestry {
            levels := UpsertMax(levels, (n.id, m.user), m.level);
          }
        }
        assert namespaces[..|namespaces|] == namespaces;
      }
      assert members[..|members|] == members;
    }

    /** The level map written out, in whatever order it is iterated. */
    method WriteGroupMembers(levels: map<Key, int>) returns (ok: bool)
      requires groupMembers == map[]
      modifies this`groupMembers
      ensures ok <==> forall k | k in levels :: Access.IsLevel(levels[k])
      ensures ok ==> groupMembers == levels
    {
      var pending := levels.Keys;
      while pending != {}
        invariant pending <= levels.Keys
        invariant groupMembers == map k | k in levels && k !in pending :: levels[k]
        invariant forall k | k in levels && k !in pending :: Access.IsLevel(levels[k])
        decreases pending
      {
        var key :| key in pending;
        if !Access.IsLevel(levels[key]) {
          return false;
        }
        pending := pending - {key};
        groupMembers := UpsertMax(groupMembers, key, levels[key]);
      }
      ok := true;
    }

    /** All memberships of the migration; false when the database refused a level. */
    method WriteMemberships(members: seq<Member>, users: set<Id>, projects: set<Id>, namespaces: seq<GlNamespace>)
      returns (ok: bool)
      requires projectMembers == map[] && groupMembers == map[]
      modifies this
      ensures ok ==> IsMaxTable(projectMembers, ProjectEntries(members, users, projects))
      ensures ok ==> IsMaxTable(groupMembers, GroupEntries(members, users, namespaces))
      ensures ok ==> Access.LegalLevels(Access.Tables(map[], projectMembers, groupMembers))
      ensures (forall m | m in members :: Access.IsLevel(m.level)) ==> ok
    {
      ok := WriteProjectMembers(members, users, projects);
      ghost var direct := ProjectEntries(members, users, projects);
      forall e | e in direct
        ensures exists m :: m in members && m.level == e.1
      {
        ProjectEntryMeans(members, users, projects, e);
      }
      if !ok { return; }
      var levels := CollectGroupLevels(members, users, namespaces);
      forall k | k in levels
        ensures exists m :: m in members && m.level == levels[k]
      {
        GroupEntryMeans(members, users, namespaces, (k, levels[k]));
        var m :| m in members && (k, levels[k]) in CopiesOf(m, namespaces);
        CopyMeans(m, namespaces, (k, levels[k]));
      }
      ok := WriteGroupMembers(levels);
    }
  }

  // ---------------------------------------------------------------- preserved access

  /** The source of a membership is the group itself or one of its ancestors along parent links. */
  ghost predicate AncestorOrSelf(f: Forest, ancestor: Id, g: Id) {
    exists n: nat :: Up(f, g, n) == Some(ancestor)
  }

  lemma {:induction false} ChainIsAncestors(f: Forest, chain: seq<Id>, g: Id, a: Id)
    requires IsChain(f, chain, g)
    ensures a in chain <==> AncestorOrSelf(f, a, g)
  {
    if a in chain {
      var i :| 0 <= i < |chain| && chain[i] == a;
      ChainIsUp(f, chain, g, |chain| - 1 - i);
    }
    if AncestorOrSelf(f, a, g) {
      var n: nat :| Up(f, g, n) == Some(a);
      ChainIsUp(f, chain, g, n);
    }
  }

  /** A level GitLab's nested lookup grants a user on a project. */
  ghost predicate NestedGrant(f: Forest, members: seq<Member>, user: Id, p: GlProject, level: int)
    requires p.namespace in f
  {
    || (exists m :: m in members && m.user == user && m.level == level
                    && m.source == OnProject && m.sourceId == p.id)
    || (exists m :: m in members && m.user == user && m.level == level
                    && m.source == OnNamespace && f[p.namespace].kind == Group
                    && AncestorOrSelf(f, m.sourceId, p.namespace))
    || (level == Access.OWNER && f[p.namespace].kind == User && f[p.namespace].owner == Some(user))
  }

  /** The greatest level the nested lookup grants, or none when it grants nothing. */
  ghost predicate IsGreatestGrant(best: Option<int>, f: Forest, members: seq<Member>, user: Id, p: GlProject)
    requires p.namespace in f
  {
    && (best.Some? ==> NestedGrant(f, members, user, p, best.value))
    && (forall level | NestedGrant(f, members, user, p, level) :: best.Some? && level <= best.value)
  }

  function ProjectIds(projects: seq<GlProject>): set<Id> {
    set p | p in projects :: p.id
  }

  /** What the migration leaves in the database, as far as access goes. */
  ghost predicate Migrated(f: Forest, out: seq<GlNamespace>, users: set<Id>, projects: seq<GlProject>,
                           members: seq<Member>, t: Access.Tables) {
    && (forall n | n in out :: n.id in t.namespaces && t.namespaces[n.id] == NamespaceRow(n, users))
    && IsMaxTable(t.projectMembers, ProjectEntries(members, users, ProjectIds(projects)))
    && IsMaxTable(t.groupMembers, GroupEntries(members, users, out))
  }

  lemma {:induction false} ProjectLookup(members: seq<Member>, users: set<Id>, projects: set<Id>,
                                         table: map<Key, int>, p: Id, user: Id)
    requires IsMaxTable(table, ProjectEntries(members, users, projects))
    requires user in users && p in projects
    ensures var found := Access.Lookup(table, p, user);
            && (found.Some? ==> exists m :: m in members && m.user == user && m.level == found.value
                                            && m.source == OnProject && m.sourceId == p)
            && (forall m | m in members && m.user == user && m.source == OnProject && m.sourceId == p ::
                  found.Some? && m.level <= found.value)
  {
    if (p, user) in table {
      ProjectEntryMeans(members, users, projects, ((p, user), table[(p, user)]));
    }
    forall m | m in members && m.user == user && m.source == OnProject && m.sourceId == p
      ensures (p, user) in table && m.level <= table[(p, user)]
    {
      ProjectEntryMeans(members, users, projects, ((p, user), m.level));
    }
  }

  lemma {:induction false} GroupLookup(f: Forest, out: seq<GlNamespace>, members: seq<Member>, users: set<Id>,
                                       table: map<Key, int>, g: GlNamespace, user: Id)
    requires IsMaxTable(table, GroupEntries(members, users, out))
    requires StrictlyById(out) && g in out && user in users
    requires g.kind == Group ==> IsChain(f, g.ancestry, g.id)
    ensures var found := Access.Lookup(table, g.id, user);
            && (found.Some? ==>
                  g.kind == Group
                  && exists m :: m in members && m.user == user && m.level == found.value
                                 && m.source == OnNamespace && AncestorOrSelf(f, m.sourceId, g.id))
            && (g.kind == Group ==>
                  forall m | m in members && m.user == user && m.source == OnNamespace
                             && AncestorOrSelf(f, m.sourceId, g.id) ::
                    found.Some? && m.level <= found.value)
  {
    if (g.id, user) in table {
      var e: Entry := ((g.id, user), table[(g.id, user)]);
      GroupEntryMeans(members, users, out, e);
      var m :| m in members && m.source == OnNamespace && m.user in users && e in CopiesOf(m, out);
      CopyMeans(m, out, e);
      var h :| h in out && h.kind == Group && m.sourceId in h.ancestry && e == ((h.id, m.user), m.level);
      SameIdSameRow(out, g, h);
      ChainIsAncestors(f, g.ancestry, g.id, m.sourceId);
    }
    if g.kind == Group {
      forall m | m in members && m.user == user && m.source == OnNamespace && AncestorOrSelf(f, m.sourceId, g.id)
        ensures (g.id, user) in table && m.level <= table[(g.id, user)]
      {
        ChainIsAncestors(f, g.ancestry, g.id, m.sourceId);
        CopyMeans(m, out, ((g.id, user), m.level));
        GroupEntryMeans(members, users, out, ((g.id, user), m.level));
      }
    }
  }

  lemma {:induction false} SameIdSameRow(out: seq<GlNamespace>, g: GlNamespace, h: GlNamespace)
    requires StrictlyById(out) && g in out && h in out && g.id == h.id
    ensures g == h
  {
  }

  /** A row's owner is its user namespace's owner, when that user was migrated. */
  lemma {:induction false} OwnershipLookup(f: Forest, out: seq<GlNamespace>, users: set<Id>, t: Access.Tables,
                                           g: GlNamespace, user: Id)
    requires g in out && user in users && g.id in t.namespaces && t.namespaces[g.id] == NamespaceRow(g, users)
    ensures Access.Ownership(t, user, g.id) ==
            if g.kind == User && g.owner == Some(user) then Some(Access.OWNER) else None
  {
  }

  /** A namespace's row in the flat list carries its kind, its owner and, for a group, its chain. */
  lemma {:induction false} RowOf(f: Forest, e: map<Id, Resolved>, paths: map<Id, Text>, out: seq<GlNamespace>, id: Id)
    returns (g: GlNamespace)
    requires IsFlattening(f, e, paths, out) && id in f
    ensures g in out && g.id == id && g.kind == f[id].kind && g.owner == f[id].owner && StrictlyById(out)
    ensures g.kind == Group ==> IsChain(f, g.ancestry, g.id)
  {
    FlatListKeepsAncestry(f, e, paths, out);
    var i :| 0 <= i < |out| && out[i].id == id;
    g := out[i];
  }

  /** Each level the flat lookup can find is granted, and it finds one at least as high as each granted. */
  lemma {:induction false} LookupIsGreatest(
    f: Forest, out: seq<GlNamespace>, users: set<Id>, projects: set<Id>, members: seq<Member>,
    t: Access.Tables, p: GlProject, g: GlNamespace, user: Id)
    requires IsMaxTable(t.projectMembers, ProjectEntries(members, users, projects))
    requires IsMaxTable(t.groupMembers, GroupEntries(members, users, out))
    requires p.id in projects && user in users && p.namespace in f && p.namespace == g.id
    requires g in out && StrictlyById(out) && g.kind == f[g.id].kind && g.owner == f[g.id].owner
    requires g.kind == Group ==> IsChain(f, g.ancestry, g.id)
    requires g.id in t.namespaces && t.namespaces[g.id] == NamespaceRow(g, users)
    ensures IsGreatestGrant(Access.MaxLevel(t, user, Access.Project(p.id, p.namespace, 0, false)),
                            f, members, user, p)
  {
    var onProject := Access.Lookup(t.projectMembers, p.id, user);
    var onGroup := Access.Lookup(t.groupMembers, g.id, user);
    var owned := Access.Ownership(t, user, g.id);
    ProjectLookup(members, users, projects, t.projectMembers, p.id, user);
    GroupLookup(f, out, members, users, t.groupMembers, g, user);
    OwnershipLookup(f, out, users, t, g, user);
    forall level | NestedGrant(f, members, user, p, level)
      ensures var best := Access.MaxOption(onProject, Access.MaxOption(onGroup, owned));
              best.Some? && level <= best.value
    {
      Granted(f, members, user, p, level, onProject, onGroup, owned);
    }
  }

  /**
   Flattening preserves access: for every forest that flattens, every membership list and every
   migrated project and user, the flat lookup is the maximum of what the nested one grants.
   */
  lemma {:induction false} AccessPreserved(
    f: Forest, e: map<Id, Resolved>, paths: map<Id, Text>, out: seq<GlNamespace>, users: set<Id>,
    projects: seq<GlProject>, members: seq<Member>, t: Access.Tables, p: GlProject, user: Id)
    requires IsFlattening(f, e, paths, out) && Migrated(f, out, users, projects, members, t)
    requires p in projects && p.namespace in f && user in users
    ensures IsGreatestGrant(Access.MaxLevel(t, user, Access.Project(p.id, p.namespace, 0, false)),
                            f, members, user, p)
  {
    var g := RowOf(f, e, paths, out, p.namespace);
    LookupIsGreatest(f, out, users, ProjectIds(projects), members, t, p, g, user);
  }

  lemma {:induction false} Granted(f: Forest, members: seq<Member>, user: Id, p: GlProject, level: int,
                                   onProject: Option<int>, onGroup: Option<int>, owned: Option<int>)
    requires p.namespace in f && NestedGrant(f, members, user, p, level)
    requires forall m | m in members && m.user == user && m.source == OnProject && m.sourceId == p.id ::
               onProject.Some? && m.level <= onProject.value
    requires f[p.namespace].kind == Group ==>
               forall m | m in members && m.user == user && m.source == OnNamespace
                          && AncestorOrSelf(f, m.sourceId, p.namespace) ::
                 onGroup.Some? && m.level <= onGroup.value
    requires f[p.namespace].kind == User && f[p.namespace].owner == Some(user) ==> owned == Some(Access.OWNER)
    ensures Access.MaxOption(onProject, Access.MaxOption(onGroup, owned)).Some?
    ensures level <= Access.MaxOption(onProject, Access.MaxOption(onGroup, owned)).value
  {
  }

  /** The tables hold legal levels, so the lookup the server performs is that maximum. */
  lemma {:induction false} LegalLookup(t: Access.Tables, user: int, p: Access.Project)
    requires Access.LegalLevels(t)
    ensures Access.EffectiveLevel(t, user, p) == Access.MaxLevel(t, user, p)
  {
  }

  // ---------------------------------------------------------------- the whole migration

  datatype MigrationError = NotFlattened(error: FlattenError) | NoNamespace(project: Id) | RefusedLevel

  ghost predicate HoldsRows(rows: map<int, Access.Namespace>, out: seq<GlNamespace>, users: set<Id>) {
    && (forall i | 0 <= i < |out| :: out[i].id in rows && rows[out[i].id] == NamespaceRow(out[i], users))
    && (forall id | id in rows :: exists i | 0 <= i < |out| :: out[i].id == id)
  }

  lemma {:induction false} NextRow(rows: map<int, Access.Namespace>, out: seq<GlNamespace>, users: set<Id>, k: nat)
    requires k < |out| && StrictlyById(out) && HoldsRows(rows, out[..k], users)
    ensures HoldsRows(rows[out[k].id := NamespaceRow(out[k], users)], out[..k + 1], users)
  {
    var more, first, now := rows[out[k].id := NamespaceRow(out[k], users)], out[..k], out[..k + 1];
    forall id | id in more
      ensures exists i | 0 <= i < |now| :: now[i].id == id
    {
      if id == out[k].id {
        assert now[k].id == id;
      } else {
        var i :| 0 <= i < |first| && first[i].id == id;
        assert now[i].id == id;
      }
    }
    forall i | 0 <= i < |now|
      ensures now[i].id in more && more[now[i].id] == NamespaceRow(now[i], users)
    {
      assert i < k ==> first[i] == out[i] && out[i].id in rows && out[i].id < out[k].id;
    }
  }

  /** The namespace rows, one per entry of the flat list. */
  method WriteNamespaces(out: seq<GlNamespace>, users: set<Id>) returns (rows: map<int, Access.Namespace>)
    requires StrictlyById(out)
    ensures HoldsRows(rows, out, users)
  {
    rows := map[];
    for i := 0 to |out|
      invariant HoldsRows(rows, out[..i], users)
    {
      NextRow(rows, out, users, i);
      rows := rows[out[i].id := NamespaceRow(out[i], users)];
    }
    assert out[..|out|] == out;
  }

  lemma {:induction false} RowsAreForest(f: Forest, e: map<Id, Resolved>, paths: map<Id, Text>, out: seq<GlNamespace>,
                                         rows: map<int, Access.Namespace>, users: set<Id>)
    requires IsFlattening(f, e, paths, out) && HoldsRows(rows, out, users)
    ensures forall id: Id :: id in rows <==> id in f
    ensures forall n | n in out :: n.id in rows && rows[n.id] == NamespaceRow(n, users)
  {
    FlatListKeepsAncestry(f, e, paths, out);
  }

  lemma {:induction false} GrantsServed(
    f: Forest, e: map<Id, Resolved>, paths: map<Id, Text>, out: seq<GlNamespace>, users: set<Id>,
    projects: seq<GlProject>, members: seq<Member>, t: Access.Tables)
    requires IsFlattening(f, e, paths, out) && Migrated(f, out, users, projects, members, t)
    requires Access.LegalLevels(t) && forall p | p in projects :: p.namespace in f
    ensures forall p, user | p in projects && user in users ::
              IsGreatestGrant(Access.EffectiveLevel(t, user, Access.Project(p.id, p.namespace, 0, false)),
                              f, members, user, p)
  {
    forall p, user | p in projects && user in users
      ensures IsGreatestGrant(Access.EffectiveLevel(t, user, Access.Project(p.id, p.namespace, 0, false)),
                              f, members, user, p)
    {
      AccessPreserved(f, e, paths, out, users, projects, members, t, p, user);
      LegalLookup(t, user, Access.Project(p.id, p.namespace, 0, false));
    }
  }

  /** A user's namespace whose owner was migrated stays that user's; anything else is a group nobody owns. */
  predicate KeepsOwner(ns: RawNamespace, users: set<Id>, row: Access.Namespace) {
    if ns.kind == User && ns.owner.Some? && ns.owner.value in users
    then row.kind.UserSpace? && row.owner == Some(ns.owner.value)
    else row.kind.GroupSpace? && row.owner.None?
  }

  ghost predicate KeepsOwners(f: Forest, users: set<Id>, rows: map<int, Access.Namespace>) {
    forall id: Id :: (id in rows <==> id in f) && (id in f ==> KeepsOwner(f[id], users, rows[id]))
  }

  lemma {:induction false} RowsKeepOwners(f: Forest, e: map<Id, Resolved>, paths: map<Id, Text>, out: seq<GlNamespace>,
                                          rows: map<int, Access.Namespace>, users: set<Id>)
    requires IsFlattening(f, e, paths, out)
    requires forall n | n in out :: n.id in rows && rows[n.id] == NamespaceRow(n, users)
    requires forall id: Id :: id in rows <==> id in f
    ensures KeepsOwners(f, users, rows)
  {
    forall id | id in f
      ensures id in rows && KeepsOwner(f[id], users, rows[id])
    {
      var g := RowOf(f, e, paths, out, id);
    }
  }

  /**
   Flatten, write, and look up: when the migration succeeds, the server grants every migrated user on
   every project the greatest level the nested namespaces granted. It fails only when the forest has
   no flattening, a project's namespace is missing, or a level is illegal.
   */
  method Migrate(raw: seq<RawNamespace>, users: set<Id>, projects: seq<GlProject>, members: seq<Member>)
    returns (r: Result<Access.Tables, MigrationError>)
    requires DistinctIds(raw)
    ensures r.Ok? ==> forall p, user | p in projects && user in users ::
              && p.namespace in ById(raw)
              && IsGreatestGrant(Access.EffectiveLevel(r.value, user, Access.Project(p.id, p.namespace, 0, false)),
                                 ById(raw), members, user, p)
    ensures r.Ok? ==> KeepsOwners(ById(raw), users, r.value.namespaces)
    ensures r.Err? ==>
              match r.error
              case NotFlattened(_) => forall e, paths, out :: !IsFlattening(ById(raw), e, paths, out)
              case NoNamespace(id) => exists p | p in projects :: p.id == id && p.namespace !in ById(raw)
              case RefusedLevel => exists m | m in members :: !Access.IsLevel(m.level)
  {
    ghost var f := ById(raw);
    var flat, warnings, e, paths := FlattenNamespaces(raw);
    if flat.Err? {
      return Err(NotFlattened(flat.error));
    }
    var namespaces := WriteNamespaces(flat.value, users);
    RowsAreForest(f, e, paths, flat.value, namespaces, users);
    RowsKeepOwners(f, e, paths, flat.value, namespaces, users);
    var stray := FirstStray(projects, namespaces);
    if stray < |projects| {
      assert projects[stray] in projects;
      return Err(NoNamespace(projects[stray].id));
    }
    var target := new Target();
    var ok := target.WriteMemberships(members, users, ProjectIds(projects), flat.value);
    if !ok {
      return Err(RefusedLevel);
    }
    var t := Access.Tables(namespaces, target.projectMembers, target.groupMembers);
    GrantsServed(f, e, paths, flat.value, users, projects, members, t);
    r := Ok(t);
  }

  /** The first project whose namespace has no row. */
  method FirstStray(projects: seq<GlProject>, rows: map<int, Access.Namespace>) returns (i: nat)
    ensures i <= |projects| && (i < |projects| ==> projects[i].namespace !in rows)
    ensures forall j | 0 <= j < i :: projects[j].namespace in rows
  {
    i := 0;
    while i < |projects| && projects[i].namespace in rows
      invariant i <= |projects| && forall j | 0 <= j < i :: projects[j].namespace in rows
    {
      i := i + 1;
    }
  }
}
