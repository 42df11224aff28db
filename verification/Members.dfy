/** Project memberships: who may grant, change and revoke which level, over whole runs. */
module Members {
  import opened Prelude
  import opened Access

  /** The write a handler has decided on after its checks. */
  datatype Write = Put(project: int, user: int, level: int) | Drop(project: int, user: int)

  datatype Refusal = NotFound | NotAllowed | Invalid

  /** The largest level of the user on the project, with administrators standing above all; `None` below Maintainer. */
  function CallerLevel(t: Tables, user: User, p: Project): Option<int> {
    if user.admin then Some(OWNER)
    else match EffectiveLevel(t, user.id, p)
      case Some(level) => if level >= MAINTAINER then Some(level) else None
      case None => None
  }

  /** A stored level counts in a comparison only when it is a legal one. */
  function StoredLevel(t: Tables, project: int, user: int): Option<int> {
    match Lookup(t.projectMembers, project, user)
    case Some(v) => LevelOf(v)
    case None => None
  }

  predicate Above(stored: Option<int>, level: int) {
    stored.Some? && stored.value > level
  }

  datatype Request =
    | Add(caller: User, project: int, target: int, level: int)
    | Remove(caller: User, project: int, target: int)

  /** Users and projects stay as they are during the run; memberships change. */
  datatype World = World(users: set<int>, projects: map<int, Project>)

  ghost predicate IsWorld(w: World) {
    forall id | id in w.projects :: w.projects[id].id == id
  }

  /** Removing oneself needs no level. */
  predicate IsLeaving(r: Request) {
    r.Remove? && r.target == r.caller.id
  }

  /** The first read: the caller's level, below which the second read compares. */
  function ReadLevel(w: World, t: Tables, r: Request): Result<int, Refusal> {
    if r.project !in w.projects then Err(NotFound)
    else if IsLeaving(r) then Ok(OWNER)
    else match CallerLevel(t, r.caller, w.projects[r.project])
      case None => Err(NotAllowed)
      case Some(own) => if r.Add? && !IsLevel(r.level) then Err(Invalid) else Ok(own)
  }

  function WriteOf(r: Request): Write {
    match r
    case Add(_, project, target, level) => Put(project, target, level)
    case Remove(_, project, target) => Drop(project, target)
  }

  /** The second read: the target's row. Administrators and leaving members pass whatever it is. */
  function ReadRow(t: Tables, r: Request, own: int): Result<Write, Refusal> {
    if !r.caller.admin && !IsLeaving(r)
       && ((r.Add? && r.level > own) || Above(StoredLevel(t, r.project, r.target), own))
    then Err(NotAllowed)
    else Ok(WriteOf(r))
  }

  /** Both reads of one database. */
  function Check(w: World, t: Tables, r: Request): Result<Write, Refusal> {
    match ReadLevel(w, t, r)
    case Err(reason) => Err(reason)
    case Ok(own) => ReadRow(t, r, own)
  }

  /** The caller has, from some source, a level of at least the one stored in the row. */
  ghost predicate ReachesRow(t: Tables, caller: int, p: Project, target: int) {
    (p.id, target) in t.projectMembers ==> HasLevel(t, caller, p, t.projectMembers[(p.id, target)])
  }

  /**
   Who may do what: a member may leave; an administrator may set any legal level and remove anyone;
   anybody else needs level 40 or more, and at least the level set and the level of the row written.
   */
  lemma {:induction false} WhoMayEdit(w: World, t: Tables, r: Request)
    requires IsWorld(w) && LegalLevels(t) && r.project in w.projects
    ensures var p, c := w.projects[r.project], r.caller;
            Check(w, t, r).Ok? <==>
            || (r.Remove? && (c.admin || r.target == c.id))
            || (r.Add? && r.level in {10, 20, 30, 40, 50} && c.admin)
            || (HasLevel(t, c.id, p, 40) && ReachesRow(t, c.id, p, r.target)
                && (r.Add? ==> r.level in {10, 20, 30, 40, 50} && HasLevel(t, c.id, p, r.level)))
    ensures Check(w, t, r).Ok? ==>
              Check(w, t, r).value == if r.Add? then Put(r.project, r.target, r.level) else Drop(r.project, r.target)
  {
  }

  lemma {:induction false} UnknownProject(w: World, t: Tables, r: Request)
    ensures Check(w, t, r) == Err(NotFound) <==> r.project !in w.projects
  {
  }

  /** An insert for an unknown user violates a foreign key; an update of a row that is there does not. */
  predicate Takes(w: World, t: Tables, write: Write) {
    write.Drop? || write.user in w.users || (write.project, write.user) in t.projectMembers
  }

  /** The statement; when a foreign key refuses it nothing changes. */
  function Execute(w: World, t: Tables, write: Write): Tables {
    match write
    case Put(project, user, level) =>
      if Takes(w, t, write) then t.(projectMembers := t.projectMembers[(project, user) := level]) else t
    case Drop(project, user) => t.(projectMembers := t.projectMembers - {(project, user)})
  }

  // ---------------------------------------------------------------- interleaved runs

  /**
   A request between its two reads, or with its write decided. The caller's level and the target's row
   as they were when read are kept (history).
   */
  datatype Stage =
    | Leveled(request: Request, level: int, own: Option<int>)
    | Pending(write: Write, request: Request, own: Option<int>, seen: Option<int>)

  datatype System = System(t: Tables, pending: map<nat, Stage>)

  datatype Event = LevelStep(h: nat, r: Request) | RowStep(h: nat) | WriteStep(h: nat) | AbandonStep(h: nat)

  predicate Enabled(s: System, e: Event) {
    match e
    case LevelStep(h, _) => h !in s.pending
    case RowStep(h) => h in s.pending && s.pending[h].Leveled?
    case WriteStep(h) => h in s.pending && s.pending[h].Pending?
    case AbandonStep(h) => h in s.pending
  }

  function RowOf(t: Tables, r: Request): Option<int> {
    Lookup(t.projectMembers, r.project, r.target)
  }

  function Apply(w: World, s: System, e: Event): System
    requires Enabled(s, e)
  {
    match e
    case LevelStep(h, r) =>
      (match ReadLevel(w, s.t, r)
       case Ok(level) =>
         var own := MaxLevel(s.t, r.caller.id, w.projects[r.project]);
         s.(pending := s.pending[h := if IsLeaving(r) then Pending(WriteOf(r), r, own, RowOf(s.t, r))
                                      else Leveled(r, level, own)])
       case Err(_) => s)
    case RowStep(h) =>
      var d := s.pending[h];
      (match ReadRow(s.t, d.request, d.level)
       case Ok(write) => s.(pending := s.pending[h := Pending(write, d.request, d.own, RowOf(s.t, d.request))])
       case Err(_) => s.(pending := s.pending - {h}))
    case WriteStep(h) => System(Execute(w, s.t, s.pending[h].write), s.pending - {h})
    case AbandonStep(h) => s.(pending := s.pending - {h})
  }

  ghost predicate IsRun(w: World, events: seq<Event>, states: seq<System>) {
    && |states| == |events| + 1
    && forall i | 0 <= i < |events| :: Enabled(states[i], events[i]) && states[i + 1] == Apply(w, states[i], events[i])
  }

  ghost predicate ByMembers(events: seq<Event>) {
    forall i | 0 <= i < |events| && events[i].LevelStep? :: !events[i].r.caller.admin
  }

  /** No user's level on the project, from any source, exceeds the bound. */
  ghost predicate AtMost(t: Tables, p: Project, bound: int) {
    forall u :: MaxLevel(t, u, p).Some? ==> MaxLevel(t, u, p).value <= bound
  }

  ghost predicate PendingAtMost(s: System, p: Project, bound: int) {
    forall h | h in s.pending && s.pending[h].request.project == p.id && !IsLeaving(s.pending[h].request) ::
      match s.pending[h]
      case Leveled(r, level, _) => !r.caller.admin && level <= bound
      case Pending(write, r, _, _) => write == WriteOf(r) && (write.Put? ==> write.level <= bound)
  }

  ghost predicate WritesAsRequested(s: System) {
    forall h | h in s.pending && s.pending[h].Pending? :: s.pending[h].write == WriteOf(s.pending[h].request)
  }

  /** What a level is, written out: one of its three sources, and at least each of them. */
  lemma {:induction false} MaxLevelSources(t: Tables, u: int, p: Project)
    ensures var all := MaxLevel(t, u, p);
            var direct := Lookup(t.projectMembers, p.id, u);
            var other := MaxOption(Lookup(t.groupMembers, p.namespace, u), Ownership(t, u, p.namespace));
            && (direct.Some? ==> all.Some? && direct.value <= all.value)
            && (other.Some? ==> all.Some? && other.value <= all.value)
            && (all.Some? ==> all == direct || all == other)
  {
  }

  lemma {:induction false} WriteKeepsBound(w: World, s: System, h: nat, p: Project, bound: int)
    requires h in s.pending && s.pending[h].Pending? && AtMost(s.t, p, bound)
    requires PendingAtMost(s, p, bound) && WritesAsRequested(s)
    ensures AtMost(Execute(w, s.t, s.pending[h].write), p, bound)
  {
    var now := Execute(w, s.t, s.pending[h].write);
    forall u | MaxLevel(now, u, p).Some?
      ensures MaxLevel(now, u, p).value <= bound
    {
      MaxLevelSources(s.t, u, p);
      MaxLevelSources(now, u, p);
    }
  }

  lemma {:induction false} StepKeepsBound(w: World, s: System, e: Event, p: Project, bound: int)
    requires IsWorld(w) && p.id in w.projects && w.projects[p.id] == p
    requires Enabled(s, e) && AtMost(s.t, p, bound) && PendingAtMost(s, p, bound) && WritesAsRequested(s)
    requires e.LevelStep? ==> !e.r.caller.admin
    ensures AtMost(Apply(w, s, e).t, p, bound) && PendingAtMost(Apply(w, s, e), p, bound)
    ensures WritesAsRequested(Apply(w, s, e))
  {
    match e
    case LevelStep(h, r) =>
      assert MaxLevel(s.t, r.caller.id, p).Some? ==> MaxLevel(s.t, r.caller.id, p).value <= bound;
    case WriteStep(h) => WriteKeepsBound(w, s, h, p, bound);
    case RowStep(h) =>
    case AbandonStep(h) =>
  }

  /**
   No escalation: in every interleaving of reads and writes by callers who are not administrators,
   no user's level on a project ever exceeds the largest level anyone had on it at the start.
   */
  lemma {:induction false} NoEscalation(w: World, events: seq<Event>, states: seq<System>, k: nat, p: Project,
                                        bound: int)
    requires IsWorld(w) && IsRun(w, events, states) && ByMembers(events) && k <= |events|
    requires p.id in w.projects && w.projects[p.id] == p
    requires states[0].pending == map[] && AtMost(states[0].t, p, bound)
    ensures AtMost(states[k].t, p, bound) && PendingAtMost(states[k], p, bound) && WritesAsRequested(states[k])
  {
    if k > 0 {
      NoEscalation(w, events, states, k - 1, p, bound);
      StepKeepsBound(w, states[k - 1], events[k - 1], p, bound);
    }
  }

  // ---------------------------------------------------------------- rows above the caller

  /** A write decided now changes no row above its caller's level, its own user's row included. */
  lemma {:induction false} SerialSparesHigherRows(w: World, t: Tables, r: Request, project: int, user: int)
    requires IsWorld(w) && LegalLevels(t) && !r.caller.admin && Check(w, t, r).Ok?
    requires (project, user) in t.projectMembers
    requires Lookup(Execute(w, t, Check(w, t, r).value).projectMembers, project, user)
             != Lookup(t.projectMembers, project, user)
    ensures project == r.project && user == r.target
    ensures var own := MaxLevel(t, r.caller.id, w.projects[r.project]);
            own.Some? && t.projectMembers[(project, user)] <= own.value
  {
  }

  /** What every request remembers: its caller's level, and that the row it saw was not above it. */
  ghost predicate SawNoHigher(s: System) {
    forall h | h in s.pending ::
      match s.pending[h]
      case Leveled(r, level, own) => !r.caller.admin && !IsLeaving(r) && own == Some(level)
      case Pending(write, r, own, seen) =>
        write == WriteOf(r) && (seen.Some? ==> own.Some? && seen.value <= own.value)
  }

  ghost predicate LegalSystem(s: System) {
    LegalLevels(s.t) && forall h | h in s.pending && s.pending[h].request.Add? :: IsLevel(s.pending[h].request.level)
  }

  lemma {:induction false} StepKeepsSeen(w: World, s: System, e: Event)
    requires IsWorld(w) && Enabled(s, e) && SawNoHigher(s) && LegalSystem(s)
    requires e.LevelStep? ==> !e.r.caller.admin
    ensures SawNoHigher(Apply(w, s, e)) && LegalSystem(Apply(w, s, e))
  {
  }

  lemma {:induction false} RunKeepsSeen(w: World, events: seq<Event>, states: seq<System>, k: nat)
    requires IsWorld(w) && IsRun(w, events, states) && ByMembers(events) && k <= |events|
    requires states[0].pending == map[] && LegalLevels(states[0].t)
    ensures SawNoHigher(states[k]) && LegalSystem(states[k])
  {
    if k > 0 {
      RunKeepsSeen(w, events, states, k - 1);
      StepKeepsSeen(w, states[k - 1], events[k - 1]);
    }
  }

  predicate WritesRow(s: System, e: Event, project: int, user: int) {
    && e.WriteStep? && e.h in s.pending && s.pending[e.h].Pending?
    && s.pending[e.h].write.project == project && s.pending[e.h].write.user == user
  }

  /** Step j is the last before k to write the row. */
  ghost predicate LastWrites(events: seq<Event>, states: seq<System>, project: int, user: int, j: nat, k: nat)
    requires |states| == |events| + 1 && k <= |events|
  {
    && j < k && WritesRow(states[j], events[j], project, user)
    && forall m | j < m < k :: !WritesRow(states[m], events[m], project, user)
  }

  lemma {:induction false} OthersLeaveRow(w: World, s: System, e: Event, project: int, user: int)
    requires Enabled(s, e) && !WritesRow(s, e, project, user)
    ensures Lookup(Apply(w, s, e).t.projectMembers, project, user) == Lookup(s.t.projectMembers, project, user)
  {
  }

  lemma {:induction false} RowKept(w: World, events: seq<Event>, states: seq<System>, project: int, user: int,
                                   i: nat, k: nat)
    requires IsRun(w, events, states) && i <= k <= |events|
    requires forall m | i <= m < k :: !WritesRow(states[m], events[m], project, user)
    ensures Lookup(states[k].t.projectMembers, project, user) == Lookup(states[i].t.projectMembers, project, user)
  {
    if i < k {
      RowKept(w, events, states, project, user, i, k - 1);
      OthersLeaveRow(w, states[k - 1], events[k - 1], project, user);
    }
  }

  /** The caller's level was read at step i, when nothing refused the request. */
  ghost predicate LevelRead(w: World, t: Tables, r: Request, own: Option<int>) {
    ReadLevel(w, t, r).Ok? && r.project in w.projects && own == MaxLevel(t, r.caller.id, w.projects[r.project])
  }

  /** The steps at which a request read the caller's level and the target's row; it has done nothing else since. */
  ghost predicate Decided(w: World, events: seq<Event>, states: seq<System>, h: nat, i: nat, j: nat, k: nat)
    requires |states| == |events| + 1 && k <= |events|
  {
    && i <= j < k && h in states[k].pending && states[k].pending[h].Pending?
    && events[i] == LevelStep(h, states[k].pending[h].request)
    && LevelRead(w, states[i].t, events[i].r, states[k].pending[h].own)
    && (if IsLeaving(events[i].r) then i == j else i < j && events[j] == RowStep(h))
    && states[k].pending[h].seen == RowOf(states[j].t, events[i].r)
    && (forall m | i < m < k && m != j :: events[m].h != h)
  }

  lemma {:induction false} LeveledWas(w: World, events: seq<Event>, states: seq<System>, h: nat, k: nat)
    returns (i: nat)
    requires IsWorld(w) && IsRun(w, events, states) && states[0].pending == map[] && k <= |events|
    requires h in states[k].pending && states[k].pending[h].Leveled?
    ensures i < k && events[i] == LevelStep(h, states[k].pending[h].request) && !IsLeaving(events[i].r)
    ensures LevelRead(w, states[i].t, events[i].r, states[k].pending[h].own)
    ensures forall m | i < m < k :: events[m].h != h
  {
    assert k > 0;
    if events[k - 1].h == h {
      i := k - 1;
    } else {
      i := LeveledWas(w, events, states, h, k - 1);
    }
  }

  lemma {:induction false} PendingWasDecided(w: World, events: seq<Event>, states: seq<System>, h: nat, k: nat)
    returns (i: nat, j: nat)
    requires IsWorld(w) && IsRun(w, events, states) && states[0].pending == map[] && k <= |events|
    requires h in states[k].pending && states[k].pending[h].Pending?
    ensures Decided(w, events, states, h, i, j, k)
  {
    assert k > 0 && Enabled(states[k - 1], events[k - 1]) && states[k] == Apply(w, states[k - 1], events[k - 1]);
    j := k - 1;
    if events[j].h == h && events[j].LevelStep? {
      i := j;
    } else if events[j].h == h {
      i := LeveledWas(w, events, states, h, j);
    } else {
      i, j := PendingWasDecided(w, events, states, h, k - 1);
    }
  }

  predicate IsAbove(row: Option<int>, own: Option<int>) {
    row.Some? && (own.None? || row.value > own.value)
  }

  /** The step changes a row above the level its caller had when it was checked. */
  predicate ChangesHigher(w: World, s: System, h: nat)
    requires h in s.pending && s.pending[h].Pending?
  {
    var d := s.pending[h];
    var row := Lookup(s.t.projectMembers, d.write.project, d.write.user);
    && IsAbove(row, d.own)
    && Lookup(Execute(w, s.t, d.write).projectMembers, d.write.project, d.write.user) != row
  }

  /** The write of g raises the row above the other caller's level, and the other's write is not the same. */
  predicate Raises(w: World, s: System, g: nat, d: Stage)
    requires g in s.pending && s.pending[g].Pending? && d.Pending?
  {
    var write := s.pending[g].write;
    write.Put? && Takes(w, s.t, write) && IsAbove(Some(write.level), d.own) && d.write != write
  }

  lemma {:induction false} LastWrite(events: seq<Event>, states: seq<System>, project: int, user: int, i: nat, k: nat)
    returns (j: nat)
    requires |states| == |events| + 1 && i < k <= |events|
    ensures j == i || (i < j && LastWrites(events, states, project, user, j, k))
    ensures j == i ==> forall m | i < m < k :: !WritesRow(states[m], events[m], project, user)
  {
    j := k - 1;
    while j > i && !WritesRow(states[j], events[j], project, user)
      invariant i <= j < k
      invariant forall m | j < m < k :: !WritesRow(states[m], events[m], project, user)
    {
      j := j - 1;
    }
  }

  /** What the write after the last one finds is what that one left. */
  lemma {:induction false} AfterLastWrite(w: World, events: seq<Event>, states: seq<System>, j: nat, k: nat, h: nat)
    requires IsRun(w, events, states) && k < |events| && h in states[k].pending && states[k].pending[h].Pending?
    requires LastWrites(events, states, states[k].pending[h].write.project, states[k].pending[h].write.user, j, k)
    ensures ChangesHigher(w, states[k], h) <==> Raises(w, states[j], events[j].h, states[k].pending[h])
  {
    var d := states[k].pending[h];
    RowKept(w, events, states, d.write.project, d.write.user, j + 1, k);
    assert Enabled(states[j], events[j]) && states[j + 1] == Apply(w, states[j], events[j]);
  }

  /**
   In every interleaved run by callers who are not administrators, a write changes a row above the
   level its caller had when that was read if and only if the last write to that row since the row was
   read raised it above that level (and the write is not the very same).
   */
  lemma {:induction false} HigherRowExactly(w: World, events: seq<Event>, states: seq<System>, k: nat)
    returns (i: nat, j: nat)
    requires IsWorld(w) && IsRun(w, events, states) && ByMembers(events) && k < |events| && events[k].WriteStep?
    requires states[0].pending == map[] && LegalLevels(states[0].t)
    ensures Decided(w, events, states, events[k].h, i, j, k)
    ensures var d := states[k].pending[events[k].h];
            ChangesHigher(w, states[k], events[k].h) <==>
            exists m | j < m < k ::
              LastWrites(events, states, d.write.project, d.write.user, m, k) && Raises(w, states[m], events[m].h, d)
  {
    var h := events[k].h;
    i, j := PendingWasDecided(w, events, states, h, k);
    RunKeepsSeen(w, events, states, k);
    var d := states[k].pending[h];
    var last := LastWrite(events, states, d.write.project, d.write.user, j, k);
    if last == j {
      assert !WritesRow(states[j], events[j], d.write.project, d.write.user);
      RowKept(w, events, states, d.write.project, d.write.user, j, k);
    } else {
      AfterLastWrite(w, events, states, last, k, h);
      forall m | j < m < k && LastWrites(events, states, d.write.project, d.write.user, m, k)
        ensures m == last
      {
      }
    }
  }

  /** The two reads of a request, one right after the other. */
  lemma {:induction false} BothReads(w: World, s: System, h: nat, r: Request) returns (u: System, t: System)
    requires h !in s.pending && !IsLeaving(r) && r.project in w.projects && Check(w, s.t, r) == Ok(WriteOf(r))
    ensures Enabled(s, LevelStep(h, r)) && u == Apply(w, s, LevelStep(h, r))
    ensures Enabled(u, RowStep(h)) && t == Apply(w, u, RowStep(h))
    ensures var own := MaxLevel(s.t, r.caller.id, w.projects[r.project]);
            t == s.(pending := s.pending[h := Pending(WriteOf(r), r, own, RowOf(s.t, r))])
  {
    u := Apply(w, s, LevelStep(h, r));
    t := Apply(w, u, RowStep(h));
  }

  /** And then it does happen: a maintainer's removal, which read the row first, takes away one an owner has raised. */
  lemma {:induction false} RaisedRowRemoved()
    returns (w: World, events: seq<Event>, states: seq<System>)
    ensures IsWorld(w) && IsRun(w, events, states) && ByMembers(events) && states[0].pending == map[] && |events| == 6
    ensures LegalLevels(states[0].t) && events[0] == LevelStep(0, Remove(User(1, false, true), 9, 2))
    ensures events[5] == WriteStep(0)
    ensures 9 in w.projects && MaxLevel(states[5].t, 1, w.projects[9]) == Some(MAINTAINER)
    ensures Lookup(states[5].t.projectMembers, 9, 2) == Some(OWNER)
    ensures Lookup(states[6].t.projectMembers, 9, 2) == None
  {
    var p := Project(9, 5, PRIVATE, false);
    w := World({1, 2, 3}, map[9 := p]);
    var t := Tables(map[], map[(9, 1) := MAINTAINER, (9, 2) := DEVELOPER, (9, 3) := OWNER], map[]);
    var remove, add := Remove(User(1, false, true), 9, 2), Add(User(3, false, true), 9, 2, OWNER);
    assert CallerLevel(t, remove.caller, p) == Some(MAINTAINER) && CallerLevel(t, add.caller, p) == Some(OWNER);
    events := [LevelStep(0, remove), RowStep(0), LevelStep(1, add), RowStep(1), WriteStep(1), WriteStep(0)];
    var s0 := System(t, map[]);
    var s1, s2 := BothReads(w, s0, 0, remove);
    var s3, s4 := BothReads(w, s2, 1, add);
    var s5 := Apply(w, s4, WriteStep(1));
    var s6 := Apply(w, s5, WriteStep(0));
    states := [s0, s1, s2, s3, s4, s5, s6];
  }

  // ---------------------------------------------------------------- the handlers, in place

  class Memberships {
    const world: World
    var t: Tables

    constructor (world: World, t: Tables)
      ensures this.world == world && this.t == t
    {
      this.world, this.t := world, t;
    }

    method AddMember(caller: User, project: int, target: int, level: int) returns (refusal: Option<Refusal>)
      modifies this
      ensures match Check(world, old(t), Add(caller, project, target, level))
              case Err(reason) => refusal == Some(reason) && t == old(t)
              case Ok(write) =>
                && t == Execute(world, old(t), write)
                && refusal == if Takes(world, old(t), write) then None else Some(Invalid)
    {
      if project !in world.projects {
        return Some(NotFound);
      }
      var p := world.projects[project];
      var own := CallerLevel(t, caller, p);
      if own == None {
        return Some(NotAllowed);
      }
      if !IsLevel(level) {
        return Some(Invalid);
      }
      var existing := StoredLevel(t, project, target);
      if !caller.admin && (level > own.value || Above(existing, own.value)) {
        return Some(NotAllowed);
      }
      if target !in world.users && (project, target) !in t.projectMembers {
        return Some(Invalid);
      }
      t := t.(projectMembers := t.projectMembers[(project, target) := level]);
      refusal := None;
    }

    method RemoveMember(caller: User, project: int, target: int) returns (refusal: Option<Refusal>)
      modifies this
      ensures match Check(world, old(t), Remove(caller, project, target))
              case Err(reason) => refusal == Some(reason) && t == old(t)
              case Ok(write) =>
                && t == Execute(world, old(t), write)
                && refusal == if (write.project, target) in old(t).projectMembers then None else Some(NotFound)
    {
      if project !in world.projects {
        return Some(NotFound);
      }
      var p := world.projects[project];
      if target != caller.id {
        var own := CallerLevel(t, caller, p);
        if own == None {
          return Some(NotAllowed);
        }
        if !caller.admin && Above(StoredLevel(t, project, target), own.value) {
          return Some(NotAllowed);
        }
      }
      refusal := if (project, target) in t.projectMembers then None else Some(NotFound);
      t := t.(projectMembers := t.projectMembers - {(project, target)});
    }
  }
}
