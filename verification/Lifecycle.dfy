/**
 The life of a project's repository: create, fork, push-time creation and deletion as
 interleaved handlers over the project rows, the disk-id allocation table and the
 directories of the hashed storage, with failures at each step, abandoned requests and
 process death.
 */
module Lifecycle {
  import opened Numerals
  import opened Prelude

  // ---------------------------------------------------------------- places on disk

  datatype Kind = Repo | Wiki | Design

  const KINDS: seq<Kind> := [Repo, Wiki, Design]

  /** A directory of one disk id: addressable, or renamed out of the way by a deletion. */
  datatype Place = Live(disk: int, kind: Kind) | Trash(disk: int, kind: Kind, time: nat)

  function Infix(kind: Kind): string {
    match kind
    case Repo => ""
    case Wiki => ".wiki"
    case Design => ".design"
  }

  /** The file name of a place below its two shard directories; `hash` stands for the hash of the disk id. */
  function FileName(hash: string, p: Place): string {
    match p
    case Live(_, kind) => hash + Infix(kind) + ".git"
    case Trash(_, kind, time) => hash + Infix(kind) + ".deleted." + Render(time)
  }

  lemma {:induction false} AfterHash(hash: string, p: Place)
    requires |hash| == 64
    ensures FileName(hash, p)[..64] == hash
    ensures |FileName(hash, p)| > 65
    ensures p.Live? ==> FileName(hash, p)[64..] == Infix(p.kind) + ".git"
    ensures p.Trash? ==> FileName(hash, p)[64..] == Infix(p.kind) + ".deleted." + Render(p.time)
  {
  }

  /**
   Places with different hashes, kinds, states or times never share a name: the trash names of the
   repository, wiki and design directories are distinct from one another and from all live names.
   */
  lemma {:induction false} FileNamesDistinct(g: string, h: string, p: Place, q: Place)
    requires |g| == 64 && |h| == 64
    requires FileName(g, p) == FileName(h, q)
    ensures g == h && p.kind == q.kind && p.Live? == q.Live?
    ensures p.Trash? ==> p.time == q.time
  {
    AfterHash(g, p);
    AfterHash(h, q);
    var tail := FileName(g, p)[64..];
    assert tail == FileName(h, q)[64..];
    assert tail[1] == match p.kind case Repo => (if p.Live? then 'g' else 'd') case Wiki => 'w' case Design => 'd';
    assert tail[1] == match q.kind case Repo => (if q.Live? then 'g' else 'd') case Wiki => 'w' case Design => 'd';
    assert tail[3] == match p.kind case Repo => (if p.Live? then 't' else 'l') case Wiki => 'k' case Design => 's';
    assert tail[3] == match q.kind case Repo => (if q.Live? then 't' else 'l') case Wiki => 'k' case Design => 's';
    var k := |Infix(p.kind)|;
    assert tail[k + 1] == if p.Live? then 'g' else 'd';
    assert tail[k + 1] == if q.Live? then 'g' else 'd';
    if p.Trash? {
      assert tail[k + 9..] == Render(p.time) && tail[k + 9..] == Render(q.time);
      RenderInjective(p.time, q.time);
    }
  }

  /** The names, spelled out. */
  lemma {:induction false} FileNames(hash: string, disk: int, time: nat)
    ensures FileName(hash, Live(disk, Repo)) == hash + ".git"
    ensures FileName(hash, Live(disk, Wiki)) == hash + ".wiki.git"
    ensures FileName(hash, Live(disk, Design)) == hash + ".design.git"
    ensures FileName(hash, Trash(disk, Repo, time)) == hash + ".deleted." + Render(time)
    ensures FileName(hash, Trash(disk, Wiki, time)) == hash + ".wiki.deleted." + Render(time)
    ensures FileName(hash, Trash(disk, Design, time)) == hash + ".design.deleted." + Render(time)
  {
    assert hash + ".wiki" + ".git" == hash + ".wiki.git";
    assert hash + ".design" + ".git" == hash + ".design.git";
    assert hash + "" + ".deleted." == hash + ".deleted.";
    assert hash + ".wiki" + ".deleted." == hash + ".wiki.deleted.";
    assert hash + ".design" + ".deleted." == hash + ".design.deleted.";
  }

  // ---------------------------------------------------------------- state

  /** A directory tree, identified by the moment it was made. */
  type Tree = nat

  /** A project row; `home` is the repository it was inserted with and identifies the project (history). */
  datatype Row = Row(disk: int, home: Tree)

  datatype Style = Create | Fork | Auto

  datatype Phase =
    | Reserved | Built(tree: Tree) | Failing
    | Inserted(row: int, tree: Tree) | Withdrawing(row: int, tree: Tree) | Withdrawn(row: int, tree: Tree)

  datatype Moved = Moved(kind: Kind, time: nat)

  /** A request in flight. A deletion remembers the row id and the disk id it read, and (history) whose they were. */
  datatype Handler =
    | Making(style: Style, disk: int, phase: Phase)
    | Deleting(row: int, disk: int, project: Tree, pending: seq<Kind>, moved: seq<Moved>, restoring: bool)

  /** The last three fields are history: projects stranded by a failure, projects ever inserted, trees made. */
  datatype State = State(
    rows: map<int, Row>,
    issued: set<int>,
    dirs: map<Place, Tree>,
    handlers: map<nat, Handler>,
    stranded: set<Tree>,
    born: set<Tree>,
    clock: nat)

  const MAX_ID := 0x7FFF_FFFF_FFFF_FFFF

  function Disks(rows: map<int, Row>): set<int> {
    set r | r in rows :: rows[r].disk
  }

  function Used(s: State): set<int> {
    Disks(s.rows) + s.issued
  }

  /** One more than the largest, or 1. */
  ghost predicate IsNext(used: set<int>, id: int) {
    if used == {} then id == 1 else id - 1 in used && forall x | x in used :: x < id
  }

  /** The row id SQLite assigns: the next one, or when that is out of range any unused positive one. */
  ghost predicate IsRowId(rows: map<int, Row>, row: int) {
    && row !in rows && row <= MAX_ID
    && (IsNext(rows.Keys, row) || (MAX_ID in rows && row > 0))
  }

  /** Ids begin at 1 and go on after the largest; once the last row id is in use any free one may come. */
  lemma {:induction false} NextIds(used: set<int>, rows: map<int, Row>, id: int)
    ensures IsNext({}, id) <==> id == 1
    ensures id in used ==> (IsNext(used + {id}, id + 1) <==> forall x | x in used :: x <= id)
    ensures IsNext(used, id) ==> id !in used && forall x | x in used :: x < id
    ensures IsRowId(map[], id) <==> id == 1
    ensures MAX_ID in rows ==> (IsRowId(rows, id) <==> id !in rows && 1 <= id <= 9_223_372_036_854_775_807)
  {
    var none: map<int, Row> := map[];
    assert none.Keys == {};
    if id in used {
      assert used + {id} == used;
    }
  }

  // ---------------------------------------------------------------- steps

  datatype Event =
    | Reserve(h: nat, style: Style, id: int)
    | InitOk(h: nat)
    | InitFail(h: nat, leaves: bool)
    | Insert(h: nat, row: int)
    | InsertFail(h: nat)
    | CleanUp(h: nat, removed: bool)
    | Check(h: nat)
    | WithdrawDir(h: nat, removed: bool)
    | WithdrawRow(h: nat, ok: bool)
    | BeginDelete(h: nat, row: int)
    | Move(h: nat, time: nat)
    | MoveFail(h: nat)
    | CommitDelete(h: nat)
    | CommitFail(h: nat)
    | Restore(h: nat, ok: bool)
    | EndRestore(h: nat)
    | Abandon(h: nat)

  predicate MakingIn(s: State, h: nat) {
    h in s.handlers && s.handlers[h].Making?
  }

  predicate DeletingIn(s: State, h: nat) {
    h in s.handlers && s.handlers[h].Deleting?
  }

  ghost predicate Enabled(s: State, e: Event) {
    match e
    case Reserve(h, _, id) => h !in s.handlers && IsNext(Used(s), id) && id <= MAX_ID
    case InitOk(h) =>
      MakingIn(s, h) && s.handlers[h].phase == Reserved && Live(s.handlers[h].disk, Repo) !in s.dirs
    case InitFail(h, _) => MakingIn(s, h) && s.handlers[h].phase == Reserved
    case Insert(h, row) =>
      && MakingIn(s, h) && s.handlers[h].phase.Built? && IsRowId(s.rows, row)
      && s.handlers[h].disk !in Disks(s.rows)
    case InsertFail(h) => MakingIn(s, h) && s.handlers[h].phase.Built?
    case CleanUp(h, _) => MakingIn(s, h) && s.handlers[h].phase == Failing
    case Check(h) => MakingIn(s, h) && s.handlers[h].phase.Inserted?
    case WithdrawDir(h, _) => MakingIn(s, h) && s.handlers[h].phase.Withdrawing?
    case WithdrawRow(h, _) => MakingIn(s, h) && s.handlers[h].phase.Withdrawn?
    case BeginDelete(h, row) => h !in s.handlers && row in s.rows
    case Move(h, time) =>
      && DeletingIn(s, h) && !s.handlers[h].restoring && s.handlers[h].pending != []
      && var kind := s.handlers[h].pending[0];
         Live(s.handlers[h].disk, kind) in s.dirs ==> Trash(s.handlers[h].disk, kind, time) !in s.dirs
    case MoveFail(h) => DeletingIn(s, h) && !s.handlers[h].restoring && s.handlers[h].pending != []
    case CommitDelete(h) => DeletingIn(s, h) && !s.handlers[h].restoring && s.handlers[h].pending == []
    case CommitFail(h) => DeletingIn(s, h) && !s.handlers[h].restoring && s.handlers[h].pending == []
    case Restore(h, _) => DeletingIn(s, h) && s.handlers[h].restoring && s.handlers[h].moved != []
    case EndRestore(h) => DeletingIn(s, h) && s.handlers[h].restoring && s.handlers[h].moved == []
    case Abandon(h) => h in s.handlers
  }

  /** A deletion that moved the repository directory to the trash; it is always the first one moved. */
  predicate HoldsRepo(d: Handler) {
    d.Deleting? && d.moved != [] && d.moved[0].kind == Repo
  }

  function TrashOf(d: Handler): Place
    requires HoldsRepo(d)
  {
    Trash(d.disk, Repo, d.moved[0].time)
  }

  predicate Settled(s: State, row: Row) {
    Live(row.disk, Repo) in s.dirs && s.dirs[Live(row.disk, Repo)] == row.home
  }

  /** A deletion in flight keeps the row's repository in the trash. */
  predicate HeldBy(s: State, h: nat, row: Row) {
    && DeletingIn(s, h) && HoldsRepo(s.handlers[h]) && s.handlers[h].disk == row.disk
    && TrashOf(s.handlers[h]) in s.dirs && s.dirs[TrashOf(s.handlers[h])] == row.home
  }

  predicate Held(s: State, row: Row) {
    exists h | h in s.handlers :: HeldBy(s, h, row)
  }

  /** A create whose repository vanished is about to delete its own row. */
  predicate WithdrawnBy(s: State, h: nat, row: Row) {
    MakingIn(s, h) && s.handlers[h].phase.Withdrawn? && s.handlers[h].disk == row.disk
  }

  /** The request answers for the project: it keeps the repository, or is about to delete the row. */
  predicate InHands(s: State, h: nat, row: Row) {
    HeldBy(s, h, row) || WithdrawnBy(s, h, row)
  }

  /** A failing step after which the request no longer answers for the project. */
  predicate LetsGo(s: State, e: Event, row: Row) {
    match e
    case Abandon(h) => InHands(s, h, row)
    case Restore(h, ok) =>
      !ok && HeldBy(s, h, row) && s.handlers[h].moved[|s.handlers[h].moved| - 1].kind == Repo
    case WithdrawRow(h, ok) => !ok && WithdrawnBy(s, h, row)
    case _ => false
  }

  /** The guard of a loss: the only request that answers for a displaced project fails. */
  predicate Strands(s: State, e: Event, row: Row) {
    && LetsGo(s, e, row) && !Settled(s, row)
    && forall g | g in s.handlers && g != e.h :: !InHands(s, g, row)
  }

  function ToPhase(s: State, h: nat, phase: Phase): State
    requires MakingIn(s, h)
  {
    s.(handlers := s.handlers[h := s.handlers[h].(phase := phase)])
  }

  function Done(s: State, h: nat): State {
    s.(handlers := s.handlers - {h})
  }

  function RemoveDir(s: State, p: Place, removed: bool): State {
    if removed then s.(dirs := s.dirs - {p}) else s
  }

  function Rename(dirs: map<Place, Tree>, from: Place, to: Place): map<Place, Tree>
    requires from in dirs
  {
    (dirs - {from})[to := dirs[from]]
  }

  function ApplyMove(s: State, h: nat, time: nat): State
    requires DeletingIn(s, h) && s.handlers[h].pending != []
  {
    var d := s.handlers[h];
    var kind := d.pending[0];
    if Live(d.disk, kind) in s.dirs then
      s.(dirs := Rename(s.dirs, Live(d.disk, kind), Trash(d.disk, kind, time)),
         handlers := s.handlers[h := d.(pending := d.pending[1..], moved := d.moved + [Moved(kind, time)])])
    else
      s.(handlers := s.handlers[h := d.(pending := d.pending[1..])])
  }

  /** One rename of `restore_soft_deleted`; it fails when the target exists, and then only logs. */
  function ApplyRestore(s: State, h: nat, ok: bool): State
    requires DeletingIn(s, h) && s.handlers[h].moved != []
  {
    var d := s.handlers[h];
    var last := d.moved[|d.moved| - 1];
    var rest := s.handlers[h := d.(moved := d.moved[..|d.moved| - 1])];
    var live, trash := Live(d.disk, last.kind), Trash(d.disk, last.kind, last.time);
    if ok && trash in s.dirs && live !in s.dirs then
      s.(dirs := Rename(s.dirs, trash, live), handlers := rest)
    else
      s.(handlers := rest)
  }

  function ApplyInsert(s: State, h: nat, row: int): State
    requires MakingIn(s, h) && s.handlers[h].phase.Built?
  {
    var tree := s.handlers[h].phase.tree;
    (if s.handlers[h].style == Create then ToPhase(s, h, Inserted(row, tree)) else Done(s, h)).(
      rows := s.rows[row := Row(s.handlers[h].disk, tree)], born := s.born + {tree})
  }

  /** What the step does to tables, disk and requests. */
  function Step(s: State, e: Event): State
    requires Enabled(s, e)
  {
    match e
    case Reserve(h, style, id) =>
      s.(issued := s.issued + {id}, handlers := s.handlers[h := Making(style, id, Reserved)])
    case InitOk(h) =>
      ToPhase(s, h, Built(s.clock)).(
        dirs := s.dirs[Live(s.handlers[h].disk, Repo) := s.clock], clock := s.clock + 1)
    case InitFail(h, leaves) =>
      var live := Live(s.handlers[h].disk, Repo);
      ToPhase(s, h, Failing).(
        dirs := if leaves && live !in s.dirs then s.dirs[live := s.clock] else s.dirs, clock := s.clock + 1)
    case Insert(h, row) => ApplyInsert(s, h, row)
    case InsertFail(h) => ToPhase(s, h, Failing)
    case CleanUp(h, removed) => Done(RemoveDir(s, Live(s.handlers[h].disk, Repo), removed), h)
    case Check(h) =>
      var phase := s.handlers[h].phase;
      if Live(s.handlers[h].disk, Repo) in s.dirs then Done(s, h)
      else ToPhase(s, h, Withdrawing(phase.row, phase.tree))
    case WithdrawDir(h, removed) =>
      var phase := s.handlers[h].phase;
      RemoveDir(ToPhase(s, h, Withdrawn(phase.row, phase.tree)), Live(s.handlers[h].disk, Repo), removed)
    case WithdrawRow(h, ok) =>
      if ok then Done(s, h).(rows := s.rows - {s.handlers[h].phase.row})
      else Done(s, h)
    case BeginDelete(h, row) =>
      s.(handlers := s.handlers[h := Deleting(row, s.rows[row].disk, s.rows[row].home, KINDS, [], false)])
    case Move(h, time) => ApplyMove(s, h, time)
    case MoveFail(h) => s.(handlers := s.handlers[h := s.handlers[h].(restoring := true)])
    case CommitDelete(h) => Done(s, h).(rows := s.rows - {s.handlers[h].row})
    case CommitFail(h) => s.(handlers := s.handlers[h := s.handlers[h].(restoring := true)])
    case Restore(h, ok) => ApplyRestore(s, h, ok)
    case EndRestore(h) => Done(s, h)
    case Abandon(h) => Done(s, h)
  }

  /** The step, with the projects it strands noted. */
  function Apply(s: State, e: Event): State
    requires Enabled(s, e)
  {
    Step(s, e).(stranded := s.stranded + set r | r in s.rows && Strands(s, e, s.rows[r]) :: s.rows[r].home)
  }

  // ---------------------------------------------------------------- which steps are safe

  /** A deletion that has yet to visit the repository directory of this disk id, and still means to. */
  predicate Pending(s: State, g: nat, disk: int) {
    DeletingIn(s, g) && s.handlers[g].disk == disk && !s.handlers[g].restoring && Repo in s.handlers[g].pending
  }

  /** A deletion that may still take the repository at this disk id away, or put one back there. */
  predicate Engaged(s: State, g: nat, disk: int) {
    Pending(s, g, disk) || (DeletingIn(s, g) && s.handlers[g].disk == disk && HoldsRepo(s.handlers[g]))
  }

  /** The create has a row and has yet to look for its repository, which is gone or may still be taken away. */
  predicate MayMiss(s: State, h: nat) {
    && MakingIn(s, h) && s.handlers[h].phase.Inserted?
    && (Live(s.handlers[h].disk, Repo) !in s.dirs
        || exists g | g in s.handlers :: Pending(s, g, s.handlers[h].disk))
  }

  /** A request that may still delete the row with this id. */
  predicate Threatens(s: State, h: nat, row: int) {
    || (DeletingIn(s, h) && s.handlers[h].row == row && !s.handlers[h].restoring)
    || (MakingIn(s, h) && (s.handlers[h].phase.Withdrawing? || s.handlers[h].phase.Withdrawn?)
        && s.handlers[h].phase.row == row)
    || (MayMiss(s, h) && s.handlers[h].phase.row == row)
  }

  /**
   A repository is built only where no deletion is about to look or to put one back, and a row id is
   given out only when no request may still delete by it.
   */
  ghost predicate Safe(s: State, e: Event) {
    && (e.InitOk? && MakingIn(s, e.h) ==> forall g :: !Engaged(s, g, s.handlers[e.h].disk))
    && (e.Insert? ==> forall g :: !Threatens(s, g, e.row))
  }

  // ---------------------------------------------------------------- what every run keeps

  /** The repository is at its path, or a request answers for the project. */
  ghost predicate Accounted(s: State, row: Row) {
    Settled(s, row) || exists h | h in s.handlers :: InHands(s, h, row)
  }

  ghost predicate RowsOk(s: State) {
    && (forall r | r in s.rows :: s.rows[r].home in s.born)
    && (forall r, q | r in s.rows && q in s.rows && s.rows[r].disk == s.rows[q].disk :: r == q)
    && (forall r, q | r in s.rows && q in s.rows && s.rows[r].home == s.rows[q].home :: r == q)
  }

  /** Every tree is in one place only. */
  ghost predicate TreesApart(dirs: map<Place, Tree>, clock: nat) {
    && (forall p | p in dirs :: dirs[p] < clock)
    && (forall p, q | p in dirs && q in dirs && dirs[p] == dirs[q] :: p == q)
  }

  ghost predicate TreesOk(s: State) {
    TreesApart(s.dirs, s.clock) && forall x | x in s.born :: x < s.clock
  }

  /** A stranded project's repository never comes back. */
  ghost predicate StrandedOk(s: State) {
    && s.stranded <= s.born
    && (forall r | r in s.rows && s.rows[r].home in s.stranded :: !Settled(s, s.rows[r]) && !Held(s, s.rows[r]))
  }

  predicate BeforeInsert(m: Handler) {
    m.Making? && (m.phase == Reserved || m.phase.Built? || m.phase == Failing)
  }

  ghost predicate MakerAlone(s: State, h: nat)
    requires MakingIn(s, h)
  {
    && s.handlers[h].disk in s.issued
    && (forall g | MakingIn(s, g) && s.handlers[g].disk == s.handlers[h].disk :: g == h)
  }

  /** What is known of the rows with a maker's disk id: none before its insert, only its own afterwards. */
  ghost predicate MakerRows(s: State, h: nat)
    requires MakingIn(s, h)
  {
    var m := s.handlers[h];
    if BeforeInsert(m) then m.disk !in Disks(s.rows)
    else
      && m.phase.tree in s.born
      && forall r | r in s.rows && s.rows[r].disk == m.disk :: r == m.phase.row && s.rows[r].home == m.phase.tree
  }

  /** A built repository is at its path, belongs to no project yet, and no deletion is engaged there. */
  ghost predicate BuiltOk(s: State, h: nat)
    requires MakingIn(s, h) && s.handlers[h].phase.Built?
  {
    var m := s.handlers[h];
    && Live(m.disk, Repo) in s.dirs && s.dirs[Live(m.disk, Repo)] == m.phase.tree
    && m.phase.tree !in s.born
    && forall g :: !Engaged(s, g, m.disk)
  }

  ghost predicate MakerOk(s: State, h: nat)
    requires MakingIn(s, h)
  {
    MakerAlone(s, h) && MakerRows(s, h) && (s.handlers[h].phase.Built? ==> BuiltOk(s, h))
  }

  predicate DeleterShape(s: State, h: nat)
    requires DeletingIn(s, h)
  {
    var d := s.handlers[h];
    && d.project in s.born
    && (d.pending == KINDS || d.pending == [Wiki, Design] || d.pending == [Design] || d.pending == [])
    && (Repo in d.pending ==> d.moved == [])
    && (forall i | 1 <= i < |d.moved| :: d.moved[i].kind != Repo)
  }

  /** What a deletion says it moved is in the trash, and no two say so of the same place. */
  ghost predicate TrashOk(s: State, h: nat)
    requires DeletingIn(s, h) && HoldsRepo(s.handlers[h])
  {
    && TrashOf(s.handlers[h]) in s.dirs
    && forall g | DeletingIn(s, g) && HoldsRepo(s.handlers[g]) && TrashOf(s.handlers[g]) == TrashOf(s.handlers[h]) ::
         g == h
  }

  ghost predicate DeleterOk(s: State, h: nat)
    requires DeletingIn(s, h)
  {
    DeleterShape(s, h) && (HoldsRepo(s.handlers[h]) ==> TrashOk(s, h))
  }

  /** At a project's path is its own repository or nothing. */
  ghost predicate LiveOwn(s: State) {
    forall r | r in s.rows && Live(s.rows[r].disk, Repo) in s.dirs :: Settled(s, s.rows[r])
  }

  /** The deletion is of the project that has the row; if it holds a repository it is the project's. */
  ghost predicate OfProject(s: State, g: nat, r: int)
    requires DeletingIn(s, g) && r in s.rows
  {
    && s.handlers[g].row == r && s.handlers[g].project == s.rows[r].home
    && (HoldsRepo(s.handlers[g]) ==> HeldBy(s, g, s.rows[r]) && Live(s.rows[r].disk, Repo) !in s.dirs)
  }

  /** Only a project's own deletions are engaged at its disk id. */
  ghost predicate EngagedOwn(s: State) {
    forall g, r | r in s.rows && Engaged(s, g, s.rows[r].disk) :: OfProject(s, g, r)
  }

  ghost predicate ShapesOk(s: State) {
    forall g | DeletingIn(s, g) :: DeleterOk(s, g)
  }

  function ProjectOf(d: Handler): Option<Tree> {
    match d
    case Deleting(_, _, project, _, _, _) => Some(project)
    case Making(_, _, phase) =>
      if phase == Reserved || phase == Failing then None else Some(phase.tree)
  }

  /** A request that may still delete a row by its id is of the project that has the row. */
  ghost predicate Targets(s: State) {
    forall h, r | r in s.rows && Threatens(s, h, r) :: ProjectOf(s.handlers[h]) == Some(s.rows[r].home)
  }

  ghost predicate Inv(s: State) {
    && RowsOk(s) && TreesOk(s) && StrandedOk(s)
    && (forall r | r in s.rows :: s.rows[r].home in s.stranded || Accounted(s, s.rows[r]))
    && (forall h | MakingIn(s, h) :: MakerOk(s, h))
    && ShapesOk(s) && LiveOwn(s) && EngagedOwn(s) && Targets(s)
  }

  // ---------------------------------------------------------------- what each step keeps

  lemma {:induction false} RowsStayOk(s: State, e: Event)
    requires RowsOk(s) && Enabled(s, e) && (e.Insert? ==> BuiltOk(s, e.h))
    ensures RowsOk(Apply(s, e))
  {
    assert e.Insert? ==> s.handlers[e.h].disk !in Disks(s.rows);
  }

  lemma {:induction false} RenameKeepsTrees(dirs: map<Place, Tree>, clock: nat, from: Place, to: Place)
    requires TreesApart(dirs, clock) && from in dirs && to !in dirs
    ensures TreesApart(Rename(dirs, from, to), clock)
  {
  }

  lemma {:induction false} TreeAdded(dirs: map<Place, Tree>, clock: nat, p: Place)
    requires TreesApart(dirs, clock)
    ensures TreesApart(dirs[p := clock], clock + 1)
  {
  }

  lemma {:induction false} TreesStayApart(s: State, e: Event)
    requires TreesApart(s.dirs, s.clock) && Enabled(s, e)
    ensures TreesApart(Apply(s, e).dirs, Apply(s, e).clock)
  {
    match e
    case InitOk(h) => TreeAdded(s.dirs, s.clock, Live(s.handlers[h].disk, Repo));
    case InitFail(h, _) => TreeAdded(s.dirs, s.clock, Live(s.handlers[h].disk, Repo));
    case Move(h, time) =>
      var d := s.handlers[h];
      if Live(d.disk, d.pending[0]) in s.dirs {
        RenameKeepsTrees(s.dirs, s.clock, Live(d.disk, d.pending[0]), Trash(d.disk, d.pending[0], time));
      }
    case Restore(h, ok) =>
      var d := s.handlers[h];
      var last := d.moved[|d.moved| - 1];
      var live, trash := Live(d.disk, last.kind), Trash(d.disk, last.kind, last.time);
      if ok && trash in s.dirs && live !in s.dirs {
        RenameKeepsTrees(s.dirs, s.clock, trash, live);
      }
    case _ =>
  }

  lemma {:induction false} TreesStayOk(s: State, e: Event)
    requires TreesOk(s) && Enabled(s, e) && (e.Insert? ==> BuiltOk(s, e.h))
    ensures TreesOk(Apply(s, e))
  {
    TreesStayApart(s, e);
  }

  lemma {:induction false} MakerStaysAlone(s: State, e: Event, h: nat)
    requires (forall g | MakingIn(s, g) :: MakerAlone(s, g)) && Enabled(s, e) && MakingIn(Apply(s, e), h)
    ensures MakerAlone(Apply(s, e), h)
  {
    var t := Apply(s, e);
    assert e.Reserve? ==> e.id !in s.issued;
    assert MakingIn(s, h) ==> MakerAlone(s, h);
    forall g | MakingIn(t, g) && t.handlers[g].disk == t.handlers[h].disk
      ensures g == h
    {
      assert MakingIn(s, g) ==> MakerAlone(s, g);
    }
  }

  lemma {:induction false} MakerRowsStay(s: State, e: Event, h: nat)
    requires Enabled(s, e) && MakingIn(Apply(s, e), h) && (MakingIn(s, h) ==> MakerAlone(s, h) && MakerRows(s, h))
    ensures MakerRows(Apply(s, e), h)
  {
    assert e.Reserve? ==> e.id !in Disks(s.rows);
  }

  /** Nobody but the maker touches a repository it has built, until it is inserted. */
  lemma {:induction false} BuiltStaysPut(s: State, e: Event, h: nat)
    requires Enabled(s, e) && MakingIn(s, h) && s.handlers[h].phase.Built? && e.h != h
    requires MakerAlone(s, h) && BuiltOk(s, h) && (DeletingIn(s, e.h) ==> DeleterShape(s, e.h))
    ensures var live := Live(s.handlers[h].disk, Repo);
            live in Apply(s, e).dirs && Apply(s, e).dirs[live] == s.dirs[live]
  {
    assert e.Move? || e.Restore? ==> !Engaged(s, e.h, s.handlers[h].disk);
  }

  lemma {:induction false} NothingEngages(s: State, e: Event, disk: int, g: nat)
    requires Enabled(s, e) && disk !in Disks(s.rows) && !Engaged(s, g, disk)
    requires DeletingIn(s, g) ==> DeleterShape(s, g)
    ensures !Engaged(Apply(s, e), g, disk)
  {
    assert e.BeginDelete? ==> s.rows[e.row].disk in Disks(s.rows);
    if DeletingIn(Apply(s, e), g) && HoldsRepo(Apply(s, e).handlers[g]) {
      HolderBefore(s, e, g);
    }
  }

  lemma {:induction false} BuiltStaysOk(s: State, e: Event, h: nat)
    requires TreesOk(s) && Enabled(s, e) && Safe(s, e) && ShapesOk(s)
    requires MakingIn(Apply(s, e), h) && Apply(s, e).handlers[h].phase.Built?
    requires MakingIn(s, h) ==> MakerAlone(s, h) && MakerRows(s, h) && (s.handlers[h].phase.Built? ==> BuiltOk(s, h))
    requires e.Insert? ==> BuiltOk(s, e.h)
    ensures BuiltOk(Apply(s, e), h)
  {
    var t := Apply(s, e);
    assert DeletingIn(s, e.h) ==> DeleterOk(s, e.h);
    if e.h != h {
      BuiltStaysPut(s, e, h);
    }
    forall g
      ensures !Engaged(t, g, t.handlers[h].disk)
    {
      assert DeletingIn(s, g) ==> DeleterOk(s, g);
      NothingEngages(s, e, s.handlers[h].disk, g);
    }
    assert e.Insert? && e.h != h ==>
             s.handlers[e.h].phase.tree == s.dirs[Live(s.handlers[e.h].disk, Repo)]
             && s.handlers[h].phase.tree == s.dirs[Live(s.handlers[h].disk, Repo)];
  }

  lemma {:induction false} ShapeStays(s: State, e: Event, h: nat)
    requires Enabled(s, e) && DeletingIn(Apply(s, e), h) && (DeletingIn(s, h) ==> DeleterShape(s, h))
    requires e.BeginDelete? ==> s.rows[e.row].home in s.born
    ensures DeleterShape(Apply(s, e), h)
  {
    if DeletingIn(s, h) && Apply(s, e).handlers[h] != s.handlers[h] {
      ListsStay(s, e);
    }
  }

  lemma {:induction false} ListsStay(s: State, e: Event)
    requires Enabled(s, e) && DeletingIn(s, e.h) && DeletingIn(Apply(s, e), e.h) && DeleterShape(s, e.h)
    ensures DeleterShape(Apply(s, e), e.h)
  {
  }

  /** A place in the trash that a deletion lists is that deletion's until it takes it back. */
  lemma {:induction false} TrashStaysPut(s: State, e: Event, h: nat)
    requires Enabled(s, e) && DeletingIn(s, h) && HoldsRepo(s.handlers[h]) && TrashOk(s, h)
    requires DeletingIn(Apply(s, e), h) && HoldsRepo(Apply(s, e).handlers[h])
    requires e.Restore? ==> DeleterShape(s, e.h)
    ensures TrashOf(Apply(s, e).handlers[h]) == TrashOf(s.handlers[h])
    ensures TrashOf(s.handlers[h]) in Apply(s, e).dirs
    ensures Apply(s, e).dirs[TrashOf(s.handlers[h])] == s.dirs[TrashOf(s.handlers[h])]
  {
    match e
    case Restore(g, ok) =>
      var d := s.handlers[g];
      var n := |d.moved| - 1;
      if g != h && d.moved[n].kind == Repo {
        assert n == 0 && HoldsRepo(d) && TrashOf(d) != TrashOf(s.handlers[h]);
      }
    case _ =>
  }

  /** Who holds a repository after a step held it before, or moved it aside in this step. */
  lemma {:induction false} HolderBefore(s: State, e: Event, g: nat)
    requires Enabled(s, e) && DeletingIn(Apply(s, e), g) && HoldsRepo(Apply(s, e).handlers[g])
    requires DeletingIn(s, g) ==> DeleterShape(s, g)
    ensures DeletingIn(s, g) && s.handlers[g].disk == Apply(s, e).handlers[g].disk
    ensures || (HoldsRepo(s.handlers[g]) && s.handlers[g].moved[0] == Apply(s, e).handlers[g].moved[0])
            || (e.Move? && e.h == g && Pending(s, g, s.handlers[g].disk) && Live(s.handlers[g].disk, Repo) in s.dirs
                && TrashOf(Apply(s, e).handlers[g]) == Trash(s.handlers[g].disk, Repo, e.time)
                && s.handlers[g].pending == KINDS)
  {
  }

  lemma {:induction false} TrashStaysOk(s: State, e: Event, h: nat)
    requires Enabled(s, e) && DeletingIn(Apply(s, e), h) && HoldsRepo(Apply(s, e).handlers[h])
    requires forall g | DeletingIn(s, g) :: DeleterOk(s, g)
    ensures TrashOk(Apply(s, e), h)
  {
    var t := Apply(s, e);
    HolderBefore(s, e, h);
    assert DeleterOk(s, h);
    if HoldsRepo(s.handlers[h]) {
      TrashStaysPut(s, e, h);
    }
    forall g | DeletingIn(t, g) && HoldsRepo(t.handlers[g]) && TrashOf(t.handlers[g]) == TrashOf(t.handlers[h])
      ensures g == h
    {
      HolderBefore(s, e, g);
      assert DeleterOk(s, g);
    }
  }
  /** Who keeps a repository after a step kept it before, or found it at its path in this step. */
  lemma {:induction false} HeldBefore(s: State, e: Event, g: nat, row: Row)
    requires ShapesOk(s) && Enabled(s, e) && HeldBy(Apply(s, e), g, row)
    ensures DeletingIn(s, g)
    ensures HeldBy(s, g, row) || (Settled(s, row) && e.Move? && e.h == g && Pending(s, g, row.disk))
    ensures s.handlers[g].row == Apply(s, e).handlers[g].row && s.handlers[g].project == Apply(s, e).handlers[g].project
    ensures !Apply(s, e).handlers[g].restoring ==> !s.handlers[g].restoring
  {
    assert DeletingIn(s, g) ==> DeleterOk(s, g);
    assert e.Restore? ==> DeleterOk(s, e.h);
    HolderBefore(s, e, g);
    if HoldsRepo(s.handlers[g]) {
      TrashStaysPut(s, e, g);
    }
  }

  /** Only the maker, the project's own deletions and a create's own withdrawal touch a project's path. */
  lemma {:induction false} LiveStaysOwn(s: State, e: Event, r: int)
    requires Enabled(s, e) && LiveOwn(s) && EngagedOwn(s)
    requires DeletingIn(s, e.h) ==> DeleterShape(s, e.h)
    requires MakingIn(s, e.h) ==> MakerRows(s, e.h) && (e.Insert? ==> BuiltOk(s, e.h))
    requires r in Apply(s, e).rows && Live(Apply(s, e).rows[r].disk, Repo) in Apply(s, e).dirs
    ensures Settled(Apply(s, e), Apply(s, e).rows[r])
  {
    assert r in s.rows ==> s.rows[r].disk in Disks(s.rows);
    if e.Restore? && r in s.rows && s.handlers[e.h].disk == s.rows[r].disk {
      var d := s.handlers[e.h];
      assert d.moved[|d.moved| - 1].kind == Repo ==> |d.moved| == 1 && Engaged(s, e.h, s.rows[r].disk);
    }
  }

  /** Who is engaged after a step was before, or is a deletion that begins. */
  lemma {:induction false} EngagedBefore(s: State, e: Event, g: nat, disk: int)
    requires Enabled(s, e) && Engaged(Apply(s, e), g, disk) && (DeletingIn(s, g) ==> DeleterShape(s, g))
    ensures e.BeginDelete? && e.h == g ==> s.rows[e.row].disk == disk
    ensures !(e.BeginDelete? && e.h == g) ==>
              && Engaged(s, g, disk) && s.handlers[g].row == Apply(s, e).handlers[g].row
              && s.handlers[g].project == Apply(s, e).handlers[g].project
  {
    if DeletingIn(Apply(s, e), g) && HoldsRepo(Apply(s, e).handlers[g]) {
      HolderBefore(s, e, g);
    }
  }

  /** A project's deletion that holds a repository after a step holds the project's, and nothing is at its path. */
  lemma {:induction false} HoldsOwn(s: State, e: Event, g: nat, r: int)
    requires Enabled(s, e) && ShapesOk(s) && TreesApart(s.dirs, s.clock) && LiveOwn(s) && EngagedOwn(s)
    requires MakingIn(s, e.h) ==> MakerRows(s, e.h)
    requires DeletingIn(Apply(s, e), g) && HoldsRepo(Apply(s, e).handlers[g])
    requires r in s.rows && r in Apply(s, e).rows && Apply(s, e).rows[r] == s.rows[r]
    requires Engaged(s, g, s.rows[r].disk)
    ensures HeldBy(Apply(s, e), g, s.rows[r]) && Live(s.rows[r].disk, Repo) !in Apply(s, e).dirs
  {
    assert DeleterOk(s, g) && OfProject(s, g, r);
    assert DeletingIn(s, e.h) ==> DeleterOk(s, e.h);
    assert s.rows[r].disk in Disks(s.rows);
    HolderBefore(s, e, g);
    if HoldsRepo(s.handlers[g]) {
      TrashStaysPut(s, e, g);
      OthersHoldNothing(s, e, g, r);
    }
  }

  /** While one deletion holds a project's repository nobody puts another one at its path. */
  lemma {:induction false} OthersHoldNothing(s: State, e: Event, g: nat, r: int)
    requires Enabled(s, e) && ShapesOk(s) && TreesApart(s.dirs, s.clock) && EngagedOwn(s) && r in s.rows
    requires MakingIn(s, e.h) ==> MakerRows(s, e.h)
    requires HeldBy(s, g, s.rows[r]) && Live(s.rows[r].disk, Repo) !in s.dirs
    requires DeletingIn(Apply(s, e), g) && HoldsRepo(Apply(s, e).handlers[g])
    ensures Live(s.rows[r].disk, Repo) !in Apply(s, e).dirs
  {
    assert s.rows[r].disk in Disks(s.rows);
    assert DeleterOk(s, g) && (DeletingIn(s, e.h) ==> DeleterOk(s, e.h));
    if e.Restore? && s.handlers[e.h].disk == s.rows[r].disk {
      var d := s.handlers[e.h];
      assert d.moved[|d.moved| - 1].kind == Repo ==>
               |d.moved| == 1 && Engaged(s, e.h, s.rows[r].disk) && OfProject(s, e.h, r);
    }
  }

  lemma {:induction false} EngagedStayOwn(s: State, e: Event, g: nat, r: int)
    requires RowsOk(s) && Enabled(s, e) && ShapesOk(s) && TreesApart(s.dirs, s.clock) && LiveOwn(s) && EngagedOwn(s)
    requires MakingIn(s, e.h) ==> MakerRows(s, e.h) && (e.Insert? ==> BuiltOk(s, e.h))
    requires r in Apply(s, e).rows && Engaged(Apply(s, e), g, Apply(s, e).rows[r].disk)
    ensures OfProject(Apply(s, e), g, r)
  {
    var row := Apply(s, e).rows[r];
    assert DeletingIn(s, g) ==> DeleterOk(s, g);
    EngagedBefore(s, e, g, row.disk);
    assert e.Insert? ==> !Engaged(s, g, s.handlers[e.h].disk);
    assert r in s.rows && row == s.rows[r];
    if HoldsRepo(Apply(s, e).handlers[g]) {
      HoldsOwn(s, e, g, r);
    }
  }

  /** A repository that is neither at its path nor kept stays so, whatever happens. */
  lemma {:induction false} GoneStaysGone(s: State, e: Event, row: Row)
    requires ShapesOk(s) && Enabled(s, e) && row.home < s.clock && !Settled(s, row) && !Held(s, row)
    ensures !Settled(Apply(s, e), row) && !Held(Apply(s, e), row)
  {
    var t := Apply(s, e);
    forall g
      ensures !HeldBy(t, g, row)
    {
      if HeldBy(t, g, row) {
        HeldBefore(s, e, g, row);
      }
    }
    if e.Restore? {
      var d := s.handlers[e.h];
      assert DeleterOk(s, e.h) && !HeldBy(s, e.h, row);
      assert d.moved[|d.moved| - 1].kind == Repo ==> |d.moved| == 1;
    }
  }

  /** The guard is sufficient: after the step nobody answers for the project. */
  lemma {:induction false} StrandingLeavesNobody(s: State, e: Event, row: Row)
    requires ShapesOk(s) && Enabled(s, e) && Strands(s, e, row)
    ensures !Accounted(Apply(s, e), row)
  {
    var t := Apply(s, e);
    assert e.Restore? ==> DeleterOk(s, e.h) && |s.handlers[e.h].moved| == 1;
    assert t.dirs == s.dirs;
    forall g | g in t.handlers
      ensures !InHands(t, g, row)
    {
      assert g != e.h ==> g in s.handlers && t.handlers[g] == s.handlers[g] && !InHands(s, g, row);
    }
  }

  lemma {:induction false} StrandedStayOk(s: State, e: Event, r: int)
    requires RowsOk(s) && TreesOk(s) && StrandedOk(s) && ShapesOk(s) && Enabled(s, e)
    requires e.Insert? ==> BuiltOk(s, e.h)
    requires r in Apply(s, e).rows && Apply(s, e).rows[r].home in Apply(s, e).stranded
    ensures !Settled(Apply(s, e), Apply(s, e).rows[r]) && !Held(Apply(s, e), Apply(s, e).rows[r])
  {
    var t, row := Apply(s, e), Apply(s, e).rows[r];
    if row.home in s.stranded {
      assert r in s.rows && s.rows[r] == row;
      GoneStaysGone(s, e, row);
    } else {
      var q :| q in s.rows && Strands(s, e, s.rows[q]) && s.rows[q].home == row.home;
      assert t.rows == s.rows && q == r;
      StrandingLeavesNobody(s, e, row);
      assert forall h | h in t.handlers :: HeldBy(t, h, row) ==> InHands(t, h, row);
    }
  }

  lemma {:induction false} StrandedAreBorn(s: State, e: Event)
    requires RowsOk(s) && StrandedOk(s) && Enabled(s, e)
    ensures Apply(s, e).stranded <= Apply(s, e).born
  {
  }

  lemma {:induction false} SettledAfter(s: State, e: Event, r: int)
    requires RowsOk(s) && Enabled(s, e) && r in s.rows && r in Apply(s, e).rows && Settled(s, s.rows[r])
    requires MakingIn(s, e.h) ==> MakerRows(s, e.h)
    requires DeletingIn(s, e.h) ==> DeleterShape(s, e.h)
    ensures Accounted(Apply(s, e), s.rows[r])
  {
    var t, row := Apply(s, e), s.rows[r];
    assert row.disk in Disks(s.rows);
    match e
    case WithdrawDir(h, _) => assert Settled(t, row) || InHands(t, h, row);
    case Move(h, time) => assert Settled(t, row) || InHands(t, h, row);
    case _ => assert Settled(t, row);
  }

  /** Who answers for a project goes on doing so while others act. */
  lemma {:induction false} OthersStayInHands(s: State, e: Event, h: nat, row: Row)
    requires ShapesOk(s) && Enabled(s, e) && InHands(s, h, row) && e.h != h
    ensures h in Apply(s, e).handlers && InHands(Apply(s, e), h, row)
  {
    assert h in Apply(s, e).handlers && Apply(s, e).handlers[h] == s.handlers[h];
    if HeldBy(s, h, row) {
      assert DeleterOk(s, h) && (e.Restore? ==> DeleterOk(s, e.h));
      TrashStaysPut(s, e, h);
    }
  }

  /** Who answers for a project and does not let go deletes its row, puts its repository back or still answers. */
  lemma {:induction false} HolderActs(s: State, e: Event, r: int)
    requires ShapesOk(s) && EngagedOwn(s) && Enabled(s, e) && r in s.rows && HeldBy(s, e.h, s.rows[r])
    requires r in Apply(s, e).rows && Apply(s, e).rows[r] == s.rows[r] && !LetsGo(s, e, s.rows[r])
    ensures Accounted(Apply(s, e), s.rows[r])
  {
    var t, row := Apply(s, e), s.rows[r];
    assert DeleterOk(s, e.h) && Engaged(s, e.h, row.disk) && OfProject(s, e.h, r);
    if DeletingIn(t, e.h) && HoldsRepo(t.handlers[e.h]) {
      TrashStaysPut(s, e, e.h);
      assert InHands(t, e.h, row);
    } else {
      assert e.Restore? ==> |s.handlers[e.h].moved| == 1;
      assert Settled(t, row);
    }
  }

  lemma {:induction false} AccountedAfter(s: State, e: Event, r: int)
    requires RowsOk(s) && ShapesOk(s) && EngagedOwn(s) && Enabled(s, e)
    requires MakingIn(s, e.h) ==> MakerRows(s, e.h)
    requires r in s.rows && r in Apply(s, e).rows && Accounted(s, s.rows[r]) && !Strands(s, e, s.rows[r])
    ensures Accounted(Apply(s, e), s.rows[r])
  {
    var row := s.rows[r];
    if Settled(s, row) {
      assert DeletingIn(s, e.h) ==> DeleterOk(s, e.h);
      SettledAfter(s, e, r);
    } else if h :| h in s.handlers && h != e.h && InHands(s, h, row) {
      OthersStayInHands(s, e, h, row);
    } else {
      assert InHands(s, e.h, row) && !LetsGo(s, e, row);
      if HeldBy(s, e.h, row) {
        HolderActs(s, e, r);
      }
    }
  }

  /**
   The guard is exact: a project for which somebody answers is left with nobody answering if and only
   if the step is a failure of the only request that does, while its repository is not at its path.
   */
  lemma {:induction false} StrandsExactly(s: State, e: Event, r: int)
    requires Inv(s) && Enabled(s, e) && r in s.rows && r in Apply(s, e).rows && Accounted(s, s.rows[r])
    ensures Strands(s, e, s.rows[r]) <==> !Accounted(Apply(s, e), s.rows[r])
  {
    assert MakingIn(s, e.h) ==> MakerOk(s, e.h);
    if Strands(s, e, s.rows[r]) {
      StrandingLeavesNobody(s, e, s.rows[r]);
    } else {
      AccountedAfter(s, e, r);
    }
  }

  lemma {:induction false} RowStaysAccounted(s: State, e: Event, r: int)
    requires Inv(s) && Enabled(s, e) && r in Apply(s, e).rows
    ensures Apply(s, e).rows[r].home in Apply(s, e).stranded || Accounted(Apply(s, e), Apply(s, e).rows[r])
  {
    var t, row := Apply(s, e), Apply(s, e).rows[r];
    assert MakingIn(s, e.h) ==> MakerOk(s, e.h);
    if e.Insert? && r == e.row {
      assert Settled(t, row);
    } else {
      assert r in s.rows && row == s.rows[r];
      if row.home !in t.stranded {
        assert !Strands(s, e, row) && row.home !in s.stranded;
        AccountedAfter(s, e, r);
      }
    }
  }

  /** A create that will find its repository keeps finding it, unless its own project is being deleted. */
  lemma {:induction false} MissesLater(s: State, e: Event, h: nat)
    requires Enabled(s, e) && MakingIn(s, h) && s.handlers[h].phase.Inserted?
    requires !MayMiss(s, h) && MayMiss(Apply(s, e), h)
    requires MakerAlone(s, h)
    ensures e.BeginDelete? && s.rows[e.row].disk == s.handlers[h].disk
  {
    var disk := s.handlers[h].disk;
    assert forall g :: !Pending(s, g, disk);
    assert e.Move? ==> !Pending(s, e.h, disk);
    assert !(e.BeginDelete? && s.rows[e.row].disk == disk) ==> forall g :: !Pending(Apply(s, e), g, disk);
  }

  /** Who comes to threaten a row is a request of the project that has it. */
  lemma {:induction false} NewThreatIsOwn(s: State, e: Event, h: nat, r: int)
    requires RowsOk(s) && Enabled(s, e) && r in s.rows && !Threatens(s, h, r) && Threatens(Apply(s, e), h, r)
    requires MakingIn(s, h) ==> MakerAlone(s, h) && MakerRows(s, h)
    ensures ProjectOf(Apply(s, e).handlers[h]) == Some(s.rows[r].home)
  {
    if MakingIn(s, h) && s.handlers[h].phase.Inserted? && !MayMiss(s, h) && MayMiss(Apply(s, e), h) {
      MissesLater(s, e, h);
    }
  }

  lemma {:induction false} ThreatKeepsProject(s: State, e: Event, h: nat, r: int)
    requires Enabled(s, e) && Threatens(s, h, r) && Threatens(Apply(s, e), h, r)
    ensures ProjectOf(Apply(s, e).handlers[h]) == ProjectOf(s.handlers[h])
  {
  }

  lemma {:induction false} InsertThreatens(s: State, e: Event, h: nat)
    requires Enabled(s, e) && e.Insert? && h != e.h && Threatens(Apply(s, e), h, e.row)
    ensures Threatens(s, h, e.row)
  {
    var t := Apply(s, e);
    assert h in s.handlers && t.handlers[h] == s.handlers[h] && t.dirs == s.dirs;
    forall g | g in t.handlers && Pending(t, g, s.handlers[h].disk)
      ensures Pending(s, g, s.handlers[h].disk)
    {
    }
  }

  lemma {:induction false} TargetsStay(s: State, e: Event, h: nat, r: int)
    requires RowsOk(s) && Targets(s) && Enabled(s, e) && Safe(s, e)
    requires MakingIn(s, h) ==> MakerAlone(s, h) && MakerRows(s, h)
    requires r in Apply(s, e).rows && Threatens(Apply(s, e), h, r)
    ensures ProjectOf(Apply(s, e).handlers[h]) == Some(Apply(s, e).rows[r].home)
  {
    if e.Insert? && r == e.row {
      if h != e.h {
        InsertThreatens(s, e, h);
      }
    } else if Threatens(s, h, r) {
      ThreatKeepsProject(s, e, h, r);
    } else {
      NewThreatIsOwn(s, e, h, r);
    }
  }

  /** Every safe step of every handler keeps the invariant. */
  lemma {:induction false} StepKeepsInv(s: State, e: Event)
    requires Inv(s) && Enabled(s, e) && Safe(s, e)
    ensures Inv(Apply(s, e))
  {
    var t := Apply(s, e);
    assert e.Insert? ==> MakerOk(s, e.h);
    RowsStayOk(s, e);
    TreesStayOk(s, e);
    StrandedAreBorn(s, e);
    forall r | r in t.rows && t.rows[r].home in t.stranded
      ensures !Settled(t, t.rows[r]) && !Held(t, t.rows[r])
    {
      StrandedStayOk(s, e, r);
    }
    forall r | r in t.rows
      ensures t.rows[r].home in t.stranded || Accounted(t, t.rows[r])
    {
      RowStaysAccounted(s, e, r);
    }
    forall h | MakingIn(t, h)
      ensures MakerOk(t, h)
    {
      MakerStaysOk(s, e, h);
    }
    forall h | DeletingIn(t, h)
      ensures DeleterOk(t, h)
    {
      DeleterStaysOk(s, e, h);
    }
    assert MakingIn(s, e.h) ==> MakerOk(s, e.h);
    assert DeletingIn(s, e.h) ==> DeleterOk(s, e.h);
    forall r | r in t.rows && Live(t.rows[r].disk, Repo) in t.dirs
      ensures Settled(t, t.rows[r])
    {
      LiveStaysOwn(s, e, r);
    }
    forall g, r | r in t.rows && Engaged(t, g, t.rows[r].disk)
      ensures OfProject(t, g, r)
    {
      EngagedStayOwn(s, e, g, r);
    }
    forall h, r | r in t.rows && Threatens(t, h, r)
      ensures ProjectOf(t.handlers[h]) == Some(t.rows[r].home)
    {
      assert MakingIn(s, h) ==> MakerOk(s, h);
      TargetsStay(s, e, h, r);
    }
  }

  lemma {:induction false} MakerStaysOk(s: State, e: Event, h: nat)
    requires Inv(s) && Enabled(s, e) && Safe(s, e) && MakingIn(Apply(s, e), h)
    ensures MakerOk(Apply(s, e), h)
  {
    assert MakingIn(s, h) ==> MakerOk(s, h);
    assert e.Insert? ==> MakerOk(s, e.h);
    forall g | MakingIn(s, g)
      ensures MakerAlone(s, g)
    {
      assert MakerOk(s, g);
    }
    MakerStaysAlone(s, e, h);
    MakerRowsStay(s, e, h);
    if Apply(s, e).handlers[h].phase.Built? {
      BuiltStaysOk(s, e, h);
    }
  }

  lemma {:induction false} DeleterStaysOk(s: State, e: Event, h: nat)
    requires RowsOk(s) && ShapesOk(s) && Enabled(s, e) && DeletingIn(Apply(s, e), h)
    ensures DeleterOk(Apply(s, e), h)
  {
    assert DeletingIn(s, h) ==> DeleterOk(s, h);
    ShapeStays(s, e, h);
    if HoldsRepo(Apply(s, e).handlers[h]) {
      TrashStaysOk(s, e, h);
    }
  }

  // ---------------------------------------------------------------- runs

  ghost predicate IsRun(events: seq<Event>, states: seq<State>) {
    && |states| == |events| + 1
    && forall i | 0 <= i < |events| :: Enabled(states[i], events[i]) && states[i + 1] == Apply(states[i], events[i])
  }

  ghost predicate IsSafeRun(events: seq<Event>, states: seq<State>) {
    IsRun(events, states) && forall i | 0 <= i < |events| :: Safe(states[i], events[i])
  }

  lemma {:induction false} RunKeepsInv(events: seq<Event>, states: seq<State>, k: nat)
    requires IsSafeRun(events, states) && Inv(states[0]) && k <= |events|
    ensures Inv(states[k])
  {
    if k > 0 {
      RunKeepsInv(events, states, k - 1);
      StepKeepsInv(states[k - 1], events[k - 1]);
    }
  }

  /** Nobody has the project's repository in hand: no deletion in flight, no withdrawing create. */
  ghost predicate AtRest(s: State, disk: int) {
    && (forall h | DeletingIn(s, h) :: s.handlers[h].disk != disk)
    && (forall h | MakingIn(s, h) && s.handlers[h].phase.Withdrawn? :: s.handlers[h].disk != disk)
  }

  /** The step deletes the row of a project that is not the one its request is about. */
  ghost predicate RemovesForeign(s: State, e: Event) {
    && Enabled(s, e)
    && exists r | r in s.rows :: r !in Apply(s, e).rows && ProjectOf(s.handlers[e.h]) != Some(s.rows[r].home)
  }

  /** A project at rest has lost its repository without having been stranded. */
  ghost predicate Loses(s: State) {
    exists r | r in s.rows ::
      AtRest(s, s.rows[r].disk) && !Settled(s, s.rows[r]) && s.rows[r].home !in s.stranded
  }

  /** Rows are deleted by requests about their own project only. */
  lemma {:induction false} RemovalsAreOwn(s: State, e: Event)
    requires Targets(s) && Enabled(s, e)
    ensures !RemovesForeign(s, e)
  {
    assert e.CommitDelete? ==> Threatens(s, e.h, s.handlers[e.h].row);
    assert e.WithdrawRow? ==> Threatens(s, e.h, s.handlers[e.h].phase.row);
  }

  lemma {:induction false} RestMeansSettled(s: State, r: int)
    requires Inv(s) && r in s.rows && AtRest(s, s.rows[r].disk)
    ensures Settled(s, s.rows[r]) <==> s.rows[r].home !in s.stranded
  {
  }

  ghost predicate StrandsProject(s: State, e: Event, home: Tree) {
    exists r | r in s.rows :: s.rows[r].home == home && Strands(s, e, s.rows[r])
  }

  /** What the state notes is what happened. */
  lemma {:induction false} StrandedSince(events: seq<Event>, states: seq<State>, k: nat, home: Tree)
    requires IsRun(events, states) && k <= |events|
    ensures home in states[k].stranded <==>
            home in states[0].stranded || exists i | 0 <= i < k :: StrandsProject(states[i], events[i], home)
  {
    if k > 0 {
      StrandedSince(events, states, k - 1, home);
      assert states[k] == Apply(states[k - 1], events[k - 1]);
      assert home in states[k].stranded <==>
             home in states[k - 1].stranded || StrandsProject(states[k - 1], events[k - 1], home);
    }
  }

  /**
   Over every run of safe steps from a sound state, with any failures and any requests abandoned: a
   project at rest has at its path the very repository it was given, if and only if no step of the run
   stranded it (nor had one before); and every row that is deleted is deleted by a request about its
   project.
   */
  lemma {:induction false} ProjectsKeepTheirRepositories(events: seq<Event>, states: seq<State>)
    requires IsSafeRun(events, states) && Inv(states[0])
    ensures forall k, r | 0 <= k <= |events| && r in states[k].rows && AtRest(states[k], states[k].rows[r].disk) ::
              Settled(states[k], states[k].rows[r]) <==>
              && states[k].rows[r].home !in states[0].stranded
              && forall i | 0 <= i < k :: !StrandsProject(states[i], events[i], states[k].rows[r].home)
    ensures forall k | 0 <= k < |events| :: !RemovesForeign(states[k], events[k])
  {
    forall k, r | 0 <= k <= |events| && r in states[k].rows && AtRest(states[k], states[k].rows[r].disk)
      ensures Settled(states[k], states[k].rows[r]) <==>
              && states[k].rows[r].home !in states[0].stranded
              && forall i | 0 <= i < k :: !StrandsProject(states[i], events[i], states[k].rows[r].home)
    {
      RunKeepsInv(events, states, k);
      RestMeansSettled(states[k], r);
      StrandedSince(events, states, k, states[k].rows[r].home);
    }
    forall k | 0 <= k < |events|
      ensures !RemovesForeign(states[k], events[k])
    {
      RunKeepsInv(events, states, k);
      RemovalsAreOwn(states[k], events[k]);
    }
  }

  lemma {:induction false} SafeRunsLoseNothing(events: seq<Event>, states: seq<State>, k: nat)
    requires IsSafeRun(events, states) && Inv(states[0]) && k <= |events|
    ensures !Loses(states[k])
  {
    RunKeepsInv(events, states, k);
    forall r | r in states[k].rows && AtRest(states[k], states[k].rows[r].disk)
      ensures Settled(states[k], states[k].rows[r]) || states[k].rows[r].home in states[k].stranded
    {
      RestMeansSettled(states[k], r);
    }
  }

  // ---------------------------------------------------------------- the condition is exact

  /** The one is true of some step of the run, or the other of some state. */
  ghost predicate Along(events: seq<Event>, states: seq<State>, step: (State, Event) -> bool, point: State -> bool)
    requires |states| == |events| + 1
  {
    || (exists k | 0 <= k < |events| :: step(states[k], events[k]))
    || (exists k | 0 <= k <= |events| :: point(states[k]))
  }

  ghost predicate WrongAlong(events: seq<Event>, states: seq<State>)
    requires |states| == |events| + 1
  {
    Along(events, states, RemovesForeign, Loses)
  }

  /** Safe steps alone can lead from here to a foreign removal or a lost repository. */
  ghost predicate CanGoWrong(s: State) {
    exists events, states :: IsSafeRun(events, states) && states[0] == s && WrongAlong(events, states)
  }

  ghost predicate GoesWrong(s: State, e: Event)
    requires Enabled(s, e)
  {
    RemovesForeign(s, e) || CanGoWrong(Apply(s, e))
  }

  lemma {:induction false} LossIsWrong(s: State)
    requires Loses(s)
    ensures CanGoWrong(s)
  {
    var events: seq<Event> := [];
    assert IsSafeRun(events, [s]) && Loses([s][0]);
  }

  lemma {:induction false} RunAfterStep(s: State, e: Event, events: seq<Event>, states: seq<State>)
    requires Enabled(s, e) && Safe(s, e) && IsSafeRun(events, states) && states[0] == Apply(s, e)
    ensures IsSafeRun([e] + events, [s] + states)
  {
    var all, seen := [e] + events, [s] + states;
    forall i | 0 <= i < |all|
      ensures Enabled(seen[i], all[i]) && Safe(seen[i], all[i]) && seen[i + 1] == Apply(seen[i], all[i])
    {
      if i > 0 {
        assert all[i] == events[i - 1] && seen[i] == states[i - 1] && seen[i + 1] == states[i];
        assert Enabled(states[i - 1], events[i - 1]) && Safe(states[i - 1], events[i - 1]);
      } else {
        assert all[0] == e && seen[0] == s && seen[1] == states[0];
      }
    }
  }

  lemma {:induction false} AlongAfterStep(s: State, e: Event, events: seq<Event>, states: seq<State>,
                                          step: (State, Event) -> bool, point: State -> bool)
    requires |states| == |events| + 1
    requires Along(events, states, step, point) || step(s, e)
    ensures Along([e] + events, [s] + states, step, point)
  {
    var all, seen := [e] + events, [s] + states;
    if step(s, e) {
      assert step(seen[0], all[0]);
    } else if k :| 0 <= k < |events| && step(states[k], events[k]) {
      assert step(seen[k + 1], all[k + 1]);
    } else {
      var k :| 0 <= k <= |events| && point(states[k]);
      assert point(seen[k + 1]);
    }
  }

  lemma {:induction false} StepGoesWrong(s: State, e: Event)
    requires Enabled(s, e) && Safe(s, e) && GoesWrong(s, e)
    ensures CanGoWrong(s)
  {
    var events: seq<Event>, states := [], [Apply(s, e)];
    if !RemovesForeign(s, e) {
      events, states :| IsSafeRun(events, states) && states[0] == Apply(s, e) && WrongAlong(events, states);
    }
    RunAfterStep(s, e, events, states);
    AlongAfterStep(s, e, events, states, RemovesForeign, Loses);
    assert ([s] + states)[0] == s;
  }

  lemma {:induction false} FreshTime(dirs: map<Place, Tree>) returns (time: nat)
    ensures forall p | p in dirs && p.Trash? :: p.time < time
    decreases |dirs|
  {
    if p :| p in dirs {
      time := FreshTime(dirs - {p});
      assert forall q | q in dirs && q.Trash? :: q == p || q in dirs - {p};
      if p.Trash? && time <= p.time {
        time := p.time + 1;
      }
    } else {
      time := 0;
    }
  }

  /** A deletion about another project than the one that now has the row runs through. */
  lemma {:induction false} DeletionRemovesRow(s: State, h: nat)
    requires DeletingIn(s, h) && !s.handlers[h].restoring && s.handlers[h].row in s.rows
    requires s.rows[s.handlers[h].row].home != s.handlers[h].project
    ensures CanGoWrong(s)
    decreases |s.handlers[h].pending|
  {
    if s.handlers[h].pending == [] {
      StepGoesWrong(s, CommitDelete(h));
    } else {
      var time := FreshTime(s.dirs);
      DeletionRemovesRow(Apply(s, Move(h, time)), h);
      StepGoesWrong(s, Move(h, time));
    }
  }

  /** A withdrawal about another project than the one that now has the row runs through. */
  lemma {:induction false} WithdrawalRemovesRow(s: State, h: nat)
    requires MakingIn(s, h) && (s.handlers[h].phase.Withdrawing? || s.handlers[h].phase.Withdrawn?)
    requires s.handlers[h].phase.row in s.rows && s.rows[s.handlers[h].phase.row].home != s.handlers[h].phase.tree
    ensures CanGoWrong(s)
  {
    if s.handlers[h].phase.Withdrawing? {
      var t := Apply(s, WithdrawDir(h, true));
      StepGoesWrong(t, WithdrawRow(h, true));
      StepGoesWrong(s, WithdrawDir(h, true));
    } else {
      StepGoesWrong(s, WithdrawRow(h, true));
    }
  }

  lemma {:induction false} MissRemovesRow(s: State, h: nat)
    requires MayMiss(s, h) && s.handlers[h].phase.row in s.rows
    requires s.rows[s.handlers[h].phase.row].home != s.handlers[h].phase.tree
    requires forall g | DeletingIn(s, g) :: DeleterShape(s, g)
    ensures CanGoWrong(s)
  {
    if Live(s.handlers[h].disk, Repo) !in s.dirs {
      WithdrawalRemovesRow(Apply(s, Check(h)), h);
      StepGoesWrong(s, Check(h));
    } else {
      var g :| g in s.handlers && Pending(s, g, s.handlers[h].disk);
      var time := FreshTime(s.dirs);
      assert DeleterShape(s, g);
      var t := Apply(s, Move(g, time));
      WithdrawalRemovesRow(Apply(t, Check(h)), h);
      StepGoesWrong(t, Check(h));
      StepGoesWrong(s, Move(g, time));
    }
  }

  lemma {:induction false} MissesAfterInsert(s: State, e: Event, h: nat)
    requires Enabled(s, e) && e.Insert? && h != e.h && MayMiss(s, h)
    ensures MayMiss(Apply(s, e), h)
  {
    var t := Apply(s, e);
    assert forall g | g in s.handlers && Pending(s, g, s.handlers[h].disk) ::
             g in t.handlers && Pending(t, g, s.handlers[h].disk);
  }

  lemma {:induction false} UnsafeInsertGoesWrong(s: State, e: Event)
    requires Inv(s) && e.Insert? && Enabled(s, e) && !Safe(s, e)
    ensures GoesWrong(s, e)
  {
    var h :| Threatens(s, h, e.row);
    var t := Apply(s, e);
    assert MakerOk(s, e.h) && h != e.h && t.handlers[h] == s.handlers[h];
    if DeletingIn(s, h) {
      assert DeleterOk(s, h);
      DeletionRemovesRow(t, h);
    } else {
      assert MakerOk(s, h);
      if s.handlers[h].phase.Inserted? {
        forall g | DeletingIn(t, g)
          ensures DeleterShape(t, g)
        {
          assert DeleterOk(s, g);
        }
        MissesAfterInsert(s, e, h);
        MissRemovesRow(t, h);
      } else {
        WithdrawalRemovesRow(t, h);
      }
    }
  }

  /** A create whose repository was taken away before its insert, about to insert its project. */
  ghost predicate Vanished(s: State, h: nat, row: int) {
    && MakingIn(s, h) && s.handlers[h].phase.Built? && Live(s.handlers[h].disk, Repo) !in s.dirs
    && IsRowId(s.rows, row) && s.handlers[h].disk !in Disks(s.rows)
    && s.handlers[h].phase.tree !in s.stranded
    && forall r | r in s.rows :: s.rows[r].home != s.handlers[h].phase.tree
  }

  lemma {:induction false} AbandonStaysVanished(s: State, g: nat, h: nat, row: int)
    requires Vanished(s, h, row) && g in s.handlers && g != h
    ensures Vanished(Apply(s, Abandon(g)), h, row)
  {
  }

  lemma {:induction false} LastInsertLoses(s: State, h: nat, row: int)
    requires Vanished(s, h, row) && forall g | g in s.handlers :: g == h
    ensures Safe(s, Insert(h, row)) && Loses(Apply(s, Insert(h, row)))
  {
    var t := Apply(s, Insert(h, row));
    assert AtRest(t, t.rows[row].disk);
  }

  /** With every other request abandoned, such a create ends in a lost project. */
  lemma {:induction false} VanishedBuildIsLost(s: State, h: nat, row: int)
    requires Vanished(s, h, row)
    ensures CanGoWrong(s)
    decreases |s.handlers|
  {
    if g :| g in s.handlers && g != h {
      assert s.handlers == (s.handlers - {g})[g := s.handlers[g]];
      AbandonStaysVanished(s, g, h, row);
      VanishedBuildIsLost(Apply(s, Abandon(g)), h, row);
      StepGoesWrong(s, Abandon(g));
    } else {
      LastInsertLoses(s, h, row);
      LossIsWrong(Apply(s, Insert(h, row)));
      StepGoesWrong(s, Insert(h, row));
    }
  }

  /** Another tree comes back to a project's path while a deletion of the project holds its repository. */
  ghost predicate Usurpable(s: State, g: nat, row: int) {
    && row in s.rows && s.rows[row].home !in s.stranded
    && DeletingIn(s, g) && s.handlers[g].restoring && |s.handlers[g].moved| == 1 && HoldsRepo(s.handlers[g])
    && s.handlers[g].disk == s.rows[row].disk && TrashOf(s.handlers[g]) in s.dirs
    && s.dirs[TrashOf(s.handlers[g])] != s.rows[row].home
  }

  ghost predicate SafelyReaches(s: State, t: State) {
    exists events, states :: IsSafeRun(events, states) && states[0] == s && states[|events|] == t
  }

  lemma {:induction false} SafelyOn(s: State, e: Event, t: State)
    requires Enabled(s, e) && Safe(s, e) && SafelyReaches(Apply(s, e), t)
    ensures SafelyReaches(s, t)
  {
    var events, states :| IsSafeRun(events, states) && states[0] == Apply(s, e) && states[|events|] == t;
    RunAfterStep(s, e, events, states);
    assert ([s] + states)[0] == s && ([s] + states)[|[e] + events|] == t;
  }

  lemma {:induction false} SafelyHere(s: State)
    ensures SafelyReaches(s, s)
  {
    var events: seq<Event> := [];
    assert IsSafeRun(events, [s]);
  }

  lemma {:induction false} SafeLossIsWrong(s: State, t: State)
    requires SafelyReaches(s, t) && Loses(t)
    ensures CanGoWrong(s)
  {
    var events, states :| IsSafeRun(events, states) && states[0] == s && states[|events|] == t;
    assert Loses(states[|events|]);
  }

  /** Both deletions end, and the project is at rest with another tree at its path. */
  lemma {:induction false} UsurpLoses(s: State, g: nat, n: nat, row: int) returns (t: State)
    requires n != g && row in s.rows && s.rows[row].home !in s.stranded && !Settled(s, s.rows[row])
    requires DeletingIn(s, g) && s.handlers[g].restoring && s.handlers[g].moved == []
    requires DeletingIn(s, n) && s.handlers[n].restoring && s.handlers[n].moved == []
    requires forall x | x in s.handlers && x != g && x != n :: s.handlers[x].Making? && !s.handlers[x].phase.Withdrawn?
    ensures SafelyReaches(s, t) && t == s.(handlers := s.handlers - {n} - {g}) && Loses(t)
  {
    var u := Apply(s, EndRestore(n));
    assert u == s.(handlers := s.handlers - {n});
    t := Apply(u, EndRestore(g));
    assert AtRest(t, t.rows[row].disk);
    SafelyHere(t);
    SafelyOn(u, EndRestore(g), t);
    SafelyOn(s, EndRestore(n), t);
  }

  /** The new deletion fails and cannot put the project's repository back. */
  lemma {:induction false} UsurpBlocks(s: State, g: nat, n: nat, row: int, time: nat) returns (t: State)
    requires n != g && row in s.rows && s.rows[row].home !in s.stranded && !Settled(s, s.rows[row])
    requires DeletingIn(s, g) && s.handlers[g].restoring && s.handlers[g].moved == []
    requires DeletingIn(s, n) && s.handlers[n] ==
      Deleting(row, s.rows[row].disk, s.rows[row].home, [Wiki, Design], [Moved(Repo, time)], false)
    requires Live(s.rows[row].disk, Repo) in s.dirs
    requires forall x | x in s.handlers && x != g && x != n :: s.handlers[x].Making? && !s.handlers[x].phase.Withdrawn?
    ensures SafelyReaches(s, t) && t == s.(handlers := s.handlers - {n} - {g}) && Loses(t)
  {
    var u := Apply(s, MoveFail(n));
    assert u == s.(handlers := s.handlers[n := s.handlers[n].(restoring := true)]);
    var v := Apply(u, Restore(n, true));
    assert v == u.(handlers := u.handlers[n := u.handlers[n].(moved := [])]);
    t := UsurpLoses(v, g, n, row);
    assert v.handlers - {n} - {g} == s.handlers - {n} - {g};
    SafelyOn(u, Restore(n, true), t);
    SafelyOn(s, MoveFail(n), t);
  }

  /** The older deletion puts its own tree there. */
  lemma {:induction false} UsurpReturns(s: State, g: nat, n: nat, row: int, time: nat) returns (t: State)
    requires Usurpable(s, g, row) && n != g && Live(s.rows[row].disk, Repo) !in s.dirs
    requires DeletingIn(s, n) && s.handlers[n] ==
      Deleting(row, s.rows[row].disk, s.rows[row].home, [Wiki, Design], [Moved(Repo, time)], false)
    requires forall x | x in s.handlers && x != g && x != n :: s.handlers[x].Making? && !s.handlers[x].phase.Withdrawn?
    ensures SafelyReaches(s, t) && Loses(t)
    ensures t == s.(handlers := s.handlers - {n} - {g},
                    dirs := Rename(s.dirs, TrashOf(s.handlers[g]), Live(s.rows[row].disk, Repo)))
  {
    var live, trash := Live(s.rows[row].disk, Repo), TrashOf(s.handlers[g]);
    var u := Apply(s, Restore(g, true));
    assert u == s.(handlers := s.handlers[g := s.handlers[g].(moved := [])], dirs := Rename(s.dirs, trash, live));
    t := UsurpBlocks(u, g, n, row, time);
    assert u.handlers - {n} - {g} == s.handlers - {n} - {g};
    SafelyOn(s, Restore(g, true), t);
  }

  /** A new deletion of the project moves its repository aside. */
  lemma {:induction false} UsurpBegins(s: State, n: nat, row: int, time: nat) returns (u: State, t: State)
    requires row in s.rows && Settled(s, s.rows[row]) && n !in s.handlers
    requires forall p | p in s.dirs && p.Trash? :: p.time < time
    ensures Enabled(s, BeginDelete(n, row)) && u == Apply(s, BeginDelete(n, row))
    ensures Enabled(u, Move(n, time)) && t == Apply(u, Move(n, time))
    ensures t.rows == s.rows && t.stranded == s.stranded && t.handlers == s.handlers[n := t.handlers[n]]
    ensures DeletingIn(t, n) && t.handlers[n] ==
      Deleting(row, s.rows[row].disk, s.rows[row].home, [Wiki, Design], [Moved(Repo, time)], false)
    ensures t.dirs == Rename(s.dirs, Live(s.rows[row].disk, Repo), Trash(s.rows[row].disk, Repo, time))
  {
    u := Apply(s, BeginDelete(n, row));
    t := Apply(u, Move(n, time));
    assert KINDS[1..] == [Wiki, Design];
    assert [] + [Moved(Repo, time)] == [Moved(Repo, time)];
  }

  /** The whole of it, in which no step fails but a deletion's own and every rename that can happen does. */
  lemma {:induction false} UsurpRuns(s: State, g: nat, n: nat, row: int) returns (t: State)
    requires Usurpable(s, g, row) && Settled(s, s.rows[row]) && n !in s.handlers
    requires forall x | x in s.handlers && x != g :: s.handlers[x].Making? && !s.handlers[x].phase.Withdrawn?
    ensures SafelyReaches(s, t) && Loses(t) && t.rows == s.rows && t.stranded == s.stranded
    ensures t.handlers == s.handlers - {g} && Live(s.rows[row].disk, Repo) in t.dirs
    ensures t.dirs[Live(s.rows[row].disk, Repo)] == s.dirs[TrashOf(s.handlers[g])]
  {
    var time := FreshTime(s.dirs);
    var u, v := UsurpBegins(s, n, row, time);
    t := UsurpReturns(v, g, n, row, time);
    assert v.handlers - {n} - {g} == s.handlers - {g};
    SafelyOn(u, Move(n, time), t);
    SafelyOn(s, BeginDelete(n, row), t);
  }

  /** A create has built its repository where a deletion still holds another one. */
  ghost predicate Overbuilt(s: State, h: nat, g: nat, row: int) {
    && MakingIn(s, h) && s.handlers[h].phase.Built? && IsRowId(s.rows, row)
    && Settled(s, Row(s.handlers[h].disk, s.handlers[h].phase.tree)) && s.handlers[h].disk !in Disks(s.rows)
    && s.handlers[h].phase.tree !in s.stranded
    && (forall r | r in s.rows :: s.rows[r].home != s.handlers[h].phase.tree)
    && DeletingIn(s, g) && HoldsRepo(s.handlers[g]) && s.handlers[g].disk == s.handlers[h].disk
    && (forall i | 1 <= i < |s.handlers[g].moved| :: s.handlers[g].moved[i].kind != Repo)
    && TrashOf(s.handlers[g]) in s.dirs && s.dirs[TrashOf(s.handlers[g])] != s.handlers[h].phase.tree
  }

  lemma {:induction false} OthersLeaveOverbuilt(s: State, x: nat, h: nat, g: nat, row: int)
    requires Overbuilt(s, h, g, row) && x in s.handlers && x != h && x != g
    ensures Overbuilt(Apply(s, Abandon(x)), h, g, row)
  {
  }

  lemma {:induction false} FailingStaysOverbuilt(s: State, e: Event, h: nat, g: nat, row: int)
    requires Overbuilt(s, h, g, row) && Enabled(s, e) && e.h == g
    requires e.MoveFail? || e.CommitFail? || (e == Restore(g, false) && |s.handlers[g].moved| > 1)
    ensures Overbuilt(Apply(s, e), h, g, row)
    ensures Apply(s, e).handlers.Keys == s.handlers.Keys && Apply(s, e).handlers[g].restoring
    ensures e.Restore? ==> |Apply(s, e).handlers[g].moved| < |s.handlers[g].moved|
  {
  }

  lemma {:induction false} InsertOverbuilt(s: State, h: nat, g: nat, row: int)
    requires Overbuilt(s, h, g, row) && s.handlers[g].restoring && |s.handlers[g].moved| == 1
    requires forall x | x in s.handlers :: x == g || x == h
    ensures Enabled(s, Insert(h, row)) && Safe(s, Insert(h, row))
    ensures var t := Apply(s, Insert(h, row));
            && Usurpable(t, g, row) && Settled(t, t.rows[row])
            && forall x | x in t.handlers && x != g :: t.handlers[x].Making? && !t.handlers[x].phase.Withdrawn?
    ensures forall x | x in Apply(s, Insert(h, row)).handlers :: x == g || x == h
  {
  }

  /** With every other request abandoned and the deletion failing, such a create ends in a lost project. */
  lemma {:induction false} OverbuiltIsLost(s: State, h: nat, g: nat, row: int)
    requires Overbuilt(s, h, g, row)
    ensures CanGoWrong(s)
    decreases |s.handlers|, !s.handlers[g].restoring, |s.handlers[g].moved|
  {
    var d := s.handlers[g];
    if x :| x in s.handlers && x != h && x != g {
      assert s.handlers == (s.handlers - {x})[x := s.handlers[x]];
      OthersLeaveOverbuilt(s, x, h, g, row);
      OverbuiltIsLost(Apply(s, Abandon(x)), h, g, row);
      StepGoesWrong(s, Abandon(x));
    } else if !d.restoring || |d.moved| > 1 {
      var e := if d.restoring then Restore(g, false) else if d.pending == [] then CommitFail(g) else MoveFail(g);
      FailingStaysOverbuilt(s, e, h, g, row);
      SameSize(s.handlers, Apply(s, e).handlers);
      OverbuiltIsLost(Apply(s, e), h, g, row);
      StepGoesWrong(s, e);
    } else {
      InsertOverbuilt(s, h, g, row);
      var t := Apply(s, Insert(h, row));
      var u := UsurpRuns(t, g, g + h + 1, row);
      SafeLossIsWrong(t, u);
      StepGoesWrong(s, Insert(h, row));
    }
  }

  lemma {:induction false} SameSize(a: map<nat, Handler>, b: map<nat, Handler>)
    requires a.Keys == b.Keys
    ensures |a| == |b|
  {
    assert |a.Keys| == |a| && |b.Keys| == |b|;
  }

  lemma {:induction false} InitOverbuilds(s: State, e: Event, g: nat, row: int)
    requires RowsOk(s) && TreesOk(s) && StrandedOk(s) && e.InitOk? && Enabled(s, e) && IsRowId(s.rows, row)
    requires MakerRows(s, e.h) && DeletingIn(s, g) && DeleterOk(s, g)
    requires HoldsRepo(s.handlers[g]) && s.handlers[g].disk == s.handlers[e.h].disk
    ensures Overbuilt(Apply(s, e), e.h, g, row)
  {
  }

  lemma {:induction false} InitVanishes(s: State, e: Event, g: nat, row: int, time: nat)
    requires RowsOk(s) && TreesOk(s) && StrandedOk(s) && e.InitOk? && Enabled(s, e) && IsRowId(s.rows, row)
    requires MakerRows(s, e.h) && Pending(s, g, s.handlers[e.h].disk) && DeleterShape(s, g)
    requires forall p | p in Apply(s, e).dirs && p.Trash? :: p.time < time
    ensures Enabled(Apply(s, e), Move(g, time)) && Vanished(Apply(Apply(s, e), Move(g, time)), e.h, row)
  {
    var t := Apply(s, e);
    assert t.handlers[g] == s.handlers[g] && t.stranded == s.stranded && t.rows == s.rows;
  }

  lemma {:induction false} UnsafeInitGoesWrong(s: State, e: Event, row: int)
    requires Inv(s) && e.InitOk? && Enabled(s, e) && !Safe(s, e) && IsRowId(s.rows, row)
    ensures GoesWrong(s, e)
  {
    var g :| Engaged(s, g, s.handlers[e.h].disk);
    assert DeleterOk(s, g) && MakerOk(s, e.h);
    var t := Apply(s, e);
    assert t.handlers[g] == s.handlers[g];
    if HoldsRepo(s.handlers[g]) {
      InitOverbuilds(s, e, g, row);
      OverbuiltIsLost(t, e.h, g, row);
    } else {
      var time := FreshTime(t.dirs);
      InitVanishes(s, e, g, row, time);
      VanishedBuildIsLost(Apply(t, Move(g, time)), e.h, row);
      StepGoesWrong(t, Move(g, time));
    }
  }

  /**
   As long as a row id is left, a step from a sound state is safe if and only if no continuation whose
   further steps are safe deletes a foreign row or loses the repository of a project nothing stranded.
   */
  lemma {:induction false} SafeExactly(s: State, e: Event, row: int)
    requires Inv(s) && Enabled(s, e) && IsRowId(s.rows, row)
    ensures Safe(s, e) <==> !GoesWrong(s, e)
  {
    if !Safe(s, e) {
      if e.Insert? {
        UnsafeInsertGoesWrong(s, e);
      } else {
        UnsafeInitGoesWrong(s, e, row);
      }
    } else {
      StepKeepsInv(s, e);
      RemovalsAreOwn(s, e);
      if CanGoWrong(Apply(s, e)) {
        var events, states :| IsSafeRun(events, states) && states[0] == Apply(s, e) && WrongAlong(events, states);
        ProjectsKeepTheirRepositories(events, states);
        forall k | 0 <= k <= |events|
          ensures !Loses(states[k])
        {
          SafeRunsLoseNothing(events, states, k);
        }
        assert false;
      }
    }
  }

  // ---------------------------------------------------------------- the allocator

  ghost predicate AtMostIssued(s: State, disk: int) {
    exists a :: a in s.issued && disk <= a
  }

  /**
   The allocation table reaches beyond every live disk id and every id under deletion, and nobody is
   creating what another is deleting.
   */
  ghost predicate Covered(s: State) {
    && (forall r | r in s.rows :: AtMostIssued(s, s.rows[r].disk))
    && (forall g | DeletingIn(s, g) :: AtMostIssued(s, s.handlers[g].disk))
    && (forall h, g | h in s.handlers && BeforeInsert(s.handlers[h]) && DeletingIn(s, g) ::
          s.handlers[g].disk != s.handlers[h].disk)
  }

  lemma {:induction false} IssuedExceedsDeletions(s: State, e: Event, g: nat)
    requires Covered(s) && Enabled(s, e) && e.Reserve? && DeletingIn(s, g)
    ensures s.handlers[g].disk < e.id
  {
    var a :| a in s.issued && s.handlers[g].disk <= a;
    assert a in Used(s);
  }

  lemma {:induction false} StillAtMostIssued(s: State, e: Event, disk: int)
    requires Enabled(s, e) && AtMostIssued(s, disk)
    ensures AtMostIssued(Apply(s, e), disk)
  {
    var a :| a in s.issued && disk <= a;
    assert a in Apply(s, e).issued;
  }

  /** Every row and every deletion has a disk id that was in use before the step. */
  lemma {:induction false} DiskBefore(s: State, e: Event, r: int, g: nat)
    requires Enabled(s, e)
    ensures r in Apply(s, e).rows ==>
              if e.Insert? && r == e.row then Apply(s, e).rows[r].disk == s.handlers[e.h].disk
              else r in s.rows && Apply(s, e).rows[r] == s.rows[r]
    ensures DeletingIn(Apply(s, e), g) ==>
              if e.BeginDelete? && g == e.h then Apply(s, e).handlers[g].disk == s.rows[e.row].disk
              else DeletingIn(s, g) && Apply(s, e).handlers[g].disk == s.handlers[g].disk
  {
  }

  /** Once the table is ahead it stays ahead, and then a repository is never built under a deletion. */
  lemma {:induction false} CoveredStays(s: State, e: Event)
    requires Inv(s) && Covered(s) && Enabled(s, e)
    ensures e.InitOk? ==> Safe(s, e)
    ensures Covered(Apply(s, e))
  {
    var t := Apply(s, e);
    assert e.Insert? ==> MakerOk(s, e.h) && AtMostIssued(s, s.handlers[e.h].disk);
    forall r | r in t.rows
      ensures AtMostIssued(t, t.rows[r].disk)
    {
      DiskBefore(s, e, r, 0);
      StillAtMostIssued(s, e, t.rows[r].disk);
    }
    forall g | DeletingIn(t, g)
      ensures AtMostIssued(t, t.handlers[g].disk)
    {
      DiskBefore(s, e, 0, g);
      StillAtMostIssued(s, e, t.handlers[g].disk);
    }
    forall h, g | h in t.handlers && BeforeInsert(t.handlers[h]) && DeletingIn(t, g)
      ensures t.handlers[g].disk != t.handlers[h].disk
    {
      assert MakingIn(s, h) ==> MakerOk(s, h);
      if e.Reserve? && DeletingIn(s, g) {
        IssuedExceedsDeletions(s, e, g);
      }
      BuildsStayApart(s, e, h, g);
    }
  }

  lemma {:induction false} BuildsStayApart(s: State, e: Event, h: nat, g: nat)
    requires Enabled(s, e) && (MakingIn(s, h) ==> MakerRows(s, h))
    requires h in s.handlers && BeforeInsert(s.handlers[h]) && DeletingIn(s, g) ==>
               s.handlers[g].disk != s.handlers[h].disk
    requires e.Reserve? && DeletingIn(s, g) ==> s.handlers[g].disk < e.id
    requires h in Apply(s, e).handlers && BeforeInsert(Apply(s, e).handlers[h]) && DeletingIn(Apply(s, e), g)
    ensures Apply(s, e).handlers[g].disk != Apply(s, e).handlers[h].disk
  {
    assert e.BeginDelete? ==> s.rows[e.row].disk in Disks(s.rows);
  }

  /** The first id issued while no deletion is in flight puts the table ahead, also after a migration. */
  lemma {:induction false} FirstReservationCovers(s: State, e: Event)
    requires Inv(s) && Enabled(s, e) && e.Reserve?
    requires forall g :: !DeletingIn(s, g)
    ensures Covered(Apply(s, e))
  {
    var t := Apply(s, e);
    forall r | r in t.rows
      ensures AtMostIssued(t, t.rows[r].disk)
    {
      assert t.rows[r].disk in Used(s) && e.id in t.issued;
    }
    assert forall g :: DeletingIn(t, g) ==> DeletingIn(s, g);
  }

  /** From a covered state only the row ids matter: nobody may be given one that a request may delete by. */
  lemma {:induction false} CoveredRunIsSafe(events: seq<Event>, states: seq<State>, k: nat)
    requires IsRun(events, states) && Inv(states[0]) && Covered(states[0]) && k <= |events|
    requires forall i, h | 0 <= i < |events| && events[i].Insert? :: !Threatens(states[i], h, events[i].row)
    ensures Inv(states[k]) && Covered(states[k])
    ensures forall i | 0 <= i < k :: Safe(states[i], events[i])
  {
    if k > 0 {
      CoveredRunIsSafe(events, states, k - 1);
      CoveredStays(states[k - 1], events[k - 1]);
      StepKeepsInv(states[k - 1], events[k - 1]);
    }
  }

  lemma {:induction false} CoveredProjectsKeepTheirRepositories(events: seq<Event>, states: seq<State>, k: nat, r: int)
    requires IsRun(events, states) && Inv(states[0]) && Covered(states[0]) && k <= |events|
    requires forall i, h | 0 <= i < |events| && events[i].Insert? :: !Threatens(states[i], h, events[i].row)
    requires r in states[k].rows && AtRest(states[k], states[k].rows[r].disk)
    ensures Settled(states[k], states[k].rows[r]) <==>
            && states[k].rows[r].home !in states[0].stranded
            && forall i | 0 <= i < k :: !StrandsProject(states[i], events[i], states[k].rows[r].home)
  {
    CoveredRunIsSafe(events, states, |events|);
    ProjectsKeepTheirRepositories(events, states);
  }

  lemma {:induction false} IssuedGrows(events: seq<Event>, states: seq<State>, i: nat, k: nat)
    requires IsRun(events, states) && i <= k <= |events|
    ensures states[i].issued <= states[k].issued
  {
    if i < k {
      IssuedGrows(events, states, i, k - 1);
    }
  }

  /** Every id issued exceeds all live disk ids and all ids issued before, whatever was deleted since. */
  lemma {:induction false} IssuedIdsIncrease(events: seq<Event>, states: seq<State>, i: nat, j: nat)
    requires IsRun(events, states) && i < j < |events|
    requires events[i].Reserve? && events[j].Reserve?
    ensures events[i].id < events[j].id
    ensures forall r | r in states[j].rows :: states[j].rows[r].disk < events[j].id
  {
    IssuedGrows(events, states, i + 1, j);
    var s := states[j];
    assert events[i].id in states[i + 1].issued && events[i].id in Used(s);
    forall r | r in s.rows
      ensures s.rows[r].disk < events[j].id
    {
      assert s.rows[r].disk in Used(s);
    }
  }

  /** No request in flight, and every project's repository in place: a new installation, or one just migrated. */
  ghost predicate Quiet(s: State) {
    && s.handlers == map[] && s.stranded == {}
    && (forall x | x in s.born :: x < s.clock) && TreesApart(s.dirs, s.clock)
    && (forall r | r in s.rows :: Settled(s, s.rows[r]) && s.rows[r].home in s.born)
    && (forall r, q | r in s.rows && q in s.rows && s.rows[r].disk == s.rows[q].disk :: r == q)
  }

  lemma {:induction false} QuietStateIsSound(s: State)
    requires Quiet(s)
    ensures Inv(s)
    ensures s.rows == map[] ==> Covered(s)
  {
  }

  // ---------------------------------------------------------------- what each step touches

  /** Each handler renames, creates and removes directories of its own disk id only. */
  lemma {:induction false} StepTouchesOwnDisk(s: State, e: Event, p: Place)
    requires Enabled(s, e) && e.h in s.handlers && p.disk != s.handlers[e.h].disk
    ensures p in Apply(s, e).dirs <==> p in s.dirs
    ensures p in s.dirs ==> Apply(s, e).dirs[p] == s.dirs[p]
  {
  }

  /**
   The compensating removal never reaches a live project: when a create, fork or push-time creation
   fails, also when it failed because the directory was already there, no row has its disk id; and a
   create that withdraws removes no other project's directory than its own.
   */
  lemma {:induction false} CompensationSparesProjects(s: State, e: Event, r: int, p: Place)
    requires Inv(s) && Enabled(s, e) && (e.CleanUp? || e.WithdrawDir?)
    requires r in s.rows && p.disk == s.rows[r].disk
    requires e.WithdrawDir? ==> s.rows[r].home != s.handlers[e.h].phase.tree
    ensures p in Apply(s, e).dirs <==> p in s.dirs
    ensures p in s.dirs ==> Apply(s, e).dirs[p] == s.dirs[p]
  {
    assert MakerOk(s, e.h);
    assert s.rows[r].disk in Disks(s.rows);
    StepTouchesOwnDisk(s, e, p);
  }

  /** Rows come by inserts and go by committed deletions and withdrawals of their id, and are never changed. */
  lemma {:induction false} RowsChange(s: State, e: Event, r: int)
    requires Enabled(s, e)
    ensures r in Apply(s, e).rows <==>
            || (e.Insert? && e.row == r)
            || (r in s.rows && !(e.CommitDelete? && s.handlers[e.h].row == r)
                && !(e.WithdrawRow? && e.ok && s.handlers[e.h].phase.row == r))
    ensures r in s.rows && r in Apply(s, e).rows ==> Apply(s, e).rows[r] == s.rows[r]
    ensures e.Insert? ==> r == e.row ==>
              r !in s.rows && Apply(s, e).rows[r] == Row(s.handlers[e.h].disk, s.handlers[e.h].phase.tree)
  {
  }

  /** The place holds the same before and after. */
  predicate SameAt(s: State, t: State, p: Place) {
    (p in t.dirs <==> p in s.dirs) && (p in s.dirs ==> t.dirs[p] == s.dirs[p])
  }

  /** A create puts a repository at its path or, failing, may leave something there; it takes only that path away. */
  lemma {:induction false} CreateDirectories(s: State, e: Event, p: Place)
    requires Enabled(s, e) && MakingIn(s, e.h)
    ensures var live, t := Live(s.handlers[e.h].disk, Repo), Apply(s, e);
            if p != live || e.Reserve? || e.Insert? || e.InsertFail? || e.Check? || e.WithdrawRow? || e.Abandon? then
              SameAt(s, t, p)
            else if e.InitOk? then p !in s.dirs && p in t.dirs && t.dirs[p] == s.clock
            else if e.InitFail? then
              (p in t.dirs <==> p in s.dirs || e.leaves) && (p in s.dirs ==> t.dirs[p] == s.dirs[p])
            else (p in t.dirs <==> p in s.dirs && !e.removed) && (p in t.dirs ==> t.dirs[p] == s.dirs[p])
  {
  }

  /** A visit renames the directory aside, if there is one. */
  lemma {:induction false} VisitRenames(s: State, h: nat, time: nat, p: Place)
    requires Enabled(s, Move(h, time))
    ensures var d, t := s.handlers[h], Apply(s, Move(h, time));
            var live, trash := Live(d.disk, d.pending[0]), Trash(d.disk, d.pending[0], time);
            && live !in t.dirs
            && (live in s.dirs ==> trash !in s.dirs && trash in t.dirs && t.dirs[trash] == s.dirs[live])
            && (live !in s.dirs ==> SameAt(s, t, p))
            && (p != live && p != trash ==> SameAt(s, t, p))
  {
  }

  /** A rename back happens exactly when the directory is still aside and nothing is in its way. */
  lemma {:induction false} RestoreRenames(s: State, h: nat, ok: bool, p: Place)
    requires Enabled(s, Restore(h, ok))
    ensures var d, t := s.handlers[h], Apply(s, Restore(h, ok));
            var last := d.moved[|d.moved| - 1];
            var live, trash := Live(d.disk, last.kind), Trash(d.disk, last.kind, last.time);
            && (ok && trash in s.dirs && live !in s.dirs ==>
                  trash !in t.dirs && live in t.dirs && t.dirs[live] == s.dirs[trash])
            && (!(ok && trash in s.dirs && live !in s.dirs) || (p != live && p != trash) ==> SameAt(s, t, p))
  {
  }

  lemma {:induction false} OthersRenameNothing(s: State, e: Event, p: Place)
    requires Enabled(s, e) && !e.Move? && !e.Restore? && (e.BeginDelete? || DeletingIn(s, e.h))
    ensures SameAt(s, Apply(s, e), p)
  {
  }

  /** The step leaves the request with this record, and all other requests as they were. */
  ghost predicate Becomes(s: State, t: State, h: nat, m: Handler) {
    && h in t.handlers && t.handlers[h] == m && OthersAsWere(s, t, h)
  }

  ghost predicate Ends(s: State, t: State, h: nat) {
    h !in t.handlers && OthersAsWere(s, t, h)
  }

  ghost predicate OthersAsWere(s: State, t: State, h: nat) {
    && (forall g | g != h :: g in t.handlers <==> g in s.handlers)
    && (forall g | g != h && g in s.handlers :: t.handlers[g] == s.handlers[g])
  }

  /** The stages of a create: reserved, built, inserted, and for `create` the look for its repository. */
  lemma {:induction false} CreateStages(s: State, e: Event)
    requires Enabled(s, e) && MakingIn(s, e.h)
    ensures var m, t := s.handlers[e.h], Apply(s, e);
            match e
            case InitOk(h) => Becomes(s, t, h, Making(m.style, m.disk, Built(s.clock)))
            case InitFail(h, _) => Becomes(s, t, h, Making(m.style, m.disk, Failing))
            case InsertFail(h) => Becomes(s, t, h, Making(m.style, m.disk, Failing))
            case Insert(h, row) =>
              if m.style.Create? then Becomes(s, t, h, Making(Create, m.disk, Inserted(row, m.phase.tree)))
              else Ends(s, t, h)
            case Check(h) =>
              if Live(m.disk, Repo) in s.dirs then Ends(s, t, h)
              else Becomes(s, t, h, Making(m.style, m.disk, Withdrawing(m.phase.row, m.phase.tree)))
            case WithdrawDir(h, _) =>
              Becomes(s, t, h, Making(m.style, m.disk, Withdrawn(m.phase.row, m.phase.tree)))
            case _ => Ends(s, t, e.h)
    ensures Apply(s, e).issued == s.issued
  {
  }

  lemma {:induction false} CreateBegins(s: State, h: nat, style: Style, id: int)
    requires Enabled(s, Reserve(h, style, id))
    ensures var t := Apply(s, Reserve(h, style, id));
            && h !in s.handlers && Becomes(s, t, h, Making(style, id, Reserved))
            && t.issued == s.issued + {id} && t.rows == s.rows && t.dirs == s.dirs
    ensures id !in s.issued && id <= 9_223_372_036_854_775_807
  {
  }

  /** The stages of a deletion: three visits in order and the commit, or back through what it moved, last first. */
  lemma {:induction false} DeletionStages(s: State, e: Event)
    requires Enabled(s, e) && DeletingIn(s, e.h)
    ensures var d, t := s.handlers[e.h], Apply(s, e);
            match e
            case Move(h, time) =>
              var found := Live(d.disk, d.pending[0]) in s.dirs;
              Becomes(s, t, h, d.(pending := d.pending[1..],
                                  moved := d.moved + if found then [Moved(d.pending[0], time)] else []))
            case MoveFail(h) => Becomes(s, t, h, d.(restoring := true))
            case CommitFail(h) => Becomes(s, t, h, d.(restoring := true))
            case Restore(h, _) => Becomes(s, t, h, d.(moved := d.moved[..|d.moved| - 1]))
            case _ => Ends(s, t, e.h)
    ensures Apply(s, e).issued == s.issued
  {
  }

  lemma {:induction false} DeletionBegins(s: State, h: nat, r: int)
    requires Enabled(s, BeginDelete(h, r))
    ensures var t := Apply(s, BeginDelete(h, r));
            && h !in s.handlers && t.rows == s.rows
            && Becomes(s, t, h, Deleting(r, s.rows[r].disk, s.rows[r].home, [Repo, Wiki, Design], [], false))
  {
  }

  /** What can happen next to a request, and when a new one can begin. */
  lemma {:induction false} StagesAllow(s: State, h: nat, r: int)
    ensures Enabled(s, BeginDelete(h, r)) <==> h !in s.handlers && r in s.rows
    ensures MakingIn(s, h) ==>
              var m := s.handlers[h];
              && (Enabled(s, InitFail(h, true)) <==> m.phase.Reserved?)
              && (Enabled(s, InitOk(h)) <==> m.phase.Reserved? && Live(m.disk, Repo) !in s.dirs)
              && (Enabled(s, InsertFail(h)) <==> m.phase.Built?)
              && (Enabled(s, CleanUp(h, true)) <==> m.phase.Failing?)
              && (Enabled(s, Check(h)) <==> m.phase.Inserted?)
              && (Enabled(s, WithdrawDir(h, true)) <==> m.phase.Withdrawing?)
              && (Enabled(s, WithdrawRow(h, true)) <==> m.phase.Withdrawn?)
    ensures DeletingIn(s, h) ==>
              var d := s.handlers[h];
              && (Enabled(s, MoveFail(h)) <==> !d.restoring && d.pending != [])
              && (Enabled(s, CommitDelete(h)) <==> !d.restoring && d.pending == [])
              && (Enabled(s, CommitFail(h)) <==> !d.restoring && d.pending == [])
              && (Enabled(s, Restore(h, true)) <==> d.restoring && d.moved != [])
              && (Enabled(s, EndRestore(h)) <==> d.restoring && d.moved == [])
    ensures Enabled(s, Abandon(h)) <==> h in s.handlers
  {
  }

  /** A create that fails leaves its path free, unless the file system refuses the removal, and its id unused. */
  lemma {:induction false} CleanUpFreesPath(s: State, h: nat, removed: bool)
    requires Inv(s) && Enabled(s, CleanUp(h, removed))
    ensures var t, live := Apply(s, CleanUp(h, removed)), Live(s.handlers[h].disk, Repo);
            && (removed ==> live !in t.dirs)
            && (forall p | p != live :: p in t.dirs <==> p in s.dirs)
            && h !in t.handlers && t.rows == s.rows && s.handlers[h].disk !in Disks(t.rows)
  {
    assert MakerOk(s, h);
  }

  /** While a deletion holds a project's repository, nothing is at its path and no other deletion holds any. */
  lemma {:induction false} HoldsAlone(s: State, r: int, g: nat, h: nat)
    requires Inv(s) && r in s.rows
    requires DeletingIn(s, g) && HoldsRepo(s.handlers[g]) && s.handlers[g].disk == s.rows[r].disk
    requires DeletingIn(s, h) && HoldsRepo(s.handlers[h]) && s.handlers[h].disk == s.rows[r].disk
    ensures g == h && Live(s.rows[r].disk, Repo) !in s.dirs && HeldBy(s, g, s.rows[r])
  {
    assert OfProject(s, g, r) && OfProject(s, h, r) && DeleterOk(s, g) && DeleterOk(s, h);
  }

  /**
   A project is left with nobody answering for it only by an abandoned request, a rename back that the
   file system refuses, or a withdrawal whose final statement fails: nothing else can block a rename back.
   */
  lemma {:induction false} OnlyFailuresStrand(s: State, e: Event, r: int)
    requires Inv(s) && Enabled(s, e) && r in s.rows && r in Apply(s, e).rows && Accounted(s, s.rows[r])
    requires !e.Abandon? && !(e.Restore? && !e.ok) && !(e.WithdrawRow? && !e.ok)
    ensures Accounted(Apply(s, e), s.rows[r])
  {
    StrandsExactly(s, e, r);
  }

  // ---------------------------------------------------------------- complete runs that go wrong

  /** Some run leads from one state to the other. */
  ghost predicate Reaches(s: State, t: State) {
    exists events, states :: IsRun(events, states) && states[0] == s && states[|events|] == t
  }

  lemma {:induction false} RunsJoin(e1: seq<Event>, s1: seq<State>, e2: seq<Event>, s2: seq<State>)
    requires IsRun(e1, s1) && IsRun(e2, s2) && s1[|e1|] == s2[0]
    ensures IsRun(e1 + e2, s1 + s2[1..])
    ensures (s1 + s2[1..])[|e1| + |e2|] == s2[|e2|]
  {
    var e, s := e1 + e2, s1 + s2[1..];
    forall i | 0 <= i < |e|
      ensures Enabled(s[i], e[i]) && s[i + 1] == Apply(s[i], e[i])
    {
      if i < |e1| {
        assert Enabled(s1[i], e1[i]);
      } else {
        assert e[i] == e2[i - |e1|] && s[i] == s2[i - |e1|] && s[i + 1] == s2[i - |e1| + 1];
      }
    }
  }

  lemma {:induction false} ReachesHere(s: State)
    ensures Reaches(s, s)
  {
    var events: seq<Event> := [];
    assert IsRun(events, [s]);
  }

  lemma {:induction false} ReachesNext(s: State, t: State, e: Event)
    requires Reaches(s, t) && Enabled(t, e)
    ensures Reaches(s, Apply(t, e))
  {
    var events, states :| IsRun(events, states) && states[0] == s && states[|events|] == t;
    assert IsRun([e], [t, Apply(t, e)]);
    RunsJoin(events, states, [e], [t, Apply(t, e)]);
    assert (states + [t, Apply(t, e)][1..])[0] == s;
    assert |events + [e]| == |events| + 1;
  }

  lemma {:induction false} ReachesOn(s: State, t: State, u: State)
    requires Reaches(s, t) && Reaches(t, u)
    ensures Reaches(s, u)
  {
    var e1, s1 :| IsRun(e1, s1) && s1[0] == s && s1[|e1|] == t;
    var e2, s2 :| IsRun(e2, s2) && s2[0] == t && s2[|e2|] == u;
    RunsJoin(e1, s1, e2, s2);
    assert (s1 + s2[1..])[0] == s && |e1 + e2| == |e1| + |e2|;
  }

  lemma {:induction false} SafelyIsReaching(s: State, t: State)
    requires SafelyReaches(s, t)
    ensures Reaches(s, t)
  {
    var events, states :| IsSafeRun(events, states) && states[0] == s && states[|events|] == t;
    assert IsRun(events, states);
  }

  /** Directories of other disk ids and in the trash are as before, and nothing new is at an addressable path. */
  ghost predicate OnlyTrashed(s: State, disk: int, t: State) {
    && (forall p: Place | p.disk != disk :: p in t.dirs <==> p in s.dirs)
    && (forall p: Place | p.disk != disk && p in s.dirs :: t.dirs[p] == s.dirs[p])
    && (forall p | p in s.dirs && p.Trash? :: p in t.dirs && t.dirs[p] == s.dirs[p])
    && (forall p | p in t.dirs && p.Live? :: p in s.dirs)
  }

  /** The visits of a deletion that meets no obstacle. */
  lemma {:induction false} VisitsLead(s: State, g: nat) returns (t: State)
    requires DeletingIn(s, g) && !s.handlers[g].restoring
    ensures Reaches(s, t) && t.rows == s.rows && OnlyTrashed(s, s.handlers[g].disk, t)
    ensures DeletingIn(t, g) && t.handlers == s.handlers[g := t.handlers[g]]
    ensures t.handlers[g] == s.handlers[g].(pending := [], moved := t.handlers[g].moved)
    ensures t.issued == s.issued && t.clock == s.clock && t.stranded == s.stranded
    ensures Repo in s.handlers[g].pending ==> Live(s.handlers[g].disk, Repo) !in t.dirs
    decreases |s.handlers[g].pending|
  {
    ReachesHere(s);
    t := s;
    if s.handlers[g].pending != [] {
      var time := FreshTime(s.dirs);
      ReachesNext(s, s, Move(g, time));
      t := VisitsLead(Apply(s, Move(g, time)), g);
      ReachesOn(s, Apply(s, Move(g, time)), t);
    }
  }

  /** A deletion that meets no obstacle. */
  lemma {:induction false} DeletionLeads(s: State, g: nat) returns (t: State)
    requires DeletingIn(s, g) && !s.handlers[g].restoring
    ensures Reaches(s, t) && t.rows == s.rows - {s.handlers[g].row} && t.handlers == s.handlers - {g}
    ensures t.issued == s.issued && t.clock == s.clock && t.stranded == s.stranded
    ensures OnlyTrashed(s, s.handlers[g].disk, t)
    ensures Repo in s.handlers[g].pending ==> Live(s.handlers[g].disk, Repo) !in t.dirs
  {
    var u := VisitsLead(s, g);
    t := Apply(u, CommitDelete(g));
    ReachesNext(s, u, CommitDelete(g));
  }

  lemma {:induction false} BuildLeads(s: State, h: nat, style: Style, id: int) returns (t: State)
    requires Enabled(s, Reserve(h, style, id)) && Live(id, Repo) !in s.dirs
    ensures Reaches(s, t)
    ensures t == s.(issued := s.issued + {id}, dirs := s.dirs[Live(id, Repo) := s.clock], clock := s.clock + 1,
                    handlers := s.handlers[h := Making(style, id, Built(s.clock))])
  {
    var s1 := Apply(s, Reserve(h, style, id));
    t := Apply(s1, InitOk(h));
    ReachesHere(s);
    ReachesNext(s, s, Reserve(h, style, id));
    ReachesNext(s, s1, InitOk(h));
  }

  /** A creation that meets no obstacle: reservation, directory, row. */
  lemma {:induction false} CreationLeads(s: State, h: nat, style: Style, id: int, row: int) returns (t: State)
    requires Enabled(s, Reserve(h, style, id)) && IsRowId(s.rows, row) && Live(id, Repo) !in s.dirs
    ensures Reaches(s, t) && t.rows == s.rows[row := Row(id, s.clock)] && t.issued == s.issued + {id}
    ensures t.clock == s.clock + 1 && t.dirs == s.dirs[Live(id, Repo) := s.clock] && t.stranded == s.stranded
    ensures t.handlers ==
            if style == Create then s.handlers[h := Making(Create, id, Inserted(row, s.clock))] else s.handlers
  {
    assert id !in Used(s);
    var u := BuildLeads(s, h, style, id);
    t := Apply(u, Insert(h, row));
    ReachesNext(s, u, Insert(h, row));
    assert u.handlers - {h} == s.handlers;
  }

  /** A deletion of project `was` that has row `r` left to delete when the row is another project's. */
  lemma {:induction false} LateCommit(t: State, r: int, row: int, was: Tree)
    requires DeletingIn(t, 1) && Enabled(t, CommitDelete(1)) && t.handlers == map[1 := t.handlers[1]]
    requires t.handlers[1].row == r && t.handlers[1].project == was && (r in t.rows ==> r == row)
    requires row in t.rows && t.rows[row].home != was && t.rows[row].home !in t.stranded
    requires forall q | q in t.rows && q != row :: Settled(t, t.rows[q])
    ensures RemovesForeign(t, CommitDelete(1)) <==> row == r
    ensures Loses(Apply(t, CommitDelete(1))) <==> row != r && !Settled(t, t.rows[row])
  {
    var u := Apply(t, CommitDelete(1));
    assert u.handlers == map[] && u.dirs == t.dirs;
    assert row != r ==> row in u.rows && u.rows[row] == t.rows[row] && AtRest(u, u.rows[row].disk);
    assert forall q | q in u.rows :: u.rows[q] == t.rows[q] && (Settled(u, u.rows[q]) <==> Settled(t, t.rows[q]));
    assert row == r ==> row !in u.rows;
  }

  /** The renames of a deletion leave the repositories of other disks where they are. */
  lemma {:induction false} OthersStaySettled(s: State, disk: int, t: State, row: Row)
    requires OnlyTrashed(s, disk, t) && row.disk != disk
    ensures Settled(t, row) <==> Settled(s, row)
  {
    assert Live(row.disk, Repo).disk != disk;
  }

  lemma {:induction false} LeavesOther(h: Handler, g: Handler)
    ensures map[0 := h, 1 := g] - {0} == map[1 := g] && map[0 := h, 1 := g] - {1} == map[0 := h]
  {
    assert (map[0 := h, 1 := g] - {0})[1] == g && (map[0 := h, 1 := g] - {1})[0] == h;
  }

  lemma {:induction false} TwoDeletionsBegin(s: State, r: int) returns (t: State)
    requires s.handlers == map[] && r in s.rows
    ensures Reaches(s, t)
    ensures var d := Deleting(r, s.rows[r].disk, s.rows[r].home, KINDS, [], false);
            t == s.(handlers := map[0 := d, 1 := d])
  {
    var t1 := Apply(s, BeginDelete(0, r));
    t := Apply(t1, BeginDelete(1, r));
    ReachesHere(s);
    ReachesNext(s, s, BeginDelete(0, r));
    ReachesNext(s, t1, BeginDelete(1, r));
  }

  /** Two deletions begin, one completes, and a new project is created before the other moves anything. */
  lemma {:induction false} NewProjectUnderDeletion(s: State, r: int, row: int, id: int) returns (u: State, t: State)
    requires Quiet(s) && r in s.rows && IsRowId(s.rows - {r}, row)
    requires IsNext(Disks(s.rows - {r}) + s.issued, id) && id <= MAX_ID
    requires Live(id, Repo) in s.dirs ==> id == s.rows[r].disk
    ensures Reaches(s, t) && OnlyTrashed(s, s.rows[r].disk, u) && t.stranded == {}
    ensures t.rows == (s.rows - {r})[row := Row(id, s.clock)] && t.dirs == u.dirs[Live(id, Repo) := s.clock]
    ensures t.handlers == map[1 := Deleting(r, s.rows[r].disk, s.rows[r].home, KINDS, [], false)]
  {
    var s2 := TwoDeletionsBegin(s, r);
    u := DeletionLeads(s2, 0);
    LeavesOther(s2.handlers[0], s2.handlers[1]);
    t := CreationLeads(u, 0, Auto, id, row);
    ReachesOn(s, s2, u);
    ReachesOn(s, u, t);
  }

  lemma {:induction false} OtherRowStaysSettled(s: State, r: int, row: int, id: int, u: State, v: State, t: State,
                                                q: int)
    requires Quiet(s) && r in s.rows && IsNext(Disks(s.rows - {r}) + s.issued, id)
    requires OnlyTrashed(s, s.rows[r].disk, u) && v.dirs == u.dirs[Live(id, Repo) := s.clock]
    requires OnlyTrashed(v, s.rows[r].disk, t) && t.rows == (s.rows - {r})[row := Row(id, s.clock)]
    requires q in t.rows && q != row
    ensures Settled(t, t.rows[q])
  {
    assert t.rows[q] == s.rows[q] && s.rows[q].disk in Disks(s.rows - {r});
    OthersStaySettled(s, s.rows[r].disk, u, s.rows[q]);
    OthersStaySettled(v, s.rows[r].disk, t, s.rows[q]);
  }

  /** After that the other deletion visits its directories. */
  lemma {:induction false} LateVisits(s: State, r: int, row: int, id: int) returns (t: State)
    requires Quiet(s) && r in s.rows && IsRowId(s.rows - {r}, row)
    requires IsNext(Disks(s.rows - {r}) + s.issued, id) && id <= MAX_ID
    requires Live(id, Repo) in s.dirs ==> id == s.rows[r].disk
    ensures Reaches(s, t) && Enabled(t, CommitDelete(1)) && t.rows == (s.rows - {r})[row := Row(id, s.clock)]
    ensures t.handlers == map[1 := t.handlers[1]] && t.stranded == {}
    ensures t.handlers[1].row == r && t.handlers[1].project == s.rows[r].home
    ensures Settled(t, t.rows[row]) <==> id != s.rows[r].disk
    ensures forall q | q in t.rows && q != row :: Settled(t, t.rows[q])
  {
    var u, v := NewProjectUnderDeletion(s, r, row, id);
    t := VisitsLead(v, 1);
    ReachesOn(s, v, t);
    forall q | q in t.rows && q != row
      ensures Settled(t, t.rows[q])
    {
      OtherRowStaysSettled(s, r, row, id, u, v, t, q);
    }
    if id != s.rows[r].disk {
      OthersStaySettled(v, s.rows[r].disk, t, t.rows[row]);
    }
  }

  /**
   Of two deletions of one project the second runs late, when another project has been created. The
   row id of the deleted project is the next one when its row was the newest: then the late deletion
   removes the new project's row. Its disk id is the next one when it was the largest and migrated:
   then the late deletion takes the new project's repository.
   */
  lemma {:induction false} LateDeleteHitsNewProject(s: State, r: int, row: int, id: int)
    returns (t: State)
    requires Quiet(s) && r in s.rows && IsRowId(s.rows - {r}, row)
    requires IsNext(Disks(s.rows - {r}) + s.issued, id) && id <= MAX_ID
    requires Live(id, Repo) in s.dirs ==> id == s.rows[r].disk
    ensures Reaches(s, t) && Enabled(t, CommitDelete(1)) && t.rows == (s.rows - {r})[row := Row(id, s.clock)]
    ensures RemovesForeign(t, CommitDelete(1)) <==> row == r
    ensures Settled(t, t.rows[row]) <==> id != s.rows[r].disk
    ensures Loses(Apply(t, CommitDelete(1))) <==> row != r && id == s.rows[r].disk
  {
    t := LateVisits(s, r, row, id);
    LateCommit(t, r, row, s.rows[r].home);
  }

  /** On a freshly migrated installation, where row ids are disk ids, the newest project's ids are both given again. */
  lemma {:induction false} MigratedProjectHit(s: State, r: int) returns (t: State)
    requires Quiet(s) && s.issued == {} && forall q | q in s.rows :: s.rows[q].disk == q
    requires r in s.rows && r <= MAX_ID && IsNext((s.rows - {r}).Keys, r)
    ensures Reaches(s, t) && t.rows == (s.rows - {r})[r := Row(r, s.clock)] && !Settled(t, t.rows[r])
    ensures RemovesForeign(t, CommitDelete(1))
  {
    var rest := s.rows - {r};
    assert Disks(rest) == rest.Keys by {
      assert forall q | q in rest :: rest[q].disk == q && q in Disks(rest);
    }
    assert Disks(rest) + s.issued == rest.Keys;
    t := LateDeleteHitsNewProject(s, r, r, r);
  }

  /** Two deletions begin; one moves the repository aside and fails, the other finds nothing and completes. */
  lemma {:induction false} DeletedWhileHeld(s: State, r: int) returns (t: State)
    requires Quiet(s) && r in s.rows
    ensures Reaches(s, t) && t.rows == s.rows - {r} && t.issued == s.issued && t.clock == s.clock && t.stranded == {}
    ensures DeletingIn(t, 0) && t.handlers == map[0 := t.handlers[0]] && t.handlers[0].restoring
    ensures |t.handlers[0].moved| == 1 && HoldsRepo(t.handlers[0]) && t.handlers[0].disk == s.rows[r].disk
    ensures TrashOf(t.handlers[0]) in t.dirs && t.dirs[TrashOf(t.handlers[0])] == s.rows[r].home
    ensures Live(s.rows[r].disk, Repo) !in t.dirs
  {
    var s2 := TwoDeletionsBegin(s, r);
    var time := FreshTime(s.dirs);
    var s3 := MovesAndFails(s2, 0, s.rows[r].home, time);
    t := DeletionLeads(s3, 1);
    LeavesOther(s3.handlers[0], s3.handlers[1]);
    ReachesOn(s, s2, s3);
    ReachesOn(s, s3, t);
  }

  lemma {:induction false} MovesAndFails(s: State, g: nat, tree: Tree, time: nat) returns (t: State)
    requires DeletingIn(s, g) && !s.handlers[g].restoring && s.handlers[g].pending == KINDS && s.handlers[g].moved == []
    requires Live(s.handlers[g].disk, Repo) in s.dirs && s.dirs[Live(s.handlers[g].disk, Repo)] == tree
    requires Trash(s.handlers[g].disk, Repo, time) !in s.dirs
    ensures Reaches(s, t) && t.rows == s.rows && t.issued == s.issued && t.clock == s.clock && t.stranded == s.stranded
    ensures t.handlers ==
      s.handlers[g := s.handlers[g].(pending := KINDS[1..], moved := [Moved(Repo, time)], restoring := true)]
    ensures t.dirs == Rename(s.dirs, Live(s.handlers[g].disk, Repo), Trash(s.handlers[g].disk, Repo, time))
  {
    var u := Apply(s, Move(g, time));
    assert [] + [Moved(Repo, time)] == [Moved(Repo, time)];
    t := Apply(u, MoveFail(g));
    ReachesHere(s);
    ReachesNext(s, s, Move(g, time));
    ReachesNext(s, u, MoveFail(g));
  }

  /**
   A deletion that failed has yet to put the repository back when its project, migrated and with the
   largest disk id, is deleted by another request and the id issued again. It puts the deleted
   project's repository at the new project's path, and the new project's own cannot be put back
   there when a deletion of it fails: no request is left, and no rename that was possible failed.
   */
  lemma {:induction false} BlockedRestoreLosesProject(s: State, r: int, row: int) returns (t: State)
    requires Quiet(s) && r in s.rows && IsRowId(s.rows - {r}, row)
    requires IsNext(Disks(s.rows - {r}) + s.issued, s.rows[r].disk) && s.rows[r].disk <= MAX_ID
    ensures Reaches(s, t) && t.rows == (s.rows - {r})[row := Row(s.rows[r].disk, s.clock)]
    ensures t.handlers == map[] && t.stranded == {} && Loses(t)
    ensures var live := Live(s.rows[r].disk, Repo); live in t.dirs && t.dirs[live] == s.rows[r].home
  {
    var u := DeletedWhileHeld(s, r);
    var v := CreationLeads(u, 1, Auto, s.rows[r].disk, row);
    ReachesOn(s, u, v);
    t := UsurpRuns(v, 0, 1, row);
    SafelyIsReaching(v, t);
    ReachesOn(s, v, t);
    assert t.handlers.Keys == {};
  }

  lemma {:induction false} DeletedAgain(rows: map<int, Row>, row: int, it: Row)
    requires row !in rows
    ensures rows[row := it] - {row} == rows
  {
  }

  /** A create inserts its project, and another request deletes it before the create looks for it. */
  lemma {:induction false} CreatedThenDeleted(s: State, row: int, id: int) returns (t: State)
    requires s.handlers == map[] && IsRowId(s.rows, row) && IsNext(Used(s), id) && id <= MAX_ID
    requires Live(id, Repo) !in s.dirs
    ensures Reaches(s, t) && t.rows == s.rows && t.issued == s.issued + {id} && t.clock == s.clock + 1
    ensures t.handlers == map[0 := Making(Create, id, Inserted(row, s.clock))]
    ensures Live(id, Repo) !in t.dirs && forall p: Place | p.Live? && p.disk != id :: p in t.dirs ==> p in s.dirs
  {
    var s1 := CreationLeads(s, 0, Create, id, row);
    var s2 := Apply(s1, BeginDelete(1, row));
    t := DeletionLeads(s2, 1);
    DeletedAgain(s.rows, row, s1.rows[row]);
    LeavesOther(s2.handlers[0], s2.handlers[1]);
    ReachesNext(s, s1, BeginDelete(1, row));
    ReachesOn(s, s2, t);
  }

  /** After that, a new project is given the row id. */
  lemma {:induction false} RowIdGivenAgain(s: State, row: int, id: int) returns (t: State)
    requires s.handlers == map[] && IsRowId(s.rows, row) && IsNext(Used(s), id) && id < MAX_ID
    requires Live(id, Repo) !in s.dirs && Live(id + 1, Repo) !in s.dirs
    ensures Reaches(s, t) && t.rows == s.rows[row := Row(id + 1, s.clock + 1)] && Settled(t, t.rows[row])
    ensures t.handlers == map[0 := Making(Create, id, Inserted(row, s.clock))] && Live(id, Repo) !in t.dirs
  {
    var u := CreatedThenDeleted(s, row, id);
    assert Used(u) == Used(s) + {id};
    t := CreationLeads(u, 1, Auto, id + 1, row);
    ReachesOn(s, u, t);
  }

  lemma {:induction false} LateWithdrawal(u: State, row: int, id: int, tree: Tree) returns (t: State)
    requires u.handlers == map[0 := Making(Create, id, Inserted(row, tree))] && Live(id, Repo) !in u.dirs
    requires row in u.rows && u.rows[row].home != tree && u.rows[row].disk != id && Settled(u, u.rows[row])
    ensures Reaches(u, t) && t.rows == u.rows && Settled(t, t.rows[row])
    ensures RemovesForeign(t, WithdrawRow(0, true)) && Apply(t, WithdrawRow(0, true)).rows == u.rows - {row}
  {
    var v := Apply(u, Check(0));
    t := Apply(v, WithdrawDir(0, true));
    ReachesHere(u);
    ReachesNext(u, u, Check(0));
    ReachesNext(u, v, WithdrawDir(0, true));
  }

  /**
   A create whose project was deleted before it looked for its repository withdraws late, when another
   project has been given the row id: it removes that project's row.
   */
  lemma {:induction false} LateWithdrawalRemovesNewProject(s: State, row: int, id: int) returns (t: State)
    requires Quiet(s) && IsRowId(s.rows, row) && IsNext(Used(s), id) && id < MAX_ID
    requires Live(id, Repo) !in s.dirs && Live(id + 1, Repo) !in s.dirs
    ensures Reaches(s, t) && t.rows == s.rows[row := Row(id + 1, s.clock + 1)] && Settled(t, t.rows[row])
    ensures RemovesForeign(t, WithdrawRow(0, true)) && Apply(t, WithdrawRow(0, true)).rows == s.rows
  {
    var u := RowIdGivenAgain(s, row, id);
    t := LateWithdrawal(u, row, id, s.clock);
    ReachesOn(s, u, t);
    DeletedAgain(s.rows, row, u.rows[row]);
  }

  /** A deletion after its first rename. */
  lemma {:induction false} RepositoryMoved(s: State, h: nat, r: int, time: nat) returns (t: State)
    requires h !in s.handlers && r in s.rows && Settled(s, s.rows[r]) && Trash(s.rows[r].disk, Repo, time) !in s.dirs
    ensures Reaches(s, t) && DeletingIn(t, h)
    ensures var live, trash := Live(s.rows[r].disk, Repo), Trash(s.rows[r].disk, Repo, time);
            && t == s.(handlers := s.handlers[h := t.handlers[h]], dirs := Rename(s.dirs, live, trash))
            && HoldsRepo(t.handlers[h]) && TrashOf(t.handlers[h]) == trash
  {
    var u := Apply(s, BeginDelete(h, r));
    t := Apply(u, Move(h, time));
    ReachesHere(s);
    ReachesNext(s, s, BeginDelete(h, r));
    ReachesNext(s, u, Move(h, time));
  }

  lemma {:induction false} NobodyElseHolds(s: State, u: State, h: nat, r: int, place: Place)
    requires ShapesOk(s) && TreesApart(s.dirs, s.clock) && r in s.rows && Settled(s, s.rows[r])
    requires h !in s.handlers && u.handlers - {h} == s.handlers
    requires place !in s.dirs && u.dirs == Rename(s.dirs, Live(s.rows[r].disk, Repo), place)
    ensures forall g | g in u.handlers && g != h :: InHands(u, g, s.rows[r]) <==> WithdrawnBy(s, g, s.rows[r])
  {
    forall g | g in u.handlers && g != h
      ensures InHands(u, g, s.rows[r]) <==> WithdrawnBy(s, g, s.rows[r])
    {
      assert g in u.handlers - {h} && u.handlers[g] == s.handlers[g];
      assert DeletingIn(s, g) ==> DeleterOk(s, g);
    }
  }

  /**
   A deletion abandoned after its first rename leaves a live project without its repository; only a
   create that is about to withdraw can then still answer for it.
   */
  lemma {:induction false} AbandonedDeleteStrands(s: State, h: nat, r: int, time: nat) returns (t: State)
    requires Inv(s) && h !in s.handlers && r in s.rows && Settled(s, s.rows[r])
    requires Trash(s.rows[r].disk, Repo, time) !in s.dirs
    ensures Reaches(s, t) && t.handlers == s.handlers && t.rows == s.rows
    ensures !Settled(t, t.rows[r]) && !Held(t, t.rows[r])
    ensures s.rows[r].home in t.stranded <==> forall g | g in s.handlers :: !WithdrawnBy(s, g, s.rows[r])
  {
    var u := RepositoryMoved(s, h, r, time);
    NobodyElseHolds(s, u, h, r, TrashOf(u.handlers[h]));
    t := Apply(u, Abandon(h));
    ReachesNext(s, u, Abandon(h));
    assert t.handlers == s.handlers;
    OnlyOwnHome(s, u, h, r);
    forall g | g in t.handlers
      ensures !HeldBy(t, g, s.rows[r])
    {
      assert g in u.handlers && u.handlers[g] == t.handlers[g];
      assert InHands(u, g, s.rows[r]) <==> WithdrawnBy(s, g, s.rows[r]);
    }
  }

  lemma {:induction false} OnlyOwnHome(s: State, u: State, h: nat, r: int)
    requires RowsOk(s) && StrandedOk(s) && r in s.rows && Settled(s, s.rows[r]) && u.rows == s.rows
    requires h in u.handlers && u.stranded == s.stranded
    ensures s.rows[r].home in Apply(u, Abandon(h)).stranded <==> Strands(u, Abandon(h), s.rows[r])
  {
  }

  // ---------------------------------------------------------------- one deletion, in place

  /** The renames undone last to first; a rename that cannot happen is skipped. */
  function Undo(dirs: map<Place, Tree>, disk: int, moved: seq<Moved>, stuck: set<Kind>): map<Place, Tree>
    decreases |moved|
  {
    if moved == [] then dirs
    else
      var last := moved[|moved| - 1];
      var live, trash := Live(disk, last.kind), Trash(disk, last.kind, last.time);
      Undo(if last.kind !in stuck && trash in dirs && live !in dirs then Rename(dirs, trash, live) else dirs,
           disk, moved[..|moved| - 1], stuck)
  }

  lemma {:induction false} UndoRename(dirs: map<Place, Tree>, disk: int, moved: seq<Moved>, m: Moved)
    requires Live(disk, m.kind) in dirs && Trash(disk, m.kind, m.time) !in dirs
    ensures Undo(Rename(dirs, Live(disk, m.kind), Trash(disk, m.kind, m.time)), disk, moved + [m], {})
         == Undo(dirs, disk, moved, {})
  {
    var live, trash := Live(disk, m.kind), Trash(disk, m.kind, m.time);
    assert Rename(Rename(dirs, live, trash), trash, live) == dirs;
    assert (moved + [m])[..|moved|] == moved;
  }

  /** The directories of the given kinds renamed aside, each keeping its content, and nothing else changed. */
  ghost predicate Aside(was: map<Place, Tree>, now: map<Place, Tree>, disk: int, time: Kind -> nat, kinds: set<Kind>) {
    && (forall kind | kind in kinds :: Live(disk, kind) !in now)
    && (forall kind | kind in kinds && Live(disk, kind) in was ::
          && Trash(disk, kind, time(kind)) !in was
          && Trash(disk, kind, time(kind)) in now && now[Trash(disk, kind, time(kind))] == was[Live(disk, kind)])
    && (forall p | p in was && !(p.Live? && p.disk == disk && p.kind in kinds) :: p in now && now[p] == was[p])
    && (forall p | p in now && p !in was :: p.Trash? && p.disk == disk && p.kind in kinds && p.time == time(p.kind))
  }

  lemma {:induction false} AsideStep(was: map<Place, Tree>, now: map<Place, Tree>, disk: int, time: Kind -> nat,
                                     kinds: set<Kind>, kind: Kind)
    requires Aside(was, now, disk, time, kinds) && kind !in kinds
    ensures Live(disk, kind) !in now ==> Aside(was, now, disk, time, kinds + {kind})
    ensures Live(disk, kind) in now && Trash(disk, kind, time(kind)) !in now ==>
              Aside(was, Rename(now, Live(disk, kind), Trash(disk, kind, time(kind))), disk, time, kinds + {kind})
  {
  }

  /** What may go wrong in one deletion: renames, the statement or its commit, and the renames back. */
  datatype Faults = Faults(move: set<Kind>, statement: bool, stuck: set<Kind>)

  /** There is nothing to rename, or the rename succeeds. */
  predicate CanMove(dirs: map<Place, Tree>, disk: int, kind: Kind, time: Kind -> nat, faults: Faults) {
    Live(disk, kind) in dirs ==> kind !in faults.move && Trash(disk, kind, time(kind)) !in dirs
  }

  class Storage {
    var rows: map<int, Row>
    var dirs: map<Place, Tree>

    method RestoreSoftDeleted(disk: int, moved: seq<Moved>, stuck: set<Kind>)
      modifies this`dirs
      ensures dirs == Undo(old(dirs), disk, moved, stuck)
    {
      var i := |moved|;
      assert moved[..i] == moved;
      while i > 0
        invariant 0 <= i <= |moved|
        invariant Undo(dirs, disk, moved[..i], stuck) == Undo(old(dirs), disk, moved, stuck)
      {
        i := i - 1;
        var m := moved[i];
        var live, trash := Live(disk, m.kind), Trash(disk, m.kind, m.time);
        assert moved[..i + 1][..i] == moved[..i];
        if m.kind !in stuck && trash in dirs && live !in dirs {
          dirs := Rename(dirs, trash, live);
        }
      }
    }

    /**
     Delete a project: on success its row is gone and its directories, whichever exist, are renamed
     aside with their contents; on failure, if the renames back succeed, nothing has changed.
     */
    method Delete(row: int, time: Kind -> nat, faults: Faults) returns (ok: bool)
      modifies this
      ensures !ok ==> rows == old(rows)
      ensures !ok && faults.stuck == {} ==> dirs == old(dirs)
      ensures ok ==> row in old(rows) && rows == old(rows) - {row}
      ensures ok ==> Aside(old(dirs), dirs, old(rows)[row].disk, time, {Repo, Wiki, Design})
      ensures ok <==> row in old(rows) && !faults.statement
                      && forall kind: Kind :: CanMove(old(dirs), old(rows)[row].disk, kind, time, faults)
    {
      if row !in rows {
        return false;
      }
      var disk := rows[row].disk;
      var moved: seq<Moved> := [];
      ghost var seen: set<Kind> := {};
      for i := 0 to |KINDS|
        invariant rows == old(rows)
        invariant Undo(dirs, disk, moved, {}) == old(dirs)
        invariant seen == set k | k in KINDS[..i]
        invariant Aside(old(dirs), dirs, disk, time, seen)
        invariant forall k | k in seen :: CanMove(old(dirs), disk, k, time, faults)
      {
        var kind := KINDS[i];
        var live, trash := Live(disk, kind), Trash(disk, kind, time(kind));
        AsideStep(old(dirs), dirs, disk, time, seen, kind);
        if live in dirs {
          if kind in faults.move || trash in dirs {
            assert !CanMove(old(dirs), disk, kind, time, faults);
            RestoreSoftDeleted(disk, moved, faults.stuck);
            return false;
          }
          UndoRename(dirs, disk, moved, Moved(kind, time(kind)));
          dirs := Rename(dirs, live, trash);
          moved := moved + [Moved(kind, time(kind))];
        }
        seen := seen + {kind};
      }
      if faults.statement {
        RestoreSoftDeleted(disk, moved, faults.stuck);
        return false;
      }
      rows := rows - {row};
      assert KINDS[..|KINDS|] == [Repo, Wiki, Design];
      assert seen == {Repo, Wiki, Design};
      forall kind: Kind
        ensures kind in seen
      {
        assert kind.Repo? || kind.Wiki? || kind.Design?;
      }
      ok := true;
    }
  }
}
