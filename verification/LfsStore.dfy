/**
 The Git LFS content store: many uploads, batch links, forks, downloads and project
 deletions interleaved over one disk and two tables, with abandoned requests, process
 death and the clean-up that a restart performs.

 SHA-256 is a parameter. It is assumed collision-free only on the contents that pass
 verification in the run under study (`Params.corpus`).
 */
module LfsStore {
  import opened Numerals
  import opened Prelude

  /** Path components below the LFS root. */
  type Path = seq<string>

  // ---------------------------------------------------------------- paths

  predicate IsHexLower(c: char) {
    '0' <= c <= '9' || 'a' <= c <= 'f'
  }

  predicate IsValidOid(oid: string) {
    |oid| == 64 && forall i | 0 <= i < |oid| :: IsHexLower(oid[i])
  }

  function LfsPath(oid: string): Path
    requires IsValidOid(oid)
  {
    [oid[0..2], oid[2..4], oid[4..]]
  }

  function TempPath(oid: string, pid: nat, sequence: nat): Path {
    ["tmp", oid + "." + Render(pid) + "." + Render(sequence) + ".part"]
  }

  /** What the start-up clean-up removes: files directly in tmp whose extension is `part`. */
  predicate IsPart(p: Path) {
    |p| == 2 && p[0] == "tmp" && |p[1]| > 5 && p[1][|p[1]| - 5..] == ".part"
  }

  /** An object id is 64 hexadecimal digits in lower case. */
  lemma {:induction false} OidIsHex(oid: string)
    ensures IsValidOid(oid) <==> |oid| == 64 && forall i | 0 <= i < 64 :: oid[i] in "0123456789abcdef"
  {
    forall c: char
      ensures IsHexLower(c) <==> c in "0123456789abcdef"
    {
      HexDigit(c);
    }
  }

  lemma {:induction false} HexDigit(c: char)
    ensures IsHexLower(c) <==> c in "0123456789abcdef"
  {
    var digits := "0123456789abcdef";
    assert digits[0] == '0' && digits[1] == '1' && digits[2] == '2' && digits[3] == '3' && digits[4] == '4';
    assert digits[5] == '5' && digits[6] == '6' && digits[7] == '7' && digits[8] == '8' && digits[9] == '9';
    assert digits[10] == 'a' && digits[11] == 'b' && digits[12] == 'c' && digits[13] == 'd' && digits[14] == 'e';
    assert digits[15] == 'f';
  }

  /** The sharded path: two directories of two digits each, and the other 60. */
  lemma {:induction false} LfsPathShards(oid: string)
    requires IsValidOid(oid)
    ensures var p := LfsPath(oid);
            |p| == 3 && |p[0]| == 2 && |p[1]| == 2 && |p[2]| == 60 && p[0] + p[1] + p[2] == oid
  {
  }

  /** A fragment is a file directly in `tmp` with something before the extension. */
  lemma {:induction false} PartMeans(p: Path)
    ensures IsPart(p) <==> exists stem: string :: stem != "" && p == ["tmp", stem + ".part"]
  {
    if IsPart(p) {
      var stem := p[1][..|p[1]| - 5];
      assert p[1] == stem + ".part";
      assert p == [p[0], p[1]];
    }
    if stem: string :| stem != "" && p == ["tmp", stem + ".part"] {
      assert p[1][|stem|..] == ".part";
    }
  }

  lemma {:induction false} LfsPathInjective(a: string, b: string)
    requires IsValidOid(a) && IsValidOid(b)
    requires LfsPath(a) == LfsPath(b)
    ensures a == b
  {
    assert a == LfsPath(a)[0] + LfsPath(a)[1] + LfsPath(a)[2];
    assert b == LfsPath(b)[0] + LfsPath(b)[1] + LfsPath(b)[2];
  }

  /** Every temporary name is one the clean-up removes, and no final path is. */
  lemma {:induction false} TempPathIsPart(oid: string, pid: nat, sequence: nat)
    ensures IsPart(TempPath(oid, pid, sequence))
    ensures IsValidOid(oid) ==> !IsPart(LfsPath(oid))
  {
    var stem := oid + "." + Render(pid) + "." + Render(sequence);
    var name := TempPath(oid, pid, sequence)[1];
    assert name == stem + ".part" && name[|stem|..] == ".part";
  }

  /** Names of different uploads of one process differ, whatever objects they carry. */
  lemma {:induction false} TempPathInjective(o1: string, o2: string, pid: nat, n1: nat, n2: nat)
    requires TempPath(o1, pid, n1) == TempPath(o2, pid, n2)
    ensures o1 == o2 && n1 == n2
  {
    var a, b := o1 + "." + Render(pid), o2 + "." + Render(pid);
    var s, t := a + "." + Render(n1), b + "." + Render(n2);
    assert TempPath(o1, pid, n1)[1] == s + ".part" && TempPath(o2, pid, n2)[1] == t + ".part";
    assert s == (s + ".part")[..|s + ".part"| - 5] && t == (t + ".part")[..|t + ".part"| - 5];
    SplitAtLast(a, Render(n1), b, Render(n2), '.');
    RenderInjective(n1, n2);
    assert o1 == a[..|a| - |"." + Render(pid)|] && o2 == b[..|b| - |"." + Render(pid)|];
  }

  // ---------------------------------------------------------------- state

  datatype Object = Object(oid: string, size: nat)

  datatype Phase = Receiving | Verified | Renamed

  /** A request in flight, at one of its await points. */
  datatype Handler =
    | Put(project: int, oid: string, sequence: nat, received: Bytes, phase: Phase)
    | Link(project: int, id: int)     // batch upload, after its SELECT found the object
    | Get(oid: string, size: nat)     // download, after its SELECT, before the file is opened

  datatype State = State(
    pid: nat,
    up: bool,
    sequence: nat,
    disk: map<Path, Bytes>,
    objects: map<int, Object>,
    projects: set<int>,
    links: set<(int, int)>,
    handlers: map<nat, Handler>)

  datatype Params = Params(digest: Bytes -> string, corpus: iset<Bytes>, max: nat)

  ghost predicate CollisionFree(p: Params) {
    forall a, b | a in p.corpus && b in p.corpus && p.digest(a) == p.digest(b) :: a == b
  }

  predicate HasOid(objects: map<int, Object>, oid: string) {
    exists id | id in objects :: objects[id].oid == oid
  }

  /** The row of an oid the table holds. */
  ghost function IdOf(objects: map<int, Object>, oid: string): (id: int)
    requires HasOid(objects, oid)
    ensures id in objects && objects[id].oid == oid
  {
    var id :| id in objects && objects[id].oid == oid; id
  }

  // ---------------------------------------------------------------- steps

  datatype Event =
    | Start(bootPid: nat)
    | Crash(residue: map<Path, Bytes>)
    | BeginPut(h: nat, project: int, oid: string)
    | Chunk(h: nat, data: Bytes)
    | Finish(h: nat)
    | Rename(h: nat)
    | CommitPut(h: nat, id: int)
    | Fail(h: nat, left: bool, content: Bytes)
    | BatchFound(h: nat, project: int, id: int)
    | CommitLink(h: nat)
    | GetFound(h: nat, project: int, id: int)
    | Fork(source: int, target: int)
    | CreateProject(project: int)
    | DeleteProject(project: int)

  ghost predicate IsPut(s: State, h: nat, phase: Phase) {
    h in s.handlers && s.handlers[h].Put? && s.handlers[h].phase == phase && IsValidOid(s.handlers[h].oid)
  }

  ghost predicate Enabled(p: Params, s: State, e: Event) {
    match e
    case Start(_) => !s.up
    case Crash(_) => s.up
    case BeginPut(h, project, oid) => s.up && h !in s.handlers && IsValidOid(oid)
    case Chunk(h, data) =>
      IsPut(s, h, Receiving) && (p.max > 0 ==> |s.handlers[h].received| + |data| <= p.max)
    case Finish(h) =>
      IsPut(s, h, Receiving) && p.digest(s.handlers[h].received) == s.handlers[h].oid
      && s.handlers[h].received in p.corpus
    case Rename(h) => IsPut(s, h, Verified)
    case CommitPut(h, id) =>
      // The link row's foreign key fails, and the transaction with it, once the project is gone.
      IsPut(s, h, Renamed) && s.handlers[h].project in s.projects
      && (id in s.objects ==> s.objects[id].oid == s.handlers[h].oid)
      && (HasOid(s.objects, s.handlers[h].oid) ==> id in s.objects)
    case Fail(h, _, _) => h in s.handlers
    case BatchFound(h, project, id) => s.up && h !in s.handlers && id in s.objects
    case CommitLink(h) =>
      h in s.handlers && s.handlers[h].Link? && s.handlers[h].project in s.projects
      && s.handlers[h].id in s.objects
    case GetFound(h, project, id) =>
      s.up && h !in s.handlers && (project, id) in s.links && id in s.objects && IsValidOid(s.objects[id].oid)
    case Fork(source, target) => s.up && target !in s.projects
    case CreateProject(project) => s.up && project !in s.projects
    case DeleteProject(project) => s.up
  }

  ghost function TempOf(s: State, h: nat): Path
    requires h in s.handlers && s.handlers[h].Put?
  {
    TempPath(s.handlers[h].oid, s.pid, s.handlers[h].sequence)
  }

  /** An upload that has its temporary file on disk. */
  ghost predicate HoldsTemp(s: State, h: nat) {
    h in s.handlers && s.handlers[h].Put? && !s.handlers[h].phase.Renamed?
  }

  ghost function Apply(p: Params, s: State, e: Event): State
    requires Enabled(p, s, e)
  {
    match e
    case Start(pid) =>
      s.(up := true, pid := pid, sequence := 0,
         disk := map path | path in s.disk && !IsPart(path) :: s.disk[path])
    case Crash(residue) =>
      // A killed process can leave anything in its temporary files.
      s.(up := false, handlers := map[],
         disk := map path | path in s.disk ::
           if IsPart(path) && path in residue then residue[path] else s.disk[path])
    case BeginPut(h, project, oid) =>
      s.(sequence := s.sequence + 1,
         disk := s.disk[TempPath(oid, s.pid, s.sequence) := []],
         handlers := s.handlers[h := Put(project, oid, s.sequence, [], Receiving)])
    case Chunk(h, data) =>
      var u := s.handlers[h];
      s.(disk := s.disk[TempOf(s, h) := u.received + data],
         handlers := s.handlers[h := u.(received := u.received + data)])
    case Finish(h) => s.(handlers := s.handlers[h := s.handlers[h].(phase := Verified)])
    case Rename(h) =>
      var u := s.handlers[h];
      s.(disk := (s.disk - {TempOf(s, h)})[LfsPath(u.oid) := u.received],
         handlers := s.handlers[h := u.(phase := Renamed)])
    case CommitPut(h, id) =>
      var u := s.handlers[h];
      s.(objects := if id in s.objects then s.objects else s.objects[id := Object(u.oid, |u.received|)],
         links := s.links + {(u.project, id)},
         handlers := s.handlers - {h})
    case Fail(h, left, content) =>
      // Errors and abandoned requests; the temporary file may be removed, or stay with any content.
      s.(disk := if !HoldsTemp(s, h) then s.disk
                 else if left then s.disk[TempOf(s, h) := content]
                 else s.disk - {TempOf(s, h)},
         handlers := s.handlers - {h})
    case BatchFound(h, project, id) => s.(handlers := s.handlers[h := Link(project, id)])
    case CommitLink(h) =>
      s.(links := s.links + {(s.handlers[h].project, s.handlers[h].id)}, handlers := s.handlers - {h})
    case GetFound(h, project, id) =>
      s.(handlers := s.handlers[h := Get(s.objects[id].oid, s.objects[id].size)])
    case Fork(source, target) =>
      s.(projects := s.projects + {target},
         links := s.links + set l | l in s.links && l.0 == source :: (target, l.1))
    case CreateProject(project) => s.(projects := s.projects + {project})
    case DeleteProject(project) =>
      s.(projects := s.projects - {project}, links := set l | l in s.links && l.0 != project)
  }

  // ---------------------------------------------------------------- invariant

  /** A row is backed by a file at its sharded path, with its hash and its length. */
  ghost predicate Backed(p: Params, s: State, o: Object) {
    && IsValidOid(o.oid)
    && LfsPath(o.oid) in s.disk
    && p.digest(s.disk[LfsPath(o.oid)]) == o.oid
    && |s.disk[LfsPath(o.oid)]| == o.size
  }

  ghost predicate RowsBacked(p: Params, s: State) {
    && (forall id | id in s.objects :: Backed(p, s, s.objects[id]))
    && (forall i, j | i in s.objects && j in s.objects && s.objects[i].oid == s.objects[j].oid :: i == j)
  }

  ghost predicate LinksNameRows(s: State) {
    forall l | l in s.links :: l.0 in s.projects && l.1 in s.objects
  }

  /** Every file at a final path, with or without a row, hashes to its own name. */
  ghost predicate FilesHonest(p: Params, s: State) {
    forall oid | IsValidOid(oid) && LfsPath(oid) in s.disk ::
      p.digest(s.disk[LfsPath(oid)]) == oid && s.disk[LfsPath(oid)] in p.corpus
  }

  ghost predicate PutOk(p: Params, s: State, u: Handler)
    requires u.Put?
  {
    && IsValidOid(u.oid)
    && u.sequence < s.sequence
    && (u.phase != Renamed ==>
          TempPath(u.oid, s.pid, u.sequence) in s.disk
          && s.disk[TempPath(u.oid, s.pid, u.sequence)] == u.received)
    && (u.phase != Receiving ==> p.digest(u.received) == u.oid && u.received in p.corpus)
    && (u.phase == Renamed ==> LfsPath(u.oid) in s.disk)
  }

  ghost predicate HandlerOk(p: Params, s: State, h: nat)
    requires h in s.handlers
  {
    match s.handlers[h]
    case Put(_, _, _, _, _) => PutOk(p, s, s.handlers[h])
    case Link(_, id) => id in s.objects
    case Get(oid, size) => Backed(p, s, Object(oid, size))
  }

  ghost predicate HandlersOk(p: Params, s: State) {
    && (s.handlers != map[] ==> s.up)
    && (forall h | h in s.handlers :: HandlerOk(p, s, h))
    && (forall g, h | g in s.handlers && h in s.handlers && s.handlers[g].Put? && s.handlers[h].Put?
          && s.handlers[g].sequence == s.handlers[h].sequence :: g == h)
  }

  ghost predicate Inv(p: Params, s: State) {
    RowsBacked(p, s) && LinksNameRows(s) && FilesHonest(p, s) && HandlersOk(p, s)
  }

  // ---------------------------------------------------------------- preservation

  /** Between two states the files at final paths only grow, and keep their content. */
  ghost predicate FinalKept(s: State, t: State) {
    forall oid | IsValidOid(oid) && LfsPath(oid) in s.disk ::
      LfsPath(oid) in t.disk && t.disk[LfsPath(oid)] == s.disk[LfsPath(oid)]
  }

  /** Renaming over a file of the same oid puts the same content there. */
  lemma {:induction false} StepKeepsFinalFiles(p: Params, s: State, e: Event)
    requires CollisionFree(p) && Inv(p, s) && Enabled(p, s, e)
    ensures FinalKept(s, Apply(p, s, e))
  {
    if e.Rename? {
      assert HandlerOk(p, s, e.h);
      var u := s.handlers[e.h];
      forall oid | IsValidOid(oid) && LfsPath(oid) in s.disk && LfsPath(oid) == LfsPath(u.oid)
        ensures s.disk[LfsPath(oid)] == u.received
      {
        LfsPathInjective(oid, u.oid);
      }
    }
  }

  lemma {:induction false} StepKeepsFilesHonest(p: Params, s: State, e: Event)
    requires CollisionFree(p) && Inv(p, s) && Enabled(p, s, e)
    ensures FilesHonest(p, Apply(p, s, e))
  {
    StepKeepsFinalFiles(p, s, e);
    if e.Rename? {
      assert HandlerOk(p, s, e.h);
      forall oid | IsValidOid(oid) && LfsPath(oid) == LfsPath(s.handlers[e.h].oid)
        ensures oid == s.handlers[e.h].oid
      {
        LfsPathInjective(oid, s.handlers[e.h].oid);
      }
    }
  }

  lemma {:induction false} StepKeepsRows(p: Params, s: State, e: Event)
    requires CollisionFree(p) && Inv(p, s) && Enabled(p, s, e)
    ensures RowsBacked(p, Apply(p, s, e)) && LinksNameRows(Apply(p, s, e))
  {
    StepKeepsFinalFiles(p, s, e);
    StepKeepsFilesHonest(p, s, e);
    if e.CommitPut? || e.CommitLink? {
      assert HandlerOk(p, s, e.h);
    }
  }

  /** A step of one request leaves the other uploads' temporary files alone. */
  lemma {:induction false} StepKeepsOtherHandlers(p: Params, s: State, e: Event, h: nat)
    requires CollisionFree(p) && Inv(p, s) && Enabled(p, s, e)
    requires h in s.handlers && h in Apply(p, s, e).handlers && Apply(p, s, e).handlers[h] == s.handlers[h]
    requires !e.Crash? && !e.Start?
    ensures HandlerOk(p, Apply(p, s, e), h)
  {
    StepKeepsFinalFiles(p, s, e);
    assert HandlerOk(p, s, h);
    if s.handlers[h].Put? {
      var u := s.handlers[h];
      if e.BeginPut? && TempPath(u.oid, s.pid, u.sequence) == TempPath(e.oid, s.pid, s.sequence) {
        TempPathInjective(u.oid, e.oid, s.pid, u.sequence, s.sequence);
      }
      if (e.Chunk? || e.Rename? || e.Fail?) && s.handlers[e.h].Put? && e.h != h
         && TempPath(u.oid, s.pid, u.sequence) == TempOf(s, e.h) {
        TempPathInjective(u.oid, s.handlers[e.h].oid, s.pid, u.sequence, s.handlers[e.h].sequence);
      }
    }
  }

  lemma {:induction false} StepKeepsHandlers(p: Params, s: State, e: Event)
    requires CollisionFree(p) && Inv(p, s) && Enabled(p, s, e)
    ensures HandlersOk(p, Apply(p, s, e))
  {
    var t := Apply(p, s, e);
    StepKeepsFilesHonest(p, s, e);
    if !e.Crash? && !e.Start? {
      forall h | h in t.handlers
        ensures HandlerOk(p, t, h)
      {
        if h in s.handlers && t.handlers[h] == s.handlers[h] {
          StepKeepsOtherHandlers(p, s, e, h);
        } else if h in s.handlers {
          assert HandlerOk(p, s, h);
        }
      }
    }
  }

  lemma {:induction false} StepKeepsInv(p: Params, s: State, e: Event)
    requires CollisionFree(p) && Inv(p, s) && Enabled(p, s, e)
    ensures Inv(p, Apply(p, s, e))
  {
    StepKeepsRows(p, s, e);
    StepKeepsFilesHonest(p, s, e);
    StepKeepsHandlers(p, s, e);
  }

  // ---------------------------------------------------------------- whole runs

  /** A run: the events that happened and the states before, between and after them. */
  ghost predicate IsRun(p: Params, events: seq<Event>, states: seq<State>) {
    && |states| == |events| + 1
    && (forall i | 0 <= i < |events| ::
          Enabled(p, states[i], events[i]) && states[i + 1] == Apply(p, states[i], events[i]))
  }

  /** From a sound store, every interleaving keeps every row backed and every link sound. */
  lemma {:induction false} RunKeepsInv(p: Params, events: seq<Event>, states: seq<State>, k: nat)
    requires CollisionFree(p) && IsRun(p, events, states) && Inv(p, states[0])
    requires k < |states|
    ensures Inv(p, states[k])
  {
    if k > 0 {
      RunKeepsInv(p, events, states, k - 1);
      StepKeepsInv(p, states[k - 1], events[k - 1]);
    }
  }

  /** The store of a fresh installation is sound. */
  lemma {:induction false} EmptyStoreIsSound(p: Params, pid: nat, projects: set<int>)
    ensures Inv(p, State(pid, true, 0, map[], map[], projects, {}, map[]))
  {
  }

  /** Over any run no row is lost or altered, and no file at a final path ever changes content. */
  lemma {:induction false} RunKeepsContent(p: Params, events: seq<Event>, states: seq<State>, i: nat, j: nat)
    requires CollisionFree(p) && IsRun(p, events, states) && Inv(p, states[0])
    requires i <= j < |states|
    ensures FinalKept(states[i], states[j])
    ensures forall id | id in states[i].objects ::
              id in states[j].objects && states[j].objects[id] == states[i].objects[id]
  {
    if i < j {
      RunKeepsContent(p, events, states, i, j - 1);
      RunKeepsInv(p, events, states, j - 1);
      StepKeepsFinalFiles(p, states[j - 1], events[j - 1]);
    }
  }

  /**
   A download that read its row at step i and opens the file at step j streams exactly the
   length it announced, and the same verified bytes that were stored when it read the row.
   */
  lemma {:induction false} DownloadStreamsWhatItAnnounced(p: Params, events: seq<Event>, states: seq<State>, i: nat,
                                                          j: nat)
    requires CollisionFree(p) && IsRun(p, events, states) && Inv(p, states[0])
    requires i < j < |states| && events[i].GetFound? && IsValidOid(states[i].objects[events[i].id].oid)
    ensures var row := states[i].objects[events[i].id];
            var path := LfsPath(row.oid);
            && path in states[i].disk && path in states[j].disk
            && states[j].disk[path] == states[i].disk[path]
            && |states[j].disk[path]| == row.size
            && p.digest(states[j].disk[path]) == row.oid
  {
    RunKeepsInv(p, events, states, i);
    RunKeepsContent(p, events, states, i, j);
  }

  /** Once an upload has committed, its oid names a linked row whose file is what was received. */
  lemma {:induction false} CommittedUploadIsStored(p: Params, events: seq<Event>, states: seq<State>, i: nat, j: nat)
    requires CollisionFree(p) && IsRun(p, events, states) && Inv(p, states[0])
    requires i < j < |states| && events[i].CommitPut?
    ensures var u := states[i].handlers[events[i].h];
            && (u.project, events[i].id) in states[i + 1].links
            && events[i].id in states[j].objects
            && states[j].objects[events[i].id] == Object(u.oid, |u.received|)
            && LfsPath(u.oid) in states[j].disk
            && states[j].disk[LfsPath(u.oid)] == u.received
  {
    var h := events[i].h;
    RunKeepsInv(p, events, states, i);
    assert HandlerOk(p, states[i], h);
    RunKeepsContent(p, events, states, i, i + 1);
    RunKeepsContent(p, events, states, i + 1, j);
    RunKeepsInv(p, events, states, i + 1);
  }

  // ---------------------------------------------------------------- what each request does to the tables

  /** The request takes this handler's number; a number in use is not taken again. */
  predicate Opens(e: Event, h: nat) {
    (e.BeginPut? || e.BatchFound? || e.GetFound?) && e.h == h
  }

  /** The bytes of the chunks that arrived for one upload. */
  function Arrived(events: seq<Event>, h: nat): Bytes {
    if events == [] then []
    else
      var e := events[|events| - 1];
      Arrived(events[..|events| - 1], h) + if e.Chunk? && e.h == h then e.data else []
  }

  /** A request goes on with what it has, plus the chunk that has just arrived for it. */
  ghost predicate Continues(s: State, e: Event, t: State, h: nat) {
    h in t.handlers ==>
      && h in s.handlers
      && var u, v := s.handlers[h], t.handlers[h];
         if u.Put? then
           v.Put? && v.project == u.project && v.oid == u.oid
           && v.received == u.received + if e.Chunk? && e.h == h then e.data else []
         else v == u
  }

  lemma {:induction false} StepContinues(p: Params, s: State, e: Event, h: nat)
    requires Enabled(p, s, e) && !Opens(e, h)
    ensures Continues(s, e, Apply(p, s, e), h)
  {
  }

  ghost predicate ContinuesFrom(events: seq<Event>, states: seq<State>, i: nat, k: nat, h: nat)
    requires |states| == |events| + 1 && k <= |events|
  {
    forall m | i < m < k :: Continues(states[m], events[m], states[m + 1], h)
  }

  lemma {:induction false} RunContinues(p: Params, events: seq<Event>, states: seq<State>, i: nat, k: nat, h: nat)
    requires IsRun(p, events, states) && k <= |events| && forall m | i < m < k :: !Opens(events[m], h)
    ensures ContinuesFrom(events, states, i, k, h)
  {
    forall m | i < m < k
      ensures Continues(states[m], events[m], states[m + 1], h)
    {
      StepContinues(p, states[m], events[m], h);
    }
  }

  lemma {:induction false} UploadChain(events: seq<Event>, states: seq<State>, i: nat, k: nat, h: nat, u: Handler)
    requires |states| == |events| + 1 && i < k <= |events| && ContinuesFrom(events, states, i, k, h)
    requires u.Put? && u.received == [] && h in states[i + 1].handlers && states[i + 1].handlers[h] == u
    requires h in states[k].handlers
    ensures var v := states[k].handlers[h];
            v.Put? && v.project == u.project && v.oid == u.oid && v.received == Arrived(events[i + 1..k], h)
  {
    if k == i + 1 {
      assert events[i + 1..k] == [];
    } else {
      assert Continues(states[k - 1], events[k - 1], states[k], h);
      UploadChain(events, states, i, k - 1, h, u);
      assert events[i + 1..k][..k - i - 2] == events[i + 1..k - 1];
    }
  }

  lemma {:induction false} OtherChain(events: seq<Event>, states: seq<State>, i: nat, k: nat, h: nat, u: Handler)
    requires |states| == |events| + 1 && i < k <= |events| && ContinuesFrom(events, states, i, k, h)
    requires !u.Put? && h in states[i + 1].handlers && states[i + 1].handlers[h] == u && h in states[k].handlers
    ensures states[k].handlers[h] == u
  {
    if k > i + 1 {
      assert Continues(states[k - 1], events[k - 1], states[k], h);
      OtherChain(events, states, i, k - 1, h, u);
    }
  }

  /** An upload in flight remembers what it was opened with, and has received exactly what arrived since. */
  lemma {:induction false} UploadRemembers(p: Params, events: seq<Event>, states: seq<State>, i: nat, k: nat, h: nat)
    requires IsRun(p, events, states) && i < k <= |events| && events[i].BeginPut? && events[i].h == h
    requires forall m | i < m < k :: !Opens(events[m], h)
    requires h in states[k].handlers
    ensures var u := states[k].handlers[h];
            u.Put? && u.project == events[i].project && u.oid == events[i].oid
            && u.received == Arrived(events[i + 1..k], h)
  {
    assert Enabled(p, states[i], events[i]) && states[i + 1] == Apply(p, states[i], events[i]);
    RunContinues(p, events, states, i, k, h);
    UploadChain(events, states, i, k, h, states[i + 1].handlers[h]);
  }

  /**
   An upload from its first step to its last: whatever happens in between, what is stored under the
   object id it was opened with is exactly the chunks that arrived, verified and within the limit.
   */
  lemma {:induction false} UploadStoresWhatArrived(p: Params, events: seq<Event>, states: seq<State>, i: nat, k: nat,
                                                   j: nat)
    requires CollisionFree(p) && IsRun(p, events, states) && Inv(p, states[0]) && i < k < j < |states|
    requires events[i].BeginPut? && events[k].CommitPut? && events[k].h == events[i].h
    requires forall m | i < m < k :: !Opens(events[m], events[i].h)
    ensures var received := Arrived(events[i + 1..k], events[i].h);
            && IsValidOid(events[i].oid) && p.digest(received) == events[i].oid
            && (events[i].project, events[k].id) in states[k + 1].links
            && events[k].id in states[j].objects
            && states[j].objects[events[k].id] == Object(events[i].oid, |received|)
            && LfsPath(events[i].oid) in states[j].disk && states[j].disk[LfsPath(events[i].oid)] == received
  {
    UploadRemembers(p, events, states, i, k, events[i].h);
    CommittedUploadIsStored(p, events, states, k, j);
    RunKeepsInv(p, events, states, k);
    assert HandlerOk(p, states[k], events[i].h);
  }

  ghost predicate WithinLimit(p: Params, s: State) {
    p.max > 0 ==>
      && (forall id | id in s.objects :: s.objects[id].size <= p.max)
      && (forall h | h in s.handlers && s.handlers[h].Put? :: |s.handlers[h].received| <= p.max)
  }

  /** Nothing larger than the limit is ever recorded. */
  lemma {:induction false} RunKeepsLimit(p: Params, events: seq<Event>, states: seq<State>, k: nat)
    requires IsRun(p, events, states) && WithinLimit(p, states[0]) && k < |states|
    ensures WithinLimit(p, states[k])
  {
    if k > 0 {
      RunKeepsLimit(p, events, states, k - 1);
      assert Enabled(p, states[k - 1], events[k - 1]);
    }
  }

  /** A batch upload in flight remembers the project and the object it found. */
  lemma {:induction false} BatchRemembers(p: Params, events: seq<Event>, states: seq<State>, i: nat, k: nat, h: nat)
    requires IsRun(p, events, states) && i < k <= |events| && events[i].BatchFound? && events[i].h == h
    requires forall m | i < m < k :: !Opens(events[m], h)
    requires h in states[k].handlers
    ensures states[k].handlers[h] == Link(events[i].project, events[i].id)
  {
    assert Enabled(p, states[i], events[i]) && states[i + 1] == Apply(p, states[i], events[i]);
    RunContinues(p, events, states, i, k, h);
    OtherChain(events, states, i, k, h, states[i + 1].handlers[h]);
  }

  /** A download in flight remembers the row it read, of an object linked to its project. */
  lemma {:induction false} DownloadRemembers(p: Params, events: seq<Event>, states: seq<State>, i: nat, k: nat, h: nat)
    requires IsRun(p, events, states) && i < k <= |events| && events[i].GetFound? && events[i].h == h
    requires forall m | i < m < k :: !Opens(events[m], h)
    requires h in states[k].handlers
    ensures events[i].id in states[i].objects && (events[i].project, events[i].id) in states[i].links
    ensures var row := states[i].objects[events[i].id]; states[k].handlers[h] == Get(row.oid, row.size)
  {
    assert Enabled(p, states[i], events[i]) && states[i + 1] == Apply(p, states[i], events[i]);
    RunContinues(p, events, states, i, k, h);
    OtherChain(events, states, i, k, h, states[i + 1].handlers[h]);
  }

  /** The step gives the project a link: its upload or batch commits, or it is forked from a project that has it. */
  ghost predicate Grants(s: State, e: Event, project: int, id: int) {
    || (e.CommitPut? && e.h in s.handlers && s.handlers[e.h].Put? && s.handlers[e.h].project == project && e.id == id)
    || (e.CommitLink? && e.h in s.handlers && s.handlers[e.h] == Link(project, id))
    || (e.Fork? && e.target == project && (e.source, id) in s.links)
  }

  /** A project has a link after a step exactly when it had it and was not deleted, or was just given it. */
  lemma {:induction false} LinksChange(p: Params, events: seq<Event>, states: seq<State>, i: nat, project: int, id: int)
    requires IsRun(p, events, states) && i < |events|
    ensures (project, id) in states[i + 1].links <==>
            || ((project, id) in states[i].links && events[i] != DeleteProject(project))
            || Grants(states[i], events[i], project, id)
  {
    assert Enabled(p, states[i], events[i]);
  }

  /** A fork has exactly the links of its source, and can download exactly what the source can. */
  lemma {:induction false} ForkSharesLinks(p: Params, events: seq<Event>, states: seq<State>, i: nat, h: nat, id: int)
    requires CollisionFree(p) && IsRun(p, events, states) && Inv(p, states[0]) && i < |events| && events[i].Fork?
    ensures (events[i].target, id) in states[i + 1].links <==> (events[i].source, id) in states[i].links
    ensures events[i].source in states[i].projects ==>
              (Enabled(p, states[i + 1], GetFound(h, events[i].target, id)) <==>
               Enabled(p, states[i + 1], GetFound(h, events[i].source, id)))
    ensures events[i].target in states[i + 1].projects
  {
    RunKeepsInv(p, events, states, i);
    assert Enabled(p, states[i], events[i]);
  }

  /** A batch upload that commits has linked the object it found to its project. */
  lemma {:induction false} BatchLinksWhatItFound(p: Params, events: seq<Event>, states: seq<State>, i: nat, k: nat)
    requires IsRun(p, events, states) && i < k < |events|
    requires events[i].BatchFound? && events[k].CommitLink? && events[k].h == events[i].h
    requires forall m | i < m < k :: !Opens(events[m], events[i].h)
    ensures (events[i].project, events[i].id) in states[k + 1].links
  {
    BatchRemembers(p, events, states, i, k, events[i].h);
    assert Enabled(p, states[k], events[k]);
  }

  /** Projects come by creation and forks and go by deletion only. */
  lemma {:induction false} ProjectsChange(p: Params, events: seq<Event>, states: seq<State>, i: nat, project: int)
    requires IsRun(p, events, states) && i < |events|
    ensures project in states[i + 1].projects <==>
            || (project in states[i].projects && events[i] != DeleteProject(project))
            || events[i] == CreateProject(project) || (events[i].Fork? && events[i].target == project)
  {
    assert Enabled(p, states[i], events[i]);
  }

  /** A crash ends every request and leaves tables and final files; the temporary files may hold anything. */
  lemma {:induction false} CrashKeepsStore(p: Params, events: seq<Event>, states: seq<State>, i: nat, path: Path)
    requires IsRun(p, events, states) && i < |events| && events[i].Crash?
    ensures !states[i + 1].up && states[i + 1].handlers == map[]
    ensures states[i + 1].objects == states[i].objects && states[i + 1].links == states[i].links
    ensures states[i + 1].projects == states[i].projects
    ensures path in states[i + 1].disk <==> path in states[i].disk
    ensures path in states[i].disk && !IsPart(path) ==> states[i + 1].disk[path] == states[i].disk[path]
    ensures path in states[i].disk && IsPart(path) && path in events[i].residue ==>
              states[i + 1].disk[path] == events[i].residue[path]
  {
    assert Enabled(p, states[i], events[i]);
  }

  /** Until it is restarted a server that is down does nothing. */
  lemma {:induction false} DownDoesNothing(p: Params, events: seq<Event>, states: seq<State>, i: nat)
    requires CollisionFree(p) && IsRun(p, events, states) && Inv(p, states[0]) && i < |events|
    ensures !states[i].up <==> events[i].Start?
  {
    RunKeepsInv(p, events, states, i);
    assert Enabled(p, states[i], events[i]);
  }

  /** What a server that is up accepts: any number not in use, for what exists; a project only when it is new. */
  lemma {:induction false} Accepts(p: Params, s: State, h: nat, project: int, id: int, oid: string)
    requires s.up && Inv(p, s)
    ensures Enabled(p, s, BeginPut(h, project, oid)) <==> h !in s.handlers && IsValidOid(oid)
    ensures Enabled(p, s, BatchFound(h, project, id)) <==> h !in s.handlers && id in s.objects
    ensures Enabled(p, s, GetFound(h, project, id)) <==> h !in s.handlers && (project, id) in s.links
    ensures Enabled(p, s, CreateProject(project)) <==> project !in s.projects
    ensures Enabled(p, s, Fork(id, project)) <==> project !in s.projects
    ensures Enabled(p, s, DeleteProject(project))
  {
    assert (project, id) in s.links ==> id in s.objects && Backed(p, s, s.objects[id]);
  }

  /** A request ends when it commits or fails; a failing upload's file is gone, or left with what it happens to hold. */
  lemma {:induction false} RequestsEnd(p: Params, s: State, e: Event)
    requires Enabled(p, s, e) && (e.CommitPut? || e.CommitLink? || e.Fail?)
    ensures Apply(p, s, e).handlers == s.handlers - {e.h}
    ensures e.Fail? && HoldsTemp(s, e.h) ==>
              var temp := TempOf(s, e.h);
              && (temp in Apply(p, s, e).disk <==> e.left)
              && (e.left ==> Apply(p, s, e).disk[temp] == e.content)
              && forall path | path != temp ::
                   (path in Apply(p, s, e).disk <==> path in s.disk)
                   && (path in s.disk ==> Apply(p, s, e).disk[path] == s.disk[path])
  {
  }

  /** After a restart no fragment of any upload is left, and every other file is as it was. */
  lemma {:induction false} RestartCleansUp(p: Params, events: seq<Event>, states: seq<State>, i: nat)
    requires IsRun(p, events, states) && i < |events| && events[i].Start?
    ensures forall oid, pid, n :: TempPath(oid, pid, n) !in states[i + 1].disk
    ensures forall oid | IsValidOid(oid) ::
              (LfsPath(oid) in states[i + 1].disk <==> LfsPath(oid) in states[i].disk)
              && (LfsPath(oid) in states[i].disk ==> states[i + 1].disk[LfsPath(oid)] == states[i].disk[LfsPath(oid)])
    ensures states[i + 1].up && states[i + 1].pid == events[i].bootPid && states[i + 1].sequence == 0
    ensures states[i + 1].handlers == states[i].handlers
  {
    assert Enabled(p, states[i], events[i]);
    forall oid, pid, n
      ensures IsPart(TempPath(oid, pid, n))
    {
      TempPathIsPart(oid, pid, n);
    }
  }

  /** Temporary names of uploads in flight differ from each other and from every final path. */
  lemma {:induction false} NamesNeverClash(p: Params, events: seq<Event>, states: seq<State>, k: nat, g: nat, h: nat,
                                           oid: string)
    requires CollisionFree(p) && IsRun(p, events, states) && Inv(p, states[0])
    requires k < |states|
    requires HoldsTemp(states[k], g) && HoldsTemp(states[k], h) && g != h && IsValidOid(oid)
    ensures TempOf(states[k], g) != TempOf(states[k], h)
    ensures TempOf(states[k], g) != LfsPath(oid)
  {
    RunKeepsInv(p, events, states, k);
    var s := states[k];
    if TempOf(s, g) == TempOf(s, h) {
      TempPathInjective(s.handlers[g].oid, s.handlers[h].oid, s.pid, s.handlers[g].sequence, s.handlers[h].sequence);
    }
  }

  // ---------------------------------------------------------------- one request, alone

  datatype BodyItem = Data(bytes: Bytes) | Broken

  datatype Reception = Complete(bytes: Bytes) | Oversize | Interrupted

  /** What the receiving loop makes of a request body; a limit of 0 means none. */
  function Receive(body: seq<BodyItem>, max: nat, received: Bytes): Reception {
    if body == [] then Complete(received)
    else match body[0]
      case Broken => Interrupted
      case Data(bytes) =>
        if max > 0 && |received| + |bytes| > max then Oversize
        else Receive(body[1..], max, received + bytes)
  }

  function Payload(body: seq<BodyItem>): Bytes {
    if body == [] then [] else (if body[0].Data? then body[0].bytes else []) + Payload(body[1..])
  }

  /** A body is received whole exactly when no chunk is broken and the total is within the limit. */
  lemma {:induction false} ReceiveComplete(body: seq<BodyItem>, max: nat, received: Bytes)
    requires max > 0 ==> |received| <= max
    ensures Receive(body, max, received).Complete? <==>
            (forall i | 0 <= i < |body| :: body[i].Data?)
            && (max > 0 ==> |received| + |Payload(body)| <= max)
    ensures Receive(body, max, received).Complete? ==>
            Receive(body, max, received).bytes == received + Payload(body)
  {
    if body != [] && body[0].Data? {
      var next := received + body[0].bytes;
      if !(max > 0 && |next| > max) {
        ReceiveComplete(body[1..], max, next);
        assert forall i | 0 < i < |body| :: body[i] == body[1..][i - 1];
        assert next + Payload(body[1..]) == received + Payload(body);
      }
    }
  }

  datatype StoreResult = Stored | DigestMismatch | TooLarge | Failed

  /** A run under construction. */
  datatype Run = Run(events: seq<Event>, states: seq<State>) {
    ghost predicate Ok(p: Params) {
      IsRun(p, events, states)
    }

    function First(): State
      requires |states| > 0
    {
      states[0]
    }

    function Last(): State
      requires |states| > 0
    {
      states[|states| - 1]
    }

    ghost function Then(p: Params, e: Event): (r: Run)
      requires Ok(p) && Enabled(p, Last(), e)
      ensures r.Ok(p) && r.First() == First() && r.Last() == Apply(p, Last(), e)
    {
      Run(events + [e], states + [Apply(p, Last(), e)])
    }
  }

  /** An idle server that starts an upload. */
  lemma {:induction false} BeginStep(p: Params, s: State, project: int, oid: string) returns (run: Run)
    requires s.up && s.handlers == map[] && IsValidOid(oid)
    ensures run.Ok(p) && run.First() == s
    ensures run.Last() == s.(sequence := s.sequence + 1, disk := s.disk[TempPath(oid, s.pid, s.sequence) := []],
                             handlers := map[0 := Put(project, oid, s.sequence, [], Receiving)])
  {
    run := Run([], [s]).Then(p, BeginPut(0, project, oid));
  }

  /** An upload that ends before verification removes its temporary file. */
  lemma {:induction false} FailStep(p: Params, start: Run, project: int, oid: string, n: nat,
                                    received: Bytes) returns (run: Run)
    requires start.Ok(p)
    requires start.Last().handlers == map[0 := Put(project, oid, n, received, Receiving)]
    ensures run.Ok(p) && run.First() == start.First()
    ensures run.Last() ==
            start.Last().(disk := start.Last().disk - {TempPath(oid, start.Last().pid, n)}, handlers := map[])
  {
    run := start.Then(p, Fail(0, false, []));
    assert run.Last().handlers == map[];
  }

  /** The last three steps of an upload whose content verified. */
  lemma {:induction false} PublishSteps(p: Params, start: Run, project: int, oid: string, n: nat, received: Bytes,
                                        ok: bool, id: int)
    returns (run: Run)
    requires start.Ok(p) && IsValidOid(oid) && received in p.corpus && p.digest(received) == oid
    requires start.Last().handlers == map[0 := Put(project, oid, n, received, Receiving)]
    requires ok <==> project in start.Last().projects
    requires ok ==>
               && (id in start.Last().objects ==> start.Last().objects[id].oid == oid)
               && (HasOid(start.Last().objects, oid) ==> id in start.Last().objects)
    ensures run.Ok(p) && run.First() == start.First()
    ensures var s := start.Last();
            var disk := (s.disk - {TempPath(oid, s.pid, n)})[LfsPath(oid) := received];
            run.Last() ==
            if !ok then s.(disk := disk, handlers := map[])
            else s.(disk := disk, handlers := map[],
                    objects := if id in s.objects then s.objects else s.objects[id := Object(oid, |received|)],
                    links := s.links + {(project, id)})
  {
    var renamed := start.Then(p, Finish(0)).Then(p, Rename(0));
    run := renamed.Then(p, if ok then CommitPut(0, id) else Fail(0, false, []));
    assert run.Last().handlers == map[];
  }

  class Server {
    const pid: nat
    var sequence: nat
    var disk: map<Path, Bytes>
    var objects: map<int, Object>
    var projects: set<int>
    var links: set<(int, int)>

    constructor (pid: nat)
      ensures this.pid == pid && sequence == 0 && disk == map[] && objects == map[]
      ensures projects == {} && links == {}
    {
      this.pid := pid;
      sequence, disk, objects, projects, links := 0, map[], map[], {}, {};
    }

    /** The machine state of a server with no request in flight. */
    ghost function View(): State
      reads this
    {
      State(pid, true, sequence, disk, objects, projects, links, map[])
    }

    /** The receiving loop: each chunk is counted, hashed and appended to the temporary file. */
    method ReceiveBody(p: Params, project: int, oid: string, temp: Path, body: seq<BodyItem>, ghost start: Run)
      returns (received: Bytes, outcome: StoreResult, ghost run: Run)
      requires sequence > 0 && IsValidOid(oid) && temp == TempPath(oid, pid, sequence - 1)
      requires start.Ok(p) && temp in disk && disk[temp] == []
      requires start.Last() == View().(handlers := map[0 := Put(project, oid, sequence - 1, [], Receiving)])
      modifies this`disk
      ensures disk == old(disk)[temp := received]
      ensures run.Ok(p) && run.First() == start.First()
      ensures run.Last() == View().(handlers := map[0 := Put(project, oid, sequence - 1, received, Receiving)])
      ensures match Receive(body, p.max, [])
              case Complete(bytes) => outcome == Stored && received == bytes
              case Oversize => outcome == TooLarge
              case Interrupted => outcome == Failed
    {
      received, outcome, run := [], Stored, start;
      var i := 0;
      while i < |body|
        invariant 0 <= i <= |body|
        invariant outcome == Stored
        invariant Receive(body, p.max, []) == Receive(body[i..], p.max, received)
        invariant disk == old(disk)[temp := received]
        invariant run.Ok(p) && run.First() == start.First()
        invariant run.Last() == View().(handlers := map[0 := Put(project, oid, sequence - 1, received, Receiving)])
      {
        if body[i].Broken? {
          outcome := Failed;
          return;
        }
        if p.max > 0 && |received| + |body[i].bytes| > p.max {
          outcome := TooLarge;
          return;
        }
        run := run.Then(p, Chunk(0, body[i].bytes));
        received := received + body[i].bytes;
        disk := disk[temp := received];
        assert body[i..][1..] == body[i + 1..];
        i := i + 1;
      }
    }

    /** The transaction that inserts the row, unless the oid has one, and the link. */
    method CommitRows(project: int, oid: string, size: nat, newId: int)
      returns (ok: bool, ghost id: int)
      requires newId !in objects
      requires forall i, j | i in objects && j in objects && objects[i].oid == objects[j].oid :: i == j
      modifies this`objects, this`links
      ensures ok <==> project in projects
      ensures !ok ==> objects == old(objects) && links == old(links)
      ensures ok ==>
                && id == (if HasOid(old(objects), oid) then IdOf(old(objects), oid) else newId)
                && objects == (if id in old(objects) then old(objects) else old(objects)[id := Object(oid, size)])
                && links == old(links) + {(project, id)}
                && HasOid(objects, oid) && IdOf(objects, oid) == id
    {
      if project !in projects {
        return false, newId;
      }
      id := if HasOid(objects, oid) then IdOf(objects, oid) else newId;
      if !HasOid(objects, oid) {
        objects := objects[newId := Object(oid, size)];
      }
      var matching := set i | i in objects && objects[i].oid == oid;
      assert id in matching;
      forall i | i in matching
        ensures i == id
      {
        assert i in old(objects) ==> HasOid(old(objects), oid);
      }
      assert matching == {id};
      links := links + set i | i in matching :: (project, i);
      ok := true;
    }

    /** Verified content goes to its final path, then the rows are inserted. */
    method Publish(p: Params, project: int, oid: string, temp: Path, received: Bytes, newId: int, ghost start: Run)
      returns (result: StoreResult, ghost run: Run)
      requires sequence > 0 && IsValidOid(oid) && temp == TempPath(oid, pid, sequence - 1)
      requires newId !in objects && received in p.corpus && p.digest(received) == oid
      requires forall i, j | i in objects && j in objects && objects[i].oid == objects[j].oid :: i == j
      requires start.Ok(p)
      requires start.Last() == View().(handlers := map[0 := Put(project, oid, sequence - 1, received, Receiving)])
      modifies this`disk, this`objects, this`links
      ensures run.Ok(p) && run.First() == start.First() && run.Last() == View()
      ensures disk == (old(disk) - {temp})[LfsPath(oid) := received]
      ensures result == if project in projects then Stored else Failed
      ensures result != Stored ==> objects == old(objects) && links == old(links)
      ensures result == Stored ==>
                && HasOid(objects, oid)
                && objects == (if HasOid(old(objects), oid) then old(objects)
                               else old(objects)[newId := Object(oid, |received|)])
                && links == old(links) + {(project, IdOf(objects, oid))}
    {
      disk := (disk - {temp})[LfsPath(oid) := received];
      var ok, id := CommitRows(project, oid, |received|, newId);
      run := PublishSteps(p, start, project, oid, sequence - 1, received, ok, id);
      result := if ok then Stored else Failed;
    }

    /** The first part of an upload: a fresh temporary file is created and the body received into it. */
    method OpenAndReceive(p: Params, project: int, oid: string, body: seq<BodyItem>)
      returns (temp: Path, received: Bytes, outcome: StoreResult, ghost run: Run)
      requires IsValidOid(oid)
      modifies this`sequence, this`disk
      ensures sequence == old(sequence) + 1 && temp == TempPath(oid, pid, sequence - 1)
      ensures disk == old(disk)[temp := received]
      ensures run.Ok(p) && run.First() == old(View())
      ensures run.Last() == View().(handlers := map[0 := Put(project, oid, sequence - 1, received, Receiving)])
      ensures match Receive(body, p.max, [])
              case Complete(bytes) => outcome == Stored && received == bytes == Payload(body)
              case Oversize => outcome == TooLarge
              case Interrupted => outcome == Failed
    {
      temp := TempPath(oid, pid, sequence);
      ReceiveComplete(body, p.max, []);
      assert [] + Payload(body) == Payload(body);
      run := BeginStep(p, View(), project, oid);
      sequence := sequence + 1;
      disk := disk[temp := []];
      received, outcome, run := ReceiveBody(p, project, oid, temp, body, run);
      assert disk == old(disk)[temp := received];
    }

    /**
     The upload handler running alone, disk and database in order. `newId` is the row id
     SQLite would assign. The handler's steps are a run of the machine above. Whatever else is in the
     temporary directory stays there; the upload's own file is gone either way.
     */
    method StoreStreaming(p: Params, project: int, oid: string, body: seq<BodyItem>, newId: int)
      returns (result: StoreResult, ghost run: Run)
      requires IsValidOid(oid) && newId !in objects && Payload(body) in p.corpus
      requires forall i, j | i in objects && j in objects && objects[i].oid == objects[j].oid :: i == j
      modifies this
      ensures sequence == old(sequence) + 1 && projects == old(projects)
      ensures run.Ok(p) && run.First() == old(View()) && run.Last() == View()
      ensures result == var r := Receive(body, p.max, []);
                        if r.Oversize? then TooLarge
                        else if r.Interrupted? then Failed
                        else if p.digest(Payload(body)) != oid then DigestMismatch
                        else if project in projects then Stored else Failed
      ensures var rest := old(disk) - {TempPath(oid, pid, old(sequence))};
              disk == if Receive(body, p.max, []).Complete? && p.digest(Payload(body)) == oid
                      then rest[LfsPath(oid) := Payload(body)] else rest
      ensures result != Stored ==> objects == old(objects) && links == old(links)
      ensures result == Stored ==>
                && HasOid(objects, oid)
                && objects == (if HasOid(old(objects), oid) then old(objects)
                               else old(objects)[newId := Object(oid, |Payload(body)|)])
                && links == old(links) + {(project, IdOf(objects, oid))}
    {
      var temp, received;
      temp, received, result, run := OpenAndReceive(p, project, oid, body);
      assert disk - {temp} == old(disk) - {temp};
      if result == Stored && p.digest(received) != oid {
        result := DigestMismatch;
      }
      if result != Stored {
        run := FailStep(p, run, project, oid, sequence - 1, received);
        disk := disk - {temp};
      } else {
        result, run := Publish(p, project, oid, temp, received, newId, run);
      }
    }

    /** Start-up clean-up: one pass over the directory, counting what it removes. */
    method CleanupTemp() returns (removed: nat)
      modifies this`disk
      ensures disk == map path | path in old(disk) && !IsPart(path) :: old(disk)[path]
      ensures removed == |set path | path in old(disk) && IsPart(path)|
      ensures forall oid, pid, n :: TempPath(oid, pid, n) !in disk
    {
      removed := 0;
      var entries := disk.Keys;
      ghost var gone: set<Path> := {};
      while entries != {}
        invariant entries <= old(disk).Keys
        invariant gone == set path | path in old(disk) && path !in entries && IsPart(path)
        invariant disk == old(disk) - gone
        invariant removed == |gone|
        decreases entries
      {
        var entry :| entry in entries;
        entries := entries - {entry};
        if IsPart(entry) {
          disk := disk - {entry};
          removed := removed + 1;
          gone := gone + {entry};
        }
      }
      assert gone == set path | path in old(disk) && IsPart(path);
      forall oid, pid, n
        ensures TempPath(oid, pid, n) !in disk
      {
        TempPathIsPart(oid, pid, n);
      }
    }
  }
}
