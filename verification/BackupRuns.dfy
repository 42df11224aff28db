/**
 Backups over time: the exclude file and the commit persist from run to run, and restoring the
 latest commit gives the tree back under an exact condition on the tree and on what earlier runs
 excluded.
 */
module BackupRuns {
  import opened Prelude
  import opened Numerals
  import opened Text
  import opened Backup

  // ---------------------------------------------------------------- sequences of paths

  ghost function Listing(s: set<string>): (t: seq<string>)
    ensures Distinct(t) && forall x :: x in t <==> x in s
  {
    if s == {} then []
    else
      var x :| x in s;
      assert forall y :: y in s <==> y == x || y in s - {x};
      [x] + Listing(s - {x})
  }

  lemma {:induction false} DistinctCons(first: string, rest: seq<string>)
    requires Distinct(rest) && first !in rest
    ensures Distinct([first] + rest)
  {
    var s := [first] + rest;
    forall i, j | 0 <= i < j < |s|
      ensures s[i] != s[j]
    {
      assert s[j] == rest[j - 1] && (i > 0 ==> s[i] == rest[i - 1]);
    }
  }

  lemma {:induction false} MarkersFirst(files: Files, first: string) returns (markers: seq<string>)
    ensures Distinct([first] + markers) && first !in markers
    ensures forall q | q in files && IsMarkerName(q) :: q in [first] + markers
  {
    var others := set q | q in files && IsMarkerName(q) && q != first;
    markers := Listing(others);
    assert first !in others;
    DistinctCons(first, markers);
  }

  lemma {:induction false} Shortest(s: set<string>) returns (q: string)
    requires s != {}
    ensures q in s && forall r | r in s :: |q| <= |r|
  {
    q :| q in s;
    if s != {q} {
      var r := Shortest(s - {q});
      assert forall x | x in s :: x == q || x in s - {q};
      if |r| < |q| {
        q := r;
      }
    }
  }

  // ---------------------------------------------------------------- one run

  /** The run's two walks report every file of the tree, and every marker of the commit. */
  ghost predicate Reported(c: Config, repo: Repository, tree: Files, walk: seq<string>, markers: seq<string>)
    requires IsUsable(c)
  {
    && Distinct(walk) && Distinct(markers)
    && (forall p | p in tree :: p in walk)
    && (forall q | q in BackedUp(c, repo, tree, walk).commit && IsMarkerName(q) :: q in markers)
  }

  ghost predicate GivesBack(c: Config, repo: Repository, tree: Files, walk: seq<string>, markers: seq<string>)
    requires IsUsable(c)
  {
    RestoreAll(c, BackedUp(c, repo, tree, walk).commit, markers) == Some(tree)
  }

  ghost predicate AlwaysGivesBack(c: Config, repo: Repository, tree: Files)
    requires IsUsable(c)
  {
    forall walk, markers | Reported(c, repo, tree, walk, markers) :: GivesBack(c, repo, tree, walk, markers)
  }

  ghost predicate AllRecordable(c: Config, tree: Files) {
    forall p | p in tree :: Recorded(c, p, tree[p])
  }

  function LargeIn(c: Config, tree: Files): set<string> {
    set p | p in tree && IsLarge(c, tree, p)
  }

  /** The mirror of a restorable tree, the same for every walk. */
  ghost function FullMirror(c: Config, tree: Files): Files
    requires IsUsable(c)
  {
    SplitAll(c, tree, Listing(tree.Keys))
  }

  lemma {:induction false} MixDetermines(c: Config, f: Files, g: Files, tree: Files, split: set<string>, q: string)
    requires IsUsable(c) && IsMixed(c, f, tree, split) && IsMixed(c, g, tree, split) && q in f
    ensures q in g && g[q] == f[q]
  {
    if !(q in tree && q !in split) {
      var p :| p in split && p in tree && IsPieceOf(c, p, tree[p], q);
      assert IsSplit(c, f, p, tree[p]) && IsSplit(c, g, p, tree[p]);
      if q != MarkerName(p) {
        var k :| 0 <= k < |Chunks(tree[p], c.splitBytes)| && q == ChunkName(p, k);
      }
    }
  }

  lemma {:induction false} ExcludesLarge(c: Config, tree: Files, order: seq<string>)
    requires IsUsable(c) && Restorable(c, tree)
    ensures Excluded(c, tree, order) == LargeAmong(c, tree, order)
  {
    if order != [] {
      var first, last := order[..|order| - 1], order[|order| - 1];
      ExcludesLarge(c, tree, first);
      LargeNow(c, tree, first, last);
      LargeAmongMore(c, tree, first, last);
      assert order == first + [last];
    }
  }

  lemma {:induction false} LargeNow(c: Config, tree: Files, order: seq<string>, v: string)
    requires IsUsable(c) && Restorable(c, tree)
    ensures IsLarge(c, SplitAll(c, tree, order), v) <==> v !in LargeAmong(c, tree, order) && IsLarge(c, tree, v)
  {
    SplitAllMixes(c, tree, order);
    OnlyOriginalsAreLarge(c, SplitAll(c, tree, order), tree, LargeAmong(c, tree, order), v);
  }

  lemma {:induction false} AllLargeAmong(c: Config, tree: Files, walk: seq<string>)
    requires forall p | p in tree :: p in walk
    ensures LargeAmong(c, tree, walk) == LargeIn(c, tree)
  {
  }

  /** A walk that reports every file of a restorable tree leaves the one mirror and excludes the large files. */
  lemma {:induction false} WalkIrrelevant(c: Config, tree: Files, walk: seq<string>)
    requires IsUsable(c) && Restorable(c, tree) && forall p | p in tree :: p in walk
    ensures SplitAll(c, tree, walk) == FullMirror(c, tree) && Excluded(c, tree, walk) == LargeIn(c, tree)
    ensures IsMixed(c, FullMirror(c, tree), tree, LargeIn(c, tree))
  {
    var f, g := SplitAll(c, tree, walk), FullMirror(c, tree);
    SplitAllMixes(c, tree, walk);
    SplitAllMixes(c, tree, Listing(tree.Keys));
    AllLargeAmong(c, tree, walk);
    AllLargeAmong(c, tree, Listing(tree.Keys));
    ExcludesLarge(c, tree, walk);
    forall q
      ensures (q in f <==> q in g) && (q in f ==> f[q] == g[q])
    {
      if q in f {
        MixDetermines(c, f, g, tree, LargeIn(c, tree), q);
      } else if q in g {
        MixDetermines(c, g, f, tree, LargeIn(c, tree), q);
      }
    }
  }

  ghost predicate IsKept(c: Config, repo: Repository, tree: Files, f: string)
    requires IsUsable(c)
  {
    !InGitDir(f) && (f in repo.commit || !c.skips(repo.exclude + LargeIn(c, tree), FullMirror(c, tree), f))
  }

  /** Every file of the mirror is committed: tracked already, or not passed over by `git add`. */
  ghost predicate Kept(c: Config, repo: Repository, tree: Files)
    requires IsUsable(c)
  {
    var mirror := FullMirror(c, tree);
    forall f | f in mirror :: IsKept(c, repo, tree, f)
  }

  /** The condition is sufficient. */
  lemma {:induction false} KeptGivesBack(c: Config, repo: Repository, tree: Files, walk: seq<string>,
                                         markers: seq<string>)
    requires IsUsable(c) && AllRecordable(c, tree) && Restorable(c, tree) && Kept(c, repo, tree)
    requires Reported(c, repo, tree, walk, markers)
    ensures BackedUp(c, repo, tree, walk).commit == FullMirror(c, tree)
    ensures GivesBack(c, repo, tree, walk, markers)
  {
    WalkIrrelevant(c, tree, walk);
    KeptIsStaged(c, repo, tree);
    var after := BackedUp(c, repo, tree, walk);
    assert after.commit == Staged(c, repo.(exclude := repo.exclude + LargeIn(c, tree)), FullMirror(c, tree));
    BackupThenRestore(c, tree, walk, markers);
  }

  lemma {:induction false} KeptIsStaged(c: Config, repo: Repository, tree: Files)
    requires IsUsable(c) && Kept(c, repo, tree)
    ensures Staged(c, repo.(exclude := repo.exclude + LargeIn(c, tree)), FullMirror(c, tree)) == FullMirror(c, tree)
  {
    var noted, mirror := repo.(exclude := repo.exclude + LargeIn(c, tree)), FullMirror(c, tree);
    forall f | f in mirror
      ensures f in Staged(c, noted, mirror)
    {
      assert IsKept(c, repo, tree, f);
    }
  }

  // ---------------------------------------------------------------- commits that are incomplete

  /** A part of the mirror, each file as it is there. */
  ghost predicate IsPart(part: Files, files: Files) {
    part.Keys <= files.Keys && forall f | f in part :: part[f] == files[f]
  }

  lemma {:induction false} CommitIsPart(c: Config, repo: Repository, tree: Files, walk: seq<string>)
    requires IsUsable(c)
    ensures IsPart(BackedUp(c, repo, tree, walk).commit, SplitAll(c, tree, walk))
  {
  }

  /** A file that is neither committed nor can be put together from a committed marker is not restored. */
  lemma {:induction false} AbsentIsLost(c: Config, commit: Files, markers: seq<string>, p: string, tree: Files)
    requires Absent(commit, p) && p in tree
    ensures RestoreAll(c, commit, markers) != Some(tree)
  {
    if RestoreAll(c, commit, markers).Some? {
      AbsentAfter(c, commit, markers, p);
    }
  }

  /** No commit of a tree with files named like markers gives it back, whatever the two walks report. */
  lemma {:induction false} MarkerNamedFileIsLost(c: Config, repo: Repository, tree: Files, walk: seq<string>,
                                                 markers: seq<string>)
    requires IsUsable(c) && Reported(c, repo, tree, walk, markers)
    requires exists q :: q in tree && IsMarkerName(q)
    ensures !GivesBack(c, repo, tree, walk, markers)
  {
    var commit := BackedUp(c, repo, tree, walk).commit;
    CommitIsPart(c, repo, tree, walk);
    var named := set r | r in tree && IsMarkerName(r);
    var some :| some in tree && IsMarkerName(some);
    assert some in named;
    var q := Longest(named);
    forall v | v in commit && IsMarkerName(v) && IsMarkerName(BaseOf(v))
      ensures |v| <= |q|
    {
      MarkersWritten(c, tree, walk, v);
    }
    if RestoreAll(c, commit, markers).Some? {
      MarkerIsRemoved(c, commit, markers, q);
    }
  }

  ghost predicate NoMarkerNames(tree: Files) {
    forall q | q in tree :: !IsMarkerName(q)
  }

  lemma {:induction false} MirrorIsShallow(c: Config, tree: Files, walk: seq<string>, commit: Files)
    requires IsUsable(c) && NoMarkerNames(tree) && IsPart(commit, SplitAll(c, tree, walk))
    ensures forall n: nat :: NoDeeper(commit, n)
  {
    forall v | v in commit && IsMarkerName(v)
      ensures !IsMarkerName(BaseOf(v))
    {
      MarkersWritten(c, tree, walk, v);
    }
  }

  /** No large file with a shorter name has a piece that is named like a file of the tree. */
  ghost predicate NoShorterClash(c: Config, tree: Files, p: string)
    requires IsUsable(c)
  {
    forall w, v | IsLarge(c, tree, w) && |w| < |p| && v in tree :: !IsPieceOf(c, w, tree[w], v)
  }

  /** The file itself is gone, and files with names no longer than its name are as they were or gone. */
  ghost predicate ShortIntact(tree: Files, files: Files, p: string) {
    p !in files && forall v | v in tree && |v| <= |p| && v in files :: files[v] == tree[v]
  }

  lemma {:induction false} ShortUntouched(c: Config, tree: Files, files: Files, p: string, w: string, v: string)
    requires IsUsable(c) && NoMarkerNames(tree) && NoShorterClash(c, tree, p) && ShortIntact(tree, files, p)
    requires w in tree || |w| >= |p|
    requires v in tree && |v| <= |p| && IsLarge(c, files, w)
    ensures !IsPieceOf(c, w, files[w], v)
  {
    MarkerIsMarker(w);
    if j :| 0 <= j < |Chunks(files[w], c.splitBytes)| && v == ChunkName(w, j) {
      assert |w| < |v| && w in tree && files[w] == tree[w];
      assert IsLarge(c, tree, w) && IsPieceOf(c, w, tree[w], v);
    }
  }

  lemma {:induction false} ShortIntactVisit(c: Config, tree: Files, files: Files, p: string, w: string)
    requires IsUsable(c) && NoMarkerNames(tree) && NoShorterClash(c, tree, p) && ShortIntact(tree, files, p)
    requires p in tree && w != p && (w in tree || |w| >= |p|)
    ensures ShortIntact(tree, Visit(c, files, w), p)
  {
    if IsLarge(c, files, w) {
      SplitOneFacts(c, files, w);
      forall v | v in tree && |v| <= |p|
        ensures v == w || SameAt(files, SplitOne(c, files, w), v)
      {
        ShortUntouched(c, tree, files, p, w, v);
      }
      SameOrGoneIsIntact(tree, files, SplitOne(c, files, w), p, w);
    }
  }

  lemma {:induction false} SameOrGoneIsIntact(tree: Files, files: Files, after: Files, p: string, w: string)
    requires ShortIntact(tree, files, p) && p in tree && w != p && w !in after
    requires forall v | v in tree && |v| <= |p| :: v == w || SameAt(files, after, v)
    ensures ShortIntact(tree, after, p)
  {
    assert SameAt(files, after, p);
  }

  lemma {:induction false} ShortIntactAfter(c: Config, tree: Files, files: Files, p: string, order: seq<string>)
    requires IsUsable(c) && NoMarkerNames(tree) && NoShorterClash(c, tree, p) && ShortIntact(tree, files, p)
    requires p in tree && p !in order && forall w | w in order :: w in tree || |w| >= |p|
    ensures ShortIntact(tree, SplitAll(c, files, order), p)
    decreases |order|
  {
    if order != [] {
      var n := |order| - 1;
      ShortIntactAfter(c, tree, files, p, order[..n]);
      ShortIntactVisit(c, tree, SplitAll(c, files, order[..n]), p, order[n]);
    }
  }

  /** A walk that reports a large file first leaves its marker as written, and no chunk of it that was split. */
  lemma {:induction false} WalkFrom(c: Config, tree: Files, p: string, k: nat, rest: seq<string>)
    requires IsUsable(c) && IsLarge(c, tree, p) && NoMarkerNames(tree)
    requires k < |Chunks(tree[p], c.splitBytes)| && p !in rest
    ensures Partly(c, SplitAll(c, tree, [p] + rest), p, tree[p])
    ensures GoneIfMarked(SplitAll(c, tree, [p] + rest), ChunkName(p, k))
  {
    var once, q := SplitOne(c, tree, p), ChunkName(p, k);
    SplitOneFacts(c, tree, p);
    SplitIsPartly(c, once, p, tree[p]);
    OneVisit(c, tree, p);
    SplitAllFrom(c, tree, [p], rest);
    ChunkIsNoMarker(p, k);
    MarkerIsMarker(q);
    assert GoneIfMarked(once, q) by {
      if IsPieceOf(c, p, tree[p], MarkerName(q)) {
        assert IsPieceOf(c, q, "", MarkerName(q));
        PiecesOfOne(c, p, tree[p], q, "", MarkerName(q));
      }
    }
    PartlyAfter(c, once, p, tree[p], k, rest);
  }

  lemma {:induction false} ShortIntactOnce(c: Config, tree: Files, p: string)
    requires IsUsable(c) && p in tree && NoMarkerNames(tree)
    ensures ShortIntact(tree, SplitOne(c, tree, p), p)
  {
    SplitOneFacts(c, tree, p);
    MarkerIsMarker(p);
    forall v | v in tree && |v| <= |p| && v != p
      ensures SameAt(tree, SplitOne(c, tree, p), v)
    {
      assert !IsPieceOf(c, p, tree[p], v);
    }
  }

  /** And the file itself does not come back. */
  lemma {:induction false} WalkDrops(c: Config, tree: Files, p: string, rest: seq<string>)
    requires IsUsable(c) && IsLarge(c, tree, p) && NoMarkerNames(tree) && NoShorterClash(c, tree, p)
    requires p !in rest && forall w | w in rest :: w in tree || |w| >= |p|
    ensures p !in SplitAll(c, tree, [p] + rest)
  {
    OneVisit(c, tree, p);
    SplitAllFrom(c, tree, [p], rest);
    ShortIntactOnce(c, tree, p);
    ShortIntactAfter(c, tree, SplitOne(c, tree, p), p, rest);
  }

  lemma {:induction false} PartKeepsPieces(c: Config, part: Files, files: Files, p: string, data: string)
    requires IsUsable(c) && IsPart(part, files) && Partly(c, files, p, data) && MarkerName(p) in part
    ensures Partly(c, part, p, data)
  {
  }

  /** A commit from which a piece was taken by another, or is missing: the tree does not come back. */
  lemma {:induction false} TakenIsLost(c: Config, commit: Files, mirror: Files, tree: Files, p: string, k: nat,
                                       rest: seq<string>)
    requires IsUsable(c) && p in tree && Recorded(c, p, tree[p]) && !IsMarkerName(p) && IsPart(commit, mirror)
    requires Partly(c, mirror, p, tree[p]) && p !in mirror && forall n: nat :: NoDeeper(commit, n)
    requires k < |Chunks(tree[p], c.splitBytes)| && GoneIfMarked(mirror, ChunkName(p, k))
    requires ChunkName(p, k) in tree || ChunkName(p, k) !in commit
    ensures RestoreAll(c, commit, [MarkerName(p)] + rest) != Some(tree)
  {
    if MarkerName(p) in commit {
      PartKeepsPieces(c, commit, mirror, p, tree[p]);
      if ChunkName(p, k) in tree {
        BeginsWithTaken(c, commit, p, tree[p], k, rest);
      } else {
        BeginsWithMissing(c, commit, p, tree[p], k, rest);
      }
    } else {
      AbsentIsLost(c, commit, [MarkerName(p)] + rest, p, tree);
    }
  }

  ghost predicate Clashes(c: Config, tree: Files, p: string)
    requires IsUsable(c)
  {
    IsLarge(c, tree, p) && exists k | 0 <= k < |Chunks(tree[p], c.splitBytes)| :: ChunkName(p, k) in tree
  }

  /** The two walks over one mirror, all of which is committed. */
  ghost predicate WalksReport(c: Config, tree: Files, walk: seq<string>, markers: seq<string>)
    requires IsUsable(c)
  {
    && Distinct(walk) && Distinct(markers)
    && (forall p | p in tree :: p in walk)
    && (forall q | q in SplitAll(c, tree, walk) && IsMarkerName(q) :: q in markers)
  }

  /** A file with a chunk's name can be lost: the chunk overwrites it, and the restore takes the chunk. */
  lemma {:induction false} ClashingNameIsLost(c: Config, tree: Files, p: string, k: nat)
    returns (walk: seq<string>, markers: seq<string>)
    requires IsUsable(c) && IsLarge(c, tree, p) && Recorded(c, p, tree[p]) && NoMarkerNames(tree)
    requires k < |Chunks(tree[p], c.splitBytes)| && ChunkName(p, k) in tree
    ensures WalksReport(c, tree, walk, markers)
    ensures var result := RestoreAll(c, SplitAll(c, tree, walk), markers);
            result.Some? ==> ChunkName(p, k) !in result.value
  {
    var others := Listing(tree.Keys - {p});
    DistinctCons(p, others);
    walk := [p] + others;
    var mirror := SplitAll(c, tree, walk);
    WalkFrom(c, tree, p, k, others);
    MirrorIsShallow(c, tree, walk, mirror);
    var rest := MarkersFirst(mirror, MarkerName(p));
    markers := [MarkerName(p)] + rest;
    BeginsWithTaken(c, mirror, p, tree[p], k, rest);
  }

  /** Whatever is committed of it, a tree with a file named like a chunk is lost in some order of the walks. */
  lemma {:induction false} ClashLosesTree(c: Config, repo: Repository, tree: Files, p: string)
    returns (walk: seq<string>, markers: seq<string>)
    requires IsUsable(c) && AllRecordable(c, tree) && NoMarkerNames(tree)
    requires Clashes(c, tree, p) && NoShorterClash(c, tree, p)
    ensures Reported(c, repo, tree, walk, markers) && !GivesBack(c, repo, tree, walk, markers)
  {
    var k :| 0 <= k < |Chunks(tree[p], c.splitBytes)| && ChunkName(p, k) in tree;
    var others := Listing(tree.Keys - {p});
    DistinctCons(p, others);
    walk := [p] + others;
    var mirror, commit := SplitAll(c, tree, walk), BackedUp(c, repo, tree, walk).commit;
    WalkFrom(c, tree, p, k, others);
    WalkDrops(c, tree, p, others);
    CommitIsPart(c, repo, tree, walk);
    MirrorIsShallow(c, tree, walk, commit);
    var rest := MarkersFirst(commit, MarkerName(p));
    markers := [MarkerName(p)] + rest;
    TakenIsLost(c, commit, mirror, tree, p, k, rest);
  }

  lemma {:induction false} ShortestClash(c: Config, tree: Files) returns (p: string)
    requires IsUsable(c) && NoMarkerNames(tree) && !NoClash(c, tree)
    ensures Clashes(c, tree, p) && NoShorterClash(c, tree, p)
  {
    var clashing := set w | w in tree && Clashes(c, tree, w);
    forall w, v | IsLarge(c, tree, w) && v in tree && IsPieceOf(c, w, tree[w], v)
      ensures w in clashing
    {
      MarkerIsMarker(w);
    }
    p := Shortest(clashing);
  }

  /** A large file is split, and then a large piece of it. */
  lemma {:induction false} PieceSplitAgain(c: Config, tree: Files, p: string, k: nat)
    requires IsUsable(c) && IsLarge(c, tree, p)
    requires 100 <= k < |Chunks(tree[p], c.splitBytes)| && |Chunks(tree[p], c.splitBytes)[k]| > c.maxBytes
    ensures var twice := Visit(c, SplitOne(c, tree, p), ChunkName(p, k));
            Partly(c, twice, p, tree[p]) && ChunkName(p, k) !in twice
  {
    var data, q := tree[p], ChunkName(p, k);
    var once := SplitOne(c, tree, p);
    SplitOneFacts(c, tree, p);
    SplitIsPartly(c, once, p, data);
    ChunkIsNoMarker(p, k);
    LargePiece(c, once, p, data, k);
    assert IsPieceOf(c, p, data, q);
    PieceVisit(c, once, p, data, q, q);
    PartlyVisit(c, once, p, data, q);
  }

  /** A large piece that is itself split leaves the file's marker with a chunk missing. */
  lemma {:induction false} WalkSplitsPiece(c: Config, tree: Files, p: string, k: nat, rest: seq<string>)
    requires IsUsable(c) && IsLarge(c, tree, p) && p !in rest
    requires 100 <= k < |Chunks(tree[p], c.splitBytes)| && |Chunks(tree[p], c.splitBytes)[k]| > c.maxBytes
    ensures Partly(c, SplitAll(c, tree, [p, ChunkName(p, k)] + rest), p, tree[p])
    ensures ChunkName(p, k) !in SplitAll(c, tree, [p, ChunkName(p, k)] + rest)
  {
    PieceSplitAgain(c, tree, p, k);
    TwoVisits(c, tree, p, ChunkName(p, k));
    SplitAllFrom(c, tree, [p, ChunkName(p, k)], rest);
    PartlyAfter(c, Visit(c, SplitOne(c, tree, p), ChunkName(p, k)), p, tree[p], k, rest);
  }

  lemma {:induction false} PieceWalk(tree: Files, p: string, q: string) returns (walk: seq<string>, others: seq<string>)
    requires p != q
    ensures walk == [p, q] + others && walk == [p] + ([q] + others) && Distinct(walk)
    ensures p !in [q] + others && (forall w | w in others :: w in tree) && forall w | w in tree :: w in walk
  {
    others := Listing(tree.Keys - {p, q});
    DistinctCons(q, others);
    DistinctCons(p, [q] + others);
    walk := [p] + ([q] + others);
  }

  /** A piece that the walk takes for a large file can be split again, and then the file cannot be restored first. */
  lemma {:induction false} LargePieceIsMissed(c: Config, tree: Files, p: string, k: nat)
    returns (walk: seq<string>, markers: seq<string>)
    requires IsUsable(c) && IsLarge(c, tree, p) && Recorded(c, p, tree[p])
    requires 100 <= k < |Chunks(tree[p], c.splitBytes)| && |Chunks(tree[p], c.splitBytes)[k]| > c.maxBytes
    ensures WalksReport(c, tree, walk, markers)
    ensures RestoreAll(c, SplitAll(c, tree, walk), markers) == None
  {
    var q := ChunkName(p, k);
    ChunkIsNoMarker(p, k);
    var others;
    walk, others := PieceWalk(tree, p, q);
    WalkSplitsPiece(c, tree, p, k, others);
    var mirror := SplitAll(c, tree, walk);
    var rest := MarkersFirst(mirror, MarkerName(p));
    markers := [MarkerName(p)] + rest;
    BeginsWithMissing(c, mirror, p, tree[p], k, rest);
  }

  /** Whatever is committed, such a tree is lost in some order of the walks. */
  lemma {:induction false} LargePieceLosesTree(c: Config, repo: Repository, tree: Files, p: string, k: nat)
    returns (walk: seq<string>, markers: seq<string>)
    requires IsUsable(c) && AllRecordable(c, tree) && NoMarkerNames(tree)
    requires IsLarge(c, tree, p) && NoShorterClash(c, tree, p) && ChunkName(p, k) !in tree
    requires 100 <= k < |Chunks(tree[p], c.splitBytes)| && |Chunks(tree[p], c.splitBytes)[k]| > c.maxBytes
    ensures Reported(c, repo, tree, walk, markers) && !GivesBack(c, repo, tree, walk, markers)
  {
    var q := ChunkName(p, k);
    ChunkIsNoMarker(p, k);
    var others;
    walk, others := PieceWalk(tree, p, q);
    var mirror, commit := SplitAll(c, tree, walk), BackedUp(c, repo, tree, walk).commit;
    WalkSplitsPiece(c, tree, p, k, others);
    WalkDrops(c, tree, p, [q] + others);
    CommitIsPart(c, repo, tree, walk);
    MirrorIsShallow(c, tree, walk, commit);
    var rest := MarkersFirst(commit, MarkerName(p));
    markers := [MarkerName(p)] + rest;
    TakenIsLost(c, commit, mirror, tree, p, k, rest);
  }

  lemma {:induction false} NotRestorable(c: Config, repo: Repository, tree: Files)
    returns (walk: seq<string>, markers: seq<string>)
    requires IsUsable(c) && AllRecordable(c, tree) && !Restorable(c, tree)
    ensures Reported(c, repo, tree, walk, markers) && !GivesBack(c, repo, tree, walk, markers)
  {
    if !NoMarkerNames(tree) {
      walk := Listing(tree.Keys);
      markers := Listing(BackedUp(c, repo, tree, walk).commit.Keys);
      MarkerNamedFileIsLost(c, repo, tree, walk, markers);
    } else if !NoClash(c, tree) {
      var p := ShortestClash(c, tree);
      walk, markers := ClashLosesTree(c, repo, tree, p);
    } else {
      var p :| IsLarge(c, tree, p) && !SmallEnough(c, tree[p]);
      TooLargeForChunks(c, tree[p]);
      assert IsPieceOf(c, p, tree[p], ChunkName(p, 100));
      walk, markers := LargePieceLosesTree(c, repo, tree, p, 100);
    }
  }

  /** The large file a file of the mirror is a piece of. */
  lemma {:induction false} PieceInMirror(c: Config, tree: Files, f: string) returns (p: string)
    requires IsUsable(c) && IsMixed(c, FullMirror(c, tree), tree, LargeIn(c, tree))
    requires f in FullMirror(c, tree) && !(f in tree && f !in LargeIn(c, tree))
    ensures p in LargeIn(c, tree) && IsPieceOf(c, p, tree[p], f)
  {
    p :| p in LargeIn(c, tree) && p in tree && IsPieceOf(c, p, tree[p], f);
  }

  /** A split file is not in the mirror, and an unsplit one has no marker there. */
  lemma {:induction false} MirrorHolds(c: Config, tree: Files, p: string)
    requires IsUsable(c) && Restorable(c, tree) && IsMixed(c, FullMirror(c, tree), tree, LargeIn(c, tree)) && p in tree
    ensures p in LargeIn(c, tree) ==> p !in FullMirror(c, tree)
    ensures p !in LargeIn(c, tree) ==> MarkerName(p) !in FullMirror(c, tree)
  {
    MarkerIsMarker(p);
    if p in LargeIn(c, tree) && p in FullMirror(c, tree) {
      var r := PieceInMirror(c, tree, p);
    } else if p !in LargeIn(c, tree) && MarkerName(p) in FullMirror(c, tree) {
      var r := PieceInMirror(c, tree, MarkerName(p));
      assert IsPieceOf(c, p, "", MarkerName(p));
      PiecesOfOne(c, r, tree[r], p, "", MarkerName(p));
    }
  }

  /** The condition is necessary: a file of the mirror that is not committed is lost. */
  lemma {:induction false} UncommittedIsLost(c: Config, repo: Repository, tree: Files, f: string)
    returns (walk: seq<string>, markers: seq<string>)
    requires IsUsable(c) && AllRecordable(c, tree) && Restorable(c, tree) && f in FullMirror(c, tree)
    requires !IsKept(c, repo, tree, f)
    ensures Reported(c, repo, tree, walk, markers) && !GivesBack(c, repo, tree, walk, markers)
  {
    walk := Listing(tree.Keys);
    WalkIrrelevant(c, tree, walk);
    var mirror, commit := FullMirror(c, tree), BackedUp(c, repo, tree, walk).commit;
    CommitIsPart(c, repo, tree, walk);
    MirrorIsShallow(c, tree, walk, commit);
    assert f !in commit;
    if f in tree && f !in LargeIn(c, tree) {
      MirrorHolds(c, tree, f);
      markers := Listing(commit.Keys);
      AbsentIsLost(c, commit, markers, f, tree);
    } else {
      var p := PieceInMirror(c, tree, f);
      MirrorHolds(c, tree, p);
      SplitIsPartly(c, mirror, p, tree[p]);
      var rest := MarkersFirst(commit, MarkerName(p));
      markers := [MarkerName(p)] + rest;
      PieceIsLost(c, commit, mirror, tree, p, f, rest);
    }
  }

  lemma {:induction false} PieceIsLost(c: Config, commit: Files, mirror: Files, tree: Files, p: string, f: string,
                                       rest: seq<string>)
    requires IsUsable(c) && p in tree && Recorded(c, p, tree[p]) && IsPart(commit, mirror)
    requires Partly(c, mirror, p, tree[p]) && p !in mirror && forall n: nat :: NoDeeper(commit, n)
    requires IsPieceOf(c, p, tree[p], f) && f !in commit
    ensures RestoreAll(c, commit, [MarkerName(p)] + rest) != Some(tree)
  {
    if MarkerName(p) in commit {
      PartKeepsPieces(c, commit, mirror, p, tree[p]);
      var k :| 0 <= k < |Chunks(tree[p], c.splitBytes)| && f == ChunkName(p, k);
      BeginsWithMissing(c, commit, p, tree[p], k, rest);
    } else {
      AbsentIsLost(c, commit, [MarkerName(p)] + rest, p, tree);
    }
  }

  /**
   One backup, in any state of the repository: restoring what it commits gives the tree back for all
   orders of both walks, if and only if the tree is restorable and every file of its mirror is tracked
   already or not passed over, and not below a `.git` directory.
   */
  lemma {:induction false} BackupExactly(c: Config, repo: Repository, tree: Files)
    requires IsUsable(c) && AllRecordable(c, tree)
    ensures AlwaysGivesBack(c, repo, tree) <==> Restorable(c, tree) && Kept(c, repo, tree)
  {
    if !Restorable(c, tree) {
      var walk, markers := NotRestorable(c, repo, tree);
    } else if !Kept(c, repo, tree) {
      var f :| f in FullMirror(c, tree) && !IsKept(c, repo, tree, f);
      var walk, markers := UncommittedIsLost(c, repo, tree, f);
    } else {
      forall walk, markers | Reported(c, repo, tree, walk, markers)
        ensures GivesBack(c, repo, tree, walk, markers)
      {
        KeptGivesBack(c, repo, tree, walk, markers);
      }
    }
  }

  /** Where nothing is passed over, only the tree matters. */
  lemma {:induction false} RestorableExactly(c: Config, repo: Repository, tree: Files)
    requires IsUsable(c) && AllRecordable(c, tree) && forall entries, files, f :: !c.skips(entries, files, f)
    ensures AlwaysGivesBack(c, repo, tree) <==> Restorable(c, tree) && forall p | p in tree :: !InGitDir(p)
  {
    BackupExactly(c, repo, tree);
    if Restorable(c, tree) {
      GitDirsMirrored(c, tree);
    }
  }

  lemma {:induction false} PieceTail(c: Config, p: string, data: string, f: string) returns (tail: string)
    requires IsUsable(c) && IsPieceOf(c, p, data, f)
    ensures f == p + tail && '/' !in tail && !IsIgnoreFile(f)
  {
    if f == MarkerName(p) {
      tail := SUFFIX;
      MarkerIsMarker(p);
      assert f[|f| - 1] == 't';
    } else {
      var k :| 0 <= k < |Chunks(data, c.splitBytes)| && f == ChunkName(p, k);
      tail := ['.'] + Render(k);
      ChunkLooks(p, k);
    }
  }

  lemma {:induction false} GitDirsMirrored(c: Config, tree: Files)
    requires IsUsable(c) && Restorable(c, tree)
    ensures (forall f | f in FullMirror(c, tree) :: !InGitDir(f)) <==> forall p | p in tree :: !InGitDir(p)
  {
    WalkIrrelevant(c, tree, Listing(tree.Keys));
    forall p | p in tree && InGitDir(p)
      ensures p in FullMirror(c, tree)
    {
    }
    forall f | f in FullMirror(c, tree) && InGitDir(f)
      ensures exists p | p in tree :: InGitDir(p)
    {
      if !(f in tree && f !in LargeIn(c, tree)) {
        var p := PieceInMirror(c, tree, f);
        var tail := PieceTail(c, p, tree[p], f);
        SameGitDir(p, tail);
      }
    }
  }

  // ---------------------------------------------------------------- many runs

  /** A name that an exclude entry means literally. */
  predicate IsPlain(name: string) {
    && name != "" && name[|name| - 1] !in " /"
    && forall i | 0 <= i < |name| :: name[i] !in "*?[\\"
  }

  /** The entry for a path ignores the path, and everything below it when it is a directory. */
  predicate Covers(e: string, f: string) {
    f == e || StartsWith(f, e + "/")
  }

  lemma {:induction false} CoversBelow(e: string, f: string)
    ensures Covers(e, f) <==> f == e || exists rest: string :: f == e + "/" + rest
  {
    if StartsWith(f, e + "/") {
      assert f == e + "/" + f[|e| + 1..];
    }
    if rest: string :| f == e + "/" + rest {
      assert f[..|e + "/"|] == e + "/";
    }
  }

  ghost predicate NoGitFiles(files: Files) {
    forall f | f in files :: !IsIgnoreFile(f) && !InGitDir(f)
  }

  /** Literal entries, and nothing else, decide what `git add` passes over in a tree without git's own files. */
  ghost predicate PlainGit(c: Config) {
    forall entries, files, f | (forall e | e in entries :: IsPlain(e)) && NoGitFiles(files) ::
      c.skips(entries, files, f) <==> exists e | e in entries :: Covers(e, f)
  }

  /** Plain names, no path both a file and a directory, nothing of git's own. */
  ghost predicate IsTree(tree: Files) {
    && NoGitFiles(tree)
    && (forall p | p in tree :: IsPlain(p))
    && (forall p, q | p in tree && q in tree :: !StartsWith(q, p + "/"))
  }

  /** The repository after the first k backups, beginning with an empty one. */
  function After(c: Config, trees: seq<Files>, walks: seq<seq<string>>, k: nat): Repository
    requires IsUsable(c) && k <= |trees| && k <= |walks|
  {
    if k == 0 then Repository({}, map[])
    else BackedUp(c, After(c, trees, walks, k - 1), trees[k - 1], walks[k - 1])
  }

  ghost predicate IsHistory(c: Config, trees: seq<Files>, walks: seq<seq<string>>, k: nat)
    requires IsUsable(c)
  {
    && k <= |trees| && k <= |walks|
    && forall i | 0 <= i < k ::
         IsTree(trees[i]) && Restorable(c, trees[i]) && forall p | p in trees[i] :: p in walks[i]
  }

  /** No file of the latest mirror is, or is below, a path that was split in an earlier run. */
  ghost predicate Clear(c: Config, trees: seq<Files>, k: nat)
    requires IsUsable(c) && k < |trees|
  {
    forall i, e, f | 0 <= i < k && IsLarge(c, trees[i], e) && f in FullMirror(c, trees[k]) :: !Covers(e, f)
  }

  lemma {:induction false} LateCharacter(p: string, tail: string, i: nat)
    requires i < |p + tail|
    ensures i >= |p| ==> (p + tail)[i] in tail
  {
  }

  lemma {:induction false} PrefixStays(p: string, tail: string, prefix: string)
    requires '/' !in tail && StartsWith(p + tail, prefix + "/")
    ensures StartsWith(p, prefix + "/")
  {
    var f := p + tail;
    LateCharacter(p, tail, |prefix|);
    assert f[|prefix|] == f[..|prefix| + 1][|prefix|] == '/';
    assert f[..|prefix| + 1] == p[..|prefix| + 1];
  }

  /** What an entry for a file of the tree covers is not in the tree's own mirror. */
  lemma {:induction false} OwnMirrorUncovered(c: Config, tree: Files, e: string, f: string)
    requires IsUsable(c) && IsTree(tree) && Restorable(c, tree)
    requires IsLarge(c, tree, e) && f in FullMirror(c, tree)
    ensures !Covers(e, f)
  {
    WalkIrrelevant(c, tree, Listing(tree.Keys));
    MirrorHolds(c, tree, e);
    if StartsWith(f, e + "/") && !(f in tree && f !in LargeIn(c, tree)) {
      var p := PieceInMirror(c, tree, f);
      var tail := PieceTail(c, p, tree[p], f);
      PrefixStays(p, tail, e);
    }
  }

  lemma {:induction false} MirrorIsPlain(c: Config, tree: Files)
    requires IsUsable(c) && IsTree(tree) && Restorable(c, tree)
    ensures NoGitFiles(FullMirror(c, tree))
  {
    WalkIrrelevant(c, tree, Listing(tree.Keys));
    forall f | f in FullMirror(c, tree)
      ensures !IsIgnoreFile(f) && !InGitDir(f)
    {
      if !(f in tree && f !in LargeIn(c, tree)) {
        var p := PieceInMirror(c, tree, f);
        var tail := PieceTail(c, p, tree[p], f);
        SameGitDir(p, tail);
      }
    }
  }

  /** What one run of a restorable tree does: its large files are excluded, and its mirror is staged. */
  ghost predicate IsRunOf(c: Config, before: Repository, tree: Files, next: Repository)
    requires IsUsable(c)
  {
    && next.exclude == before.exclude + LargeIn(c, tree)
    && next.commit == Staged(c, before.(exclude := next.exclude), FullMirror(c, tree))
  }

  lemma {:induction false} BackedUpIsRun(c: Config, repo: Repository, tree: Files, walk: seq<string>)
    requires IsUsable(c) && Restorable(c, tree) && forall p | p in tree :: p in walk
    ensures IsRunOf(c, repo, tree, BackedUp(c, repo, tree, walk))
  {
    WalkIrrelevant(c, tree, walk);
  }

  /** The repositories before each run and after the last one. */
  ghost predicate IsSeries(c: Config, trees: seq<Files>, repos: seq<Repository>)
    requires IsUsable(c)
  {
    && |repos| == |trees| + 1 && repos[0] == Repository({}, map[])
    && forall i | 0 <= i < |trees| ::
         IsTree(trees[i]) && Restorable(c, trees[i]) && IsRunOf(c, repos[i], trees[i], repos[i + 1])
  }

  lemma {:induction false} HistoryIsSeries(c: Config, trees: seq<Files>, walks: seq<seq<string>>, k: nat)
    returns (repos: seq<Repository>)
    requires IsUsable(c) && IsHistory(c, trees, walks, k)
    ensures IsSeries(c, trees[..k], repos) && repos[k] == After(c, trees, walks, k)
  {
    if k == 0 {
      repos := [Repository({}, map[])];
    } else {
      var first := HistoryIsSeries(c, trees, walks, k - 1);
      var next := After(c, trees, walks, k);
      BackedUpIsRun(c, first[k - 1], trees[k - 1], walks[k - 1]);
      repos := first + [next];
      forall i | 0 <= i < k
        ensures IsTree(trees[..k][i]) && Restorable(c, trees[..k][i])
        ensures IsRunOf(c, repos[i], trees[..k][i], repos[i + 1])
      {
        assert i < k - 1 ==> trees[..k][i] == trees[..k - 1][i] && repos[i] == first[i] && repos[i + 1] == first[i + 1];
      }
    }
  }

  lemma {:induction false} SeriesPrefix(c: Config, trees: seq<Files>, repos: seq<Repository>)
    requires IsUsable(c) && IsSeries(c, trees, repos) && trees != []
    ensures IsSeries(c, trees[..|trees| - 1], repos[..|trees|])
  {
  }

  /** The exclude file holds the large files of all runs so far. */
  lemma {:induction false} EntriesAfter(c: Config, trees: seq<Files>, repos: seq<Repository>, e: string)
    requires IsUsable(c) && IsSeries(c, trees, repos)
    ensures e in repos[|trees|].exclude <==> exists i | 0 <= i < |trees| :: IsLarge(c, trees[i], e)
  {
    if trees != [] {
      var n := |trees| - 1;
      SeriesPrefix(c, trees, repos);
      EntriesAfter(c, trees[..n], repos[..n + 1], e);
      assert IsRunOf(c, repos[n], trees[n], repos[n + 1]);
      assert forall i | 0 <= i < n :: trees[..n][i] == trees[i];
    }
  }

  lemma {:induction false} EntriesArePlain(c: Config, trees: seq<Files>, repos: seq<Repository>)
    requires IsUsable(c) && IsSeries(c, trees, repos)
    ensures forall e | e in repos[|trees|].exclude :: IsPlain(e)
  {
    forall e | e in repos[|trees|].exclude
      ensures IsPlain(e)
    {
      EntriesAfter(c, trees, repos, e);
    }
  }

  /** Nothing that the entry covers is committed. */
  ghost predicate NothingBelow(repo: Repository, e: string) {
    forall f | f in repo.commit :: !Covers(e, f)
  }

  /** What an entry covers is committed only if it was tracked before. */
  lemma {:induction false} NotCommittedAnew(c: Config, repo: Repository, mirror: Files, e: string)
    requires PlainGit(c) && (forall x | x in repo.exclude :: IsPlain(x)) && NoGitFiles(mirror)
    requires e in repo.exclude && NothingBelow(repo, e)
    ensures NothingBelow(Repository(repo.exclude, Staged(c, repo, mirror)), e)
  {
    forall f | f in Staged(c, repo, mirror)
      ensures !Covers(e, f)
    {
      assert f in repo.commit || !c.skips(repo.exclude, mirror, f);
    }
  }

  /** Once a path was split nothing there or below is ever committed again. */
  lemma {:induction false} SplitNeverCommitted(c: Config, trees: seq<Files>, repos: seq<Repository>, i: nat, e: string)
    requires IsUsable(c) && PlainGit(c) && IsSeries(c, trees, repos) && i < |trees| && IsLarge(c, trees[i], e)
    ensures NothingBelow(repos[|trees|], e)
  {
    var n := |trees| - 1;
    var mirror := FullMirror(c, trees[n]);
    assert IsRunOf(c, repos[n], trees[n], repos[n + 1]);
    if i == n {
      forall f | f in repos[n + 1].commit
        ensures !Covers(e, f)
      {
        OwnMirrorUncovered(c, trees[n], e, f);
      }
    } else {
      SeriesPrefix(c, trees, repos);
      SplitNeverCommitted(c, trees[..n], repos[..n + 1], i, e);
      EntriesAfter(c, trees, repos, e);
      EntriesArePlain(c, trees, repos);
      MirrorIsPlain(c, trees[n]);
      NotCommittedAnew(c, repos[n].(exclude := repos[n + 1].exclude), mirror, e);
    }
  }

  lemma {:induction false} KeptMeansClear(c: Config, trees: seq<Files>, repos: seq<Repository>, tree: Files)
    requires IsUsable(c) && PlainGit(c) && IsSeries(c, trees, repos) && IsTree(tree) && Restorable(c, tree)
    requires Kept(c, repos[|trees|], tree)
    ensures Clear(c, trees + [tree], |trees|)
  {
    var repo, mirror := repos[|trees|], FullMirror(c, tree);
    EntriesArePlain(c, trees, repos);
    MirrorIsPlain(c, tree);
    assert forall e | e in repo.exclude + LargeIn(c, tree) :: IsPlain(e);
    forall i, e, f | 0 <= i < |trees| && IsLarge(c, trees[i], e) && f in mirror
      ensures !Covers(e, f)
    {
      EntriesAfter(c, trees, repos, e);
      SplitNeverCommitted(c, trees, repos, i, e);
      assert IsKept(c, repo, tree, f);
    }
  }

  lemma {:induction false} ClearMeansKept(c: Config, trees: seq<Files>, repos: seq<Repository>, tree: Files)
    requires IsUsable(c) && PlainGit(c) && IsSeries(c, trees, repos) && IsTree(tree) && Restorable(c, tree)
    requires Clear(c, trees + [tree], |trees|)
    ensures Kept(c, repos[|trees|], tree)
  {
    var repo, mirror := repos[|trees|], FullMirror(c, tree);
    var entries := repo.exclude + LargeIn(c, tree);
    EntriesArePlain(c, trees, repos);
    MirrorIsPlain(c, tree);
    forall f | f in mirror
      ensures IsKept(c, repo, tree, f)
    {
      forall e | e in entries
        ensures IsPlain(e) && !Covers(e, f)
      {
        EntriesAfter(c, trees, repos, e);
        if e in LargeIn(c, tree) {
          OwnMirrorUncovered(c, tree, e, f);
        } else {
          var i :| 0 <= i < |trees| && IsLarge(c, trees[i], e);
          assert (trees + [tree])[i] == trees[i];
        }
      }
    }
  }

  /**
   Over every sequence of trees: restoring backup k gives tree k for all orders of both walks, if and
   only if the tree is restorable and none of the files to commit is, or is below, a path that some
   earlier run split.
   */
  lemma {:induction false} HistoryExactly(c: Config, trees: seq<Files>, walks: seq<seq<string>>, k: nat)
    requires IsUsable(c) && PlainGit(c) && IsHistory(c, trees, walks, k) && k < |trees|
    requires IsTree(trees[k]) && AllRecordable(c, trees[k])
    ensures AlwaysGivesBack(c, After(c, trees, walks, k), trees[k]) <==>
            Restorable(c, trees[k]) && Clear(c, trees, k)
  {
    BackupExactly(c, After(c, trees, walks, k), trees[k]);
    if Restorable(c, trees[k]) {
      var repos := HistoryIsSeries(c, trees, walks, k);
      SameClear(c, trees, k);
      if Kept(c, repos[k], trees[k]) {
        KeptMeansClear(c, trees[..k], repos, trees[k]);
      }
      if Clear(c, trees, k) {
        ClearMeansKept(c, trees[..k], repos, trees[k]);
      }
    }
  }

  lemma {:induction false} SameClear(c: Config, trees: seq<Files>, k: nat)
    requires IsUsable(c) && k < |trees|
    ensures Clear(c, trees[..k] + [trees[k]], k) <==> Clear(c, trees, k)
  {
    var same := trees[..k] + [trees[k]];
    assert forall i | 0 <= i <= k :: same[i] == trees[i];
  }

  lemma {:induction false} NothingToRestore(c: Config, markers: seq<string>)
    ensures RestoreAll(c, map[], markers) == Some(map[])
    decreases |markers|
  {
    if markers != [] {
      NothingToRestore(c, markers[..|markers| - 1]);
    }
  }

  lemma {:induction false} OneFileIsRestorable(c: Config, p: string, data: string)
    requires IsUsable(c) && !IsMarkerName(p) && SmallEnough(c, data)
    ensures Restorable(c, map[p := data])
  {
    NotItsOwnPiece(c, p, data);
  }

  lemma {:induction false} SmallFileUnsplit(c: Config, p: string, data: string, walk: seq<string>)
    requires IsUsable(c) && |data| <= c.maxBytes
    ensures SplitAll(c, map[p := data], walk) == map[p := data] && Excluded(c, map[p := data], walk) == {}
    decreases |walk|
  {
    if walk != [] {
      SmallFileUnsplit(c, p, data, walk[..|walk| - 1]);
    }
  }

  lemma {:induction false} SmallAgainUncommitted(c: Config, first: Repository, p: string, small: string,
                                                 later: seq<string>)
    requires IsUsable(c) && PlainGit(c) && NoGitFiles(map[p := small]) && |small| <= c.maxBytes && IsPlain(p)
    requires first.exclude == {p} && p !in first.commit
    ensures BackedUp(c, first, map[p := small], later).commit == map[]
  {
    SmallFileUnsplit(c, p, small, later);
    assert first.exclude + {} == {p} && Covers(p, p);
    assert c.skips(first.exclude, map[p := small], p);
  }

  /**
   A file that was large at one backup and is small at the next: the first backup gives it back, the
   second one commits nothing of it, and restoring that succeeds without the file.
   */
  lemma {:induction false} ShrinkingFileIsLost(c: Config, p: string, big: string, small: string,
                                               walk: seq<string>, later: seq<string>, markers: seq<string>)
    requires IsUsable(c) && PlainGit(c) && IsTree(map[p := big]) && IsLarge(c, map[p := big], p)
    requires SmallEnough(c, big) && |small| <= c.maxBytes && Recorded(c, p, big) && p in walk
    ensures AlwaysGivesBack(c, Repository({}, map[]), map[p := big])
    ensures var first := BackedUp(c, Repository({}, map[]), map[p := big], walk);
            RestoreAll(c, BackedUp(c, first, map[p := small], later).commit, markers) == Some(map[])
  {
    var tree, none := map[p := big], Repository({}, map[]);
    OneFileIsRestorable(c, p, big);
    HistoryExactly(c, [tree], [], 0);
    assert p in tree;
    WalkIrrelevant(c, tree, walk);
    MirrorHolds(c, tree, p);
    CommitIsPart(c, none, tree, walk);
    var first := BackedUp(c, none, tree, walk);
    assert LargeIn(c, tree) == {p} && first.exclude == {} + {p};
    SmallAgainUncommitted(c, first, p, small, later);
    NothingToRestore(c, markers);
  }
}
