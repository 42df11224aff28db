/**
 The backup repository's large files: splitting them into numbered chunks with a marker
 beside them, and putting them together again on restore. File contents are byte strings,
 written as strings of characters below 256; paths are relative to the mirror's root.
 */
module Backup {
  import opened Prelude
  import opened Numerals
  import opened Text

  type Files = map<string, string>

  /**
   Threshold and chunk size in bytes, the checksum, and which untracked paths `git add` passes over,
   given the entries of the exclude file and the files there (with their `.gitignore` files).
   */
  datatype Config = Config(
    maxBytes: nat, splitBytes: nat, digest: string -> string, skips: (set<string>, Files, string) -> bool)

  predicate IsUsable(c: Config) {
    c.splitBytes >= 1
  }

  // ---------------------------------------------------------------- names

  const SUFFIX := ".rgit-split"

  function ChunkName(path: string, i: nat): string {
    path + ['.'] + Render(i)
  }

  function MarkerName(path: string): string {
    path + SUFFIX
  }

  predicate IsMarkerName(path: string) {
    EndsWith(path, SUFFIX)
  }

  /** `${marker%.rgit-split}`. */
  function BaseOf(marker: string): string
    requires IsMarkerName(marker)
  {
    marker[..|marker| - |SUFFIX|]
  }

  /** `case "$rel" in *.[0-9]|*.[0-9][0-9]) continue`. */
  predicate LooksLikeChunk(path: string) {
    var n := |path|;
    || (n >= 2 && path[n - 2] == '.' && IsDigit(path[n - 1]))
    || (n >= 3 && path[n - 3] == '.' && IsDigit(path[n - 2]) && IsDigit(path[n - 1]))
  }

  predicate IsIgnoreFile(path: string) {
    path == ".gitignore" || EndsWith(path, "/.gitignore")
  }

  const GIT_DIR := "/.git/"

  /** A path below some `.git` directory. */
  predicate InGitDir(path: string) {
    exists i: nat | i <= |path| :: OccursAt("/" + path, GIT_DIR, i)
  }

  predicate OccursAt(s: string, t: string, i: nat) {
    i + |t| <= |s| && s[i..i + |t|] == t
  }

  /** What the directory walk reports and the loop does not skip. */
  predicate IsLarge(c: Config, files: Files, path: string) {
    && path in files && |files[path]| > c.maxBytes && !InGitDir(path)
    && !IsIgnoreFile(path) && !IsMarkerName(path) && !LooksLikeChunk(path)
  }

  /** The names the loops go by, spelled out. */
  lemma {:induction false} NamesAre(path: string, i: nat)
    ensures MarkerName(path) == path + ".rgit-split" && ChunkName(path, i) == path + "." + Render(i)
    ensures IsMarkerName(path) <==> exists base: string :: path == base + ".rgit-split"
    ensures IsIgnoreFile(path) <==> path == ".gitignore" || exists dir: string :: path == dir + "/.gitignore"
    ensures InGitDir(path) <==> exists a: string, b: string :: ['/'] + path == a + "/.git/" + b
  {
    TailAs(path, ".rgit-split");
    TailAs(path, "/.gitignore");
    var rooted := ['/'] + path;
    if i: nat :| i <= |path| && OccursAt("/" + path, GIT_DIR, i) {
      assert rooted == rooted[..i] + "/.git/" + rooted[i + 6..];
    }
    if a: string, b: string :| rooted == a + "/.git/" + b {
      assert OccursAt("/" + path, GIT_DIR, |a|);
    }
  }

  lemma {:induction false} TailAs(path: string, suffix: string)
    ensures EndsWith(path, suffix) <==> exists base: string :: path == base + suffix
  {
    if EndsWith(path, suffix) {
      assert path == path[..|path| - |suffix|] + suffix;
    }
  }

  /** The name ends in a dot and one or two digits. */
  ghost predicate IsNumbered(path: string, base: string, digits: string) {
    path == base + ['.'] + digits && 1 <= |digits| <= 2 && AllDigits(digits)
  }

  /** What the loop passes over as a chunk. */
  lemma {:induction false} ChunkLike(path: string)
    ensures LooksLikeChunk(path) <==> exists base: string, digits: string :: IsNumbered(path, base, digits)
  {
    var n := |path|;
    if n >= 2 && path[n - 2] == '.' && IsDigit(path[n - 1]) {
      assert IsNumbered(path, path[..n - 2], path[n - 1..]);
    } else if LooksLikeChunk(path) {
      assert IsNumbered(path, path[..n - 3], path[n - 2..]);
    }
    if base: string, digits: string :| IsNumbered(path, base, digits) {
      NumberedIsLike(path, base, digits);
    }
  }

  lemma {:induction false} NumberedIsLike(path: string, base: string, digits: string)
    requires IsNumbered(path, base, digits)
    ensures LooksLikeChunk(path)
  {
    var b := |base|;
    assert path[b] == '.' && path[b + 1] == digits[0];
    if |digits| == 2 {
      assert path[b + 2] == digits[1];
    }
  }

  /** The walk takes every file above the threshold, except for these names. */
  lemma {:induction false} LargeMeans(c: Config, files: Files, path: string)
    ensures IsLarge(c, files, path) <==>
            && path in files && |files[path]| > c.maxBytes
            && !(path == ".gitignore" || exists dir: string :: path == dir + "/.gitignore")
            && !(exists a: string, b: string :: ['/'] + path == a + "/.git/" + b)
            && !(exists base: string :: path == base + ".rgit-split")
            && !(exists base: string, digits: string :: IsNumbered(path, base, digits))
  {
    NamesAre(path, 0);
    ChunkLike(path);
  }

  lemma {:induction false} ChunkNamesDistinct(p: string, q: string, i: nat, j: nat)
    requires ChunkName(p, i) == ChunkName(q, j)
    ensures p == q && i == j
  {
    SplitAtLast(p, Render(i), q, Render(j), '.');
    RenderInjective(i, j);
  }

  lemma {:induction false} MarkerNamesDistinct(p: string, q: string)
    requires MarkerName(p) == MarkerName(q)
    ensures p == q
  {
    assert p == MarkerName(p)[..|MarkerName(p)| - |SUFFIX|];
  }

  lemma {:induction false} MarkerIsMarker(p: string)
    ensures IsMarkerName(MarkerName(p)) && BaseOf(MarkerName(p)) == p
  {
  }

  lemma {:induction false} MarkerOfBase(v: string)
    ensures IsMarkerName(v) ==> MarkerName(BaseOf(v)) == v
  {
  }

  lemma {:induction false} ChunkIsNoMarker(p: string, i: nat)
    ensures !IsMarkerName(ChunkName(p, i)) && ChunkName(p, i) != p
  {
    var name := ChunkName(p, i);
    assert IsDigit(name[|name| - 1]);
    assert SUFFIX[|SUFFIX| - 1] == 't';
  }

  // ---------------------------------------------------------------- chunks

  function Chunks(data: string, n: nat): (chunks: seq<string>)
    requires n >= 1
    ensures forall i | 0 <= i < |chunks| :: 1 <= |chunks[i]| <= n
  {
    if data == [] then [] else if |data| <= n then [data] else [data[..n]] + Chunks(data[n..], n)
  }

  function Concat(chunks: seq<string>): string {
    if chunks == [] then [] else chunks[0] + Concat(chunks[1..])
  }

  /** Reading chunk by chunk and concatenating gives the file back. */
  lemma {:induction false} ChunksConcat(data: string, n: nat)
    requires n >= 1
    ensures Concat(Chunks(data, n)) == data
  {
    if |data| > n {
      ChunksConcat(data[n..], n);
      assert Chunks(data, n)[1..] == Chunks(data[n..], n);
    } else if data != [] {
      assert [data][1..] == [];
    }
  }

  lemma {:induction false} CeilStep(x: nat, n: nat)
    requires n >= 1
    ensures (x + n + n - 1) / n == 1 + (x + n - 1) / n
  {
    var q, r := (x + n - 1) / n, (x + n - 1) % n;
    assert x + n + n - 1 == n * (q + 1) + r by {
      assert n * (q + 1) == n * q + n;
    }
    QuotientIs(x + n + n - 1, n, q + 1, r);
  }

  lemma {:induction false} QuotientIs(a: nat, n: nat, q: nat, r: nat)
    requires 0 <= r < n && a == n * q + r
    ensures a / n == q
  {
    var k := a / n;
    assert k < q ==> n * (k + 1) <= n * q;
    assert k > q ==> n * (q + 1) <= n * k;
  }

  /** `(size + SPLIT_BYTES - 1) / SPLIT_BYTES`. */
  function Ceil(x: nat, n: nat): nat
    requires n >= 1
  {
    (x + n - 1) / n
  }

  /** The number of chunks written is the ceiling the marker states. */
  lemma {:induction false} ChunkCount(data: string, n: nat)
    requires n >= 1
    ensures |Chunks(data, n)| == Ceil(|data|, n)
    decreases |data|
  {
    if data == [] {
      QuotientIs(n - 1, n, 0, n - 1);
    } else if |data| <= n {
      QuotientIs(|data| + n - 1, n, 1, |data| - 1);
    } else {
      ChunkCount(data[n..], n);
      CeilStep(|data| - n, n);
    }
  }

  // ---------------------------------------------------------------- markers

  function LinesOf(c: Config, path: string, data: string): seq<string>
    requires IsUsable(c)
  {
    ["original=" + path, "split_bytes=" + Render(c.splitBytes), "size=" + Render(|data|),
     "sha256=" + c.digest(data), "chunks=" + Render(Ceil(|data|, c.splitBytes)), ""]
  }

  function MarkerText(c: Config, path: string, data: string): string
    requires IsUsable(c)
  {
    Join(LinesOf(c, path, data), '\n')
  }

  predicate StartsWith(s: string, prefix: string) {
    |s| >= |prefix| && s[..|prefix|] == prefix
  }

  /** `grep '^key=' marker | cut -d= -f2-`, for a key without `=`. */
  function Values(lines: seq<string>, key: string): seq<string> {
    if lines == [] then []
    else (if StartsWith(lines[0], key + "=") then [lines[0][|key| + 1..]] else []) + Values(lines[1..], key)
  }

  /** `$(...)` of that pipeline: nothing when no line matches. */
  function FieldOf(text: string, key: string): string {
    var found := Values(Split(text, '\n'), key);
    if found == [] then "" else Join(found, '\n')
  }

  /** The fields the restore reads from a marker; empty when absent. */
  datatype Fields = Fields(size: string, sha256: string, chunks: string)

  /** A marker without an `original=` line stops the script. */
  function ReadMarker(text: string): Option<Fields> {
    if Values(Split(text, '\n'), "original") == [] then None
    else Some(Fields(FieldOf(text, "size"), FieldOf(text, "sha256"), FieldOf(text, "chunks")))
  }

  /** Paths the shell loop can read, one per line. */
  predicate OnOneLine(path: string) {
    '\n' !in path
  }

  lemma {:induction false} LinesHaveNoNewline(c: Config, path: string, data: string)
    requires IsUsable(c) && OnOneLine(path) && '\n' !in c.digest(data)
    ensures Free(LinesOf(c, path, data), '\n')
  {
  }

  /** Lines that cannot start with the key. */
  predicate Differs(line: string, key: string)
    requires |key| >= 2
  {
    line == "" || line[0] != key[0] || (|line| >= 2 && line[1] != key[1])
  }

  lemma {:induction false} NoValue(lines: seq<string>, key: string)
    requires |key| >= 2 && forall i | 0 <= i < |lines| :: Differs(lines[i], key)
    ensures Values(lines, key) == []
    decreases |lines|
  {
    if lines != [] {
      assert (key + "=")[0] == key[0] && (key + "=")[1] == key[1];
      NoValue(lines[1..], key);
    }
  }

  lemma {:induction false} OneValue(lines: seq<string>, j: nat, key: string, value: string)
    requires |key| >= 2 && j < |lines| && lines[j] == key + "=" + value
    requires forall i | 0 <= i < |lines| && i != j :: Differs(lines[i], key)
    ensures Values(lines, key) == [value]
    decreases |lines|
  {
    if j == 0 {
      assert lines[0][..|key| + 1] == key + "=" && lines[0][|key| + 1..] == value;
      NoValue(lines[1..], key);
    } else {
      assert (key + "=")[0] == key[0] && (key + "=")[1] == key[1];
      OneValue(lines[1..], j - 1, key, value);
    }
  }

  function FieldsOf(c: Config, data: string): Fields
    requires IsUsable(c)
  {
    Fields(Render(|data|), c.digest(data), Render(Ceil(|data|, c.splitBytes)))
  }

  /** Each field the backup writes is the one the restore reads. */
  lemma {:induction false} MarkerFields(c: Config, path: string, data: string)
    requires IsUsable(c) && OnOneLine(path) && '\n' !in c.digest(data)
    ensures ReadMarker(MarkerText(c, path, data)) == Some(FieldsOf(c, data))
  {
    var count := Ceil(|data|, c.splitBytes);
    LinesHaveNoNewline(c, path, data);
    SplitOfJoin(LinesOf(c, path, data), '\n');
    FiveFields(path, Render(c.splitBytes), Render(|data|), c.digest(data), Render(count));
  }

  /** The marker, line by line. */
  lemma {:induction false} MarkerLines(c: Config, path: string, data: string)
    requires IsUsable(c)
    ensures var n := |Chunks(data, c.splitBytes)|;
            MarkerText(c, path, data) ==
            "original=" + path + "\n" + ("split_bytes=" + Render(c.splitBytes) + "\n"
            + ("size=" + Render(|data|) + "\n" + ("sha256=" + c.digest(data) + "\n" + ("chunks=" + Render(n) + "\n"))))
  {
    ChunkCount(data, c.splitBytes);
    var l := LinesOf(c, path, data);
    JoinMore(l);
    JoinMore(l[1..]);
    JoinMore(l[2..]);
    JoinMore(l[3..]);
    JoinMore(l[4..]);
  }

  lemma {:induction false} JoinMore(lines: seq<string>)
    requires |lines| >= 2
    ensures Join(lines, '\n') == lines[0] + "\n" + Join(lines[1..], '\n')
  {
  }

  /** A field that no line gives is empty, and a count that is no number is as good as none. */
  lemma {:induction false} AbsentField(text: string, key: string)
    requires forall i | 0 <= i < |Split(text, '\n')| :: !StartsWith(Split(text, '\n')[i], key + "=")
    ensures FieldOf(text, key) == "" && (key == "original" ==> ReadMarker(text) == None)
    ensures !AllDigits(text) ==> Bound(text) == 0
  {
    NoneFound(Split(text, '\n'), key);
  }

  lemma {:induction false} NoneFound(lines: seq<string>, key: string)
    requires forall i | 0 <= i < |lines| :: !StartsWith(lines[i], key + "=")
    ensures Values(lines, key) == []
    decreases |lines|
  {
    if lines != [] {
      NoneFound(lines[1..], key);
    }
  }

  lemma {:induction false} FiveFields(path: string, split: string, size: string, digest: string, chunks: string)
    ensures var lines := ["original=" + path, "split_bytes=" + split, "size=" + size, "sha256=" + digest,
                          "chunks=" + chunks, ""];
            && Values(lines, "original") == [path] && Values(lines, "size") == [size]
            && Values(lines, "sha256") == [digest] && Values(lines, "chunks") == [chunks]
  {
    var a, b, s := "original=" + path, "split_bytes=" + split, "size=" + size;
    var d, k := "sha256=" + digest, "chunks=" + chunks;
    var lines := [a, b, s, d, k, ""];
    assert a[0] == 'o' && a[1] == 'r' && b[0] == 's' && b[1] == 'p' && s[0] == 's' && s[1] == 'i';
    assert d[0] == 's' && d[1] == 'h' && k[0] == 'c' && k[1] == 'h';
    OneValue(lines, 0, "original", path);
    OneValue(lines, 2, "size", size);
    OneValue(lines, 3, "sha256", digest);
    OneValue(lines, 4, "chunks", chunks);
  }

  // ---------------------------------------------------------------- splitting a file

  function WriteChunks(files: Files, path: string, chunks: seq<string>, i: nat): Files
    decreases |chunks|
  {
    if chunks == [] then files
    else WriteChunks(files[ChunkName(path, i) := chunks[0]], path, chunks[1..], i + 1)
  }

  /** One round of the loop of `split_large_files`. */
  function SplitOne(c: Config, files: Files, path: string): Files
    requires IsUsable(c) && path in files
  {
    var data := files[path];
    WriteChunks(files, path, Chunks(data, c.splitBytes), 0)[MarkerName(path) := MarkerText(c, path, data)] - {path}
  }

  function Visit(c: Config, files: Files, v: string): Files
    requires IsUsable(c)
  {
    if IsLarge(c, files, v) then SplitOne(c, files, v) else files
  }

  /** The whole loop, over the paths in the order the directory walk reports them. */
  function SplitAll(c: Config, files: Files, order: seq<string>): Files
    requires IsUsable(c)
  {
    if order == [] then files
    else
      var last := order[|order| - 1];
      Visit(c, SplitAll(c, files, order[..|order| - 1]), last)
  }

  /** The paths the loop splits, each of which `ignore_path` adds to the exclude file. */
  function Excluded(c: Config, files: Files, order: seq<string>): set<string>
    requires IsUsable(c)
  {
    if order == [] then {}
    else
      var first, last := order[..|order| - 1], order[|order| - 1];
      Excluded(c, files, first) + if IsLarge(c, SplitAll(c, files, first), last) then {last} else {}
  }

  // ---------------------------------------------------------------- the backup repository

  /** What lasts from one backup to the next: the exclude file's entries and the files committed. */
  datatype Repository = Repository(exclude: set<string>, commit: Files)

  /**
   `git add -A`: tracked files follow the work tree, others are added unless they are passed over, and
   nothing below a `.git` directory is ever added.
   */
  function Staged(c: Config, repo: Repository, files: Files): Files {
    map f | f in files && !InGitDir(f) && (f in repo.commit || !c.skips(repo.exclude, files, f)) :: files[f]
  }

  /** One backup of a file tree whose walk reports paths in the given order. */
  function BackedUp(c: Config, repo: Repository, tree: Files, walk: seq<string>): Repository
    requires IsUsable(c)
  {
    var noted := repo.(exclude := repo.exclude + Excluded(c, tree, walk));
    noted.(commit := Staged(c, noted, SplitAll(c, tree, walk)))
  }

  // ---------------------------------------------------------------- putting it together

  function Reassemble(files: Files, base: string, i: nat, n: nat): Option<Files>
    decreases n - i
  {
    if i >= n then Some(files)
    else if base !in files || ChunkName(base, i) !in files then None
    else Reassemble(files[base := files[base] + files[ChunkName(base, i)]] - {ChunkName(base, i)}, base, i + 1, n)
  }

  /** The loop for markers without a chunk count: as many chunks as follow one another. */
  function ReassembleLegacy(files: Files, base: string, i: nat): (Files, nat)
    decreases |files|
  {
    if base !in files || ChunkName(base, i) !in files then (files, i)
    else
      var next := files[base := files[base] + files[ChunkName(base, i)]];
      ReassembleLegacy(next - {ChunkName(base, i)}, base, i + 1)
  }

  /** `[ "$i" -lt "$expected_chunks" ]` is false for anything that is not a number. */
  function Bound(text: string): nat {
    if AllDigits(text) then Value(text) else 0
  }

  function Gather(files: Files, base: string, chunks: string): Option<Files> {
    if chunks != "" then Reassemble(files, base, 0, Bound(chunks))
    else
      var (after, i) := ReassembleLegacy(files, base, 0);
      if i == 0 then None else Some(after)
  }

  /** Gather the chunks of a base and check what came together against the marker's fields. */
  function RestoreBase(c: Config, files: Files, base: string, fields: Fields): Option<Files> {
    match Gather(files[base := ""], base, fields.chunks)
    case None => None
    case Some(after) =>
      if base !in after then None
      else if fields.size != "" && fields.size != Render(|after[base]|) then None
      else if fields.sha256 != "" && fields.sha256 != c.digest(after[base]) then None
      else Some(after)
  }

  /** One round of the restore loop; `None` when it exits with an error. */
  function RestoreOne(c: Config, files: Files, marker: string): Option<Files>
    requires marker in files && IsMarkerName(marker)
  {
    match ReadMarker(files[marker])
    case None => None
    case Some(fields) =>
      match RestoreBase(c, files, BaseOf(marker), fields)
      case None => None
      case Some(after) => Some(after - {marker})
  }

  function RestoreVisit(c: Config, files: Files, v: string): Option<Files> {
    if v in files && IsMarkerName(v) then RestoreOne(c, files, v) else Some(files)
  }

  function RestoreAll(c: Config, files: Files, order: seq<string>): Option<Files> {
    if order == [] then Some(files)
    else
      var last := order[|order| - 1];
      match RestoreAll(c, files, order[..|order| - 1])
      case None => None
      case Some(before) => RestoreVisit(c, before, last)
  }

  // ---------------------------------------------------------------- the scripts, in place

  class Mirror {
    var files: Files
    var exclude: set<string>
    var commit: Files

    /** The chunk writer: reads the file piece by piece and numbers the pieces from zero. */
    method SplitFile(path: string, chunk: nat)
      requires path in files && chunk >= 1
      modifies this`files
      ensures files == WriteChunks(old(files), path, Chunks(old(files)[path], chunk), 0)
    {
      var rest := files[path];
      var i := 0;
      while rest != []
        invariant WriteChunks(files, path, Chunks(rest, chunk), i)
               == WriteChunks(old(files), path, Chunks(old(files)[path], chunk), 0)
        decreases |rest|
      {
        var n := if |rest| < chunk then |rest| else chunk;
        assert Chunks(rest, chunk)[0] == rest[..n] && Chunks(rest, chunk)[1..] == Chunks(rest[n..], chunk);
        files := files[ChunkName(path, i) := rest[..n]];
        rest := rest[n..];
        i := i + 1;
      }
    }

    method SplitLargeFiles(c: Config, order: seq<string>)
      requires IsUsable(c)
      modifies this`files, this`exclude
      ensures files == SplitAll(c, old(files), order)
      ensures exclude == old(exclude) + Excluded(c, old(files), order)
    {
      for k := 0 to |order|
        invariant files == SplitAll(c, old(files), order[..k])
        invariant exclude == old(exclude) + Excluded(c, old(files), order[..k])
      {
        var path := order[k];
        assert order[..k + 1][..k] == order[..k];
        if !IsLarge(c, files, path) {
          continue;
        }
        exclude := exclude + {path};
        var data := files[path];
        SplitFile(path, c.splitBytes);
        files := files[MarkerName(path) := MarkerText(c, path, data)] - {path};
      }
      assert order[..|order|] == order;
    }

    /** One backup: the tree is copied into the work tree, its large files are split, and all is committed. */
    method BackUp(c: Config, tree: Files, order: seq<string>)
      requires IsUsable(c)
      modifies this
      ensures Repository(exclude, commit) == BackedUp(c, Repository(old(exclude), old(commit)), tree, order)
      ensures files == SplitAll(c, tree, order)
    {
      files := tree;
      SplitLargeFiles(c, order);
      commit := Staged(c, Repository(exclude, commit), files);
    }

    /** The counted loop: append chunk after chunk and remove it; false when one is missing. */
    method AppendChunks(base: string, n: nat) returns (ok: bool)
      requires base in files
      modifies this`files
      ensures match Reassemble(old(files), base, 0, n)
              case None => !ok
              case Some(after) => ok && files == after && base in files
    {
      var i := 0;
      while i < n
        invariant base in files && (i <= n)
        invariant Reassemble(files, base, i, n) == Reassemble(old(files), base, 0, n)
      {
        var name := ChunkName(base, i);
        if name !in files {
          return false;
        }
        ChunkIsNoMarker(base, i);
        files := files[base := files[base] + files[name]] - {name};
        i := i + 1;
      }
      ok := true;
    }

    /** The loop for markers without metadata: append as long as the next chunk exists. */
    method AppendLegacyChunks(base: string) returns (i: nat)
      requires base in files
      modifies this`files
      ensures (files, i) == ReassembleLegacy(old(files), base, 0) && base in files
    {
      i := 0;
      while ChunkName(base, i) in files
        invariant base in files
        invariant ReassembleLegacy(files, base, i) == ReassembleLegacy(old(files), base, 0)
        decreases |files|
      {
        var name := ChunkName(base, i);
        ChunkIsNoMarker(base, i);
        FewerFiles(files, base, files[base] + files[name], name);
        files := files[base := files[base] + files[name]] - {name};
        i := i + 1;
      }
    }

    /** One marker of the restore loop; false when the script exits with an error. */
    method RestoreMarker(c: Config, marker: string) returns (ok: bool)
      requires marker in files && IsMarkerName(marker)
      modifies this`files
      ensures match RestoreOne(c, old(files), marker)
              case None => !ok
              case Some(after) => ok && files == after
    {
      var base := BaseOf(marker);
      var read := ReadMarker(files[marker]);
      if read == None {
        return false;
      }
      var size, sha, chunks := read.value.size, read.value.sha256, read.value.chunks;
      files := files[base := ""];
      if chunks != "" {
        ok := AppendChunks(base, Bound(chunks));
      } else {
        var found := AppendLegacyChunks(base);
        ok := found > 0;
      }
      if !ok {
        return;
      }
      if size != "" && size != Render(|files[base]|) {
        return false;
      }
      if sha != "" && sha != c.digest(files[base]) {
        return false;
      }
      files := files - {marker};
      ok := true;
    }

    method RestoreSplitFiles(c: Config, order: seq<string>) returns (ok: bool)
      modifies this`files
      ensures match RestoreAll(c, old(files), order)
              case None => !ok
              case Some(after) => ok && files == after
    {
      ok := true;
      for k := 0 to |order|
        invariant ok && RestoreAll(c, old(files), order[..k]) == Some(files)
      {
        assert order[..k + 1] == order[..k] + [order[k]];
        RestoreLast(c, old(files), order[..k], order[k]);
        if order[k] in files && IsMarkerName(order[k]) {
          ok := RestoreMarker(c, order[k]);
          if !ok {
            RestoreStuck(c, old(files), order, k + 1);
            return;
          }
        }
      }
      assert order[..|order|] == order;
    }
  }

  lemma {:induction false} FewerFiles(files: Files, base: string, content: string, name: string)
    requires base in files && name in files && name != base
    ensures |files[base := content] - {name}| < |files|
  {
  }

  lemma {:induction false} RestoreStuck(c: Config, files: Files, order: seq<string>, k: nat)
    requires k <= |order| && RestoreAll(c, files, order[..k]) == None
    ensures RestoreAll(c, files, order) == None
    decreases |order| - k
  {
    if k < |order| {
      assert order[..k + 1][..k] == order[..k];
      RestoreStuck(c, files, order, k + 1);
    } else {
      assert order[..k] == order;
    }
  }

  // ---------------------------------------------------------------- backup then restore

  predicate Numbered(path: string, q: string, from: nat, to: nat) {
    exists k | from <= k < to :: q == ChunkName(path, k)
  }

  /** The chunk writer changes the numbered paths only. */
  lemma {:induction false} WrittenElsewhere(files: Files, path: string, chunks: seq<string>, i: nat, q: string)
    requires !Numbered(path, q, i, i + |chunks|)
    ensures var after := WriteChunks(files, path, chunks, i);
            (q in after <==> q in files) && (q in files ==> after[q] == files[q])
    decreases |chunks|
  {
    if chunks != [] {
      assert q != ChunkName(path, i);
      WrittenElsewhere(files[ChunkName(path, i) := chunks[0]], path, chunks[1..], i + 1, q);
    }
  }

  lemma {:induction false} WrittenChunk(files: Files, path: string, chunks: seq<string>, i: nat, k: nat)
    requires i <= k < i + |chunks|
    ensures var after := WriteChunks(files, path, chunks, i);
            ChunkName(path, k) in after && after[ChunkName(path, k)] == chunks[k - i]
    decreases |chunks|
  {
    var next := files[ChunkName(path, i) := chunks[0]];
    if k == i {
      NotNumbered(path, i, i + |chunks|);
      WrittenElsewhere(next, path, chunks[1..], i + 1, ChunkName(path, i));
    } else {
      WrittenChunk(next, path, chunks[1..], i + 1, k);
    }
  }

  /** The base has grown by the data, the numbered paths are gone, and nothing else has changed. */
  ghost predicate Gathered(files: Files, after: Files, base: string, from: nat, to: nat, data: string) {
    && base in files && base in after && after[base] == files[base] + data
    && (forall q :: Numbered(base, q, from, to) ==> q !in after)
    && (forall q :: q != base && !Numbered(base, q, from, to) ==> SameAt(files, after, q))
  }

  predicate SameAt(files: Files, after: Files, q: string) {
    (q in after <==> q in files) && (q in files ==> after[q] == files[q])
  }

  lemma {:induction false} NumberedStep(path: string, q: string, from: nat, to: nat)
    requires from < to
    ensures Numbered(path, q, from, to) <==> q == ChunkName(path, from) || Numbered(path, q, from + 1, to)
  {
  }

  lemma {:induction false} GatheredStep(files: Files, after: Files, base: string, from: nat, to: nat, data: string)
    requires from < to && base in files && ChunkName(base, from) in files && ChunkName(base, from) != base
    requires ChunkName(base, from) !in after
    requires var name := ChunkName(base, from);
             Gathered(files[base := files[base] + files[name]] - {name}, after, base, from + 1, to, data)
    ensures Gathered(files, after, base, from, to, files[ChunkName(base, from)] + data)
  {
    var name := ChunkName(base, from);
    var next := files[base := files[base] + files[name]] - {name};
    forall q | Numbered(base, q, from, to)
      ensures q !in after
    {
      NumberedStep(base, q, from, to);
    }
    forall q | q != base && !Numbered(base, q, from, to)
      ensures SameAt(files, after, q)
    {
      NumberedStep(base, q, from, to);
      assert SameAt(next, after, q);
    }
  }

  ghost predicate HoldsChunks(files: Files, base: string, i: nat, chunks: seq<string>) {
    forall k | i <= k < i + |chunks| :: ChunkName(base, k) in files && files[ChunkName(base, k)] == chunks[k - i]
  }

  lemma {:induction false} HoldsTheRest(files: Files, base: string, i: nat, chunks: seq<string>, data: string)
    requires chunks != [] && HoldsChunks(files, base, i, chunks)
    ensures HoldsChunks(files[base := data] - {ChunkName(base, i)}, base, i + 1, chunks[1..])
  {
    var next := files[base := data] - {ChunkName(base, i)};
    forall k | i + 1 <= k < i + |chunks|
      ensures ChunkName(base, k) in next && next[ChunkName(base, k)] == chunks[1..][k - (i + 1)]
    {
      ChunkIsNoMarker(base, k);
      if ChunkName(base, k) == ChunkName(base, i) {
        ChunkNamesDistinct(base, base, i, k);
      }
    }
  }

  /** Chunks present in order are appended one after the other and removed. */
  lemma {:induction false} ReassembleAll(files: Files, base: string, i: nat, chunks: seq<string>)
    returns (after: Files)
    requires base in files && HoldsChunks(files, base, i, chunks)
    ensures Reassemble(files, base, i, i + |chunks|) == Some(after)
    ensures Gathered(files, after, base, i, i + |chunks|, Concat(chunks))
    decreases |chunks|
  {
    if chunks == [] {
      after := files;
      assert files[base] + "" == files[base];
    } else {
      var name := ChunkName(base, i);
      ChunkIsNoMarker(base, i);
      assert files[name] == chunks[0];
      HoldsTheRest(files, base, i, chunks, files[base] + chunks[0]);
      var next := files[base := files[base] + chunks[0]] - {name};
      after := ReassembleAll(next, base, i + 1, chunks[1..]);
      NotNumbered(base, i, i + |chunks|);
      assert SameAt(next, after, name);
      GatheredStep(files, after, base, i, i + |chunks|, Concat(chunks[1..]));
    }
  }

  lemma {:induction false} NotNumbered(path: string, i: nat, to: nat)
    ensures !Numbered(path, ChunkName(path, i), i + 1, to)
  {
    forall j | i + 1 <= j < to
      ensures ChunkName(path, i) != ChunkName(path, j)
    {
      if ChunkName(path, i) == ChunkName(path, j) {
        ChunkNamesDistinct(path, path, i, j);
      }
    }
  }

  /** A file is replaced by its chunks and its marker. */
  ghost predicate IsSplit(c: Config, files: Files, path: string, data: string)
    requires IsUsable(c)
  {
    && HoldsChunks(files, path, 0, Chunks(data, c.splitBytes))
    && MarkerName(path) in files && files[MarkerName(path)] == MarkerText(c, path, data)
  }

  predicate IsPieceOf(c: Config, path: string, data: string, q: string)
    requires IsUsable(c)
  {
    q == MarkerName(path) || Numbered(path, q, 0, |Chunks(data, c.splitBytes)|)
  }

  lemma {:induction false} PiecesOfOne(c: Config, p1: string, d1: string, p2: string, d2: string, q: string)
    requires IsUsable(c) && IsPieceOf(c, p1, d1, q) && IsPieceOf(c, p2, d2, q)
    ensures p1 == p2
  {
    if q == MarkerName(p1) && q == MarkerName(p2) {
      MarkerNamesDistinct(p1, p2);
    } else if q == MarkerName(p1) {
      var j :| 0 <= j < |Chunks(d2, c.splitBytes)| && q == ChunkName(p2, j);
      MarkerIsMarker(p1);
      ChunkIsNoMarker(p2, j);
    } else {
      var i :| 0 <= i < |Chunks(d1, c.splitBytes)| && q == ChunkName(p1, i);
      ChunkIsNoMarker(p1, i);
      MarkerIsMarker(p2);
      var j :| 0 <= j < |Chunks(d2, c.splitBytes)| && q == ChunkName(p2, j);
      ChunkNamesDistinct(p1, p2, i, j);
    }
  }

  lemma {:induction false} NotItsOwnPiece(c: Config, path: string, data: string)
    requires IsUsable(c)
    ensures !IsPieceOf(c, path, data, path)
  {
  }

  lemma {:induction false} SplitOneFacts(c: Config, files: Files, path: string)
    requires IsUsable(c) && path in files
    ensures var after := SplitOne(c, files, path);
            && path !in after && IsSplit(c, after, path, files[path])
            && forall q :: q != path && !IsPieceOf(c, path, files[path], q) ==> SameAt(files, after, q)
  {
    var data := files[path];
    var chunks := Chunks(data, c.splitBytes);
    var after := SplitOne(c, files, path);
    NotItsOwnPiece(c, path, data);
    forall k | 0 <= k < |chunks|
      ensures ChunkName(path, k) in after && after[ChunkName(path, k)] == chunks[k]
    {
      WrittenChunk(files, path, chunks, 0, k);
      ChunkIsNoMarker(path, k);
      MarkerIsMarker(path);
    }
    forall q | q != path && !IsPieceOf(c, path, data, q)
      ensures SameAt(files, after, q)
    {
      WrittenElsewhere(files, path, chunks, 0, q);
    }
  }

  /** Names the scripts can carry through a marker and back. */
  predicate Recorded(c: Config, path: string, data: string) {
    OnOneLine(path) && '\n' !in c.digest(data)
  }

  lemma {:induction false} GatherCounted(files: Files, base: string, n: nat)
    ensures Gather(files, base, Render(n)) == Reassemble(files, base, 0, n)
  {
    ValueOfRender(n);
  }

  lemma {:induction false} RestoreBaseFacts(c: Config, files: Files, path: string, data: string) returns (after: Files)
    requires IsUsable(c) && HoldsChunks(files, path, 0, Chunks(data, c.splitBytes))
    ensures RestoreBase(c, files, path, FieldsOf(c, data)) == Some(after)
    ensures Gathered(files[path := ""], after, path, 0, |Chunks(data, c.splitBytes)|, data) && after[path] == data
  {
    var chunks := Chunks(data, c.splitBytes);
    ChunkCount(data, c.splitBytes);
    HoldsInStart(c, files, path, chunks);
    after := ReassembleAll(files[path := ""], path, 0, chunks);
    ChunksConcat(data, c.splitBytes);
    assert "" + data == data;
    GatherCounted(files[path := ""], path, |chunks|);
    ChecksPass(c, files, path, data, after);
  }

  lemma {:induction false} ChecksPass(c: Config, files: Files, base: string, data: string, after: Files)
    requires IsUsable(c) && Gather(files[base := ""], base, FieldsOf(c, data).chunks) == Some(after)
    requires base in after && after[base] == data
    ensures RestoreBase(c, files, base, FieldsOf(c, data)) == Some(after)
  {
  }

  lemma {:induction false} RestoreOneFacts(c: Config, files: Files, path: string, data: string) returns (after: Files)
    requires IsUsable(c) && IsSplit(c, files, path, data) && Recorded(c, path, data)
    ensures IsMarkerName(MarkerName(path)) && RestoreOne(c, files, MarkerName(path)) == Some(after)
    ensures path in after && after[path] == data
    ensures forall q :: IsPieceOf(c, path, data, q) ==> q !in after
    ensures forall q :: q != path && !IsPieceOf(c, path, data, q) ==> SameAt(files, after, q)
  {
    var start := files[path := ""];
    MarkerIsMarker(path);
    MarkerFields(c, path, data);
    var gathered := RestoreBaseFacts(c, files, path, data);
    NotItsOwnPiece(c, path, data);
    after := gathered - {MarkerName(path)};
    forall q | q != path && !IsPieceOf(c, path, data, q)
      ensures SameAt(files, after, q)
    {
      assert SameAt(start, gathered, q);
    }
  }

  lemma {:induction false} HoldsInStart(c: Config, files: Files, path: string, chunks: seq<string>)
    requires HoldsChunks(files, path, 0, chunks)
    ensures HoldsChunks(files[path := ""], path, 0, chunks)
  {
  }

  /** The mirror when exactly the files in `split` are split and all others are as in the original. */
  ghost predicate IsMixed(c: Config, files: Files, original: Files, split: set<string>)
    requires IsUsable(c)
  {
    && (forall p | p in split :: p in original && IsLarge(c, original, p) && IsSplit(c, files, p, original[p]))
    && (forall q | q in original && q !in split :: q in files && files[q] == original[q])
    && (forall q | q in files :: (q in original && q !in split)
                              || exists p :: p in split && p in original && IsPieceOf(c, p, original[p], q))
  }

  /** No original has a marker's name, nor the name of a chunk that a large file will be split into. */
  ghost predicate NoClash(c: Config, original: Files)
    requires IsUsable(c)
  {
    && (forall q | q in original :: !IsMarkerName(q))
    && (forall p, q | IsLarge(c, original, p) && q in original :: !IsPieceOf(c, p, original[p], q))
  }

  /** Two splits in one mirror do not disturb each other. */
  lemma {:induction false} SplitUndisturbed(c: Config, files: Files, after: Files, p: string, d: string, o: string,
                                            e: string)
    requires IsUsable(c) && IsSplit(c, files, p, d) && p != o
    requires !IsPieceOf(c, p, d, o)
    requires forall q :: q != o && !IsPieceOf(c, o, e, q) ==> SameAt(files, after, q)
    ensures IsSplit(c, after, p, d)
  {
    var chunks := Chunks(d, c.splitBytes);
    forall q | IsPieceOf(c, p, d, q)
      ensures SameAt(files, after, q)
    {
      if IsPieceOf(c, o, e, q) {
        PiecesOfOne(c, p, d, o, e, q);
      }
    }
    forall k | 0 <= k < |chunks|
      ensures ChunkName(p, k) in after && after[ChunkName(p, k)] == chunks[k]
    {
      assert IsPieceOf(c, p, d, ChunkName(p, k));
      assert SameAt(files, after, ChunkName(p, k));
    }
    assert IsPieceOf(c, p, d, MarkerName(p)) && SameAt(files, after, MarkerName(p));
  }

  /** What is no piece of p belongs to another split file, or is an original that is not split. */
  lemma {:induction false} OthersCovered(c: Config, files: Files, original: Files, split: set<string>, p: string,
                                         q: string)
    requires IsUsable(c) && IsMixed(c, files, original, split) && p in original
    requires q in files && !IsPieceOf(c, p, original[p], q)
    ensures (q in original && q !in split)
         || exists r :: r in split - {p} && r in original && IsPieceOf(c, r, original[r], q)
  {
    if !(q in original && q !in split) {
      var r :| r in split && r in original && IsPieceOf(c, r, original[r], q);
      assert r in split - {p};
    }
  }

  lemma {:induction false} SplitStep(c: Config, files: Files, original: Files, split: set<string>, p: string)
    requires IsUsable(c) && NoClash(c, original) && IsMixed(c, files, original, split)
    requires IsLarge(c, original, p) && p !in split
    ensures p in files && files[p] == original[p] && IsMixed(c, SplitOne(c, files, p), original, split + {p})
  {
    var after := SplitOne(c, files, p);
    SplitOneFacts(c, files, p);
    forall r | r in split
      ensures IsSplit(c, after, r, original[r])
    {
      SplitUndisturbed(c, files, after, r, original[r], p, original[p]);
    }
    forall q | q in original && q !in split + {p}
      ensures q in after && after[q] == original[q]
    {
      assert SameAt(files, after, q);
    }
    forall q | q in after
      ensures (q in original && q !in split + {p})
           || exists r :: r in split + {p} && r in original && IsPieceOf(c, r, original[r], q)
    {
      if !IsPieceOf(c, p, original[p], q) {
        assert SameAt(files, after, q);
        OthersCovered(c, files, original, split, p, q);
      }
    }
  }

  /** After a file is put together, what is there is covered by the other files. */
  lemma {:induction false} RestoredCovered(c: Config, files: Files, after: Files, original: Files, split: set<string>,
                                            p: string, q: string)
    requires IsUsable(c) && IsMixed(c, files, original, split) && p in original && q in after && q != p
    requires !IsPieceOf(c, p, original[p], q) && SameAt(files, after, q)
    ensures (q in original && q !in split - {p})
         || exists r :: r in split - {p} && r in original && IsPieceOf(c, r, original[r], q)
  {
    OthersCovered(c, files, original, split, p, q);
  }

  lemma {:induction false} RestoredMix(c: Config, files: Files, after: Files, original: Files, split: set<string>,
                                       p: string)
    requires IsUsable(c) && NoClash(c, original) && IsMixed(c, files, original, split) && p in split
    requires p in after && after[p] == original[p]
    requires forall q :: IsPieceOf(c, p, original[p], q) ==> q !in after
    requires forall q :: q != p && !IsPieceOf(c, p, original[p], q) ==> SameAt(files, after, q)
    ensures IsMixed(c, after, original, split - {p})
  {
    forall r | r in split - {p}
      ensures IsSplit(c, after, r, original[r])
    {
      SplitUndisturbed(c, files, after, r, original[r], p, original[p]);
    }
    forall q | q in original && q !in split - {p}
      ensures q in after && after[q] == original[q]
    {
      assert q != p ==> SameAt(files, after, q);
    }
    forall q | q in after
      ensures (q in original && q !in split - {p})
           || exists r :: r in split - {p} && r in original && IsPieceOf(c, r, original[r], q)
    {
      if q != p {
        RestoredCovered(c, files, after, original, split, p, q);
      }
    }
  }

  lemma {:induction false} RestoreStep(c: Config, files: Files, original: Files, split: set<string>, p: string)
    returns (after: Files)
    requires IsUsable(c) && NoClash(c, original) && IsMixed(c, files, original, split) && p in split
    requires Recorded(c, p, original[p])
    ensures MarkerName(p) in files && IsMarkerName(MarkerName(p))
    ensures RestoreOne(c, files, MarkerName(p)) == Some(after) && IsMixed(c, after, original, split - {p})
  {
    after := RestoreOneFacts(c, files, p, original[p]);
    RestoredMix(c, files, after, original, split, p);
  }

  /** No piece of the file is both above the threshold and numbered beyond what the walk takes for a chunk. */
  predicate SmallEnough(c: Config, data: string) {
    c.splitBytes <= c.maxBytes || |data| <= 100 * c.splitBytes + c.maxBytes
  }

  ghost predicate PiecesStay(c: Config, original: Files) {
    forall p | IsLarge(c, original, p) :: SmallEnough(c, original[p])
  }

  lemma {:induction false} PieceLength(data: string, n: nat, k: nat)
    requires n >= 1
    ensures k < |Chunks(data, n)| <==> k * n < |data|
    ensures k < |Chunks(data, n)| ==> |Chunks(data, n)[k]| == Min(n, |data| - k * n)
    decreases k
  {
    assert k > 0 ==> k * n == (k - 1) * n + n && (k - 1) * n >= 0;
    if k > 0 && |data| > n {
      PieceLength(data[n..], n, k - 1);
    }
  }

  lemma {:induction false} ChunkLooks(p: string, k: nat)
    ensures LooksLikeChunk(ChunkName(p, k)) <==> k < 100
    ensures !IsIgnoreFile(ChunkName(p, k)) && !IsMarkerName(ChunkName(p, k))
  {
    ChunkIsNoMarker(p, k);
    var name, digits := ChunkName(p, k), Render(k);
    assert IsDigit(name[|name| - 1]) && !IsDigit('e');
    if k < 100 {
      RenderLength(k, 2);
    } else {
      assert |Render(k / 10 / 10)| > 0 && |digits| >= 3;
      assert name[|name| - 2] == digits[|digits| - 2] && name[|name| - 3] == digits[|digits| - 3];
    }
  }

  lemma {:induction false} SameGitDir(p: string, tail: string)
    requires '/' !in tail
    ensures InGitDir(p + tail) <==> InGitDir(p)
  {
    var whole, long := "/" + p, "/" + (p + tail);
    assert long == whole + tail;
    forall i: nat | i <= |long|
      ensures OccursAt(long, GIT_DIR, i) <==> OccursAt(whole, GIT_DIR, i)
    {
      SlashStaysBefore(whole, tail, i);
    }
  }

  lemma {:induction false} ChunkInGitDir(p: string, k: nat)
    ensures InGitDir(ChunkName(p, k)) <==> InGitDir(p)
  {
    SameGitDir(p, ['.'] + Render(k));
    assert ChunkName(p, k) == p + (['.'] + Render(k));
  }

  lemma {:induction false} SlashStaysBefore(s: string, tail: string, i: nat)
    requires '/' !in tail
    ensures OccursAt(s + tail, GIT_DIR, i) <==> OccursAt(s, GIT_DIR, i)
  {
    var n := |GIT_DIR|;
    if i + n <= |s| {
      assert (s + tail)[i..i + n] == s[i..i + n];
    } else if i + n <= |s + tail| {
      assert (s + tail)[i..i + n][n - 1] == tail[i + n - 1 - |s|];
    }
  }

  lemma {:induction false} AtLeastTimes(k: nat, m: nat, n: nat)
    requires k >= m
    ensures k * n >= m * n
  {
    assert k * n == m * n + (k - m) * n;
  }

  lemma {:induction false} LatePiece(c: Config, data: string, k: nat)
    requires IsUsable(c) && k < |Chunks(data, c.splitBytes)|
    ensures SmallEnough(c, data) && k >= 100 ==> |Chunks(data, c.splitBytes)[k]| <= c.maxBytes
  {
    PieceLength(data, c.splitBytes, k);
    if k >= 100 {
      var skipped := k * c.splitBytes;
      AtLeastTimes(k, 100, c.splitBytes);
      assert skipped >= 100 * c.splitBytes;
      assert |Chunks(data, c.splitBytes)[k]| == Min(c.splitBytes, |data| - skipped);
    }
  }

  /** The walk takes a piece for a large file exactly when it is above the threshold and has a number above 99. */
  lemma {:induction false} LargePiece(c: Config, files: Files, p: string, data: string, k: nat)
    requires IsUsable(c) && k < |Chunks(data, c.splitBytes)|
    requires ChunkName(p, k) in files && files[ChunkName(p, k)] == Chunks(data, c.splitBytes)[k]
    ensures IsLarge(c, files, ChunkName(p, k)) <==>
            k >= 100 && |Chunks(data, c.splitBytes)[k]| > c.maxBytes && !InGitDir(p)
    ensures SmallEnough(c, data) ==> !IsLarge(c, files, ChunkName(p, k))
  {
    ChunkLooks(p, k);
    LatePiece(c, data, k);
    ChunkInGitDir(p, k);
  }

  /** A path that is large in a mixed mirror is an original that has not been split. */
  lemma {:induction false} OnlyOriginalsAreLarge(c: Config, files: Files, original: Files, split: set<string>,
                                                 v: string)
    requires IsUsable(c) && NoClash(c, original) && PiecesStay(c, original) && IsMixed(c, files, original, split)
    ensures IsLarge(c, files, v) <==> v !in split && IsLarge(c, original, v)
  {
    if v in files && !(v in original && v !in split) {
      var r :| r in split && r in original && IsPieceOf(c, r, original[r], v);
      if v == MarkerName(r) {
        MarkerIsMarker(r);
      } else {
        var k :| 0 <= k < |Chunks(original[r], c.splitBytes)| && v == ChunkName(r, k);
        assert files[v] == Chunks(original[r], c.splitBytes)[k];
        LargePiece(c, files, r, original[r], k);
      }
    }
  }

  function LargeAmong(c: Config, original: Files, order: seq<string>): set<string> {
    set p | p in order && IsLarge(c, original, p)
  }

  function WithLarge(c: Config, original: Files, split: set<string>, v: string): set<string> {
    if IsLarge(c, original, v) then split + {v} else split
  }

  lemma {:induction false} VisitLarge(c: Config, files: Files, original: Files, split: set<string>, v: string)
    requires IsUsable(c) && NoClash(c, original) && PiecesStay(c, original) && IsMixed(c, files, original, split)
    requires v !in split && IsLarge(c, original, v)
    ensures IsMixed(c, Visit(c, files, v), original, WithLarge(c, original, split, v))
  {
    OnlyOriginalsAreLarge(c, files, original, split, v);
    SplitStep(c, files, original, split, v);
  }

  lemma {:induction false} VisitOther(c: Config, files: Files, original: Files, split: set<string>, v: string)
    requires IsUsable(c) && NoClash(c, original) && PiecesStay(c, original) && IsMixed(c, files, original, split)
    requires v in split || !IsLarge(c, original, v)
    ensures Visit(c, files, v) == files
  {
    OnlyOriginalsAreLarge(c, files, original, split, v);
  }

  lemma {:induction false} NothingAdded(c: Config, original: Files, split: set<string>, v: string)
    requires v in split || !IsLarge(c, original, v)
    ensures WithLarge(c, original, split, v) == split
  {
  }

  lemma {:induction false} SameMix(c: Config, files: Files, original: Files, split: set<string>, files2: Files,
                                   split2: set<string>)
    requires IsUsable(c) && IsMixed(c, files, original, split) && files2 == files && split2 == split
    ensures IsMixed(c, files2, original, split2)
  {
  }

  lemma {:induction false} VisitStep(c: Config, files: Files, original: Files, split: set<string>, v: string)
    requires IsUsable(c) && NoClash(c, original) && PiecesStay(c, original) && IsMixed(c, files, original, split)
    ensures IsMixed(c, Visit(c, files, v), original, WithLarge(c, original, split, v))
  {
    if v !in split && IsLarge(c, original, v) {
      VisitLarge(c, files, original, split, v);
    } else {
      VisitOther(c, files, original, split, v);
      NothingAdded(c, original, split, v);
      SameMix(c, files, original, split, Visit(c, files, v), WithLarge(c, original, split, v));
    }
  }

  lemma {:induction false} LargeAmongMore(c: Config, original: Files, order: seq<string>, v: string)
    ensures LargeAmong(c, original, order + [v]) == WithLarge(c, original, LargeAmong(c, original, order), v)
  {
  }

  /** No generated name clashes with an original, and no piece is split again. */
  ghost predicate Restorable(c: Config, original: Files)
    requires IsUsable(c)
  {
    NoClash(c, original) && PiecesStay(c, original)
  }

  /** Whatever order the walk reports, and whether or not it also reports new files, only originals are split. */
  lemma {:induction false} SplitAllMixes(c: Config, original: Files, order: seq<string>)
    requires IsUsable(c) && Restorable(c, original)
    ensures IsMixed(c, SplitAll(c, original, order), original, LargeAmong(c, original, order))
  {
    if order != [] {
      var n := |order| - 1;
      SplitAllMixes(c, original, order[..n]);
      VisitStep(c, SplitAll(c, original, order[..n]), original, LargeAmong(c, original, order[..n]), order[n]);
      LargeAmongMore(c, original, order[..n], order[n]);
      assert order == order[..n] + [order[n]];
    }
  }

  function Unrestored(split: set<string>, order: seq<string>): set<string> {
    set p | p in split && MarkerName(p) !in order
  }

  ghost predicate AllRecorded(c: Config, original: Files, split: set<string>) {
    forall p | p in split :: p in original && Recorded(c, p, original[p])
  }

  lemma {:induction false} RestoreLast(c: Config, files: Files, order: seq<string>, v: string)
    ensures RestoreAll(c, files, order + [v]) ==
            match RestoreAll(c, files, order) { case None => None case Some(before) => RestoreVisit(c, before, v) }
  {
  }

  lemma {:induction false} UnrestoredMore(split: set<string>, order: seq<string>, v: string)
    ensures forall p | v == MarkerName(p) :: Unrestored(split, order + [v]) == Unrestored(split, order) - {p}
    ensures !IsMarkerName(v) ==> Unrestored(split, order + [v]) == Unrestored(split, order)
    ensures (forall p | p in Unrestored(split, order) :: MarkerName(p) != v) ==>
              Unrestored(split, order + [v]) == Unrestored(split, order)
  {
    forall p | v == MarkerName(p)
      ensures Unrestored(split, order + [v]) == Unrestored(split, order) - {p}
    {
      forall r | r in split && MarkerName(r) == v
        ensures r == p
      {
        MarkerNamesDistinct(r, p);
      }
    }
    forall r | MarkerName(r) == v
      ensures IsMarkerName(v)
    {
      MarkerIsMarker(r);
    }
  }

  lemma {:induction false} RestoreVisitStep(c: Config, files: Files, original: Files, split: set<string>,
                                            order: seq<string>, v: string)
    returns (after: Files)
    requires IsUsable(c) && NoClash(c, original) && IsMixed(c, files, original, Unrestored(split, order))
    requires AllRecorded(c, original, split)
    ensures RestoreVisit(c, files, v) == Some(after)
    ensures IsMixed(c, after, original, Unrestored(split, order + [v]))
  {
    var left := Unrestored(split, order);
    UnrestoredMore(split, order, v);
    if v in files && IsMarkerName(v) {
      var p := MarkerOf(c, files, original, left, v);
      after := RestoreStep(c, files, original, left, p);
    } else {
      after := files;
      forall p | p in left
        ensures MarkerName(p) != v
      {
        assert IsSplit(c, files, p, original[p]);
        MarkerIsMarker(p);
      }
    }
  }

  lemma {:induction false} RestoreAllMixes(c: Config, files: Files, original: Files, split: set<string>,
                                           order: seq<string>)
    returns (after: Files)
    requires IsUsable(c) && NoClash(c, original) && IsMixed(c, files, original, split)
    requires AllRecorded(c, original, split)
    ensures RestoreAll(c, files, order) == Some(after) && IsMixed(c, after, original, Unrestored(split, order))
  {
    if order == [] {
      after := files;
      assert Unrestored(split, order) == split;
    } else {
      var n := |order| - 1;
      var before := RestoreAllMixes(c, files, original, split, order[..n]);
      after := RestoreVisitStep(c, before, original, split, order[..n], order[n]);
      RestoreLast(c, files, order[..n], order[n]);
      assert order == order[..n] + [order[n]];
    }
  }

  lemma {:induction false} MarkerOf(c: Config, files: Files, original: Files, split: set<string>, v: string)
    returns (p: string)
    requires IsUsable(c) && NoClash(c, original) && IsMixed(c, files, original, split)
    requires v in files && IsMarkerName(v)
    ensures p in split && v == MarkerName(p)
  {
    p :| p in split && p in original && IsPieceOf(c, p, original[p], v);
    if v != MarkerName(p) {
      var k :| 0 <= k < |Chunks(original[p], c.splitBytes)| && v == ChunkName(p, k);
      ChunkIsNoMarker(p, k);
    }
  }

  /**
   Backup then restore is the identity for every restorable file tree and every order in which the
   backup's walk and the restore's walk report paths.
   */
  lemma {:induction false} BackupThenRestore(c: Config, original: Files, walk: seq<string>, markers: seq<string>)
    requires IsUsable(c) && Restorable(c, original)
    requires forall p | p in original :: Recorded(c, p, original[p])
    requires forall q | q in SplitAll(c, original, walk) && IsMarkerName(q) :: q in markers
    ensures RestoreAll(c, SplitAll(c, original, walk), markers) == Some(original)
  {
    var split := LargeAmong(c, original, walk);
    SplitAllMixes(c, original, walk);
    var mirror := SplitAll(c, original, walk);
    var after := RestoreAllMixes(c, mirror, original, split, markers);
    forall p | p in split
      ensures MarkerName(p) in markers
    {
      assert IsSplit(c, mirror, p, original[p]);
      MarkerIsMarker(p);
    }
    assert Unrestored(split, markers) == {};
    assert after == original;
  }

  /** When the walk reports every original, nothing large is left for the repository but what the names exempt. */
  lemma {:induction false} NothingLargeRemains(c: Config, original: Files, walk: seq<string>, q: string)
    requires IsUsable(c) && Restorable(c, original)
    requires forall p | p in original :: p in walk
    ensures !IsLarge(c, SplitAll(c, original, walk), q)
  {
    SplitAllMixes(c, original, walk);
    OnlyOriginalsAreLarge(c, SplitAll(c, original, walk), original, LargeAmong(c, original, walk), q);
  }

  // ---------------------------------------------------------------- where the identity ends

  lemma {:induction false} SplitAllFrom(c: Config, files: Files, first: seq<string>, rest: seq<string>)
    requires IsUsable(c)
    ensures SplitAll(c, files, first + rest) == SplitAll(c, SplitAll(c, files, first), rest)
    decreases |rest|
  {
    if rest == [] {
      assert first + rest == first;
    } else {
      var n := |rest| - 1;
      SplitAllFrom(c, files, first, rest[..n]);
      assert (first + rest)[..|first| + n] == first + rest[..n];
    }
  }

  lemma {:induction false} RestoreAllFrom(c: Config, files: Files, first: seq<string>, rest: seq<string>)
    ensures RestoreAll(c, files, first + rest) ==
            match RestoreAll(c, files, first) { case None => None case Some(next) => RestoreAll(c, next, rest) }
    decreases |rest|
  {
    if rest == [] {
      assert first + rest == first;
    } else {
      var n := |rest| - 1;
      RestoreAllFrom(c, files, first, rest[..n]);
      assert (first + rest)[..|first| + n] == first + rest[..n];
    }
  }

  /** The marker of a split file is as it was written, and so is each of its chunks that is still there. */
  ghost predicate Partly(c: Config, files: Files, p: string, data: string)
    requires IsUsable(c)
  {
    && MarkerName(p) in files && files[MarkerName(p)] == MarkerText(c, p, data)
    && forall k | 0 <= k < |Chunks(data, c.splitBytes)| ::
         ChunkName(p, k) in files ==> files[ChunkName(p, k)] == Chunks(data, c.splitBytes)[k]
  }

  /** What splitting another file does to a piece: a chunk may be split itself and disappear. */
  lemma {:induction false} PieceVisit(c: Config, files: Files, p: string, data: string, v: string, q: string)
    requires IsUsable(c) && v != p && IsPieceOf(c, p, data, q)
    ensures if q == v && IsLarge(c, files, v) then q !in Visit(c, files, v) else SameAt(files, Visit(c, files, v), q)
  {
    if IsLarge(c, files, v) {
      SplitOneFacts(c, files, v);
      if IsPieceOf(c, v, files[v], q) {
        PiecesOfOne(c, p, data, v, files[v], q);
      }
    }
  }

  lemma {:induction false} PartlyVisit(c: Config, files: Files, p: string, data: string, v: string)
    requires IsUsable(c) && v != p && Partly(c, files, p, data)
    ensures Partly(c, Visit(c, files, v), p, data)
  {
    var after := Visit(c, files, v);
    MarkerIsMarker(p);
    PieceVisit(c, files, p, data, v, MarkerName(p));
    forall k | 0 <= k < |Chunks(data, c.splitBytes)| && ChunkName(p, k) in after
      ensures after[ChunkName(p, k)] == Chunks(data, c.splitBytes)[k]
    {
      assert IsPieceOf(c, p, data, ChunkName(p, k));
      PieceVisit(c, files, p, data, v, ChunkName(p, k));
    }
  }

  /** Once the chunk is gone it stays gone, and it is gone as soon as it has a marker of its own. */
  ghost predicate GoneIfMarked(files: Files, q: string) {
    MarkerName(q) in files ==> q !in files
  }

  lemma {:induction false} ChunkVisit(c: Config, files: Files, p: string, data: string, v: string, k: nat)
    requires IsUsable(c) && v != p && k < |Chunks(data, c.splitBytes)|
    ensures ChunkName(p, k) !in files ==> ChunkName(p, k) !in Visit(c, files, v)
    ensures GoneIfMarked(files, ChunkName(p, k)) ==> GoneIfMarked(Visit(c, files, v), ChunkName(p, k))
  {
    var q := ChunkName(p, k);
    assert IsPieceOf(c, p, data, q);
    PieceVisit(c, files, p, data, v, q);
    if IsLarge(c, files, v) {
      SplitOneFacts(c, files, v);
      MarkerIsMarker(q);
      if IsPieceOf(c, v, files[v], MarkerName(q)) {
        assert IsPieceOf(c, q, "", MarkerName(q));
        PiecesOfOne(c, v, files[v], q, "", MarkerName(q));
      }
    }
  }

  /** The rest of the backup's walk leaves a split file partly there, whatever it reports. */
  lemma {:induction false} PartlyAfter(c: Config, files: Files, p: string, data: string, k: nat, order: seq<string>)
    requires IsUsable(c) && p !in order && Partly(c, files, p, data) && k < |Chunks(data, c.splitBytes)|
    ensures Partly(c, SplitAll(c, files, order), p, data)
    ensures ChunkName(p, k) !in files ==> ChunkName(p, k) !in SplitAll(c, files, order)
    ensures GoneIfMarked(files, ChunkName(p, k)) ==> GoneIfMarked(SplitAll(c, files, order), ChunkName(p, k))
    decreases |order|
  {
    if order != [] {
      var n := |order| - 1;
      PartlyAfter(c, files, p, data, k, order[..n]);
      PartlyVisit(c, SplitAll(c, files, order[..n]), p, data, order[n]);
      ChunkVisit(c, SplitAll(c, files, order[..n]), p, data, order[n], k);
    }
  }

  lemma {:induction false} SplitIsPartly(c: Config, files: Files, p: string, data: string)
    requires IsUsable(c) && IsSplit(c, files, p, data)
    ensures Partly(c, files, p, data)
  {
  }

  // Markers of markers: the restore can bring a file back only as the base of a marker.

  /** Markers of files that are themselves named like markers have names of at most this length. */
  ghost predicate NoDeeper(files: Files, n: nat) {
    forall v | v in files && IsMarkerName(v) && IsMarkerName(BaseOf(v)) :: |v| <= n
  }

  /** Neither the file nor its marker is there, nor can the marker come back. */
  ghost predicate Absent(files: Files, q: string) {
    q !in files && MarkerName(q) !in files && NoDeeper(files, |q|)
  }

  lemma {:induction false} ReassembleAddsNothing(files: Files, base: string, i: nat, n: nat)
    requires base in files
    ensures match Reassemble(files, base, i, n) case None => true case Some(after) => after.Keys <= files.Keys
    decreases n - i
  {
    if i < n && ChunkName(base, i) in files {
      ChunkIsNoMarker(base, i);
      var next := files[base := files[base] + files[ChunkName(base, i)]] - {ChunkName(base, i)};
      ReassembleAddsNothing(next, base, i + 1, n);
    }
  }

  lemma {:induction false} LegacyAddsNothing(files: Files, base: string, i: nat)
    requires base in files
    ensures ReassembleLegacy(files, base, i).0.Keys <= files.Keys
    decreases |files|
  {
    if ChunkName(base, i) in files {
      ChunkIsNoMarker(base, i);
      FewerFiles(files, base, files[base] + files[ChunkName(base, i)], ChunkName(base, i));
      var next := files[base := files[base] + files[ChunkName(base, i)]] - {ChunkName(base, i)};
      LegacyAddsNothing(next, base, i + 1);
    }
  }

  /** A visit of the restore removes the marker and can add its base only. */
  lemma {:induction false} VisitAddsBase(c: Config, files: Files, v: string, q: string)
    requires RestoreVisit(c, files, v).Some? && q in RestoreVisit(c, files, v).value
    ensures v in files && IsMarkerName(v) ==> q != v && (q in files || q == BaseOf(v))
    ensures !(v in files && IsMarkerName(v)) ==> q in files
  {
    if v in files && IsMarkerName(v) {
      var start := files[BaseOf(v) := ""];
      ReassembleAddsNothing(start, BaseOf(v), 0, Bound(ReadMarker(files[v]).value.chunks));
      LegacyAddsNothing(start, BaseOf(v), 0);
    }
  }

  lemma {:induction false} DepthStays(c: Config, files: Files, v: string, n: nat)
    requires RestoreVisit(c, files, v).Some? && NoDeeper(files, n)
    ensures NoDeeper(RestoreVisit(c, files, v).value, n)
  {
    var after := RestoreVisit(c, files, v).value;
    forall w | w in after && IsMarkerName(w) && IsMarkerName(BaseOf(w))
      ensures |w| <= n
    {
      VisitAddsBase(c, files, v, w);
    }
  }

  lemma {:induction false} AbsentStays(c: Config, files: Files, v: string, q: string)
    requires RestoreVisit(c, files, v).Some? && Absent(files, q)
    ensures Absent(RestoreVisit(c, files, v).value, q)
  {
    var after, marker := RestoreVisit(c, files, v).value, MarkerName(q);
    DepthStays(c, files, v, |q|);
    MarkerIsMarker(q);
    MarkerOfBase(v);
    if q in after {
      VisitAddsBase(c, files, v, q);
    }
    if marker in after {
      VisitAddsBase(c, files, v, marker);
    }
  }

  lemma {:induction false} AbsentAfter(c: Config, files: Files, order: seq<string>, q: string)
    requires RestoreAll(c, files, order).Some? && Absent(files, q)
    ensures Absent(RestoreAll(c, files, order).value, q)
    decreases |order|
  {
    if order != [] {
      var n := |order| - 1;
      AbsentAfter(c, files, order[..n], q);
      AbsentStays(c, RestoreAll(c, files, order[..n]).value, order[n], q);
    }
  }

  /** A file with a marker's name, of which no marker exists, does not survive a restore walk that reports it. */
  lemma {:induction false} MarkerIsRemoved(c: Config, files: Files, order: seq<string>, q: string)
    requires RestoreAll(c, files, order).Some? && IsMarkerName(q) && NoDeeper(files, |q|)
    requires q in files ==> q in order
    ensures q !in RestoreAll(c, files, order).value
    decreases |order|
  {
    if order != [] && q in files {
      var n := |order| - 1;
      var before := RestoreAll(c, files, order[..n]).value;
      DepthStaysAll(c, files, order[..n], |q|);
      if q in order[..n] {
        MarkerIsRemoved(c, files, order[..n], q);
        MarkerIsMarker(q);
        AbsentStays(c, before, order[n], q);
      } else {
        assert order == order[..n] + [order[n]];
        if q in RestoreAll(c, files, order).value {
          VisitAddsBase(c, before, order[n], q);
        }
      }
    } else if q !in files {
      MarkerIsMarker(q);
      AbsentAfter(c, files, order, q);
    }
  }

  lemma {:induction false} DepthStaysAll(c: Config, files: Files, order: seq<string>, n: nat)
    requires RestoreAll(c, files, order).Some? && NoDeeper(files, n)
    ensures NoDeeper(RestoreAll(c, files, order).value, n)
    decreases |order|
  {
    if order != [] {
      DepthStaysAll(c, files, order[..|order| - 1], n);
      DepthStays(c, RestoreAll(c, files, order[..|order| - 1]).value, order[|order| - 1], n);
    }
  }

  /** The backup writes markers for files only that are not named like markers. */
  lemma {:induction false} MarkersWritten(c: Config, original: Files, order: seq<string>, v: string)
    requires IsUsable(c) && v in SplitAll(c, original, order) && IsMarkerName(v)
    ensures v in original || !IsMarkerName(BaseOf(v))
    decreases |order|
  {
    if order != [] {
      var n := |order| - 1;
      var before, last := SplitAll(c, original, order[..n]), order[n];
      if v in before {
        MarkersWritten(c, original, order[..n], v);
      } else {
        SplitOneFacts(c, before, last);
        assert IsPieceOf(c, last, before[last], v);
        assert v == MarkerName(last) by {
          if j :| 0 <= j < |Chunks(before[last], c.splitBytes)| && v == ChunkName(last, j) {
            ChunkIsNoMarker(last, j);
          }
        }
        MarkerIsMarker(last);
      }
    }
  }

  lemma {:induction false} Longest(s: set<string>) returns (q: string)
    requires s != {}
    ensures q in s && forall r | r in s :: |r| <= |q|
  {
    q :| q in s;
    if s != {q} {
      var r := Longest(s - {q});
      assert forall x | x in s :: x == q || x in s - {q};
      if |q| < |r| {
        q := r;
      }
    }
  }

  // Restoring from a mirror in which pieces are missing.

  lemma {:induction false} MissingChunk(files: Files, base: string, i: nat, n: nat, k: nat)
    requires base in files && i <= k < n && ChunkName(base, k) !in files
    ensures Reassemble(files, base, i, n) == None
    decreases n - i
  {
    if i < k && ChunkName(base, i) in files {
      ChunkIsNoMarker(base, i);
      ChunkIsNoMarker(base, k);
      MissingChunk(files[base := files[base] + files[ChunkName(base, i)]] - {ChunkName(base, i)}, base, i + 1, n, k);
    }
  }

  lemma {:induction false} BaseMissesChunk(c: Config, files: Files, p: string, data: string, k: nat)
    requires IsUsable(c) && k < |Chunks(data, c.splitBytes)| && ChunkName(p, k) !in files
    ensures RestoreBase(c, files, p, FieldsOf(c, data)) == None
  {
    var n := |Chunks(data, c.splitBytes)|;
    ChunkCount(data, c.splitBytes);
    GatherCounted(files[p := ""], p, n);
    ChunkIsNoMarker(p, k);
    MissingChunk(files[p := ""], p, 0, n, k);
  }

  /** A marker whose chunk is missing cannot be restored. */
  lemma {:induction false} RestoreMissesChunk(c: Config, files: Files, p: string, data: string, k: nat)
    requires IsUsable(c) && Recorded(c, p, data) && Partly(c, files, p, data)
    requires k < |Chunks(data, c.splitBytes)| && ChunkName(p, k) !in files
    ensures RestoreAll(c, files, [MarkerName(p)]) == None
  {
    MarkerFields(c, p, data);
    MarkerIsMarker(p);
    BaseMissesChunk(c, files, p, data, k);
    OneMarker(c, files, MarkerName(p));
  }

  lemma {:induction false} OneMarker(c: Config, files: Files, v: string)
    ensures RestoreAll(c, files, [v]) == RestoreVisit(c, files, v)
  {
    assert RestoreAll(c, files, []) == Some(files);
    RestoreLast(c, files, [], v);
    assert [] + [v] == [v];
  }

  lemma {:induction false} OneVisit(c: Config, files: Files, v: string)
    requires IsUsable(c)
    ensures SplitAll(c, files, [v]) == Visit(c, files, v)
  {
    assert [v][..0] == [];
  }

  /** When the restore begins with a marker whose chunks were all left alone, they are gone afterwards. */
  lemma {:induction false} RestoreTakesChunk(c: Config, files: Files, p: string, data: string, k: nat)
    requires IsUsable(c) && Recorded(c, p, data) && IsSplit(c, files, p, data) && k < |Chunks(data, c.splitBytes)|
    requires MarkerName(ChunkName(p, k)) !in files && NoDeeper(files, 0) && !IsMarkerName(p)
    ensures RestoreAll(c, files, [MarkerName(p)]).Some?
    ensures Absent(RestoreAll(c, files, [MarkerName(p)]).value, ChunkName(p, k))
  {
    var q := ChunkName(p, k);
    var after := RestoreOneFacts(c, files, p, data);
    OneMarker(c, files, MarkerName(p));
    assert IsPieceOf(c, p, data, q);
    DepthStays(c, files, MarkerName(p), 0);
    if MarkerName(q) in after {
      VisitAddsBase(c, files, MarkerName(p), MarkerName(q));
    }
    MarkerIsMarker(p);
    MarkerIsMarker(q);
  }

  /** A restore that begins with a marker one of whose chunks is missing fails. */
  lemma {:induction false} BeginsWithMissing(c: Config, files: Files, p: string, data: string, k: nat,
                                             rest: seq<string>)
    requires IsUsable(c) && Recorded(c, p, data) && Partly(c, files, p, data)
    requires k < |Chunks(data, c.splitBytes)| && ChunkName(p, k) !in files
    ensures RestoreAll(c, files, [MarkerName(p)] + rest) == None
  {
    RestoreMissesChunk(c, files, p, data, k);
    RestoreAllFrom(c, files, [MarkerName(p)], rest);
  }

  /** However the rest of the restore goes, it gives no file the name of a chunk that it took first. */
  lemma {:induction false} BeginsWithTaken(c: Config, files: Files, p: string, data: string, k: nat, rest: seq<string>)
    requires IsUsable(c) && Recorded(c, p, data) && Partly(c, files, p, data) && k < |Chunks(data, c.splitBytes)|
    requires GoneIfMarked(files, ChunkName(p, k)) && NoDeeper(files, 0) && !IsMarkerName(p)
    ensures var result := RestoreAll(c, files, [MarkerName(p)] + rest);
            result.Some? ==> ChunkName(p, k) !in result.value
  {
    if j :| 0 <= j < |Chunks(data, c.splitBytes)| && ChunkName(p, j) !in files {
      BeginsWithMissing(c, files, p, data, j, rest);
    } else {
      assert ChunkName(p, k) in files && IsSplit(c, files, p, data);
      RestoreTakesChunk(c, files, p, data, k);
      RestoreAllFrom(c, files, [MarkerName(p)], rest);
      var next := RestoreAll(c, files, [MarkerName(p)]).value;
      if RestoreAll(c, next, rest).Some? {
        AbsentAfter(c, next, rest, ChunkName(p, k));
      }
    }
  }

  lemma {:induction false} TwoVisits(c: Config, files: Files, p: string, q: string)
    requires IsUsable(c)
    ensures SplitAll(c, files, [p, q]) == Visit(c, Visit(c, files, p), q)
  {
    assert [p, q][..1] == [p] && [p][..0] == [];
    assert SplitAll(c, files, [p]) == Visit(c, files, p);
  }

  lemma {:induction false} TooLargeForChunks(c: Config, data: string)
    requires IsUsable(c) && !SmallEnough(c, data)
    ensures |Chunks(data, c.splitBytes)| > 100 && |Chunks(data, c.splitBytes)[100]| > c.maxBytes
  {
    PieceLength(data, c.splitBytes, 100);
  }
}
