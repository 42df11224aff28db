/** Parsing what `git log -z` and `git ls-tree -z --long` print. */
module GitOutput {
  import opened Prelude
  import opened Numerals
  import opened Text

  const NUL := '\0'

  // ---------------------------------------------------------------- commits

  datatype Commit = Commit(
    sha: string, authorName: string, authorEmail: string, authoredAt: string, parents: seq<string>, message: string)

  function ReadCommit(f: seq<string>): Commit
    requires |f| == 6
  {
    Commit(Trim(f[0]), f[1], f[2], f[3], Words(f[4]), TrimEnd(f[5]))
  }

  /** The commits of the complete groups of six among the pieces. */
  function ReadCommits(pieces: seq<string>): seq<Commit> {
    if |pieces| < 6 then [] else [ReadCommit(pieces[..6])] + ReadCommits(pieces[6..])
  }

  lemma {:induction false} ReadMore(pieces: seq<string>, k: nat)
    requires 6 * (k + 1) <= |pieces|
    ensures ReadCommits(pieces[..6 * (k + 1)]) == ReadCommits(pieces[..6 * k]) + [ReadCommit(pieces[6 * k..6 * k + 6])]
    decreases k
  {
    var now := pieces[..6 * (k + 1)];
    if k == 0 {
      assert now[..6] == pieces[0..6] && now[6..] == [];
    } else {
      ReadMore(pieces[6..], k - 1);
      var before := pieces[..6 * k];
      assert now[..6] == before[..6];
      assert now[6..] == pieces[6..][..6 * k];
      assert before[6..] == pieces[6..][..6 * (k - 1)];
      assert pieces[6..][6 * (k - 1)..6 * (k - 1) + 6] == pieces[6 * k..6 * k + 6];
    }
  }

  lemma {:induction false} ShortTail(pieces: seq<string>, k: nat)
    requires 6 * k <= |pieces| < 6 * k + 6
    ensures ReadCommits(pieces) == ReadCommits(pieces[..6 * k])
  {
    if k > 0 {
      ShortTail(pieces[6..], k - 1);
      assert pieces[..6 * k][..6] == pieces[..6] && pieces[..6 * k][6..] == pieces[6..][..6 * (k - 1)];
    }
  }

  /** `parse_commits`: chunks of six, stopping at a short one. */
  method ParseCommits(text: string) returns (commits: seq<Commit>)
    ensures commits == ReadCommits(Split(text, NUL))
  {
    var pieces := Split(text, NUL);
    commits := [];
    var k := 0;
    while 6 * k < |pieces|
      invariant 6 * k <= |pieces|
      invariant commits == ReadCommits(pieces[..6 * k])
      decreases |pieces| - 6 * k
    {
      var record := pieces[6 * k..Min(6 * k + 6, |pieces|)];
      if |record| != 6 {
        break;
      }
      ReadMore(pieces, k);
      commits := commits + [ReadCommit(record)];
      k := k + 1;
    }
    ShortTail(pieces, k);
  }

  /** The six fields git prints for a commit; `%B` may end in any whitespace. */
  predicate IsRecord(f: seq<string>) {
    |f| == 6 && forall i | 0 <= i < 6 :: NUL !in f[i]
  }

  ghost predicate AreRecords(records: seq<seq<string>>) {
    forall i | 0 <= i < |records| :: IsRecord(records[i])
  }

  function Flatten(records: seq<seq<string>>): seq<string> {
    if records == [] then [] else records[0] + Flatten(records[1..])
  }

  function ReadRecords(records: seq<seq<string>>): (c: seq<Commit>)
    requires AreRecords(records)
    ensures |c| == |records| && forall i | 0 <= i < |c| :: IsRecord(records[i]) && c[i] == ReadCommit(records[i])
  {
    if records == [] then []
    else
      assert IsRecord(records[0]);
      [ReadCommit(records[0])] + ReadRecords(records[1..])
  }

  lemma {:induction false} FlattenFree(records: seq<seq<string>>)
    requires AreRecords(records)
    ensures Free(Flatten(records), NUL) && |Flatten(records)| == 6 * |records|
  {
    if records != [] {
      FlattenFree(records[1..]);
    }
  }

  /** The groups of six are read back, whatever short remainder follows. */
  lemma {:induction false} ReadFlattened(records: seq<seq<string>>, tail: seq<string>)
    requires AreRecords(records) && |tail| < 6
    ensures ReadCommits(Flatten(records) + tail) == ReadRecords(records)
  {
    var pieces := Flatten(records) + tail;
    if records == [] {
      assert pieces == tail;
    } else {
      assert pieces == records[0] + (Flatten(records[1..]) + tail);
      assert pieces[..6] == records[0] && pieces[6..] == Flatten(records[1..]) + tail;
      ReadFlattened(records[1..], tail);
    }
  }

  /** What `git log -z` prints: every field NUL-separated, each record also NUL-terminated or only separated. */
  function PrintLog(records: seq<seq<string>>, terminated: bool): string {
    if Flatten(records) == [] then ""
    else Join(Flatten(records), NUL) + (if terminated then [NUL] else "")
  }

  lemma {:induction false} SplitPrinted(pieces: seq<string>, terminated: bool)
    requires pieces != [] && Free(pieces, NUL)
    ensures Split(Join(pieces, NUL) + (if terminated then [NUL] else ""), NUL)
         == pieces + if terminated then [""] else []
  {
    if terminated {
      JoinTerminated(pieces, NUL);
      SplitOfJoin(pieces + [""], NUL);
    } else {
      SplitOfJoin(pieces, NUL);
      assert Join(pieces, NUL) + "" == Join(pieces, NUL) && pieces + [] == pieces;
    }
  }

  /** Every log, separated or terminated, is read back commit by commit. */
  lemma {:induction false} LogRoundTrip(records: seq<seq<string>>, terminated: bool)
    requires AreRecords(records)
    ensures ReadCommits(Split(PrintLog(records, terminated), NUL)) == ReadRecords(records)
  {
    FlattenFree(records);
    var pieces := Flatten(records);
    if records == [] {
      SplitOfJoin([""], NUL);
    } else {
      SplitPrinted(pieces, terminated);
      ReadFlattened(records, if terminated then [""] else []);
    }
  }

  /** A commit whose fields carry no stray whitespace, printed with any whitespace after its message. */
  predicate IsPlainCommit(c: Commit) {
    && Trim(c.sha) == c.sha && TrimEnd(c.message) == c.message
    && (forall i | 0 <= i < |c.parents| :: IsWord(c.parents[i]))
  }

  function RecordOf(c: Commit, padding: string): seq<string> {
    [c.sha, c.authorName, c.authorEmail, c.authoredAt, JoinWords(c.parents), c.message + padding]
  }

  /** A printed commit is read back as itself. */
  lemma {:induction false} CommitRoundTrip(c: Commit, padding: string)
    requires IsPlainCommit(c) && IsBlank(padding)
    ensures ReadCommit(RecordOf(c, padding)) == c
  {
    WordsOfJoin(c.parents);
    TrimEndPadded(c.message, padding);
  }

  /** Every list of commits without NULs or stray whitespace survives being printed and parsed. */
  lemma {:induction false} CommitsRoundTrip(commits: seq<Commit>, paddings: seq<string>, records: seq<seq<string>>,
                                            terminated: bool)
    requires |paddings| == |commits| == |records|
    requires forall i | 0 <= i < |commits| :: IsPlainCommit(commits[i])
    requires forall i | 0 <= i < |paddings| :: IsBlank(paddings[i])
    requires forall i | 0 <= i < |commits| :: records[i] == RecordOf(commits[i], paddings[i]) && IsRecord(records[i])
    ensures ReadCommits(Split(PrintLog(records, terminated), NUL)) == commits
  {
    LogRoundTrip(records, terminated);
    forall i | 0 <= i < |commits|
      ensures ReadCommit(records[i]) == commits[i]
    {
      CommitRoundTrip(commits[i], paddings[i]);
    }
  }

  // ---------------------------------------------------------------- tree entries

  datatype Entry = Entry(name: string, path: string, kind: string, mode: string, sha: string, size: Option<int>)

  const I64_LIMIT := 0x8000_0000_0000_0000

  /** `str::parse::<i64>().ok()`. */
  function ParseI64(s: string): Option<int> {
    if s == "" then None
    else
      var signed := s[0] == '-' || s[0] == '+';
      var digits := if signed then s[1..] else s;
      if digits == "" || !AllDigits(digits) then None
      else
        var magnitude: int := Value(digits);
        var v := if s[0] == '-' then -magnitude else magnitude;
        if -I64_LIMIT <= v < I64_LIMIT then Some(v) else None
  }

  /** Digits, with or without a sign, denote their number if it fits in 64 bits, and nothing else is a number. */
  lemma {:induction false} NumbersAreRead(digits: string)
    requires digits != "" && AllDigits(digits)
    ensures ParseI64(digits) ==
            if Value(digits) <= 9_223_372_036_854_775_807 then Some(Value(digits)) else None
    ensures ParseI64("+" + digits) == ParseI64(digits)
    ensures ParseI64("-" + digits) ==
            if Value(digits) <= 9_223_372_036_854_775_808 then Some(0 - Value(digits)) else None
  {
    assert IsDigit(digits[0]);
    assert ("+" + digits)[1..] == digits && ("-" + digits)[1..] == digits;
  }

  lemma {:induction false} NothingElseIsANumber(s: string) returns (digits: string)
    requires ParseI64(s).Some?
    ensures digits != "" && AllDigits(digits) && (s == digits || s == "+" + digits || s == "-" + digits)
  {
    digits := if s[0] == '-' || s[0] == '+' then s[1..] else s;
    assert s[0] == '+' ==> s == "+" + digits;
    assert s[0] == '-' ==> s == "-" + digits;
  }

  function PathOf(path: string, name: string): string {
    if path == "" then name else path + "/" + name
  }

  /** `<mode> <type> <sha> <size>` TAB `<name>`; anything else is skipped. */
  function ReadEntry(record: string, path: string): Option<Entry> {
    var tab := FirstAt(record, '\t');
    if tab == |record| then None
    else
      var name := record[tab + 1..];
      var fields := Words(record[..tab]);
      if |fields| != 4 then None
      else Some(Entry(name, PathOf(path, name), fields[1], fields[0], fields[2], ParseI64(fields[3])))
  }

  /** An entry's path is its name at the root and is below the listed directory otherwise. */
  lemma {:induction false} EntryPath(record: string, path: string)
    ensures ReadEntry(record, path).Some? && path == "" ==>
              ReadEntry(record, path).value.path == ReadEntry(record, path).value.name
    ensures ReadEntry(record, path).Some? && path != "" ==>
              ReadEntry(record, path).value.path == path + ['/'] + ReadEntry(record, path).value.name
  {
  }

  /** The values of the items that have one, in order. */
  function FilterMap<S, T>(items: seq<S>, f: S -> Option<T>): seq<T> {
    if items == [] then []
    else
      var n := |items| - 1;
      FilterMap(items[..n], f) + match f(items[n]) { case None => [] case Some(v) => [v] }
  }

  function Reader(path: string): string -> Option<Entry> {
    record => if record == "" then None else ReadEntry(record, path)
  }

  function ReadEntries(records: seq<string>, path: string): seq<Entry> {
    FilterMap(records, Reader(path))
  }

  predicate LexNoLater(a: string, b: string) {
    if a == "" then true
    else if b == "" then false
    else a[0] < b[0] || (a[0] == b[0] && LexNoLater(a[1..], b[1..]))
  }

  /** Names are ordered by their first difference, and a prefix comes first. */
  lemma {:induction false} LexDecides(a: string, b: string, k: nat)
    requires k <= |a| && k <= |b| && a[..k] == b[..k]
    ensures k == |a| ==> LexNoLater(a, b)
    ensures k == |b| && k < |a| ==> !LexNoLater(a, b)
    ensures k < |a| && k < |b| && a[k] < b[k] ==> LexNoLater(a, b)
    ensures k < |a| && k < |b| && b[k] < a[k] ==> !LexNoLater(a, b)
    decreases k
  {
    if k > 0 {
      assert a[0] == a[..k][0] == b[..k][0] == b[0];
      assert a[1..][..k - 1] == a[..k][1..] && b[1..][..k - 1] == b[..k][1..];
      LexDecides(a[1..], b[1..], k - 1);
    }
  }

  predicate IsTree(e: Entry) {
    e.kind == "tree"
  }

  /** The comparator: directories first, then by name. */
  predicate EntryNoLater(a: Entry, b: Entry) {
    if IsTree(a) != IsTree(b) then IsTree(a) else LexNoLater(a.name, b.name)
  }

  lemma {:induction false} LexTotal(a: string, b: string)
    ensures LexNoLater(a, b) || LexNoLater(b, a)
  {
    if a != "" && b != "" && a[0] == b[0] {
      LexTotal(a[1..], b[1..]);
    }
  }

  lemma {:induction false} LexTransitive(a: string, b: string, c: string)
    requires LexNoLater(a, b) && LexNoLater(b, c)
    ensures LexNoLater(a, c)
  {
    if a != "" && a[0] == b[0] && b[0] == c[0] {
      LexTransitive(a[1..], b[1..], c[1..]);
    }
  }

  lemma {:induction false} EntryOrder()
    ensures TotalOrder(EntryNoLater)
  {
    forall a, b
      ensures EntryNoLater(a, b) || EntryNoLater(b, a)
    {
      LexTotal(a.name, b.name);
    }
    forall a, b, c | EntryNoLater(a, b) && EntryNoLater(b, c)
      ensures EntryNoLater(a, c)
    {
      if IsTree(a) == IsTree(b) && IsTree(b) == IsTree(c) {
        LexTransitive(a.name, b.name, c.name);
      }
    }
  }

  /**
   `list_tree` on git's output: the readable entries, each exactly once, directories before
   everything else and names ascending in both parts.
   */
  method ListTree(out: string, path: string) returns (entries: seq<Entry>)
    ensures entries == Sort(ReadEntries(Split(out, NUL), path), EntryNoLater)
    ensures multiset(entries) == multiset(ReadEntries(Split(out, NUL), path))
    ensures forall i, j | 0 <= i < j < |entries| ::
              && (entries[j].kind == "tree" ==> entries[i].kind == "tree")
              && (IsTree(entries[i]) == IsTree(entries[j]) ==> LexNoLater(entries[i].name, entries[j].name))
  {
    var records := Split(out, NUL);
    entries := [];
    for i := 0 to |records|
      invariant entries == ReadEntries(records[..i], path)
    {
      var record := records[i];
      assert records[..i + 1][..i] == records[..i];
      if record == "" {
        continue;
      }
      var tab := FirstAt(record, '\t');
      if tab == |record| {
        continue;
      }
      var name := record[tab + 1..];
      var fields := Words(record[..tab]);
      if |fields| != 4 {
        continue;
      }
      entries := entries + [Entry(name, PathOf(path, name), fields[1], fields[0], fields[2], ParseI64(fields[3]))];
    }
    assert records[..|records|] == records;
    EntryOrder();
    SortSorts(entries, EntryNoLater);
    entries := Sort(entries, EntryNoLater);
  }

  // ---------------------------------------------------------------- what git prints for a directory

  /** An entry of the directory at `path`, as git knows it; the name may hold anything but NUL. */
  predicate IsGitEntry(e: Entry, path: string) {
    && e.name != "" && NUL !in e.name && e.path == PathOf(path, e.name)
    && IsField(e.mode) && IsField(e.kind) && IsField(e.sha)
    && (e.size.Some? ==> 0 <= e.size.value < I64_LIMIT)
  }

  predicate IsField(s: string) {
    IsWord(s) && NUL !in s
  }

  function SizeText(size: Option<int>): string
    requires size.Some? ==> size.value >= 0
  {
    if size.None? then "-" else Render(size.value)
  }

  predicate IsSpaces(s: string) {
    forall i | 0 <= i < |s| :: s[i] == ' '
  }

  /** Mode, type, hash and the size, which is right-aligned: padded on the left with spaces. */
  function PrintMeta(e: Entry, padding: string): string
    requires e.size.Some? ==> e.size.value >= 0
  {
    e.mode + " " + (e.kind + " " + (e.sha + " " + (padding + SizeText(e.size))))
  }

  function PrintEntry(e: Entry, padding: string): string
    requires e.size.Some? ==> e.size.value >= 0
  {
    PrintMeta(e, padding) + ['\t'] + e.name
  }

  lemma {:induction false} SizeRoundTrip(size: Option<int>)
    requires size.Some? ==> 0 <= size.value < I64_LIMIT
    ensures IsField(SizeText(size)) && ParseI64(SizeText(size)) == size
  {
    if size.Some? {
      ValueOfRender(size.value);
      assert forall i | 0 <= i < |Render(size.value)| :: IsDigit(Render(size.value)[i]);
    }
  }

  lemma {:induction false} NextWord(a: string, rest: string)
    requires IsWord(a)
    ensures Words(a + " " + rest) == [a] + Words(rest)
  {
    FirstWord(a, " " + rest);
    assert a + " " + rest == a + (" " + rest);
    assert (" " + rest)[1..] == rest;
  }

  lemma {:induction false} MetaIsRead(e: Entry, padding: string, path: string)
    requires IsGitEntry(e, path) && IsSpaces(padding)
    ensures Words(PrintMeta(e, padding)) == [e.mode, e.kind, e.sha, SizeText(e.size)]
  {
    var size := SizeText(e.size);
    SizeRoundTrip(e.size);
    FirstWord(size, "");
    assert size + "" == size;
    SkipBlank(padding, size);
    NextWord(e.sha, padding + size);
    NextWord(e.kind, e.sha + " " + (padding + size));
    NextWord(e.mode, e.kind + " " + (e.sha + " " + (padding + size)));
  }

  lemma {:induction false} MetaChars(e: Entry, padding: string, path: string)
    requires IsGitEntry(e, path) && IsSpaces(padding)
    ensures '\t' !in PrintMeta(e, padding) && NUL !in PrintMeta(e, padding)
  {
  }

  /** A printed entry is read back as itself, tabs in its name included. */
  lemma {:induction false} EntryRoundTrip(e: Entry, padding: string, path: string)
    requires IsGitEntry(e, path) && IsSpaces(padding)
    ensures ReadEntry(PrintEntry(e, padding), path) == Some(e)
    ensures NUL !in PrintEntry(e, padding) && PrintEntry(e, padding) != ""
  {
    var meta, record := PrintMeta(e, padding), PrintEntry(e, padding);
    SizeRoundTrip(e.size);
    MetaIsRead(e, padding, path);
    MetaChars(e, padding, path);
    FirstAtOf(meta, '\t', e.name);
    assert record[..|meta|] == meta && record[|meta| + 1..] == e.name;
  }

  ghost predicate PrintsOne(e: Entry, path: string, record: string) {
    IsGitEntry(e, path) && exists padding :: IsSpaces(padding) && record == PrintEntry(e, padding)
  }

  ghost predicate Prints(entries: seq<Entry>, path: string, records: seq<string>) {
    && |records| == |entries|
    && forall i | 0 <= i < |entries| :: PrintsOne(entries[i], path, records[i])
  }

  lemma {:induction false} DashForNoSize()
    ensures SizeText(None) == "-"
  {
  }

  lemma {:induction false} PrintedIsRead(e: Entry, path: string, record: string)
    requires PrintsOne(e, path, record)
    ensures ReadEntry(record, path) == Some(e) && NUL !in record && record != ""
  {
    var padding :| IsSpaces(padding) && record == PrintEntry(e, padding);
    EntryRoundTrip(e, padding, path);
  }

  lemma {:induction false} AllValues<S, T>(items: seq<S>, f: S -> Option<T>, values: seq<T>)
    requires |items| == |values| && forall i | 0 <= i < |items| :: f(items[i]) == Some(values[i])
    ensures FilterMap(items, f) == values
  {
    if items != [] {
      var n := |items| - 1;
      AllValues(items[..n], f, values[..n]);
      assert values == values[..n] + [values[n]];
    }
  }

  lemma {:induction false} PrintedAreRead(entries: seq<Entry>, path: string, records: seq<string>)
    requires Prints(entries, path, records)
    ensures ReadEntries(records, path) == entries && Free(records, NUL)
  {
    forall i | 0 <= i < |records|
      ensures Reader(path)(records[i]) == Some(entries[i]) && NUL !in records[i]
    {
      PrintedIsRead(entries[i], path, records[i]);
    }
    AllValues(records, Reader(path), entries);
  }

  lemma {:induction false} EmptyRecordIgnored(records: seq<string>, path: string)
    ensures ReadEntries(records + [""], path) == ReadEntries(records, path)
  {
  }

  /** What `ls-tree -z` prints: each record NUL-terminated. */
  function PrintTree(records: seq<string>): string {
    if records == [] then "" else Join(records, NUL) + [NUL]
  }

  /** For every directory, what `ls-tree -z` prints is listed as a permutation of its entries, in order. */
  lemma {:induction false} DirectoryRoundTrip(entries: seq<Entry>, path: string, records: seq<string>)
    requires Prints(entries, path, records)
    ensures var listed := Sort(ReadEntries(Split(PrintTree(records), NUL), path), EntryNoLater);
            multiset(listed) == multiset(entries) && SortedBy(listed, EntryNoLater)
  {
    PrintedAreRead(entries, path, records);
    if records != [] {
      JoinTerminated(records, NUL);
    }
    SplitOfJoin(records + [""], NUL);
    assert records == [] ==> records + [""] == [""];
    EmptyRecordIgnored(records, path);
    EntryOrder();
    SortSorts(entries, EntryNoLater);
  }
}
