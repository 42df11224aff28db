/**
 Migration of GitLab's nested namespaces into rgit's flat list: a forest of parent links
 becomes a list of namespaces with collision-safe paths. Texts are UTF-8 byte strings.
 */
module Flatten {
  import opened Prelude
  import opened Numerals

  type Text = Bytes

  /** A PostgreSQL bigint. */
  type Id = i: int | -0x8000_0000_0000_0000 <= i < 0x8000_0000_0000_0000

  datatype Kind = User | Group

  datatype RawNamespace = RawNamespace(
    id: Id, name: Text, path: Text, kind: Kind, owner: Option<Id>, parent: Option<Id>)

  datatype GlNamespace = GlNamespace(
    id: Id, name: Text, path: Text, kind: Kind, owner: Option<Id>, ancestry: seq<Id>)

  datatype FlattenError =
    | ParentCycle(at: Id)
    | MissingParent(namespace: Id, missing: Id)
    | NonGroupAncestor(namespace: Id, ancestor: Id)
    | PathCollision(namespace: Id)

  type Forest = map<Id, RawNamespace>

  /** The rows by id; of rows with the same id the last one stays. */
  function ById(raw: seq<RawNamespace>): Forest {
    if raw == [] then map[] else ById(raw[..|raw| - 1])[raw[|raw| - 1].id := raw[|raw| - 1]]
  }

  /** The id is the primary key of the table the rows come from. */
  ghost predicate DistinctIds(raw: seq<RawNamespace>) {
    forall i, j | 0 <= i < j < |raw| :: raw[i].id != raw[j].id
  }

  lemma {:induction false} ByIdFacts(raw: seq<RawNamespace>)
    ensures forall id | id in ById(raw) :: ById(raw)[id].id == id && ById(raw)[id] in raw
    ensures forall r | r in raw :: r.id in ById(raw)
    ensures DistinctIds(raw) ==> forall r | r in raw :: ById(raw)[r.id] == r
  {
    if raw != [] {
      ByIdFacts(raw[..|raw| - 1]);
      assert raw == raw[..|raw| - 1] + [raw[|raw| - 1]];
      forall r | r in raw && DistinctIds(raw)
        ensures ById(raw)[r.id] == r
      {
        var i :| 0 <= i < |raw| && raw[i] == r;
      }
    }
  }

  // ---------------------------------------------------------------- parent chains

  /** The root-to-self chain of group ids along parent links. */
  ghost predicate IsChain(f: Forest, chain: seq<Id>, id: Id) {
    && |chain| > 0 && chain[|chain| - 1] == id
    && (forall i | 0 <= i < |chain| :: chain[i] in f && f[chain[i]].kind == Group)
    && f[chain[0]].parent == None
    && (forall i | 0 < i < |chain| :: f[chain[i]].parent == Some(chain[i - 1]))
  }

  lemma {:induction false} ChainUnique(f: Forest, a: seq<Id>, b: seq<Id>, id: Id)
    requires IsChain(f, a, id) && IsChain(f, b, id)
    ensures a == b
  {
    if |a| > 1 || |b| > 1 {
      var m, n := |a| - 1, |b| - 1;
      assert a[m] == id && b[n] == id;
      assert |a| > 1 ==> f[a[m]].parent == Some(a[m - 1]);
      assert |b| > 1 ==> f[b[n]].parent == Some(b[n - 1]);
      assert |a| > 1 && |b| > 1;
      ChainUnique(f, a[..m], b[..n], a[m - 1]);
      assert a == a[..m] + [id] && b == b[..n] + [id];
    }
  }

  /** The n-th ancestor along parent links, 0 being the namespace itself. */
  function Up(f: Forest, id: Id, n: nat): Option<Id> {
    if n == 0 then Some(id)
    else match Up(f, id, n - 1)
      case None => None
      case Some(x) => if x in f then f[x].parent else None
  }

  lemma {:induction false} ChainIsUp(f: Forest, chain: seq<Id>, id: Id, n: nat)
    requires IsChain(f, chain, id)
    ensures Up(f, id, n) == if n < |chain| then Some(chain[|chain| - 1 - n]) else None
  {
    if n > 0 {
      ChainIsUp(f, chain, id, n - 1);
    }
  }

  /** A walk that repeats, leaves the forest or meets a user namespace proves there is no chain. */
  lemma {:induction false} NoChain(f: Forest, chain: seq<Id>, id: Id, k: nat, x: Id)
    requires Up(f, id, k) == Some(x)
    requires (exists j | 0 <= j < k :: Up(f, id, j) == Some(x)) || x !in f || f[x].kind != Group
    ensures !IsChain(f, chain, id)
  {
    if IsChain(f, chain, id) {
      var n := |chain|;
      ChainIsUp(f, chain, id, k);
      var j :| 0 <= j < k && Up(f, id, j) == Some(x);
      ChainIsUp(f, chain, id, j);
      ChainUnique(f, chain[..n - j], chain[..n - k], x);
    }
  }

  /** The namespace and its first ancestors, all of them different groups. */
  ghost predicate IsWalk(f: Forest, id: Id, walk: seq<Id>) {
    && (forall i | 0 <= i < |walk| :: Up(f, id, i) == Some(walk[i]) && walk[i] in f && f[walk[i]].kind == Group)
    && (forall i, j | 0 <= i < j < |walk| :: walk[i] != walk[j])
  }

  /** The next ancestor is one of the walk, missing or no group, and the error says so. */
  ghost predicate FailsAfter(f: Forest, id: Id, walk: seq<Id>, error: FlattenError) {
    && IsWalk(f, id, walk) && Up(f, id, |walk|).Some?
    && var x := Up(f, id, |walk|).value;
       if x in walk then error == ParentCycle(x)
       else if x !in f then error == MissingParent(id, x)
       else f[x].kind != Group && error == NonGroupAncestor(id, x)
  }

  lemma {:induction false} FailsNoEarlier(f: Forest, id: Id, a: seq<Id>, e: FlattenError, b: seq<Id>)
    requires FailsAfter(f, id, a, e) && IsWalk(f, id, b)
    ensures |b| <= |a| && b == a[..|b|]
  {
    assert forall i | 0 <= i < |a| && i < |b| :: Up(f, id, i) == Some(a[i]) && Up(f, id, i) == Some(b[i]);
  }

  /** A walk fails at one ancestor only, and with one error. */
  lemma {:induction false} FailsOnce(f: Forest, id: Id, a: seq<Id>, e: FlattenError, b: seq<Id>, d: FlattenError)
    requires FailsAfter(f, id, a, e) && FailsAfter(f, id, b, d)
    ensures a == b && e == d
  {
    FailsNoEarlier(f, id, a, e, b);
    FailsNoEarlier(f, id, b, d, a);
  }

  lemma {:induction false} FailureMeansNoChain(f: Forest, id: Id, walk: seq<Id>, error: FlattenError)
    requires FailsAfter(f, id, walk, error)
    ensures forall chain :: !IsChain(f, chain, id)
  {
    var x := Up(f, id, |walk|).value;
    assert x in walk ==> exists j | 0 <= j < |walk| :: Up(f, id, j) == Some(x);
    forall chain
      ensures !IsChain(f, chain, id)
    {
      NoChain(f, chain, id, |walk|, x);
    }
  }

  method ResolveChain(f: Forest, namespace: RawNamespace) returns (r: Result<seq<Id>, FlattenError>)
    ensures r.Ok? ==> IsChain(f, r.value, namespace.id)
    ensures r.Err? ==> !r.error.PathCollision? && exists walk :: FailsAfter(f, namespace.id, walk, r.error)
    ensures r.Err? ==> forall chain :: !IsChain(f, chain, namespace.id)
  {
    var chain: seq<Id> := [];
    var current: Option<Id> := Some(namespace.id);
    var seen: set<Id> := {};
    while current.Some?
      invariant IsWalk(f, namespace.id, chain)
      invariant current == Up(f, namespace.id, |chain|)
      invariant seen == set x | x in chain
      invariant seen <= f.Keys
      decreases f.Keys - seen, current.Some?
    {
      var id := current.value;
      if id in seen {
        r := Err(ParentCycle(id));
        FailureMeansNoChain(f, namespace.id, chain, r.error);
        assert FailsAfter(f, namespace.id, chain, r.error);
        return;
      }
      if id !in f {
        r := Err(MissingParent(namespace.id, id));
        FailureMeansNoChain(f, namespace.id, chain, r.error);
        assert FailsAfter(f, namespace.id, chain, r.error);
        return;
      }
      if f[id].kind != Group {
        r := Err(NonGroupAncestor(namespace.id, id));
        FailureMeansNoChain(f, namespace.id, chain, r.error);
        assert FailsAfter(f, namespace.id, chain, r.error);
        return;
      }
      seen := seen + {id};
      chain := chain + [id];
      current := f[id].parent;
    }
    var reversed := seq(|chain|, i requires 0 <= i < |chain| => chain[|chain| - 1 - i]);
    ReversedWalk(f, namespace.id, chain, reversed);
    r := Ok(reversed);
  }

  lemma {:induction false} ReversedWalk(f: Forest, id: Id, walk: seq<Id>, chain: seq<Id>)
    requires |chain| == |walk| && forall i | 0 <= i < |walk| :: chain[i] == walk[|walk| - 1 - i]
    requires forall i | 0 <= i < |walk| :: Up(f, id, i) == Some(walk[i]) && walk[i] in f && f[walk[i]].kind == Group
    requires Up(f, id, |walk|) == None
    ensures IsChain(f, chain, id)
  {
  }

  // ---------------------------------------------------------------- unflattened paths

  const SEPARATOR: Text := [45, 45]

  function Code(c: char): Byte {
    if c as int < 128 then c as int else 63
  }

  /** An ASCII string as bytes. */
  function Ascii(s: string): (t: Text)
    ensures |t| == |s| && forall i | 0 <= i < |s| :: t[i] == Code(s[i])
  {
    seq(|s|, i requires 0 <= i < |s| => Code(s[i]))
  }

  function JoinPath(f: Forest, chain: seq<Id>): Text
    requires forall i | 0 <= i < |chain| :: chain[i] in f
  {
    if chain == [] then []
    else if |chain| == 1 then f[chain[0]].path
    else JoinPath(f, chain[..|chain| - 1]) + SEPARATOR + f[chain[|chain| - 1]].path
  }

  datatype Resolved = Resolved(ns: RawNamespace, base: Text, ancestry: seq<Id>, depth: nat)

  ghost predicate IsResolved(f: Forest, r: Resolved) {
    match r.ns.kind
    case User => r.base == r.ns.path && r.ancestry == [] && r.depth == 0
    case Group => IsChain(f, r.ancestry, r.ns.id) && r.base == JoinPath(f, r.ancestry) && r.depth == |r.ancestry|
  }

  /** Every namespace of the forest with its unflattened path, ancestry and depth. */
  ghost predicate Resolves(f: Forest, e: map<Id, Resolved>) {
    && e.Keys == f.Keys
    && (forall id | id in e :: e[id].ns == f[id] && f[id].id == id && IsResolved(f, e[id]))
  }

  /**
   The unflattened path, without the recursion: a root group's is its own path, a nested group's is its
   parent's, two dashes and its own path. The depth counts the groups on the way.
   */
  lemma {:induction false} BaseFollowsParents(f: Forest, e: map<Id, Resolved>, id: Id)
    requires Resolves(f, e) && id in f
    ensures f[id].kind == User ==> e[id].base == f[id].path && e[id].depth == 0
    ensures f[id].kind == Group && f[id].parent == None ==> e[id].base == f[id].path && e[id].depth == 1
    ensures f[id].kind == Group && f[id].parent.Some? ==>
              var p := f[id].parent.value;
              && p in e && f[p].kind == Group && e[id].depth == e[p].depth + 1
              && e[id].base == e[p].base + [45, 45] + f[id].path
  {
    if f[id].kind == Group {
      var chain := e[id].ancestry;
      var n := |chain| - 1;
      if n == 0 {
        assert f[chain[0]].parent == None;
      } else {
        var p := chain[n - 1];
        assert f[chain[n]].parent == Some(p) && p in f;
        assert IsChain(f, chain[..n], p);
        ChainUnique(f, chain[..n], e[p].ancestry, p);
      }
    }
  }

  lemma {:induction false} ResolutionUnique(f: Forest, e1: map<Id, Resolved>, e2: map<Id, Resolved>)
    requires Resolves(f, e1) && Resolves(f, e2)
    ensures e1 == e2
  {
    forall id | id in f
      ensures e1[id] == e2[id]
    {
      ResolvedUnique(f, e1[id], e2[id]);
    }
  }

  lemma {:induction false} ResolvedUnique(f: Forest, a: Resolved, b: Resolved)
    requires IsResolved(f, a) && IsResolved(f, b) && a.ns == b.ns
    ensures a == b
  {
    if a.ns.kind == Group {
      ChainUnique(f, a.ancestry, b.ancestry, a.ns.id);
    }
  }

  // ---------------------------------------------------------------- the naming rule

  function LowerByte(b: Byte): Byte {
    if 65 <= b <= 90 then b + 32 else b
  }

  function Lower(t: Text): (r: Text)
    ensures |r| == |t| && forall i | 0 <= i < |t| :: r[i] == LowerByte(t[i])
  {
    seq(|t|, i requires 0 <= i < |t| => LowerByte(t[i]))
  }

  /** A position where a UTF-8 character starts, or the end. */
  predicate IsCharBoundary(t: Text, i: nat)
    requires i <= |t|
  {
    i == 0 || i == |t| || t[i] < 128 || t[i] >= 192
  }

  /** The last character boundary at or before i. */
  function FloorBoundary(t: Text, i: nat): (b: nat)
    requires i <= |t|
    ensures b <= i && IsCharBoundary(t, b)
    ensures forall j | b < j <= i :: !IsCharBoundary(t, j)
  {
    if IsCharBoundary(t, i) then i else FloorBoundary(t, i - 1)
  }

  /** Exactly the capital letters change, each to its small letter 32 places on. */
  lemma {:induction false} LowerIsAscii(b: Byte)
    ensures forall k | 0 <= k < 26 :: LowerByte(Ascii("ABCDEFGHIJKLMNOPQRSTUVWXYZ")[k])
                                      == Ascii("abcdefghijklmnopqrstuvwxyz")[k]
    ensures b !in Ascii("ABCDEFGHIJKLMNOPQRSTUVWXYZ") ==> LowerByte(b) == b
  {
    var capitals, small := Ascii("ABCDEFGHIJKLMNOPQRSTUVWXYZ"), Ascii("abcdefghijklmnopqrstuvwxyz");
    forall k | 0 <= k < 26
      ensures capitals[k] == 65 + k && small[k] == 97 + k
    {
    }
    assert 65 <= b <= 90 ==> capitals[b - 65] == b;
  }

  /** The length a UTF-8 character's first byte announces; 0 for a byte that begins none. */
  function Announced(b: Byte): nat {
    if b < 0x80 then 1 else if b < 0xC0 then 0 else if b < 0xE0 then 2 else if b < 0xF0 then 3 else 4
  }

  /** A character begins the text: its first byte and the continuation bytes that one announces. */
  predicate BeginsCharacter(t: Text) {
    && |t| > 0 && 1 <= Announced(t[0]) <= |t|
    && forall i | 1 <= i < Announced(t[0]) :: 0x80 <= t[i] < 0xC0
  }

  predicate IsUtf8(t: Text) {
    t == [] || (BeginsCharacter(t) && IsUtf8(t[Announced(t[0])..]))
  }

  /** In a UTF-8 text the boundaries are exactly the positions at which it can be cut into two UTF-8 texts. */
  lemma {:induction false} BoundariesCut(t: Text, i: nat)
    requires IsUtf8(t) && i <= |t|
    ensures IsCharBoundary(t, i) <==> IsUtf8(t[..i]) && IsUtf8(t[i..])
    decreases |t|
  {
    if i == 0 {
      assert t[..0] == [] && t[0..] == t;
    } else {
      var n := Announced(t[0]);
      if i < n {
        assert t[..i][0] == t[0];
        assert t[i..][0] == t[i];
      } else {
        BoundariesCut(t[n..], i - n);
        assert t[n..][i - n..] == t[i..] && t[..i][n..] == t[n..][..i - n] && t[..i][0] == t[0];
        assert i < |t| ==> t[n..][i - n] == t[i];
        if i == n {
          StartsCharacter(t[n..]);
          assert t[..i][n..] == [];
        }
      }
    }
  }

  lemma {:induction false} StartsCharacter(t: Text)
    requires IsUtf8(t)
    ensures IsCharBoundary(t, 0) && (t != [] ==> t[0] < 128 || t[0] >= 192)
  {
  }

  lemma {:induction false} FirstStays(a: Text, b: Text)
    requires BeginsCharacter(a)
    ensures BeginsCharacter(a + b) && (a + b)[0] == a[0]
    ensures (a + b)[Announced(a[0])..] == a[Announced(a[0])..] + b
  {
    var n, ab := Announced(a[0]), a + b;
    assert forall i | 0 <= i < n :: ab[i] == a[i];
  }

  lemma {:induction false} Utf8Concat(a: Text, b: Text)
    requires IsUtf8(a) && IsUtf8(b)
    ensures IsUtf8(a + b)
    decreases |a|
  {
    if a == [] {
      assert a + b == b;
    } else {
      Utf8Concat(a[Announced(a[0])..], b);
      FirstStays(a, b);
    }
  }

  lemma {:induction false} AsciiIsUtf8(t: Text)
    requires forall i | 0 <= i < |t| :: t[i] < 128
    ensures IsUtf8(t)
  {
    if t != [] {
      AsciiIsUtf8(t[1..]);
    }
  }

  /** A path that is cut and suffixed is still UTF-8. */
  lemma {:induction false} SuffixedIsUtf8(base: Text, id: Id)
    requires IsUtf8(base)
    ensures IsUtf8(Suffixed(base, id))
  {
    BoundariesCut(base, |Kept(base, id)|);
    assert base[..|Kept(base, id)|] == Kept(base, id);
    AsciiIsUtf8(Suffix(id));
    Utf8Concat(Kept(base, id), Suffix(id));
  }

  /** The suffix is two dashes and the id in decimal. */
  lemma {:induction false} SuffixShape(id: Id)
    ensures Suffix(id) == [45, 45] + Ascii(RenderInt(id))
    ensures id >= 0 ==> RenderInt(id) == Render(id)
    ensures id < 0 ==> RenderInt(id) == ['-'] + Render(0 - (id as int))
  {
  }

  function Suffix(id: Id): Text {
    SEPARATOR + Ascii(RenderInt(id))
  }

  /** The longest cut of the base at a character boundary that leaves room for the suffix. */
  function Suffixed(base: Text, id: Id): Text {
    Kept(base, id) + Suffix(id)
  }

  function Kept(base: Text, id: Id): Text {
    var room := if |Suffix(id)| <= 255 then 255 - |Suffix(id)| else 0;
    base[..FloorBoundary(base, Min(room, |base|))]
  }

  lemma {:induction false} SuffixedFits(base: Text, id: Id)
    ensures |Suffixed(base, id)| <= 255
  {
    assert Pow10(19) == 10_000_000_000_000_000_000 by { PowersOfTen(); }
    var n: int := id;
    RenderLength(if n < 0 then -n else n, 19);
  }

  lemma {:induction false} PowersOfTen()
    ensures Pow10(19) == 10_000_000_000_000_000_000
  {
    assert Pow10(5) == 100_000;
    assert Pow10(10) == 10_000_000_000;
    assert Pow10(15) == 1_000_000_000_000_000;
  }

  /** The order in which names are given: by depth, then by id. */
  predicate Before(a: Resolved, b: Resolved) {
    a.depth < b.depth || (a.depth == b.depth && a.ns.id < b.ns.id)
  }

  function Predecessors(e: map<Id, Resolved>, id: Id): set<Id>
    requires id in e
  {
    set m | m in e && Before(e[m], e[id])
  }

  /** Lower-cased paths of the namespaces named before this one. */
  ghost function Taken(e: map<Id, Resolved>, paths: map<Id, Text>, id: Id): set<Text>
    requires id in e && Predecessors(e, id) <= paths.Keys
  {
    set m | m in Predecessors(e, id) :: Lower(paths[m])
  }

  /** A path is changed only if it is too long or already taken. */
  function Choose(r: Resolved, taken: set<Text>): Text {
    if |r.base| > 255 || Lower(r.base) in taken then Suffixed(r.base, r.ns.id) else r.base
  }

  /** The names given to a set of namespaces that is closed under "named before". */
  ghost predicate IsNamingOn(e: map<Id, Resolved>, paths: map<Id, Text>, dom: set<Id>) {
    && dom <= e.Keys && dom <= paths.Keys
    && (forall id | id in dom ::
          && Predecessors(e, id) <= dom
          && paths[id] == Choose(e[id], Taken(e, paths, id))
          && Lower(paths[id]) !in Taken(e, paths, id))
  }

  ghost predicate IsNaming(e: map<Id, Resolved>, paths: map<Id, Text>) {
    paths.Keys == e.Keys && IsNamingOn(e, paths, e.Keys)
  }

  lemma {:induction false} NamingAgrees(e: map<Id, Resolved>, p: map<Id, Text>, q: map<Id, Text>,
                                        dom: set<Id>, id: Id)
    requires IsNamingOn(e, p, dom) && IsNamingOn(e, q, dom) && id in dom
    ensures p[id] == q[id]
    decreases Predecessors(e, id)
  {
    forall m | m in Predecessors(e, id)
      ensures p[m] == q[m]
    {
      assert m !in Predecessors(e, m) && m in Predecessors(e, id);
      NamingAgrees(e, p, q, dom, m);
    }
    assert Taken(e, p, id) == Taken(e, q, id);
  }

  /** The naming is a function of the forest. */
  lemma {:induction false} NamingUnique(e: map<Id, Resolved>, p: map<Id, Text>, q: map<Id, Text>)
    requires IsNaming(e, p) && IsNaming(e, q)
    ensures p == q
  {
    forall id | id in e
      ensures p[id] == q[id]
    {
      NamingAgrees(e, p, q, e.Keys, id);
    }
  }

  /** Lower-cased paths are pairwise distinct and at most 255 bytes long. */
  lemma {:induction false} NamesDistinctAndShort(f: Forest, e: map<Id, Resolved>, paths: map<Id, Text>)
    requires Resolves(f, e) && IsNaming(e, paths)
    ensures forall id | id in e :: |paths[id]| <= 255
    ensures forall a, b | a in e && b in e && a != b :: Lower(paths[a]) != Lower(paths[b])
  {
    forall id | id in e
      ensures |paths[id]| <= 255
    {
      SuffixedFits(e[id].base, id);
    }
    forall a, b | a in e && b in e && a != b
      ensures Lower(paths[a]) != Lower(paths[b])
    {
      assert a in Predecessors(e, b) || b in Predecessors(e, a);
    }
  }

  /** What a suffixed path looks like once lower-cased: it ends in a dash and the digits of the id. */
  lemma {:induction false} LowerOfSuffixed(base: Text, id: Id)
    requires id >= 0
    ensures Lower(Suffixed(base, id)) == Lower(Kept(base, id)) + [45] + [45] + Ascii(Render(id))
    ensures 45 !in Ascii(Render(id))
  {
  }

  lemma {:induction false} AsciiOfDigitsInjective(s: string, t: string)
    requires AllDigits(s) && AllDigits(t) && Ascii(s) == Ascii(t)
    ensures s == t
  {
  }

  lemma {:induction false} SuffixTellsId(c: Text, m: Id, d: Text, n: Id)
    requires m >= 0 && n >= 0
    requires Lower(Suffixed(c, m)) == Lower(Suffixed(d, n))
    ensures m == n
  {
    LowerOfSuffixed(c, m);
    LowerOfSuffixed(d, n);
    SplitAtLast(Lower(Kept(c, m)) + [45], Ascii(Render(m)), Lower(Kept(d, n)) + [45], Ascii(Render(n)), 45);
    AsciiOfDigitsInjective(Render(m), Render(n));
    RenderInjective(m, n);
  }

  /** All namespaces before this one have their names, and its own is one of theirs. */
  ghost predicate StopsAt(e: map<Id, Resolved>, paths: map<Id, Text>, id: Id) {
    && id in e && IsNamingOn(e, paths, Predecessors(e, id))
    && Lower(Choose(e[id], Taken(e, paths, id))) in Taken(e, paths, id)
  }

  /** Where naming stops, no naming gets past it. */
  lemma {:induction false} StopsEveryNaming(e: map<Id, Resolved>, p: map<Id, Text>, id: Id,
                                            q: map<Id, Text>, dom: set<Id>)
    requires StopsAt(e, p, id) && IsNamingOn(e, q, dom)
    ensures id !in dom
  {
    if id in dom {
      PrefixNaming(e, q, dom, id);
      SameTaken(e, p, q, id);
    }
  }

  lemma {:induction false} SameTaken(e: map<Id, Resolved>, p: map<Id, Text>, q: map<Id, Text>, id: Id)
    requires id in e && IsNamingOn(e, p, Predecessors(e, id)) && IsNamingOn(e, q, Predecessors(e, id))
    ensures Taken(e, p, id) == Taken(e, q, id)
  {
    forall m | m in Predecessors(e, id)
      ensures p[m] == q[m]
    {
      NamingAgrees(e, p, q, Predecessors(e, id), m);
    }
  }

  lemma {:induction false} PrefixNaming(e: map<Id, Resolved>, q: map<Id, Text>, dom: set<Id>, id: Id)
    requires IsNamingOn(e, q, dom) && id in dom
    ensures IsNamingOn(e, q, Predecessors(e, id))
  {
  }

  /** Naming stops at one namespace at most. */
  lemma {:induction false} StopsOnce(e: map<Id, Resolved>, p: map<Id, Text>, id: Id, q: map<Id, Text>, at: Id)
    requires StopsAt(e, p, id) && StopsAt(e, q, at) && e[id].ns.id == id && e[at].ns.id == at
    ensures id == at
  {
    StopsEveryNaming(e, p, id, q, Predecessors(e, at));
    StopsEveryNaming(e, q, at, p, Predecessors(e, id));
  }

  lemma {:induction false} NamedAs(e: map<Id, Resolved>, paths: map<Id, Text>, dom: set<Id>, m: Id)
    requires IsNamingOn(e, paths, dom) && m in dom && e[m].ns.id == m
    ensures paths[m] == e[m].base || paths[m] == Suffixed(e[m].base, m)
  {
  }

  /**
   Naming gets stuck at a namespace only when its suffixed path meets the unsuffixed path of an
   earlier namespace (ids being non-negative, as a sequence makes them).
   */
  lemma {:induction false} StuckOnlyOnUnsuffixed(f: Forest, e: map<Id, Resolved>, paths: map<Id, Text>, id: Id)
    returns (m: Id)
    requires Resolves(f, e) && StopsAt(e, paths, id)
    requires forall i | i in e :: i >= 0
    ensures Choose(e[id], Taken(e, paths, id)) == Suffixed(e[id].base, id)
    ensures m in Predecessors(e, id) && paths[m] == e[m].base
    ensures Lower(paths[m]) == Lower(Suffixed(e[id].base, id))
  {
    var name := Choose(e[id], Taken(e, paths, id));
    m :| m in Predecessors(e, id) && Lower(paths[m]) == Lower(name);
    NamedAs(e, paths, Predecessors(e, id), m);
    if paths[m] != e[m].base {
      SuffixTellsId(e[m].base, m, e[id].base, id);
    }
  }

  /** With a negative id, two different namespaces' suffixed paths can be the same. */
  lemma {:induction false} NegativeIdsCollide()
    ensures Suffixed([97], -5) == Suffixed([97, 45], 5)
  {
  }

  // ---------------------------------------------------------------- the result

  function Flat(r: Resolved, path: Text): GlNamespace {
    GlNamespace(r.ns.id, r.ns.name, path, r.ns.kind, r.ns.owner, r.ancestry)
  }

  ghost predicate StrictlyById(out: seq<GlNamespace>) {
    forall i, j | 0 <= i < j < |out| :: out[i].id < out[j].id
  }

  /** The flat list of a forest: its namespaces in id order, each with its chain and its name. */
  ghost predicate IsFlattening(f: Forest, e: map<Id, Resolved>, paths: map<Id, Text>, out: seq<GlNamespace>) {
    Resolves(f, e) && IsNaming(e, paths) && Renders(e, paths, out)
  }

  ghost predicate Renders(e: map<Id, Resolved>, paths: map<Id, Text>, out: seq<GlNamespace>)
    requires paths.Keys == e.Keys
  {
    && StrictlyById(out)
    && (forall i | 0 <= i < |out| :: out[i].id in e && out[i] == Flat(e[out[i].id], paths[out[i].id]))
    && (forall id | id in e :: Flat(e[id], paths[id]) in out)
  }

  predicate Increasing(ids: seq<int>) {
    forall i, j | 0 <= i < j < |ids| :: ids[i] < ids[j]
  }

  lemma {:induction false} LastIsLargest(ids: seq<int>)
    requires Increasing(ids) && ids != []
    ensures forall x | x in ids :: x <= ids[|ids| - 1]
    ensures forall x :: x in ids[..|ids| - 1] <==> x in ids && x != ids[|ids| - 1]
    ensures Increasing(ids[..|ids| - 1])
  {
  }

  lemma {:induction false} IncreasingEqual(a: seq<int>, b: seq<int>)
    requires Increasing(a) && Increasing(b)
    requires forall x :: x in a <==> x in b
    ensures a == b
  {
    if |a| > 0 {
      assert a[0] in a;
    }
    if |b| > 0 {
      assert b[0] in b;
    }
    if a != [] {
      var m, n := |a| - 1, |b| - 1;
      LastIsLargest(a);
      LastIsLargest(b);
      assert a[m] in a && b[n] in b;
      assert a[m] == b[n];
      forall x
        ensures x in a[..m] <==> x in b[..n]
      {
        assert x in a[..m] <==> x in a && x != a[m];
        assert x in b[..n] <==> x in b && x != b[n];
      }
      IncreasingEqual(a[..m], b[..n]);
      assert a == a[..m] + [a[m]] && b == b[..n] + [b[n]];
    }
  }

  function IdsOf(out: seq<GlNamespace>): (ids: seq<int>)
    ensures |ids| == |out| && forall i | 0 <= i < |out| :: ids[i] == out[i].id
  {
    seq(|out|, i requires 0 <= i < |out| => out[i].id)
  }

  lemma {:induction false} IdsOfList(e: map<Id, Resolved>, paths: map<Id, Text>, out: seq<GlNamespace>)
    requires paths.Keys == e.Keys && Renders(e, paths, out)
    requires forall id | id in e :: e[id].ns.id == id
    ensures Increasing(IdsOf(out)) && forall x :: x in IdsOf(out) <==> x in e.Keys
  {
  }

  /** A forest has at most one flattening. */
  lemma {:induction false} FlatteningUnique(f: Forest, e1: map<Id, Resolved>, p1: map<Id, Text>, out1: seq<GlNamespace>,
                                            e2: map<Id, Resolved>, p2: map<Id, Text>, out2: seq<GlNamespace>)
    requires IsFlattening(f, e1, p1, out1) && IsFlattening(f, e2, p2, out2)
    ensures out1 == out2
  {
    ResolutionUnique(f, e1, e2);
    NamingUnique(e1, p1, p2);
    IdsOfList(e1, p1, out1);
    IdsOfList(e2, p2, out2);
    IncreasingEqual(IdsOf(out1), IdsOf(out2));
    forall i | 0 <= i < |out1|
      ensures i < |out2| && out1[i] == out2[i]
    {
      assert IdsOf(out1)[i] == IdsOf(out2)[i];
    }
  }

  /** The order of the input rows does not matter: permuted rows index to the same forest. */
  lemma {:induction false} InputOrderIrrelevant(raw1: seq<RawNamespace>, raw2: seq<RawNamespace>)
    requires multiset(raw1) == multiset(raw2) && DistinctIds(raw1)
    ensures DistinctIds(raw2) && ById(raw1) == ById(raw2)
  {
    PermutationFacts(raw1, raw2);
    DistinctFromMultiset(raw1, raw2);
    ByIdFacts(raw1);
    forall i, j | 0 <= i < j < |raw2|
      ensures raw2[i].id != raw2[j].id
    {
      assert raw2[i] in raw1 && raw2[j] in raw1;
    }
    ByIdFacts(raw2);
    assert forall id | id in ById(raw1) :: ById(raw1)[id] in raw2;
    assert forall id | id in ById(raw2) :: ById(raw2)[id] in raw1;
  }

  /** The flat list holds exactly the forest's ids; groups keep their chain, users have none. */
  lemma {:induction false} FlatListKeepsAncestry(f: Forest, e: map<Id, Resolved>, paths: map<Id, Text>,
                                                 out: seq<GlNamespace>)
    requires IsFlattening(f, e, paths, out)
    ensures forall id :: id in f <==> exists i :: 0 <= i < |out| && out[i].id == id
    ensures forall i | 0 <= i < |out| ::
              if out[i].kind == User then out[i].ancestry == [] else IsChain(f, out[i].ancestry, out[i].id)
  {
    forall id | id in f
      ensures exists i :: 0 <= i < |out| && out[i].id == id
    {
      assert Flat(e[id], paths[id]) in out;
    }
  }

  /** Its paths are at most 255 bytes long and distinct up to ASCII case. */
  lemma {:induction false} FlatListPathsDistinct(f: Forest, e: map<Id, Resolved>, paths: map<Id, Text>,
                                                 out: seq<GlNamespace>)
    requires IsFlattening(f, e, paths, out)
    ensures forall i | 0 <= i < |out| :: |out[i].path| <= 255
    ensures forall i, j | 0 <= i < j < |out| :: Lower(out[i].path) != Lower(out[j].path)
  {
    NamesDistinctAndShort(f, e, paths);
    forall i, j | 0 <= i < j < |out|
      ensures Lower(out[i].path) != Lower(out[j].path)
    {
      assert out[i].id < out[j].id;
    }
  }

  /** Where neither a group nor its parent was renamed, the group's path is its parent's, two dashes and its own. */
  lemma {:induction false} FlatPathOfChild(f: Forest, e: map<Id, Resolved>, paths: map<Id, Text>,
                                           out: seq<GlNamespace>, i: nat, j: nat)
    requires IsFlattening(f, e, paths, out) && i < |out| && j < |out|
    requires out[i].kind == Group && f[out[i].id].parent == Some(out[j].id)
    requires out[i].path == e[out[i].id].base && out[j].path == e[out[j].id].base
    ensures out[i].path == out[j].path + [45, 45] + f[out[i].id].path
    ensures out[i].name == f[out[i].id].name && out[i].owner == f[out[i].id].owner
  {
    BaseFollowsParents(f, e, out[i].id);
  }

  lemma {:induction false} NameWasTaken(e: map<Id, Resolved>, paths: map<Id, Text>, id: Id)
    requires IsNaming(e, paths) && id in e && paths[id] != e[id].base && |e[id].base| <= 255
    ensures exists m :: m in Predecessors(e, id) && Lower(paths[m]) == Lower(e[id].base)
  {
  }

  /** A path differs from the joined one only when that is too long or taken by a namespace named before. */
  lemma {:induction false} NoNeedlessRenaming(f: Forest, e: map<Id, Resolved>, paths: map<Id, Text>,
                                              out: seq<GlNamespace>, i: nat) returns (j: nat)
    requires IsFlattening(f, e, paths, out) && i < |out|
    requires out[i].path != e[out[i].id].base && |e[out[i].id].base| <= 255
    ensures j < |out| && Before(e[out[j].id], e[out[i].id])
    ensures Lower(out[j].path) == Lower(e[out[i].id].base)
  {
    var id := out[i].id;
    NameWasTaken(e, paths, id);
    var m :| m in Predecessors(e, id) && Lower(paths[m]) == Lower(e[id].base);
    assert Flat(e[m], paths[m]) in out;
    j :| j < |out| && out[j] == Flat(e[m], paths[m]);
  }

  // ---------------------------------------------------------------- the algorithm

  lemma {:induction false} NeedsChain(f: Forest, e: map<Id, Resolved>, id: Id)
    requires Resolves(f, e) && id in f && f[id].kind == Group
    ensures IsChain(f, e[id].ancestry, id)
  {
  }

  /** The resolved rows, in input order. */
  ghost predicate Lists(raw: seq<RawNamespace>, resolved: seq<Resolved>, e: map<Id, Resolved>) {
    |resolved| == |raw| && forall i | 0 <= i < |raw| :: raw[i].id in e && resolved[i] == e[raw[i].id]
  }

  method ResolveOne(namespace: RawNamespace, f: Forest) returns (r: Result<Resolved, FlattenError>)
    requires namespace.id in f && f[namespace.id] == namespace
    ensures r.Ok? ==> r.value.ns == namespace && IsResolved(f, r.value)
    ensures r.Ok? && namespace.kind == Group ==> HasChain(f, namespace.id)
    ensures r.Err? ==> namespace.kind == Group && exists walk :: FailsAfter(f, namespace.id, walk, r.error)
    ensures r.Err? ==> !r.error.PathCollision? && forall e :: !Resolves(f, e)
  {
    if namespace.kind == User {
      return Ok(Resolved(namespace, namespace.path, [], 0));
    }
    var chain := ResolveChain(f, namespace);
    if chain.Err? {
      forall e: map<Id, Resolved>
        ensures !Resolves(f, e)
      {
        if Resolves(f, e) {
          NeedsChain(f, e, namespace.id);
        }
      }
      return Err(chain.error);
    }
    r := Ok(Resolved(namespace, JoinPath(f, chain.value), chain.value, |chain.value|));
  }

  ghost predicate ResolvedSoFar(raw: seq<RawNamespace>, f: Forest, k: nat, resolved: seq<Resolved>,
                                e: map<Id, Resolved>)
    requires k <= |raw|
  {
    && |resolved| == k
    && e.Keys == (set i | 0 <= i < k :: raw[i].id)
    && (forall i | 0 <= i < k :: raw[i].id in e && resolved[i] == e[raw[i].id])
    && (forall id | id in e :: id in f && f[id].id == id && e[id].ns == f[id] && IsResolved(f, e[id]))
  }

  lemma {:induction false} ResolveStep(raw: seq<RawNamespace>, f: Forest, k: nat, resolved: seq<Resolved>,
                                       e: map<Id, Resolved>, entry: Resolved)
    requires DistinctIds(raw) && k < |raw| && ResolvedSoFar(raw, f, k, resolved, e)
    requires entry.ns == raw[k] && raw[k].id in f && f[raw[k].id] == raw[k] && IsResolved(f, entry)
    ensures ResolvedSoFar(raw, f, k + 1, resolved + [entry], e[raw[k].id := entry])
  {
  }

  /** Row k is the first whose parent walk fails, and the error is that walk's. */
  ghost predicate FirstFailure(raw: seq<RawNamespace>, f: Forest, k: nat, error: FlattenError) {
    && k < |raw| && raw[k].kind == Group && (exists walk :: FailsAfter(f, raw[k].id, walk, error))
    && ChainsUpTo(raw, f, k)
  }

  ghost predicate HasChain(f: Forest, id: Id) {
    exists chain :: IsChain(f, chain, id)
  }

  ghost predicate ChainsUpTo(raw: seq<RawNamespace>, f: Forest, k: nat)
    requires k <= |raw|
  {
    forall i | 0 <= i < k && raw[i].kind == Group :: HasChain(f, raw[i].id)
  }

  method ResolveAll(raw: seq<RawNamespace>, f: Forest)
    returns (r: Result<seq<Resolved>, FlattenError>, ghost e: map<Id, Resolved>)
    requires DistinctIds(raw) && f == ById(raw)
    ensures r.Ok? ==> Resolves(f, e) && Lists(raw, r.value, e)
    ensures r.Err? ==> !r.error.PathCollision? && exists k :: FirstFailure(raw, f, k, r.error)
    ensures r.Err? ==> forall e' :: !Resolves(f, e')
  {
    ByIdFacts(raw);
    e := map[];
    var resolved: seq<Resolved> := [];
    for k := 0 to |raw|
      invariant ResolvedSoFar(raw, f, k, resolved, e)
      invariant ChainsUpTo(raw, f, k)
    {
      assert raw[k] in raw;
      var entry := ResolveOne(raw[k], f);
      if entry.Err? {
        assert FirstFailure(raw, f, k, entry.error);
        return Err(entry.error), e;
      }
      ResolveStep(raw, f, k, resolved, e, entry.value);
      e := e[raw[k].id := entry.value];
      resolved := resolved + [entry.value];
    }
    forall id | id in f
      ensures id in e
    {
      assert f[id] in raw;
    }
    r := Ok(resolved);
  }

  predicate NamedNoLater(a: Resolved, b: Resolved) {
    a.depth < b.depth || (a.depth == b.depth && a.ns.id <= b.ns.id)
  }

  predicate IdNoLater(a: GlNamespace, b: GlNamespace) {
    a.id <= b.id
  }

  /** All namespaces, in the order they are named. */
  ghost predicate Enumerates(e: map<Id, Resolved>, s: seq<Resolved>) {
    && (forall i | 0 <= i < |s| :: s[i].ns.id in e && e[s[i].ns.id] == s[i])
    && (forall id | id in e :: e[id] in s && e[id].ns.id == id)
    && (forall i, j | 0 <= i < j < |s| :: Before(s[i], s[j]))
  }

  lemma {:induction false} SortByDepthEnumerates(raw: seq<RawNamespace>, resolved: seq<Resolved>, f: Forest,
                                                 e: map<Id, Resolved>)
    requires DistinctIds(raw) && f == ById(raw) && Resolves(f, e) && Lists(raw, resolved, e)
    ensures Enumerates(e, Sort(resolved, NamedNoLater)) && |Sort(resolved, NamedNoLater)| == |raw|
  {
    var sorted := Sort(resolved, NamedNoLater);
    ByIdFacts(raw);
    SortSorts(resolved, NamedNoLater);
    PermutationFacts(resolved, sorted);
    forall i | 0 <= i < |resolved|
      ensures resolved[i].ns.id == raw[i].id && e[raw[i].id] == resolved[i]
    {
    }
    assert Distinct(resolved);
    DistinctFromMultiset(resolved, sorted);
    forall i | 0 <= i < |sorted|
      ensures sorted[i].ns.id in e && e[sorted[i].ns.id] == sorted[i]
    {
      var j :| 0 <= j < |resolved| && resolved[j] == sorted[i];
    }
    forall id | id in e
      ensures e[id] in sorted && e[id].ns.id == id
    {
      var i :| 0 <= i < |raw| && raw[i] == f[id];
      assert resolved[i] in sorted;
    }
    StrictlySorted(e, sorted);
  }

  lemma {:induction false} StrictlySorted(e: map<Id, Resolved>, s: seq<Resolved>)
    requires SortedBy(s, NamedNoLater) && Distinct(s)
    requires forall i | 0 <= i < |s| :: s[i].ns.id in e && e[s[i].ns.id] == s[i]
    ensures forall i, j | 0 <= i < j < |s| :: Before(s[i], s[j])
  {
  }

  /** Truncation to a character boundary, then the id. */
  method MakeRoom(base: Text, id: Id) returns (path: Text)
    ensures path == Suffixed(base, id)
  {
    var suffix := Suffix(id);
    var maxBase := if |suffix| <= 255 then 255 - |suffix| else 0;
    var boundary := Min(maxBase, |base|);
    while !IsCharBoundary(base, boundary)
      invariant 0 <= boundary <= |base|
      invariant FloorBoundary(base, boundary) == FloorBoundary(base, Min(maxBase, |base|))
      decreases boundary
    {
      boundary := boundary - 1;
    }
    path := base[..boundary] + suffix;
  }

  function IdsUpTo(s: seq<Resolved>, k: nat): set<Id>
    requires k <= |s|
  {
    set i | 0 <= i < k :: s[i].ns.id
  }

  function LowerSet(paths: map<Id, Text>): set<Text> {
    set id | id in paths :: Lower(paths[id])
  }

  /** The state of the naming loop after k namespaces. */
  ghost predicate NamedSoFar(e: map<Id, Resolved>, sorted: seq<Resolved>, k: nat, out: seq<GlNamespace>,
                             warnings: seq<Id>, used: set<Text>, paths: map<Id, Text>)
    requires k <= |sorted|
  {
    IsNamingOn(e, paths, paths.Keys) && Bookkept(e, sorted, k, out, warnings, used, paths)
  }

  ghost predicate Bookkept(e: map<Id, Resolved>, sorted: seq<Resolved>, k: nat, out: seq<GlNamespace>,
                           warnings: seq<Id>, used: set<Text>, paths: map<Id, Text>)
    requires k <= |sorted| && paths.Keys <= e.Keys
  {
    && |out| == k
    && paths.Keys == IdsUpTo(sorted, k)
    && used == LowerSet(paths)
    && (forall i | 0 <= i < k :: sorted[i].ns.id in paths && out[i] == Flat(sorted[i], paths[sorted[i].ns.id]))
    && (forall id | id in paths :: id in warnings <==> e[id].depth > 1 || paths[id] != e[id].base)
    && (forall id | id in warnings :: id in paths)
  }

  lemma {:induction false} UsedIsTaken(e: map<Id, Resolved>, sorted: seq<Resolved>, k: nat, out: seq<GlNamespace>,
                                       warnings: seq<Id>, used: set<Text>, paths: map<Id, Text>)
    requires Enumerates(e, sorted) && k < |sorted| && NamedSoFar(e, sorted, k, out, warnings, used, paths)
    ensures Predecessors(e, sorted[k].ns.id) == paths.Keys
    ensures used == Taken(e, paths, sorted[k].ns.id)
  {
  }

  /** One more name: the used paths, and the warnings, grow as they should. */
  lemma {:induction false} BookkeepingStep(e: map<Id, Resolved>, warnings: seq<Id>, paths: map<Id, Text>, id: Id,
                                           path: Text)
    requires id in e && id !in paths && paths.Keys <= e.Keys
    requires forall m | m in paths :: m in warnings <==> e[m].depth > 1 || paths[m] != e[m].base
    requires forall m | m in warnings :: m in paths
    ensures var next := paths[id := path];
            var warned := if e[id].depth > 1 || path != e[id].base then warnings + [id] else warnings;
            && LowerSet(next) == LowerSet(paths) + {Lower(path)}
            && (forall m | m in next :: m in warned <==> e[m].depth > 1 || next[m] != e[m].base)
            && (forall m | m in warned :: m in next)
  {
    var next := paths[id := path];
    forall t | t in LowerSet(paths) + {Lower(path)}
      ensures t in LowerSet(next)
    {
      if t == Lower(path) {
        assert next[id] == path;
      } else {
        var m :| m in paths && Lower(paths[m]) == t;
        assert next[m] == paths[m];
      }
    }
  }

  /** One more name: the list grows as it should. */
  lemma {:induction false} ListStep(sorted: seq<Resolved>, k: nat, out: seq<GlNamespace>, paths: map<Id, Text>,
                                    path: Text)
    requires k < |sorted| && |out| == k && sorted[k].ns.id !in paths
    requires forall i | 0 <= i < k :: sorted[i].ns.id in paths && out[i] == Flat(sorted[i], paths[sorted[i].ns.id])
    ensures var next, more := paths[sorted[k].ns.id := path], out + [Flat(sorted[k], path)];
            forall i | 0 <= i < k + 1 :: sorted[i].ns.id in next && more[i] == Flat(sorted[i], next[sorted[i].ns.id])
  {
    var next, more := paths[sorted[k].ns.id := path], out + [Flat(sorted[k], path)];
    forall i | 0 <= i < k + 1
      ensures sorted[i].ns.id in next && more[i] == Flat(sorted[i], next[sorted[i].ns.id])
    {
      if i < k {
        assert more[i] == out[i] && sorted[i].ns.id in paths;
      }
    }
  }

  lemma {:induction false} IdsStep(sorted: seq<Resolved>, k: nat, paths: map<Id, Text>, path: Text)
    requires k < |sorted| && paths.Keys == IdsUpTo(sorted, k)
    ensures paths[sorted[k].ns.id := path].Keys == IdsUpTo(sorted, k + 1)
  {
    assert IdsUpTo(sorted, k + 1) == IdsUpTo(sorted, k) + {sorted[k].ns.id};
  }

  lemma {:induction false} OutputStep(e: map<Id, Resolved>, sorted: seq<Resolved>, k: nat, out: seq<GlNamespace>,
                                      warnings: seq<Id>, used: set<Text>, paths: map<Id, Text>, path: Text)
    requires k < |sorted| && paths.Keys <= e.Keys && Bookkept(e, sorted, k, out, warnings, used, paths)
    requires sorted[k].ns.id in e && e[sorted[k].ns.id] == sorted[k] && sorted[k].ns.id !in paths
    ensures var r := sorted[k];
            Bookkept(e, sorted, k + 1, out + [Flat(r, path)],
                     if r.depth > 1 || path != r.base then warnings + [r.ns.id] else warnings,
                     used + {Lower(path)}, paths[r.ns.id := path])
  {
    BookkeepingStep(e, warnings, paths, sorted[k].ns.id, path);
    ListStep(sorted, k, out, paths, path);
    IdsStep(sorted, k, paths, path);
  }

  lemma {:induction false} NameStep(e: map<Id, Resolved>, sorted: seq<Resolved>, k: nat, out: seq<GlNamespace>,
                                    warnings: seq<Id>, used: set<Text>, paths: map<Id, Text>, path: Text)
    requires Enumerates(e, sorted) && k < |sorted| && NamedSoFar(e, sorted, k, out, warnings, used, paths)
    requires path == Choose(sorted[k], used) && Lower(path) !in used
    ensures var r := sorted[k];
            NamedSoFar(e, sorted, k + 1, out + [Flat(r, path)],
                       if r.depth > 1 || path != r.base then warnings + [r.ns.id] else warnings,
                       used + {Lower(path)}, paths[r.ns.id := path])
  {
    var id := sorted[k].ns.id;
    UsedIsTaken(e, sorted, k, out, warnings, used, paths);
    assert id !in paths by { assert id !in Predecessors(e, id); }
    NamingGrows(e, paths, paths.Keys, id, path);
    assert paths[id := path].Keys == paths.Keys + {id};
    OutputStep(e, sorted, k, out, warnings, used, paths, path);
  }

  lemma {:induction false} NamingStuck(e: map<Id, Resolved>, sorted: seq<Resolved>, k: nat, out: seq<GlNamespace>,
                                       warnings: seq<Id>, used: set<Text>, paths: map<Id, Text>)
    requires Enumerates(e, sorted) && k < |sorted| && NamedSoFar(e, sorted, k, out, warnings, used, paths)
    requires Lower(Choose(sorted[k], used)) in used
    ensures StopsAt(e, paths, sorted[k].ns.id)
    ensures forall q :: !IsNaming(e, q)
  {
    UsedIsTaken(e, sorted, k, out, warnings, used, paths);
    forall q | IsNaming(e, q)
      ensures false
    {
      StopsEveryNaming(e, paths, sorted[k].ns.id, q, e.Keys);
    }
  }

  method NameAll(sorted: seq<Resolved>, ghost e: map<Id, Resolved>)
    returns (r: Result<seq<GlNamespace>, FlattenError>, warnings: seq<Id>, ghost paths: map<Id, Text>)
    requires Enumerates(e, sorted)
    ensures r.Ok? ==>
              && IsNaming(e, paths) && |r.value| == |sorted|
              && (forall i | 0 <= i < |sorted| ::
                    sorted[i].ns.id in paths && r.value[i] == Flat(sorted[i], paths[sorted[i].ns.id]))
              && (forall id | id in e :: id in warnings <==> e[id].depth > 1 || paths[id] != e[id].base)
    ensures r.Err? ==> r.error.PathCollision? && StopsAt(e, paths, r.error.namespace)
    ensures r.Err? ==> forall q :: !IsNaming(e, q)
  {
    var used: set<Text> := {};
    var namespaces: seq<GlNamespace> := [];
    warnings, paths := [], map[];
    for k := 0 to |sorted|
      invariant NamedSoFar(e, sorted, k, namespaces, warnings, used, paths)
    {
      var entry := sorted[k];
      var path := entry.base;
      if |path| > 255 || Lower(path) in used {
        path := MakeRoom(path, entry.ns.id);
      }
      if Lower(path) in used {
        NamingStuck(e, sorted, k, namespaces, warnings, used, paths);
        return Err(PathCollision(entry.ns.id)), warnings, paths;
      }
      NameStep(e, sorted, k, namespaces, warnings, used, paths, path);
      used := used + {Lower(path)};
      if entry.depth > 1 || path != entry.base {
        warnings := warnings + [entry.ns.id];
      }
      paths := paths[entry.ns.id := path];
      namespaces := namespaces + [Flat(entry, path)];
    }
    AllNamed(e, sorted, paths);
    r := Ok(namespaces);
  }

  lemma {:induction false} AllNamed(e: map<Id, Resolved>, sorted: seq<Resolved>, paths: map<Id, Text>)
    requires Enumerates(e, sorted) && paths.Keys == IdsUpTo(sorted, |sorted|)
    ensures paths.Keys == e.Keys
  {
  }

  lemma {:induction false} NamingGrows(e: map<Id, Resolved>, p: map<Id, Text>, dom: set<Id>, id: Id, path: Text)
    requires IsNamingOn(e, p, dom) && id in e && Predecessors(e, id) == dom
    requires path == Choose(e[id], Taken(e, p, id)) && Lower(path) !in Taken(e, p, id)
    ensures IsNamingOn(e, p[id := path], dom + {id})
  {
  }

  /**
   The whole flattening. It succeeds exactly when the forest has a flattening, and then returns the
   only one. Otherwise the error names the first row whose parent walk fails, or the one namespace
   where naming stops.
   */
  method FlattenNamespaces(raw: seq<RawNamespace>)
    returns (r: Result<seq<GlNamespace>, FlattenError>, warnings: seq<Id>,
             ghost e: map<Id, Resolved>, ghost paths: map<Id, Text>)
    requires DistinctIds(raw)
    ensures r.Ok? ==> IsFlattening(ById(raw), e, paths, r.value) && |r.value| == |raw|
    ensures r.Ok? ==> forall id | id in e :: id in warnings <==> e[id].depth > 1 || paths[id] != e[id].base
    ensures r.Err? ==>
              if r.error.PathCollision? then Resolves(ById(raw), e) && StopsAt(e, paths, r.error.namespace)
              else exists k :: FirstFailure(raw, ById(raw), k, r.error)
    ensures r.Err? ==> forall e', paths', out :: !IsFlattening(ById(raw), e', paths', out)
  {
    var f := ById(raw);
    warnings, paths := [], map[];
    var resolved;
    resolved, e := ResolveAll(raw, f);
    if resolved.Err? {
      return Err(resolved.error), warnings, e, paths;
    }
    SortByDepthEnumerates(raw, resolved.value, f, e);
    var sorted := Sort(resolved.value, NamedNoLater);
    var named;
    named, warnings, paths := NameAll(sorted, e);
    if named.Err? {
      NoFlattening(f, e);
      return Err(named.error), warnings, e, paths;
    }
    var out := Sort(named.value, IdNoLater);
    SortRenders(e, paths, sorted, named.value, out);
    r := Ok(out);
  }

  lemma {:induction false} NoFlattening(f: Forest, e: map<Id, Resolved>)
    requires Resolves(f, e) && forall q :: !IsNaming(e, q)
    ensures forall e', paths, out :: !IsFlattening(f, e', paths, out)
  {
    forall e', paths, out | IsFlattening(f, e', paths, out)
      ensures false
    {
      ResolutionUnique(f, e, e');
    }
  }

  lemma {:induction false} SortRenders(e: map<Id, Resolved>, paths: map<Id, Text>, sorted: seq<Resolved>,
                                       named: seq<GlNamespace>, out: seq<GlNamespace>)
    requires paths.Keys == e.Keys && Enumerates(e, sorted)
    requires |named| == |sorted|
    requires forall i | 0 <= i < |sorted| ::
               sorted[i].ns.id in paths && named[i] == Flat(sorted[i], paths[sorted[i].ns.id])
    requires out == Sort(named, IdNoLater)
    ensures Renders(e, paths, out) && |out| == |sorted|
  {
    SortSorts(named, IdNoLater);
    PermutationFacts(named, out);
    IdsDiffer(e, sorted, named);
    DistinctFromMultiset(named, out);
    StrictById(named, out);
    forall id | id in e
      ensures Flat(e[id], paths[id]) in out
    {
      var i :| 0 <= i < |sorted| && sorted[i] == e[id];
      assert named[i] in out;
    }
    forall i | 0 <= i < |out|
      ensures out[i].id in e && out[i] == Flat(e[out[i].id], paths[out[i].id])
    {
      var j :| 0 <= j < |named| && named[j] == out[i];
      assert sorted[j].ns.id in e;
    }
  }

  lemma {:induction false} IdsDiffer(e: map<Id, Resolved>, sorted: seq<Resolved>, named: seq<GlNamespace>)
    requires Enumerates(e, sorted) && |named| == |sorted|
    requires forall i | 0 <= i < |sorted| :: named[i].id == sorted[i].ns.id
    ensures forall i, j | 0 <= i < j < |named| :: named[i].id != named[j].id
  {
  }

  lemma {:induction false} StrictById(named: seq<GlNamespace>, out: seq<GlNamespace>)
    requires SortedBy(out, IdNoLater) && Distinct(out)
    requires forall i, j | 0 <= i < j < |named| :: named[i].id != named[j].id
    requires forall i | 0 <= i < |out| :: out[i] in named
    ensures StrictlyById(out)
  {
  }
}
