/** The project list: its SQL filter against the authorizer, its order, and its pages. */
module ProjectList {
  import opened Prelude
  import opened Access

  /** A project row with its modification time; SQLite compares the ISO timestamps as text. */
  datatype Row = Row(project: Project, updated: int)

  /** The visibility from which a caller sees a project without any membership. */
  function Floor(caller: Option<User>): int {
    match caller
    case None => PUBLIC
    case Some(user) => if user.admin then PRIVATE else INTERNAL
  }

  /** The user id bound into the query; anonymous callers bind one that no user has. */
  function BoundId(caller: Option<User>): int {
    match caller
    case None => -1
    case Some(user) => user.id
  }

  predicate BoundAdmin(caller: Option<User>) {
    caller.Some? && caller.value.admin
  }

  /** A membership or ownership row joins with the project for this user id. */
  predicate Joined(t: Tables, p: Project, uid: int) {
    || (p.id, uid) in t.projectMembers
    || (p.namespace, uid) in t.groupMembers
    || (p.namespace in t.namespaces && t.namespaces[p.namespace].owner == Some(uid))
  }

  /** The first condition of the WHERE clause. */
  predicate Visible(t: Tables, caller: Option<User>, p: Project) {
    BoundAdmin(caller) || p.visibility >= Floor(caller) || Joined(t, p, BoundId(caller))
  }

  /** User ids start at one. */
  ghost predicate PositiveUsers(t: Tables) {
    && (forall k | k in t.projectMembers :: k.1 > 0)
    && (forall k | k in t.groupMembers :: k.1 > 0)
    && (forall n | n in t.namespaces && t.namespaces[n].owner.Some? :: t.namespaces[n].owner.value > 0)
  }

  /** The list shows exactly the projects the authorizer lets the caller read. */
  lemma {:induction false} FilterIsAuthorize(t: Tables, caller: Option<User>, p: Project)
    requires LegalLevels(t) && PositiveUsers(t) && IsVisibility(p.visibility)
    requires caller.Some? ==> caller.value.active
    ensures Visible(t, caller, p) <==> Authorize(t, caller, p, Read) == Granted
  {
  }

  /** Without the assumption on ids, an anonymous caller sees a non-public project exactly when a row names user -1. */
  lemma {:induction false} AnonymousFilter(t: Tables, p: Project)
    requires IsVisibility(p.visibility)
    ensures (Visible(t, None, p) <==> Authorize(t, None, p, Read) == Granted)
            <==> (p.visibility == PUBLIC || !Joined(t, p, -1))
  {
  }

  // ---------------------------------------------------------------- order

  /** `ORDER BY updated_at DESC, id DESC`. */
  predicate Before(a: Row, b: Row) {
    a.updated > b.updated || (a.updated == b.updated && a.project.id > b.project.id)
  }

  ghost predicate IsSelected(t: Tables, caller: Option<User>, matches: Row -> bool, r: Row) {
    Visible(t, caller, r.project) && matches(r)
  }

  /** The whole result before LIMIT and OFFSET: the selected rows of the table, each once, in order. */
  ghost predicate IsListing(rows: map<int, Row>, t: Tables, caller: Option<User>, matches: Row -> bool,
                            list: seq<Row>) {
    && (forall i, j | 0 <= i < j < |list| :: Before(list[i], list[j]))
    && (forall r :: r in list <==>
          r.project.id in rows && rows[r.project.id] == r && IsSelected(t, caller, matches, r))
  }

  ghost predicate IsTable(rows: map<int, Row>) {
    forall id | id in rows :: rows[id].project.id == id
  }

  ghost predicate Descending(list: seq<Row>) {
    forall i, j | 0 <= i < j < |list| :: Before(list[i], list[j])
  }

  lemma {:induction false} HeadIsFirst(list: seq<Row>)
    requires Descending(list) && list != []
    ensures forall r | r in list[1..] :: Before(list[0], r)
    ensures Descending(list[1..])
    ensures forall r :: r in list[1..] <==> r in list && r != list[0]
  {
  }

  lemma {:induction false} DescendingEqual(a: seq<Row>, b: seq<Row>)
    requires Descending(a) && Descending(b) && forall r :: r in a <==> r in b
    ensures a == b
  {
    if b != [] {
      assert b[0] in b;
    }
    if a != [] {
      assert a[0] in b;
      HeadIsFirst(a);
      HeadIsFirst(b);
      assert a[0] == b[0] by {
        assert a[0] in a && b[0] in a;
        assert a[0] != b[0] ==> Before(b[0], a[0]) && Before(a[0], b[0]);
      }
      DescendingEqual(a[1..], b[1..]);
      assert a == [a[0]] + a[1..] && b == [b[0]] + b[1..];
    }
  }

  /** The result is determined, so pages asked for separately are cut from one and the same list. */
  lemma {:induction false} ListingUnique(rows: map<int, Row>, t: Tables, caller: Option<User>, matches: Row -> bool,
                                         a: seq<Row>, b: seq<Row>)
    requires IsListing(rows, t, caller, matches, a) && IsListing(rows, t, caller, matches, b)
    ensures a == b
  {
    DescendingEqual(a, b);
  }

  /** The latest update comes first, and among equally late ones the project with the larger id. */
  lemma {:induction false} LatestFirst(rows: map<int, Row>, t: Tables, caller: Option<User>, matches: Row -> bool,
                                       list: seq<Row>, i: nat, j: nat)
    requires IsListing(rows, t, caller, matches, list) && i < j < |list|
    ensures list[j].updated <= list[i].updated
    ensures list[j].updated == list[i].updated ==> list[j].project.id < list[i].project.id
  {
    assert Before(list[i], list[j]);
  }

  /** Every table has such a result. */
  lemma {:induction false} ListingExists(rows: map<int, Row>, t: Tables, caller: Option<User>, matches: Row -> bool)
    returns (list: seq<Row>)
    requires IsTable(rows)
    ensures IsListing(rows, t, caller, matches, list)
    decreases |rows|
  {
    if rows == map[] {
      list := [];
    } else {
      assert (forall x :: x !in rows.Keys) ==> rows == map[];
      var id :| id in rows.Keys;
      var r, fewer := rows[id], rows - {id};
      assert fewer.Keys == rows.Keys - {id} && |fewer| == |rows| - 1;
      var rest := ListingExists(fewer, t, caller, matches);
      if IsSelected(t, caller, matches, r) {
        list := InsertRow(rest, r);
      } else {
        list := rest;
      }
      forall q: Row
        ensures q in list <==> q.project.id in rows && rows[q.project.id] == q && IsSelected(t, caller, matches, q)
      {
        assert q in list <==> q in rest || (q == r && IsSelected(t, caller, matches, r));
      }
    }
  }

  lemma {:induction false} InsertRow(list: seq<Row>, r: Row) returns (longer: seq<Row>)
    requires Descending(list) && forall q | q in list :: q.project.id != r.project.id
    ensures Descending(longer) && forall q :: q in longer <==> q in list || q == r
  {
    if list == [] || Before(r, list[0]) {
      longer := [r] + list;
    } else {
      HeadIsFirst(list);
      var rest := InsertRow(list[1..], r);
      longer := [list[0]] + rest;
      assert Before(list[0], r);
      forall q | q in rest
        ensures Before(list[0], q)
      {
        assert q in list[1..] || q == r;
      }
    }
  }

  ghost function SelectedIds(rows: map<int, Row>, t: Tables, caller: Option<User>, matches: Row -> bool): set<int> {
    set id | id in rows && IsSelected(t, caller, matches, rows[id])
  }

  function IdsOf(list: seq<Row>): set<int> {
    set r | r in list :: r.project.id
  }

  lemma {:induction false} CountIds(rows: map<int, Row>, list: seq<Row>)
    requires Descending(list) && forall r | r in list :: r.project.id in rows && rows[r.project.id] == r
    ensures |IdsOf(list)| == |list|
  {
    if list != [] {
      HeadIsFirst(list);
      CountIds(rows, list[1..]);
      var id := list[0].project.id;
      assert list[0] in list;
      assert id !in IdsOf(list[1..]) by {
        forall r | r in list[1..]
          ensures r.project.id != id
        {
          assert r in list && r != list[0];
        }
      }
      assert IdsOf(list) == IdsOf(list[1..]) + {id};
    }
  }

  /** The total is the length of the list, and the list is the projects the caller may read that match the search. */
  lemma {:induction false} TotalAndContents(rows: map<int, Row>, t: Tables, caller: Option<User>, matches: Row -> bool,
                                            list: seq<Row>)
    requires IsTable(rows) && IsListing(rows, t, caller, matches, list)
    requires LegalLevels(t) && PositiveUsers(t) && (caller.Some? ==> caller.value.active)
    requires forall id | id in rows :: IsVisibility(rows[id].project.visibility)
    ensures |SelectedIds(rows, t, caller, matches)| == |list|
    ensures forall r: Row :: r in list <==>
              && r.project.id in rows && rows[r.project.id] == r
              && Authorize(t, caller, r.project, Read) == Granted && matches(r)
  {
    CountIds(rows, list);
    var ids := SelectedIds(rows, t, caller, matches);
    forall id | id in ids
      ensures id in IdsOf(list)
    {
      assert rows[id] in list;
    }
    assert ids == IdsOf(list);
    forall r: Row | r.project.id in rows && rows[r.project.id] == r
      ensures Visible(t, caller, r.project) <==> Authorize(t, caller, r.project, Read) == Granted
    {
      FilterIsAuthorize(t, caller, r.project);
    }
  }

  // ---------------------------------------------------------------- pages

  datatype Pagination = Pagination(page: nat, perPage: nat)

  function Limit(q: Pagination): nat {
    if q.perPage < 1 then 1 else if q.perPage > 100 then 100 else q.perPage
  }

  /** Without parameters: the first page, of twenty. */
  function FromOptions(page: Option<nat>, perPage: Option<nat>): Pagination {
    Pagination(if page.Some? then page.value else 1, if perPage.Some? then perPage.value else 20)
  }

  function Times(a: nat, b: nat): nat {
    a * b
  }

  function Offset(q: Pagination): nat {
    Times(if q.page <= 1 then 0 else q.page - 1, Limit(q))
  }

  /** `LIMIT ... OFFSET ...`. */
  function Page<T>(list: seq<T>, q: Pagination): seq<T> {
    var from := Min(Offset(q), |list|);
    list[from..Min(from + Limit(q), |list|)]
  }

  /** Row i of page n of size s is row (n - 1) * s + i of the list; a page holds 1 to 100 rows, 20 by default. */
  lemma {:induction false} PageShows<T>(list: seq<T>, n: nat, s: nat, i: nat)
    requires n >= 1 && 1 <= s <= 100
    ensures i < s && (n - 1) * s + i < |list| ==>
              i < |Page(list, Pagination(n, s))| && Page(list, Pagination(n, s))[i] == list[(n - 1) * s + i]
    ensures |Page(list, Pagination(n, s))| <= s
    ensures Page(list, FromOptions(None, None)) == list[..Min(20, |list|)]
    ensures Page(list, FromOptions(Some(n), Some(s))) == Page(list, Pagination(n, s))
    ensures Page(list, FromOptions(Some(n), None)) == Page(list, Pagination(n, 20))
    ensures Page(list, FromOptions(None, Some(s))) == list[..Min(s, |list|)]
  {
  }

  /** A size out of range counts as the nearest in range. */
  lemma {:induction false} OddSizes<T>(list: seq<T>, n: nat, s: nat)
    ensures s > 100 ==> Page(list, Pagination(n, s)) == Page(list, Pagination(n, 100))
    ensures Page(list, Pagination(n, 0)) == Page(list, Pagination(n, 1))
    ensures |Page(list, Pagination(n, s))| <= 100
  {
  }

  function FirstPages<T>(list: seq<T>, perPage: nat, n: nat): seq<T> {
    if n == 0 then [] else FirstPages(list, perPage, n - 1) + Page(list, Pagination(n, perPage))
  }

  lemma {:induction false} OneMore(n: nat, limit: nat)
    requires n > 0
    ensures Times(n, limit) == Times(n - 1, limit) + limit
  {
  }

  /** The first n pages, one after the other, are the head of the list, whatever page size is asked for. */
  lemma {:induction false} PagesConcatenate<T>(list: seq<T>, perPage: nat, n: nat)
    ensures FirstPages(list, perPage, n) == list[..Min(Times(n, Limit(Pagination(1, perPage))), |list|)]
  {
    var limit := Limit(Pagination(1, perPage));
    if n > 0 {
      PagesConcatenate(list, perPage, n - 1);
      OneMore(n, limit);
      var offset := Times(n - 1, limit);
      assert Offset(Pagination(n, perPage)) == offset;
      NextPage(list, offset, limit);
    }
  }

  lemma {:induction false} NextPage<T>(list: seq<T>, offset: nat, limit: nat)
    ensures var from := Min(offset, |list|);
            list[..from] + list[from..Min(from + limit, |list|)] == list[..Min(offset + limit, |list|)]
  {
  }

  /** Enough pages give the whole list; page 0 is page 1. */
  lemma {:induction false} AllPages<T>(list: seq<T>, perPage: nat, n: nat)
    requires Times(n, Limit(Pagination(1, perPage))) >= |list|
    ensures FirstPages(list, perPage, n) == list
    ensures Page(list, Pagination(0, perPage)) == Page(list, Pagination(1, perPage))
  {
    PagesConcatenate(list, perPage, n);
    assert list[..|list|] == list;
  }
}
