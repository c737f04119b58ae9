/** `HobbyRepository`: the six storage operations of the service, over an
    in-memory table that stands for the database. The table keeps its rows in
    creation order; ids come from a counter that only grows, and timestamps
    from a logical clock. */
module Repository {
  import opened Wrappers
  import opened JsText
  import opened Hobbies

  // ---------------------------------------------------------------------
  // The filter shared by findAll and count

  /** One alternative of the search condition: a case-insensitive substring
      test on `name` or on `description`. */
  datatype Clause = NameContains(text: string) | DescriptionContains(text: string)

  /** The `where` object handed to the storage layer; a member left out
      (`None`) imposes nothing. `anyOf` is the `OR` list. */
  datatype Where = Where(
    category: Option<string>,
    difficulty: Option<string>,
    isActive: Option<bool>,
    anyOf: Option<seq<Clause>>)

  predicate ClauseHolds(h: Hobby, c: Clause)
  {
    match c
    case NameContains(t) => ContainsInsensitive(h.name, t)
    case DescriptionContains(t) => h.description.Some? && ContainsInsensitive(h.description.value, t)
  }

  /** How the storage layer evaluates a `where` object on one row: equality
      for each present member, and at least one clause of the `OR` list. A
      `null` description contains nothing. */
  predicate Satisfies(h: Hobby, w: Where)
  {
    && (w.category.Some? ==> h.category == w.category.value)
    && (w.difficulty.Some? ==> h.difficulty == w.difficulty.value)
    && (w.isActive.Some? ==> h.isActive == w.isActive.value)
    && (w.anyOf.Some? ==> exists i :: 0 <= i < |w.anyOf.value| && ClauseHolds(h, w.anyOf.value[i]))
  }

  /** What a list query asks of a row, filter by filter: a truthy `category`
      or `difficulty` must be equal, a boolean `isActive` must be equal, and a
      truthy `search` must occur, ignoring case, in the name or in the
      description. A falsy or absent filter asks nothing. */
  predicate MatchesQuery(h: Hobby, q: HobbyQueryParams)
  {
    && (TruthyText(q.category) ==> h.category == q.category.value)
    && (TruthyText(q.difficulty) ==> h.difficulty == q.difficulty.value)
    && (q.isActive.Some? ==> h.isActive == q.isActive.value)
    && (TruthyText(q.search) ==>
          || ContainsInsensitive(h.name, q.search.value)
          || (h.description.Some? && ContainsInsensitive(h.description.value, q.search.value)))
  }

  /** Builds the `where` object by conditional member assignment; the storage
      layer's reading of it is exactly the query's filters. */
  method BuildWhere(q: HobbyQueryParams) returns (w: Where)
    ensures forall h :: Satisfies(h, w) <==> MatchesQuery(h, q)
  {
    w := Where(None, None, None, None);
    if TruthyText(q.category) {
      w := w.(category := Some(q.category.value));
    }
    if TruthyText(q.difficulty) {
      w := w.(difficulty := Some(q.difficulty.value));
    }
    if q.isActive.Some? {
      w := w.(isActive := q.isActive);
    }
    if TruthyText(q.search) {
      w := w.(anyOf := Some([NameContains(q.search.value), DescriptionContains(q.search.value)]));
    }
    assert w.category == (if TruthyText(q.category) then Some(q.category.value) else None);
    assert w.difficulty == (if TruthyText(q.difficulty) then Some(q.difficulty.value) else None);
    assert w.isActive == q.isActive;
    forall h: Hobby
      ensures Satisfies(h, w) <==> MatchesQuery(h, q)
    {
      if TruthyText(q.search) {
        var c := w.anyOf.value;
        assert c == [NameContains(q.search.value), DescriptionContains(q.search.value)];
        assert (exists i :: 0 <= i < |c| && ClauseHolds(h, c[i])) <==> ClauseHolds(h, c[0]) || ClauseHolds(h, c[1]);
      } else {
        assert w.anyOf.None?;
      }
    }
  }

  // ---------------------------------------------------------------------
  // Filtering, ordering and pagination

  /** The rows that `keep` accepts, in their original order. */
  function FilterBy(rows: seq<Hobby>, keep: Hobby -> bool): (r: seq<Hobby>)
    ensures |r| <= |rows|
    ensures forall h :: h in r <==> h in rows && keep(h)
  {
    if |rows| == 0 then []
    else
      assert rows == [rows[0]] + rows[1..];
      (if keep(rows[0]) then [rows[0]] else []) + FilterBy(rows[1..], keep)
  }

  /** Two filters that agree on every row select the same rows. */
  lemma {:induction false} FilterByCongruent(rows: seq<Hobby>, p: Hobby -> bool, q: Hobby -> bool)
    requires forall h :: p(h) == q(h)
    ensures FilterBy(rows, p) == FilterBy(rows, q)
  {
    if |rows| > 0 {
      FilterByCongruent(rows[1..], p, q);
    }
  }

  /** `MatchesQuery` as a row predicate. */
  function Matcher(q: HobbyQueryParams): Hobby -> bool
  {
    h => MatchesQuery(h, q)
  }

  /** `Satisfies` as a row predicate. */
  function Evaluator(w: Where): Hobby -> bool
  {
    h => Satisfies(h, w)
  }

  /** The rows a list query matches, in table order. */
  function Filter(rows: seq<Hobby>, q: HobbyQueryParams): seq<Hobby>
  {
    FilterBy(rows, Matcher(q))
  }

  /** Creation timestamps strictly increase along `s`. */
  predicate OldestFirst(s: seq<Hobby>)
  {
    forall i, j :: 0 <= i < j < |s| ==> s[i].createdAt < s[j].createdAt
  }

  /** Creation timestamps strictly decrease along `s` (`orderBy createdAt desc`). */
  predicate NewestFirst(s: seq<Hobby>)
  {
    forall i, j :: 0 <= i < j < |s| ==> s[i].createdAt > s[j].createdAt
  }

  /** Putting a row older than every row of an oldest-first sequence in
      front of it keeps it oldest first. */
  lemma ConsOldestFirst(x: Hobby, rest: seq<Hobby>)
    requires OldestFirst(rest)
    requires forall h :: h in rest ==> x.createdAt < h.createdAt
    ensures OldestFirst([x] + rest)
  {
    var r := [x] + rest;
    forall i, j | 0 <= i < j < |r|
      ensures r[i].createdAt < r[j].createdAt
    {
      assert r[j] == rest[j - 1];
      if i == 0 {
        assert r[j] in rest;
      } else {
        assert r[i] == rest[i - 1];
      }
    }
  }

  /** In an oldest-first sequence the first row is older than every row
      kept from the rest. */
  lemma HeadOlderThanKept(rows: seq<Hobby>, keep: Hobby -> bool)
    requires |rows| > 0 && OldestFirst(rows)
    ensures forall h :: h in FilterBy(rows[1..], keep) ==> rows[0].createdAt < h.createdAt
  {
    forall h | h in FilterBy(rows[1..], keep)
      ensures rows[0].createdAt < h.createdAt
    {
      var k :| 0 <= k < |rows[1..]| && rows[1..][k] == h;
      assert rows[k + 1] == h;
    }
  }

  /** Filtering keeps the relative order of the rows it keeps. */
  lemma {:induction false} FilterKeepsOrder(rows: seq<Hobby>, keep: Hobby -> bool)
    requires OldestFirst(rows)
    ensures OldestFirst(FilterBy(rows, keep))
  {
    if |rows| > 0 {
      var rest := FilterBy(rows[1..], keep);
      assert OldestFirst(rows[1..]) by {
        forall i, j | 0 <= i < j < |rows[1..]|
          ensures rows[1..][i].createdAt < rows[1..][j].createdAt
        {
          assert rows[1..][i] == rows[i + 1] && rows[1..][j] == rows[j + 1];
        }
      }
      FilterKeepsOrder(rows[1..], keep);
      if keep(rows[0]) {
        HeadOlderThanKept(rows, keep);
        ConsOldestFirst(rows[0], rest);
        assert FilterBy(rows, keep) == [rows[0]] + rest;
      } else {
        assert FilterBy(rows, keep) == rest;
      }
    }
  }

  function Reverse(s: seq<Hobby>): (r: seq<Hobby>)
    ensures |r| == |s|
    ensures forall i :: 0 <= i < |s| ==> r[i] == s[|s| - 1 - i]
  {
    if |s| == 0 then [] else Reverse(s[1..]) + [s[0]]
  }

  /** Reversing rows kept oldest first lists them newest first, with the same
      rows. */
  lemma ReverseNewestFirst(s: seq<Hobby>)
    requires OldestFirst(s)
    ensures NewestFirst(Reverse(s))
    ensures forall h :: h in Reverse(s) <==> h in s
  {
    var r := Reverse(s);
    forall h | h in s
      ensures h in r
    {
      var k :| 0 <= k < |s| && s[k] == h;
      assert r[|s| - 1 - k] == h;
    }
  }

  function Min(a: int, b: int): int
  {
    if a <= b then a else b
  }

  /** `skip`/`take` pagination: the window of at most `take` elements that
      starts after the first `skip`. */
  function Paginate(s: seq<Hobby>, skip: nat, take: nat): (r: seq<Hobby>)
    ensures |r| == if skip >= |s| then 0 else Min(take, |s| - skip)
    ensures forall i :: 0 <= i < |r| ==> skip + i < |s| && r[i] == s[skip + i]
  {
    if skip >= |s| then [] else s[skip..Min(skip + take, |s|)]
  }

  /** The page number the repository uses: 1 when the query has none. */
  function PageNumber(q: HobbyQueryParams): int
  {
    if q.page.Some? then q.page.value else 1
  }

  /** The page size the repository uses: 10 when the query has none. */
  function PageSize(q: HobbyQueryParams): int
  {
    if q.limit.Some? then q.limit.value else 10
  }

  /** `skip = (page - 1) * limit`. */
  function SkipOf(q: HobbyQueryParams): (skip: nat)
    requires QuerySchemaOk(q)
    ensures PageNumber(q) == 1 ==> skip == 0
    ensures skip >= PageNumber(q) - 1
  {
    var p: nat := PageNumber(q) - 1;
    var l: nat := PageSize(q);
    p * l
  }

  /** The rows `findAll` returns for a query over a table. */
  function FindAllResult(rows: seq<Hobby>, q: HobbyQueryParams): seq<Hobby>
    requires QuerySchemaOk(q)
  {
    Paginate(Reverse(Filter(rows, q)), SkipOf(q), PageSize(q))
  }

  /** What `findAll` promises about its page: at most `limit` rows, each one
      stored and matching every filter, newest first, and nothing once the
      skip reaches the number of matching rows. */
  lemma FindAllResultProperties(rows: seq<Hobby>, q: HobbyQueryParams)
    requires QuerySchemaOk(q) && OldestFirst(rows)
    ensures |FindAllResult(rows, q)| <= PageSize(q)
    ensures forall h :: h in FindAllResult(rows, q) ==> h in rows && MatchesQuery(h, q)
    ensures NewestFirst(FindAllResult(rows, q))
    ensures SkipOf(q) >= |Filter(rows, q)| ==> FindAllResult(rows, q) == []
  {
    var f := Filter(rows, q);
    FilterKeepsOrder(rows, Matcher(q));
    ReverseNewestFirst(f);
    var newest := Reverse(f);
    var r := FindAllResult(rows, q);
    forall h | h in r
      ensures h in f
    {
      var k :| 0 <= k < |r| && r[k] == h;
      assert newest[SkipOf(q) + k] == h;
    }
    forall i, j | 0 <= i < j < |r|
      ensures r[i].createdAt > r[j].createdAt
    {
      assert r[i] == newest[SkipOf(q) + i] && r[j] == newest[SkipOf(q) + j];
    }
  }

  // ---------------------------------------------------------------------
  // Lookups and record construction

  /** Some row of `rows` has this id. */
  predicate Stored(rows: seq<Hobby>, id: int)
  {
    exists i :: 0 <= i < |rows| && rows[i].id == id
  }

  /** The position of the first row with this id. */
  function IndexOf(rows: seq<Hobby>, id: int): (r: Option<nat>)
    ensures r.Some? ==> r.value < |rows| && rows[r.value].id == id
    ensures r.None? <==> !Stored(rows, id)
  {
    if |rows| == 0 then None
    else if rows[0].id == id then Some(0)
    else match IndexOf(rows[1..], id)
      case None => None
      case Some(k) => Some(k + 1)
  }

  /** Some row other than the one with id `id` carries this name. */
  predicate NameTakenByOther(rows: seq<Hobby>, name: string, id: int)
  {
    exists i :: 0 <= i < |rows| && rows[i].name == name && rows[i].id != id
  }

  /** Some row carries this name. */
  predicate NameTaken(rows: seq<Hobby>, name: string)
  {
    exists i :: 0 <= i < |rows| && rows[i].name == name
  }

  /** The fields the create call must receive: a missing or `null` name,
      difficulty or category is rejected by the storage layer. */
  predicate CreatableInput(data: CreateHobbyInput)
  {
    data.name.Present? && data.difficulty.Present? && data.category.Present?
  }

  /** The record `create` stores: the given fields, `description` as `null`
      unless a non-empty one is given, `isActive` true unless a boolean is
      given, both timestamps at `now`. */
  function NewHobby(data: CreateHobbyInput, id: int, now: int): (h: Hobby)
    requires CreatableInput(data)
    ensures h.id == id && h.name == data.name.value
    ensures h.difficulty == data.difficulty.value && h.category == data.category.value
    ensures h.description.None? <==> !TruthyText(data.description)
    ensures h.description.Some? ==> h.description.value == data.description.value
    ensures h.isActive <==> !data.isActive.Present? || data.isActive.value
    ensures h.createdAt == now && h.updatedAt == now
  {
    Hobby(
      id,
      data.name.value,
      if TruthyText(data.description) then Some(data.description.value) else None,
      data.difficulty.value,
      data.category.value,
      match data.isActive { case Present(b) => b case _ => true },
      now,
      now)
  }

  /** A partial update the storage layer refuses: `isActive: null` on a
      non-null column, or a truthy name that another row already has (a
      unique-constraint violation). */
  predicate UpdateRefused(rows: seq<Hobby>, id: int, data: HobbyUpdateInput)
  {
    || data.isActive.Null?
    || (TruthyText(data.name) && NameTakenByOther(rows, data.name.value, id))
  }

  /** The record after a partial update at time `now`: `name`, `difficulty`
      and `category` are written only when truthy, `description` whenever it
      is not `undefined` (so `null` clears it), `isActive` whenever a boolean
      is given; `updatedAt` becomes `now`; everything else stays. */
  function Patched(h: Hobby, data: HobbyUpdateInput, now: int): (p: Hobby)
    ensures p.id == h.id && p.createdAt == h.createdAt && p.updatedAt == now
    ensures p.name == if TruthyText(data.name) then data.name.value else h.name
    ensures p.difficulty == if TruthyText(data.difficulty) then data.difficulty.value else h.difficulty
    ensures p.category == if TruthyText(data.category) then data.category.value else h.category
    ensures data.description.Undefined? ==> p.description == h.description
    ensures data.description.Null? ==> p.description.None?
    ensures data.description.Present? ==> p.description == Some(data.description.value)
    ensures p.isActive == if data.isActive.Present? then data.isActive.value else h.isActive
  {
    h.(
      name := if TruthyText(data.name) then data.name.value else h.name,
      description := match data.description {
        case Undefined => h.description
        case Null => None
        case Present(d) => Some(d)
      },
      difficulty := if TruthyText(data.difficulty) then data.difficulty.value else h.difficulty,
      category := if TruthyText(data.category) then data.category.value else h.category,
      isActive := if data.isActive.Present? then data.isActive.value else h.isActive,
      updatedAt := now)
  }

  /** Applying the same partial update twice is the same as applying it
      once, apart from the time stamp. */
  lemma PatchedIdempotent(h: Hobby, data: HobbyUpdateInput, t1: int, t2: int)
    ensures Patched(Patched(h, data, t1), data, t2) == Patched(h, data, t2)
  {
  }

  /** An update that supplies nothing only refreshes `updatedAt`. */
  lemma PatchedNothing(h: Hobby, now: int)
    ensures Patched(h, HobbyInput(Undefined, Undefined, Undefined, Undefined, Undefined), now) == h.(updatedAt := now)
  {
  }

  /** `s` without its element at `i`. */
  function RemoveAt(s: seq<Hobby>, i: nat): (r: seq<Hobby>)
    requires i < |s|
    ensures |r| == |s| - 1
    ensures forall k :: 0 <= k < |r| ==> r[k] == s[if k < i then k else k + 1]
  {
    s[..i] + s[i + 1..]
  }

  /** Ids and creation times increase along the rows and no two rows share a
      name. */
  predicate WellOrdered(rows: seq<Hobby>)
  {
    forall i, j :: 0 <= i < j < |rows| ==>
      rows[i].id < rows[j].id && rows[i].createdAt < rows[j].createdAt && rows[i].name != rows[j].name
  }

  lemma RemoveAtWellOrdered(s: seq<Hobby>, i: nat)
    requires i < |s| && WellOrdered(s)
    ensures WellOrdered(RemoveAt(s, i))
  {
    var r := RemoveAt(s, i);
    forall a, b | 0 <= a < b < |r|
      ensures r[a].id < r[b].id && r[a].createdAt < r[b].createdAt && r[a].name != r[b].name
    {
      var a', b' := if a < i then a else a + 1, if b < i then b else b + 1;
      assert r[a] == s[a'] && r[b] == s[b'] && a' < b';
    }
  }

  /** Removing the row at `i` keeps every other row, and when ids are
      distinct no remaining row has the removed row's id. */
  lemma RemoveAtKeepsOthers(s: seq<Hobby>, i: nat)
    requires i < |s| && WellOrdered(s)
    ensures forall h :: h in s && h.id != s[i].id ==> h in RemoveAt(s, i)
    ensures !Stored(RemoveAt(s, i), s[i].id)
  {
    var r := RemoveAt(s, i);
    forall h | h in s && h.id != s[i].id
      ensures h in r
    {
      var j :| 0 <= j < |s| && s[j] == h;
      assert r[if j < i then j else j - 1] == h;
    }
    forall j | 0 <= j < |r|
      ensures r[j].id != s[i].id
    {
      var j' := if j < i then j else j + 1;
      assert r[j] == s[j'] && j' != i;
    }
  }

  // ---------------------------------------------------------------------
  // The repository

  class HobbyRepository {
    /** The table, oldest row first. */
    var rows: seq<Hobby>
    /** The id the next created row receives. */
    var nextId: int
    /** The logical clock: every stored timestamp is below it. */
    var clock: int

    ghost predicate Valid()
      reads this
    {
      && WellOrdered(rows)
      && (forall i :: 0 <= i < |rows| ==> rows[i].id < nextId)
      && (forall i :: 0 <= i < |rows| ==> rows[i].createdAt <= rows[i].updatedAt < clock)
    }

    constructor ()
      ensures Valid()
      ensures rows == [] && nextId == 1 && clock == 0
    {
      rows := [];
      nextId := 1;
      clock := 0;
    }

    /** `findUnique` by id. */
    method FindById(id: int) returns (r: Option<Hobby>)
      requires Valid()
      ensures r.Some? <==> Stored(rows, id)
      ensures r.Some? ==> r.value in rows && r.value.id == id
    {
      var k := IndexOf(rows, id);
      if k.Some? {
        r := Some(rows[k.value]);
      } else {
        r := None;
      }
    }

    /** `findMany` with the query's filter, newest first, then skip and take. */
    method FindAll(q: HobbyQueryParams) returns (r: seq<Hobby>)
      requires Valid() && QuerySchemaOk(q)
      ensures r == FindAllResult(rows, q)
      ensures |r| <= PageSize(q)
      ensures forall h :: h in r ==> h in rows && MatchesQuery(h, q)
      ensures NewestFirst(r)
      ensures SkipOf(q) >= |Filter(rows, q)| ==> r == []
    {
      var w := BuildWhere(q);
      var matched := FilterBy(rows, Evaluator(w));
      FilterByCongruent(rows, Evaluator(w), Matcher(q));
      r := Paginate(Reverse(matched), SkipOf(q), PageSize(q));
      FindAllResultProperties(rows, q);
    }

    /** `count` with the same filter as `findAll`; paging is ignored. */
    method Count(q: HobbyQueryParams) returns (n: nat)
      requires Valid()
      ensures n == |Filter(rows, q)|
    {
      var w := BuildWhere(q);
      var matched := FilterBy(rows, Evaluator(w));
      FilterByCongruent(rows, Evaluator(w), Matcher(q));
      n := |matched|;
    }

    /** `create`: stores a new row with the next id and the current time, or
        throws when a required field is missing or the name is taken. */
    method Create(data: CreateHobbyInput) returns (r: Outcome<Hobby>)
      requires Valid()
      modifies this
      ensures Valid()
      ensures !CreatableInput(data) ==> r.Threw? && r.error.code.None? && unchanged(this)
      ensures CreatableInput(data) && NameTaken(old(rows), data.name.value) ==>
        r.Threw? && r.error.code == Some(UniqueViolation) && unchanged(this)
      ensures CreatableInput(data) && !NameTaken(old(rows), data.name.value) ==>
        && r == Returned(NewHobby(data, old(nextId), old(clock)))
        && rows == old(rows) + [r.value]
        && nextId == old(nextId) + 1 && clock == old(clock) + 1
      ensures r.Returned? ==> !Stored(old(rows), r.value.id)
    {
      if !CreatableInput(data) {
        r := Threw(Thrown(None, "Argument is missing"));
        return;
      }
      if NameTaken(rows, data.name.value) {
        r := Threw(Thrown(Some(UniqueViolation), "Unique constraint failed on the fields: (`name`)"));
        return;
      }
      var h := NewHobby(data, nextId, clock);
      rows := rows + [h];
      nextId := nextId + 1;
      clock := clock + 1;
      r := Returned(h);
    }

    /** `update`: writes the supplied fields of the row with this id and
        returns it; any storage failure (no such row, a refused write)
        becomes `null` and changes nothing. */
    method Update(id: int, data: HobbyUpdateInput) returns (r: Option<Hobby>)
      requires Valid()
      modifies this
      ensures Valid()
      ensures nextId == old(nextId)
      ensures r.None? <==> !Stored(old(rows), id) || UpdateRefused(old(rows), id, data)
      ensures r.None? ==> unchanged(this)
      ensures r.Some? ==>
        var i := IndexOf(old(rows), id).value;
        && r.value == Patched(old(rows)[i], data, old(clock))
        && rows == old(rows)[i := r.value]
        && clock == old(clock) + 1
    {
      var k := IndexOf(rows, id);
      if k.None? || UpdateRefused(rows, id, data) {
        r := None;
        return;
      }
      var i := k.value;
      var p := Patched(rows[i], data, clock);
      forall j | 0 <= j < |rows| && j != i
        ensures rows[j].name != p.name
      {
        assert rows[j].id != id by {
          if j < i { assert rows[j].id < rows[i].id; } else { assert rows[i].id < rows[j].id; }
        }
      }
      rows := rows[i := p];
      clock := clock + 1;
      r := Some(p);
    }

    /** `delete`: removes the row with this id and answers true, or answers
        false when there is none. */
    method Delete(id: int) returns (ok: bool)
      requires Valid()
      modifies this
      ensures Valid()
      ensures nextId == old(nextId) && clock == old(clock)
      ensures ok <==> Stored(old(rows), id)
      ensures !ok ==> unchanged(this)
      ensures ok ==> rows == RemoveAt(old(rows), IndexOf(old(rows), id).value)
      ensures ok ==> !Stored(rows, id)
      ensures forall h :: h in old(rows) && h.id != id ==> h in rows
    {
      var k := IndexOf(rows, id);
      if k.None? {
        ok := false;
        return;
      }
      var i := k.value;
      RemoveAtWellOrdered(rows, i);
      RemoveAtKeepsOthers(rows, i);
      rows := RemoveAt(rows, i);
      ok := true;
    }
  }

  /** Deleting a row and then looking its id up finds nothing. */
  method DeleteThenFindById(repo: HobbyRepository, id: int) returns (found: Option<Hobby>)
    requires repo.Valid()
    modifies repo
    ensures found.None?
  {
    var _ := repo.Delete(id);
    found := repo.FindById(id);
  }
}
