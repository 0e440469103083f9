/** The record list the route handlers read and change, with each handler
    taken as one atomic step on it (the source holds a lock around each
    read-modify-write of the data file). Ids that `uuid4` would produce are
    passed in; the file itself, HTTP and JSON are not modelled. */
module Store {
  import opened Records
  import opened Numbers
  import opened Validation
  import opened Sorting
  import opened Paging

  /** What a handler answers, without the HTTP plumbing. */
  datatype Response =
    | Listed(page: Page<Workout>)     // 200, the page object
    | Found(record: Workout)          // 200, the record
    | Created(record: Workout)        // 201, the stored record
    | Updated(record: Workout)        // 200, the stored record
    | Deleted                         // 200, {"ok": true}
    | NotFound                        // 404, {"error": "Not found"}
    | Invalid(errors: seq<Message>)   // 400, {"errors": [...]}

  /** `_ensure_seeded` replaces the data with the seed below this many records. */
  const SeedSize := 30

  predicate HasId(items: seq<Workout>, id: string) {
    exists k :: 0 <= k < |items| && items[k].id == id
  }

  predicate UniqueIds(items: seq<Workout>) {
    forall i, j :: 0 <= i < j < |items| ==> items[i].id != items[j].id
  }

  predicate AllAcceptable(items: seq<Workout>) {
    forall k :: 0 <= k < |items| ==> Acceptable(items[k])
  }

  /** The position of the first record with the given id. */
  function IndexOfId(items: seq<Workout>, id: string): (k: nat)
    requires HasId(items, id)
    ensures k < |items| && items[k].id == id
    ensures forall j :: 0 <= j < k ==> items[j].id != id
  {
    if items[0].id == id then 0
    else
      assert HasId(items[1..], id) by {
        var k :| 0 <= k < |items| && items[k].id == id;
        assert items[1..][k - 1] == items[k];
      }
      1 + IndexOfId(items[1..], id)
  }

  /** `[w for w in items if w.get("id") != id]`: the records whose id
      differs, in their original order. */
  function Without(items: seq<Workout>, id: string): (r: seq<Workout>)
    ensures |r| <= |items|
    ensures forall w :: w in r ==> w in items && w.id != id
  {
    if items == [] then []
    else
      var init := items[..|items| - 1];
      assert forall w :: w in init ==> w in items;
      Without(init, id) + (if items[|items| - 1].id != id then [items[|items| - 1]] else [])
  }

  /** Removal keeps every record whose id differs, as often as it occurs,
      and nothing else. */
  lemma WithoutKeepsExactlyOthers(items: seq<Workout>, id: string)
    ensures forall w: Workout :: w in Without(items, id) ==> w.id != id
    ensures forall w: Workout :: w.id != id ==> multiset(Without(items, id))[w] == multiset(items)[w]
  {
    forall w: Workout | w.id != id ensures multiset(Without(items, id))[w] == multiset(items)[w] {
      WithoutCount(items, id, w);
    }
  }

  lemma {:induction false} WithoutCount(items: seq<Workout>, id: string, w: Workout)
    requires w.id != id
    ensures multiset(Without(items, id))[w] == multiset(items)[w]
  {
    if items != [] {
      var init, last := items[..|items| - 1], items[|items| - 1];
      WithoutCount(init, id, w);
      SplitLast(items);
      assert Without(items, id) == Without(init, id) + (if last.id != id then [last] else []);
    }
  }

  /** Nothing is removed exactly when no record has the id; otherwise the
      list gets shorter. */
  lemma {:induction false} WithoutLength(items: seq<Workout>, id: string)
    ensures |Without(items, id)| <= |items|
    ensures |Without(items, id)| == |items| <==> !HasId(items, id)
    ensures !HasId(items, id) ==> Without(items, id) == items
  {
    if items != [] {
      var init, last := items[..|items| - 1], items[|items| - 1];
      WithoutLength(init, id);
      HasIdLast(items, id);
      SplitLast(items);
    }
  }

  /** A non-empty list is its front followed by its last record. */
  lemma SplitLast(items: seq<Workout>)
    requires items != []
    ensures items == items[..|items| - 1] + [items[|items| - 1]]
  {
  }

  /** A list has the id when the part before its last record has it, or
      the last record does. */
  lemma HasIdLast(items: seq<Workout>, id: string)
    requires items != []
    ensures HasId(items, id) <==> HasId(items[..|items| - 1], id) || items[|items| - 1].id == id
  {
    var init := items[..|items| - 1];
    if HasId(init, id) {
      var k :| 0 <= k < |init| && init[k].id == id;
      assert items[k].id == id;
    }
    if HasId(items, id) && items[|items| - 1].id != id {
      var k :| 0 <= k < |items| && items[k].id == id;
      assert init[k].id == id;
    }
  }

  /** Removal keeps ids unique and records acceptable. */
  lemma WithoutKeepsInvariants(items: seq<Workout>, id: string)
    ensures UniqueIds(items) ==> UniqueIds(Without(items, id))
    ensures AllAcceptable(items) ==> AllAcceptable(Without(items, id))
  {
    if UniqueIds(items) {
      WithoutKeepsUnique(items, id);
    }
  }

  lemma {:induction false} WithoutKeepsUnique(items: seq<Workout>, id: string)
    requires UniqueIds(items)
    ensures UniqueIds(Without(items, id))
  {
    if items != [] {
      var init, last := items[..|items| - 1], items[|items| - 1];
      SplitLast(items);
      assert UniqueIds(init) by {
        forall i, j | 0 <= i < j < |init| ensures init[i].id != init[j].id {
          assert init[i] == items[i] && init[j] == items[j];
        }
      }
      WithoutKeepsUnique(init, id);
      if last.id != id {
        UniqueAppend(Without(init, id), init, last);
      }
    }
  }

  /** Appending a record whose id none of `s` has, where every record of `s`
      comes from `source`, keeps ids unique. */
  lemma UniqueAppend(s: seq<Workout>, source: seq<Workout>, last: Workout)
    requires UniqueIds(s) && UniqueIds(source + [last])
    requires forall w: Workout :: w in s ==> w in source
    ensures UniqueIds(s + [last])
  {
    var r := s + [last];
    var all := source + [last];
    forall i, j | 0 <= i < j < |r| ensures r[i].id != r[j].id {
      if j == |s| {
        assert r[i] in source;
        var k :| 0 <= k < |source| && source[k] == r[i];
        assert all[k] == r[i] && all[|source|] == last;
      } else {
        assert r[i] == s[i] && r[j] == s[j];
      }
    }
  }

  /** A successful delete from a list at the seeding threshold leaves it
      below the threshold, so the seeding step that opens the next request
      replaces every record. */
  lemma DeleteFallsBelowSeedSize(items: seq<Workout>, id: string)
    requires |items| == SeedSize && HasId(items, id)
    ensures |Without(items, id)| < SeedSize
  {
    WithoutLength(items, id);
  }

  /** `next((i for i, w in enumerate(items) if w.get("id") == id), None)`:
      the index of the first record with the id, or None. */
  method FirstIndexOf(items: seq<Workout>, id: string) returns (idx: Option<nat>)
    ensures idx.None? <==> !HasId(items, id)
    ensures idx.Some? ==> idx.value < |items| && items[idx.value].id == id
    ensures idx.Some? ==> forall j :: 0 <= j < idx.value ==> items[j].id != id
    ensures idx.Some? ==> idx.value == IndexOfId(items, id)
  {
    var i := 0;
    while i < |items|
      invariant 0 <= i <= |items|
      invariant forall j :: 0 <= j < i ==> items[j].id != id
    {
      if items[i].id == id {
        return Some(i);
      }
      i := i + 1;
    }
    return None;
  }

  /** The filtering comprehension of the delete handler, as a loop. */
  method RemoveAll(items: seq<Workout>, id: string) returns (kept: seq<Workout>)
    ensures kept == Without(items, id)
  {
    kept := [];
    var i := 0;
    while i < |items|
      invariant 0 <= i <= |items|
      invariant kept == Without(items[..i], id)
    {
      assert items[..i + 1][..i] == items[..i];
      if items[i].id != id {
        kept := kept + [items[i]];
      }
      i := i + 1;
    }
    assert items[..i] == items;
  }

  /** Appending an acceptable record keeps every record acceptable, and
      keeps ids unique when its id is new. */
  lemma AppendKeepsInvariants(items: seq<Workout>, w: Workout)
    requires Acceptable(w)
    ensures AllAcceptable(items) ==> AllAcceptable(items + [w])
    ensures UniqueIds(items) && !HasId(items, w.id) ==> UniqueIds(items + [w])
  {
    var r := items + [w];
    if UniqueIds(items) && !HasId(items, w.id) {
      forall i, j | 0 <= i < j < |r| ensures r[i].id != r[j].id {
        assert r[i] == items[i];
      }
    }
  }

  /** Replacing a record by an acceptable one with the same id keeps both
      invariants. */
  lemma ReplaceKeepsInvariants(items: seq<Workout>, k: nat, w: Workout)
    requires k < |items| && items[k].id == w.id && Acceptable(w)
    ensures AllAcceptable(items) ==> AllAcceptable(items[k := w])
    ensures UniqueIds(items) ==> UniqueIds(items[k := w])
  {
  }

  class WorkoutStore {
    /** The records of the data file, in file order. */
    var items: seq<Workout>

    constructor (initial: seq<Workout>)
      ensures items == initial
    {
      items := initial;
    }

    /** `_ensure_seeded`, with the 30 records `_seed_30` builds passed in:
        fewer than 30 records are all replaced by the seed. */
    method EnsureSeeded(seed: seq<Workout>)
      modifies this
      ensures items == if |old(items)| < SeedSize then seed else old(items)
    {
      if |items| < SeedSize {
        items := seed;
      }
    }

    /** `GET /api/workouts?page=N`: the page of the records sorted newest
        first; a page argument that does not parse counts as 1. A page
        number in range is served as asked (up to 2^53, past which
        `float()` would round it). */
    method List(pageArg: NumberInput) returns (r: Response)
      ensures r.Listed?
      ensures r.page == Paginate(SortWorkouts(items), ToNumber(pageArg, 1))
      ensures r.page.total == |items|
      ensures pageArg.Integer? && 1 <= pageArg.n <= r.page.totalPages && pageArg.n <= Two53 ==>
        r.page.page == pageArg.n
    {
      r := Listed(Paginate(SortWorkouts(items), ToNumber(pageArg, 1)));
    }

    /** `GET /api/workouts/<id>`: the first record with the id, or not
        found. */
    method Get(id: string) returns (r: Response)
      ensures r.NotFound? <==> !HasId(items, id)
      ensures r.Found? || r.NotFound?
      ensures r.Found? ==> r.record == items[IndexOfId(items, id)]
    {
      var idx := FirstIndexOf(items, id);
      if idx.None? {
        return NotFound;
      }
      r := Found(items[idx.value]);
    }

    /** `POST /api/workouts`, with the id `uuid4` would produce passed in:
        an invalid payload is refused with its messages and nothing
        changes; a valid one is normalised and appended at the end. */
    method Create(payload: Payload, freshId: string) returns (r: Response)
      modifies this
      ensures var w := Normalize(payload, None, freshId);
        if Acceptable(w) then r == Created(w) && items == old(items) + [w]
        else r == Invalid(ErrorMessages(w)) && r.errors != [] && items == old(items)
      ensures r.Created? ==> r.record.id == freshId && |items| == |old(items)| + 1
      ensures AllAcceptable(old(items)) ==> AllAcceptable(items)
      ensures UniqueIds(old(items)) && !HasId(old(items), freshId) ==> UniqueIds(items)
    {
      var errors, w := ValidateAndNormalize(payload, None, freshId);
      if errors != [] {
        return Invalid(errors);
      }
      AppendKeepsInvariants(items, w);
      items := items + [w];
      r := Created(w);
    }

    /** `PUT /api/workouts/<id>`: an unknown id is reported before the
        payload is looked at; an invalid payload is refused and nothing
        changes; otherwise the first record with the id is replaced by the
        normalised payload, which keeps that id. */
    method Update(id: string, payload: Payload) returns (r: Response)
      requires id != []  // a URL path segment is never empty
      modifies this
      ensures !HasId(old(items), id) ==> r == NotFound && items == old(items)
      ensures HasId(old(items), id) ==>
        var w := Normalize(payload, Some(id), id);
        if Acceptable(w) then r == Updated(w) && items == old(items)[IndexOfId(old(items), id) := w]
        else r == Invalid(ErrorMessages(w)) && items == old(items)
      ensures r.Updated? ==> r.record.id == id
      ensures |items| == |old(items)|
      ensures AllAcceptable(old(items)) ==> AllAcceptable(items)
      ensures UniqueIds(old(items)) ==> UniqueIds(items)
    {
      var idx := FirstIndexOf(items, id);
      if idx.None? {
        return NotFound;
      }
      var errors, normalized := ValidateAndNormalize(payload, Some(id), id);
      if errors != [] {
        return Invalid(errors);
      }
      assert idx.value == IndexOfId(items, id);
      ReplaceKeepsInvariants(items, idx.value, normalized);
      items := items[idx.value := normalized];
      r := Updated(normalized);
    }

    /** `DELETE /api/workouts/<id>`: every record with the id is removed;
        when none was, the answer is not found and nothing changes. */
    method Delete(id: string) returns (r: Response)
      modifies this
      ensures r == (if HasId(old(items), id) then Deleted else NotFound)
      ensures items == Without(old(items), id)
      ensures !HasId(items, id)
      ensures r.NotFound? ==> items == old(items)
      ensures AllAcceptable(old(items)) ==> AllAcceptable(items)
      ensures UniqueIds(old(items)) ==> UniqueIds(items)
    {
      var before := |items|;
      var kept := RemoveAll(items, id);
      WithoutLength(items, id);
      WithoutKeepsInvariants(items, id);
      WithoutKeepsExactlyOthers(items, id);
      if |kept| == before {
        return NotFound;
      }
      items := kept;
      r := Deleted;
    }
  }
}
