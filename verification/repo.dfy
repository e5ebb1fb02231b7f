/**
 * The category repository (internal/adapter/storage/gorm/repo/category.go)
 * as an in-memory table. Each operation reads or rewrites the table the way
 * its GORM query does; GORM's soft-delete scope hides rows whose `deleted`
 * flag is set from every query.
 *
 * The database can fail any statement (a lost connection, a constraint it
 * enforces, ...). Which statements fail is not something the model can
 * compute, so each operation takes `fault`: true when the database reports
 * an error for that statement.
 */
module Repo {
  import opened Wrappers
  import opened Entity

  /** What a failing statement reports: GORM's ErrRecordNotFound, or any other database error. */
  datatype StoreError = RecordNotFound | DatabaseError

  /** `c` is a live row owned by `u` and named `n`. */
  predicate NamedLive(c: Category, u: nat, n: string)
  {
    !c.deleted && c.userId == u && c.name == n
  }

  /** The `COUNT(*)` of live rows owned by `u` and named `n`. */
  function CountNamed(rows: seq<Category>, u: nat, n: string): (k: nat)
    ensures k <= |rows|
  {
    if rows == [] then 0
    else CountNamed(rows[..|rows| - 1], u, n) + (if NamedLive(rows[|rows| - 1], u, n) then 1 else 0)
  }

  /** What ExistsWithName answers when the database responds: exactly one live match. */
  predicate NameTaken(rows: seq<Category>, u: nat, n: string)
  {
    CountNamed(rows, u, n) == 1
  }

  /** The count is positive exactly when some live row matches. */
  lemma {:induction false} CountNamedPositiveIff(rows: seq<Category>, u: nat, n: string)
    ensures CountNamed(rows, u, n) > 0 <==> exists i :: 0 <= i < |rows| && NamedLive(rows[i], u, n)
  {
    if rows != [] {
      var init := rows[..|rows| - 1];
      CountNamedPositiveIff(init, u, n);
      assert forall i :: 0 <= i < |init| ==> init[i] == rows[i];
      if CountNamed(init, u, n) > 0 {
        var i :| 0 <= i < |init| && NamedLive(init[i], u, n);
        assert NamedLive(rows[i], u, n);
      }
    }
  }

  /** Two distinct live matches push the count to at least two. */
  lemma {:induction false} CountNamedAtLeastTwo(rows: seq<Category>, u: nat, n: string, i: nat, j: nat)
    requires i < j < |rows| && NamedLive(rows[i], u, n) && NamedLive(rows[j], u, n)
    ensures CountNamed(rows, u, n) >= 2
  {
    var init := rows[..|rows| - 1];
    if j == |rows| - 1 {
      assert init[i] == rows[i];
      CountNamedPositiveIff(init, u, n);
    } else {
      CountNamedAtLeastTwo(init, u, n, i, j);
    }
  }

  /** Within one owner, live rows carry distinct names. */
  ghost predicate UniqueNames(rows: seq<Category>)
  {
    forall i, j ::
      0 <= i < |rows| && 0 <= j < |rows| && NamedLive(rows[i], rows[j].userId, rows[j].name) && !rows[j].deleted ==> i == j
  }

  /** When names are unique, ExistsWithName's `count == 1` is the same as "some live row matches". */
  lemma NameTakenIffPresent(rows: seq<Category>, u: nat, n: string)
    requires UniqueNames(rows)
    ensures NameTaken(rows, u, n) <==> exists i :: 0 <= i < |rows| && NamedLive(rows[i], u, n)
  {
    CountNamedPositiveIff(rows, u, n);
    if CountNamed(rows, u, n) >= 2 {
      CountNamedAtMostOne(rows, u, n);
    }
  }

  lemma {:induction false} CountNamedAtMostOne(rows: seq<Category>, u: nat, n: string)
    requires UniqueNames(rows)
    ensures CountNamed(rows, u, n) <= 1
  {
    if rows != [] {
      var init := rows[..|rows| - 1];
      assert UniqueNames(init) by {
        assert forall i :: 0 <= i < |init| ==> init[i] == rows[i];
      }
      CountNamedAtMostOne(init, u, n);
      CountNamedPositiveIff(init, u, n);
    }
  }

  /** Two live rows sharing an owner and a name make ExistsWithName answer false for that name. */
  lemma DuplicatesHideName(rows: seq<Category>, u: nat, n: string, i: nat, j: nat)
    requires i < j < |rows| && NamedLive(rows[i], u, n) && NamedLive(rows[j], u, n)
    ensures !NameTaken(rows, u, n)
  {
    CountNamedAtLeastTwo(rows, u, n, i, j);
  }

  /** The first live row with primary key `id`, as `First(&c, id)` finds it. */
  function FindLive(rows: seq<Category>, id: nat): (r: Option<Category>)
    ensures r.Some? ==> r.value in rows && r.value.id == id && !r.value.deleted
    ensures r.None? ==> forall i :: 0 <= i < |rows| && rows[i].id == id ==> rows[i].deleted
  {
    if rows == [] then None
    else if rows[0].id == id && !rows[0].deleted then Some(rows[0])
    else
      var r := FindLive(rows[1..], id);
      assert r.None? ==> forall i :: 1 <= i < |rows| && rows[i].id == id ==> rows[i].deleted by {
        assert forall i :: 1 <= i < |rows| ==> rows[i] == rows[1..][i - 1];
      }
      r
  }

  /** The outcome of GetCategoryById when the database responds. */
  function ById(rows: seq<Category>, id: nat): Result<Category, StoreError>
  {
    match FindLive(rows, id)
    case Some(c) => Success(c)
    case None => Failure(RecordNotFound)
  }

  /** Primary keys are unique. */
  ghost predicate DistinctIds(rows: seq<Category>)
  {
    forall i, j :: 0 <= i < j < |rows| ==> rows[i].id != rows[j].id
  }

  /** With unique keys, a lookup finds exactly the live row holding the key, and fails when there is none. */
  lemma ByIdFinds(rows: seq<Category>, id: nat)
    requires DistinctIds(rows)
    ensures ById(rows, id).Success? <==> exists i :: 0 <= i < |rows| && rows[i].id == id && !rows[i].deleted
    ensures forall i :: 0 <= i < |rows| && rows[i].id == id && !rows[i].deleted ==> ById(rows, id) == Success(rows[i])
  {
  }

  /** The position of the row holding primary key `id`, soft-deleted or not. */
  function IndexOfId(rows: seq<Category>, id: nat): (r: Option<nat>)
    ensures r.Some? ==> r.value < |rows| && rows[r.value].id == id
    ensures r.None? ==> forall i :: 0 <= i < |rows| ==> rows[i].id != id
  {
    if rows == [] then None
    else if rows[0].id == id then Some(0)
    else
      match IndexOfId(rows[1..], id)
      case Some(k) => Some(k + 1)
      case None =>
        assert forall i :: 1 <= i < |rows| ==> rows[i] == rows[1..][i - 1];
        None
  }

  /** The live rows owned by `u`, in table order. */
  function OwnedLive(rows: seq<Category>, u: nat): seq<Category>
  {
    if rows == [] then []
    else
      var last := rows[|rows| - 1];
      OwnedLive(rows[..|rows| - 1], u) + (if !last.deleted && last.userId == u then [last] else [])
  }

  /** OwnedLive holds the live rows of `u` and nothing else. */
  lemma {:induction false} OwnedLiveMembers(rows: seq<Category>, u: nat)
    ensures forall c :: c in OwnedLive(rows, u) <==> c in rows && !c.deleted && c.userId == u
  {
    if rows != [] {
      var init := rows[..|rows| - 1];
      OwnedLiveMembers(init, u);
      assert rows == init + [rows[|rows| - 1]];
    }
  }

  /** Most recently updated first (`ORDER BY updated_at DESC`); rows with equal timestamps may come in any order. */
  ghost predicate ByRecency(s: seq<Category>)
  {
    forall i, j :: 0 <= i < j < |s| ==> s[i].updatedAt >= s[j].updatedAt
  }

  /** Places `c` into a listing ordered by recency, ahead of every row not newer than it. */
  function InsertByRecency(c: Category, s: seq<Category>): (r: seq<Category>)
    ensures multiset(r) == multiset(s) + multiset{c}
  {
    if s == [] || c.updatedAt >= s[0].updatedAt then
      [c] + s
    else
      assert s == [s[0]] + s[1..];
      [s[0]] + InsertByRecency(c, s[1..])
  }

  /** Insertion adds no row newer than `bound` when neither the listing nor `c` holds one. */
  lemma {:induction false} InsertByRecencyBounded(c: Category, s: seq<Category>, bound: nat)
    requires c.updatedAt <= bound
    requires forall i :: 0 <= i < |s| ==> s[i].updatedAt <= bound
    ensures forall i :: 0 <= i < |InsertByRecency(c, s)| ==> InsertByRecency(c, s)[i].updatedAt <= bound
  {
    if s != [] && c.updatedAt < s[0].updatedAt {
      InsertByRecencyBounded(c, s[1..], bound);
    }
  }

  /** Inserting into a recency-ordered listing keeps it ordered. */
  lemma {:induction false} InsertByRecencyOrdered(c: Category, s: seq<Category>)
    requires ByRecency(s)
    ensures ByRecency(InsertByRecency(c, s))
  {
    if s != [] && c.updatedAt < s[0].updatedAt {
      var rest := InsertByRecency(c, s[1..]);
      InsertByRecencyOrdered(c, s[1..]);
      InsertByRecencyBounded(c, s[1..], s[0].updatedAt);
      assert InsertByRecency(c, s) == [s[0]] + rest;
    }
  }

  /** A row updated strictly after every other row of a recency-ordered listing heads it. */
  lemma NewestFirst(listing: seq<Category>, x: Category)
    requires ByRecency(listing) && x in listing
    requires forall y :: y in listing && y != x ==> y.updatedAt < x.updatedAt
    ensures listing[0] == x
  {
  }

  /** A live row strictly newer than every other row of the table heads its owner's listing. */
  lemma NewestOwnedFirst(listing: seq<Category>, rows: seq<Category>, x: Category)
    requires ByRecency(listing) && multiset(listing) == multiset(OwnedLive(rows, x.userId))
    requires x in rows && !x.deleted
    requires forall y :: y in rows && y != x ==> y.updatedAt < x.updatedAt
    ensures |listing| > 0 && listing[0] == x
  {
    OwnedLiveMembers(rows, x.userId);
    assert x in multiset(OwnedLive(rows, x.userId));
    forall y | y in listing && y != x
      ensures y.updatedAt < x.updatedAt
    {
      assert y in multiset(listing);
      assert y in OwnedLive(rows, x.userId);
    }
    NewestFirst(listing, x);
  }

  /** `c` after `DELETE` of `id` under the soft-delete scope. */
  function Mark(c: Category, id: nat): Category
  {
    if c.id == id && !c.deleted then c.(deleted := true) else c
  }

  /** The table after soft-deleting `id`: its live row is marked, every other row stays. */
  function SoftDeleted(rows: seq<Category>, id: nat): seq<Category>
  {
    seq(|rows|, i requires 0 <= i < |rows| => Mark(rows[i], id))
  }

  /** After a soft delete the row can no longer be found by its id. */
  lemma SoftDeleteHides(rows: seq<Category>, id: nat)
    ensures ById(SoftDeleted(rows, id), id) == Failure(RecordNotFound)
  {
  }

  /** A soft delete leaves every other id's lookup as it was. */
  lemma {:induction false} SoftDeleteKeepsOthers(rows: seq<Category>, id: nat, other: nat)
    requires other != id
    ensures ById(SoftDeleted(rows, id), other) == ById(rows, other)
  {
    if rows != [] {
      assert SoftDeleted(rows, id)[1..] == SoftDeleted(rows[1..], id);
      SoftDeleteKeepsOthers(rows[1..], id, other);
    }
  }

  /** Once its category is soft-deleted, the owner's name is free again. */
  lemma SoftDeleteFreesName(rows: seq<Category>, k: nat)
    requires DistinctIds(rows) && UniqueNames(rows) && k < |rows| && !rows[k].deleted
    ensures !NameTaken(SoftDeleted(rows, rows[k].id), rows[k].userId, rows[k].name)
  {
    var after := SoftDeleted(rows, rows[k].id);
    var u, n := rows[k].userId, rows[k].name;
    forall i | 0 <= i < |after|
      ensures !NamedLive(after[i], u, n)
    {
      assert after[i] == Mark(rows[i], rows[k].id);
      assert NamedLive(rows[i], u, n) ==> i == k;
    }
    CountNamedPositiveIff(after, u, n);
  }

  /** A soft delete removes the row from its owner's listing and leaves every other owned row in it. */
  lemma SoftDeleteLeavesListing(rows: seq<Category>, id: nat, u: nat)
    ensures forall c :: c in OwnedLive(SoftDeleted(rows, id), u) <==> c in OwnedLive(rows, u) && c.id != id
  {
    OwnedLiveMembers(rows, u);
    OwnedLiveMembers(SoftDeleted(rows, id), u);
    var after := SoftDeleted(rows, id);
    forall c | c in after && !c.deleted
      ensures c in rows && c.id != id
    {
      var k :| 0 <= k < |after| && after[k] == c;
    }
    forall c | c in rows && !c.deleted && c.id != id
      ensures c in after
    {
      var k :| 0 <= k < |rows| && rows[k] == c;
      assert after[k] == c;
    }
  }

  /** A record as CreateCategory inserts it: given its key and both timestamps. */
  function Stamped(c: Category, id: nat, at: nat): Category
  {
    c.(id := id, createdAt := at, updatedAt := at)
  }

  /**
   * The table after `Save(&c)` for a record with a non-zero key: the row with
   * that key (soft-deleted or not) takes every field of `c` except its
   * creation time, and is stamped as updated at `at`; with no such row, `c`
   * is inserted under its own key.
   */
  function Saved(rows: seq<Category>, c: Category, at: nat): seq<Category>
  {
    match IndexOfId(rows, c.id)
    case Some(i) => rows[i := c.(createdAt := rows[i].createdAt, updatedAt := at)]
    case None => rows + [c.(createdAt := at, updatedAt := at)]
  }

  /** Saving over an existing row changes that row only. */
  lemma SavedOverwrites(rows: seq<Category>, c: Category, at: nat, i: nat)
    requires DistinctIds(rows) && i < |rows| && rows[i].id == c.id
    ensures Saved(rows, c, at) == rows[i := c.(createdAt := rows[i].createdAt, updatedAt := at)]
  {
  }

  /** The categories table. */
  class CategoryStore {
    /** Every row, soft-deleted ones included, in insertion order. */
    var rows: seq<Category>
    /** The key the next auto-numbered insert receives. */
    var nextId: nat
    /** The timestamp the next write receives. */
    var clock: nat

    /** Keys are positive, unique and below `nextId`; every row was last written before `clock`. */
    ghost predicate Valid()
      reads this
    {
      && 0 < nextId
      && DistinctIds(rows)
      && forall i :: 0 <= i < |rows| ==> 0 < rows[i].id < nextId && rows[i].updatedAt < clock
    }

    constructor ()
      ensures Valid() && rows == [] && nextId == 1 && clock == 1
    {
      rows := [];
      nextId := 1;
      clock := 1;
    }

    /** Whether exactly one live row is owned by `userId` and named `name`; a failing count reads as false. */
    method ExistsWithName(userId: nat, name: string, fault: bool) returns (found: bool)
      ensures found <==> !fault && NameTaken(rows, userId, name)
    {
      var count := 0;
      var i := 0;
      while i < |rows|
        invariant 0 <= i <= |rows|
        invariant count == CountNamed(rows[..i], userId, name)
      {
        assert rows[..i + 1][..i] == rows[..i];
        if NamedLive(rows[i], userId, name) {
          count := count + 1;
        }
        i := i + 1;
      }
      assert rows[..|rows|] == rows;
      found := !fault && count == 1;
    }

    /** The live row with key `id`, RecordNotFound when there is none, DatabaseError when the query fails. */
    method GetCategoryById(id: nat, fault: bool) returns (r: Result<Category, StoreError>)
      ensures r == if fault then Failure(DatabaseError) else ById(rows, id)
    {
      if fault {
        return Failure(DatabaseError);
      }
      var i := 0;
      while i < |rows|
        invariant 0 <= i <= |rows|
        invariant FindLive(rows[i..], id) == FindLive(rows, id)
      {
        assert rows[i..][0] == rows[i] && rows[i..][1..] == rows[i + 1..];
        if rows[i].id == id && !rows[i].deleted {
          return Success(rows[i]);
        }
        i := i + 1;
      }
      return Failure(RecordNotFound);
    }

    /** False when the lookup fails for any reason, otherwise whether the row's owner is `userId`. */
    method CategoryBelongsToUser(id: nat, userId: nat, fault: bool) returns (belongs: bool)
      ensures belongs <==> !fault && ById(rows, id).Success? && ById(rows, id).value.userId == userId
    {
      var r := GetCategoryById(id, fault);
      if r.Failure? {
        return false;
      }
      belongs := r.value.userId == userId;
    }

    /** The live rows owned by `userId`, most recently updated first. */
    method GetCategoriesByUserId(userId: nat, fault: bool) returns (r: Result<seq<Category>, StoreError>)
      ensures fault ==> r == Failure(DatabaseError)
      ensures !fault ==> r.Success? && ByRecency(r.value) && multiset(r.value) == multiset(OwnedLive(rows, userId))
      ensures r.Success? ==> forall c :: c in r.value <==> c in rows && !c.deleted && c.userId == userId
    {
      if fault {
        return Failure(DatabaseError);
      }
      var listing: seq<Category> := [];
      var i := 0;
      while i < |rows|
        invariant 0 <= i <= |rows|
        invariant ByRecency(listing)
        invariant multiset(listing) == multiset(OwnedLive(rows[..i], userId))
      {
        assert rows[..i + 1][..i] == rows[..i];
        assert OwnedLive(rows[..i + 1], userId)
            == OwnedLive(rows[..i], userId) + (if !rows[i].deleted && rows[i].userId == userId then [rows[i]] else []);
        if !rows[i].deleted && rows[i].userId == userId {
          InsertByRecencyOrdered(rows[i], listing);
          listing := InsertByRecency(rows[i], listing);
        }
        i := i + 1;
      }
      assert rows[..|rows|] == rows;
      OwnedLiveMembers(rows, userId);
      forall c ensures c in listing <==> c in OwnedLive(rows, userId) {
        assert c in listing <==> c in multiset(listing);
        assert c in OwnedLive(rows, userId) <==> c in multiset(OwnedLive(rows, userId));
      }
      return Success(listing);
    }

    /** Inserts `c` under a fresh key, stamped with the current time; the stored record is returned. */
    method CreateCategory(c: Category, fault: bool) returns (r: Result<Category, StoreError>)
      requires Valid()
      modifies this
      ensures Valid()
      ensures fault ==> r == Failure(DatabaseError) && unchanged(this)
      ensures !fault ==> && r == Success(Stamped(c, old(nextId), old(clock)))
                         && rows == old(rows) + [r.value]
                         && nextId == old(nextId) + 1 && clock == old(clock) + 1
    {
      if fault {
        return Failure(DatabaseError);
      }
      var created := Stamped(c, nextId, clock);
      rows := rows + [created];
      nextId := nextId + 1;
      clock := clock + 1;
      return Success(created);
    }

    /**
     * `Save(&c)`: a record without a key is created; otherwise its row is
     * overwritten, or inserted when missing. The record is handed back with
     * the error, whether or not there is one.
     */
    method UpdateCategory(c: Category, fault: bool) returns (saved: Category, err: Option<StoreError>)
      requires Valid()
      modifies this
      ensures Valid()
      ensures fault ==> saved == c && err == Some(DatabaseError) && unchanged(this)
      ensures !fault && c.id == 0 ==> && err.None? && saved == Stamped(c, old(nextId), old(clock))
                                      && rows == old(rows) + [saved]
                                      && nextId == old(nextId) + 1 && clock == old(clock) + 1
      ensures !fault && c.id != 0 ==> && err.None? && saved == c.(updatedAt := old(clock))
                                      && rows == Saved(old(rows), c, old(clock))
                                      && nextId == (if old(nextId) <= c.id then c.id + 1 else old(nextId))
                                      && clock == old(clock) + 1
    {
      if fault {
        return c, Some(DatabaseError);
      }
      if c.id == 0 {
        saved := Stamped(c, nextId, clock);
        rows := rows + [saved];
        nextId := nextId + 1;
        clock := clock + 1;
        return saved, None;
      }
      var i := 0;
      while i < |rows| && rows[i].id != c.id
        invariant 0 <= i <= |rows|
        invariant forall k :: 0 <= k < i ==> rows[k].id != c.id
      {
        i := i + 1;
      }
      if i < |rows| {
        assert IndexOfId(rows, c.id) == Some(i);
        rows := rows[i := c.(createdAt := rows[i].createdAt, updatedAt := clock)];
      } else {
        rows := rows + [c.(createdAt := clock, updatedAt := clock)];
        if nextId <= c.id {
          nextId := c.id + 1;
        }
      }
      saved := c.(updatedAt := clock);
      clock := clock + 1;
      err := None;
    }

    /** Soft-deletes the live row with key `id`; deleting a missing row is not an error. */
    method DeleteCategory(id: nat, fault: bool) returns (err: Option<StoreError>)
      requires Valid()
      modifies this
      ensures Valid()
      ensures fault ==> err == Some(DatabaseError) && unchanged(this)
      ensures !fault ==> && err.None? && rows == SoftDeleted(old(rows), id)
                         && nextId == old(nextId) && clock == old(clock)
    {
      if fault {
        return Some(DatabaseError);
      }
      var marked: seq<Category> := [];
      var i := 0;
      while i < |rows|
        invariant 0 <= i <= |rows|
        invariant |marked| == i
        invariant forall k :: 0 <= k < i ==> marked[k] == Mark(rows[k], id)
      {
        marked := marked + [Mark(rows[i], id)];
        i := i + 1;
      }
      rows := marked;
      err := None;
    }
  }
}
