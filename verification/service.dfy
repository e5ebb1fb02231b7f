/**
 * The category domain service (internal/core/service/category/category.go):
 * the four use cases over a category store. The service holds no state of its
 * own; every effect goes through the store.
 */
module Service {
  import opened Wrappers
  import opened Errors
  import opened Entity
  import opened Repo

  /**
   * Whether the database reports an error for each statement a use case
   * issues: the lookup (GetCategoryById, CategoryBelongsToUser or the
   * listing), the name check (ExistsWithName) and the write.
   */
  datatype Faults = Faults(lookup: bool, nameCheck: bool, write: bool)

  /** An error a use case returns: one of the sentinels, or the store's own error passed through. */
  datatype Error = Sentinel(sentinel: CategoryError) | Store(cause: StoreError)

  const MinNameLength := 3
  const MaxNameLength := 128
  const MaxDescriptionLength := 256

  /** The record CreateCategory asks the store to insert. */
  function NewRecord(req: CreateRequest): Category
  {
    Category(0, req.userId, req.name, req.description, req.kind, 0, 0, false)
  }

  /** Whether ExistsWithName reports the requested new name as taken by the caller. */
  predicate NameCheckHits(rows: seq<Category>, req: UpdateRequest, fault: bool)
  {
    req.name.Some? && !fault && NameTaken(rows, req.userId, req.name.value)
  }

  /** The verdict of validateUpdateCategoryAttributes, its checks taken in order. */
  function PatchVerdict(req: UpdateRequest, nameTaken: bool): Option<CategoryError>
  {
    if req.name.None? && req.description.None? then Some(AtLeastOneFieldIsRequired)
    else if req.name.Some? && (|req.name.value| < MinNameLength || |req.name.value| > MaxNameLength) then
      Some(CategoryNameLengthError)
    else if req.name.Some? && nameTaken then Some(CategoryAlreadyExists)
    else if req.description.Some? && |req.description.value| > MaxDescriptionLength then
      Some(CategoryDescriptionLengthError)
    else None
  }

  /** `c` with the request's present fields written over it. */
  function Patched(c: Category, req: UpdateRequest): Category
  {
    c.(name := if req.name.Some? then req.name.value else c.name,
       description := if req.description.Some? then req.description.value else c.description)
  }

  /** A patch is accepted exactly when some field is present and every present field is acceptable. */
  lemma PatchAcceptedIff(req: UpdateRequest, nameTaken: bool)
    ensures PatchVerdict(req, nameTaken).None? <==>
      && (req.name.Some? || req.description.Some?)
      && (req.name.Some? ==> MinNameLength <= |req.name.value| <= MaxNameLength && !nameTaken)
      && (req.description.Some? ==> |req.description.value| <= MaxDescriptionLength)
  {
  }

  /** Which check rejects a patch, whatever the later checks would have said. */
  lemma PatchChecksInOrder(req: UpdateRequest, nameTaken: bool)
    ensures req.name.None? && req.description.None? ==> PatchVerdict(req, nameTaken) == Some(AtLeastOneFieldIsRequired)
    ensures req.name.Some? && !(MinNameLength <= |req.name.value| <= MaxNameLength) ==>
      PatchVerdict(req, nameTaken) == Some(CategoryNameLengthError)
    ensures req.name.Some? && MinNameLength <= |req.name.value| <= MaxNameLength && nameTaken ==>
      PatchVerdict(req, nameTaken) == Some(CategoryAlreadyExists)
    ensures (req.name.None? || (MinNameLength <= |req.name.value| <= MaxNameLength && !nameTaken)) ==>
      && (req.description.Some? && |req.description.value| > MaxDescriptionLength ==>
            PatchVerdict(req, nameTaken) == Some(CategoryDescriptionLengthError))
      && (req.description.Some? && |req.description.value| == MaxDescriptionLength ==>
            PatchVerdict(req, nameTaken).None?)
  {
  }

  /** A patch changes at most the name and the description; an absent field keeps its value. */
  lemma PatchKeepsIdentity(c: Category, req: UpdateRequest)
    ensures var p := Patched(c, req);
      && p.id == c.id && p.userId == c.userId && p.kind == c.kind
      && p.createdAt == c.createdAt && p.updatedAt == c.updatedAt && p.deleted == c.deleted
      && (req.name.None? ==> p.name == c.name) && (req.name.Some? ==> p.name == req.name.value)
      && (req.description.None? ==> p.description == c.description)
      && (req.description.Some? ==> p.description == req.description.value)
  {
  }

  /** What the lookup at the start of UpdateCategory returns. */
  function Fetched(rows: seq<Category>, id: nat, fault: bool): Result<Category, StoreError>
  {
    if fault then Failure(DatabaseError) else ById(rows, id)
  }

  /** What CategoryBelongsToUser answers at the start of DeleteCategory. */
  predicate Belongs(rows: seq<Category>, req: DeleteRequest, fault: bool)
  {
    !fault && ById(rows, req.id).Success? && ById(rows, req.id).value.userId == req.userId
  }

  /** Creating a name the owner does not use keeps names unique per owner. */
  lemma CreateKeepsNamesUnique(rows: seq<Category>, req: CreateRequest, id: nat, at: nat)
    requires UniqueNames(rows) && !NameTaken(rows, req.userId, req.name)
    ensures UniqueNames(rows + [Stamped(NewRecord(req), id, at)])
  {
    NameTakenIffPresent(rows, req.userId, req.name);
    var after := rows + [Stamped(NewRecord(req), id, at)];
    forall i, j | 0 <= i < |after| && 0 <= j < |after| && NamedLive(after[i], after[j].userId, after[j].name) && !after[j].deleted
      ensures i == j
    {
      assert after[i] == (if i < |rows| then rows[i] else Stamped(NewRecord(req), id, at));
      assert after[j] == (if j < |rows| then rows[j] else Stamped(NewRecord(req), id, at));
      assert i < |rows| ==> !NamedLive(rows[i], req.userId, req.name);
      assert j < |rows| ==> !NamedLive(rows[j], req.userId, req.name);
    }
  }

  /**
   * Saving a patch over an existing category changes that row only: it takes
   * the patched name and description and a new update time, and keeps its
   * key, owner, type, creation time and deletion state.
   */
  lemma UpdateTouchesOnlyTarget(rows: seq<Category>, req: UpdateRequest, at: nat)
    requires DistinctIds(rows) && ById(rows, req.id).Success?
    ensures var found := ById(rows, req.id).value;
      var after := Saved(rows, Patched(found, req), at);
      && |after| == |rows|
      && forall i :: 0 <= i < |rows| ==>
           if rows[i].id == req.id then
             && after[i].id == rows[i].id && after[i].userId == rows[i].userId && after[i].kind == rows[i].kind
             && after[i].createdAt == rows[i].createdAt && after[i].deleted == rows[i].deleted
             && after[i].name == (if req.name.Some? then req.name.value else rows[i].name)
             && after[i].description == (if req.description.Some? then req.description.value else rows[i].description)
             && after[i].updatedAt == at
           else after[i] == rows[i]
  {
    var found := ById(rows, req.id).value;
    ByIdFinds(rows, req.id);
    var k :| 0 <= k < |rows| && rows[k].id == req.id && !rows[k].deleted;
    SavedOverwrites(rows, Patched(found, req), at, k);
  }

  /**
   * When the caller owns the category and the name check saw the table, an
   * accepted patch keeps names unique per owner.
   */
  lemma OwnerUpdateKeepsNamesUnique(rows: seq<Category>, req: UpdateRequest, at: nat)
    requires DistinctIds(rows) && UniqueNames(rows)
    requires ById(rows, req.id).Success? && ById(rows, req.id).value.userId == req.userId
    requires PatchVerdict(req, NameCheckHits(rows, req, false)).None?
    ensures UniqueNames(Saved(rows, Patched(ById(rows, req.id).value, req), at))
  {
    var found := ById(rows, req.id).value;
    ByIdFinds(rows, req.id);
    var k :| 0 <= k < |rows| && rows[k].id == req.id && !rows[k].deleted;
    assert found == rows[k];
    SavedOverwrites(rows, Patched(found, req), at, k);
    var after := Saved(rows, Patched(found, req), at);
    if req.name.Some? {
      NameTakenIffPresent(rows, req.userId, req.name.value);
    }
    forall i, j | 0 <= i < |after| && 0 <= j < |after| && NamedLive(after[i], after[j].userId, after[j].name) && !after[j].deleted
      ensures i == j
    {
      assert after[i] == (if i == k then Patched(found, req).(updatedAt := at) else rows[i]);
      assert after[j] == (if j == k then Patched(found, req).(updatedAt := at) else rows[j]);
      assert req.name.Some? ==> !NamedLive(rows[i], req.userId, req.name.value) && !NamedLive(rows[j], req.userId, req.name.value);
    }
  }

  /**
   * Renaming a category to the name it already has is refused as a
   * duplicate: the category itself is the one live match.
   */
  lemma RenameToOwnNameRefused(rows: seq<Category>, req: UpdateRequest)
    requires UniqueNames(rows)
    requires ById(rows, req.id).Success?
    requires req.userId == ById(rows, req.id).value.userId && req.name == Some(ById(rows, req.id).value.name)
    requires MinNameLength <= |req.name.value| <= MaxNameLength
    ensures PatchVerdict(req, NameCheckHits(rows, req, false)) == Some(CategoryAlreadyExists)
  {
    var found := ById(rows, req.id).value;
    assert found in rows && !found.deleted;
    var k :| 0 <= k < |rows| && rows[k] == found;
    assert NamedLive(rows[k], req.userId, req.name.value);
    NameTakenIffPresent(rows, req.userId, req.name.value);
  }

  /**
   * A count that fails is read as "no such name", so a create whose name
   * check fails stores a second live category of a name its owner already
   * uses, and the count-of-one check then stops reporting that name.
   */
  lemma FailedNameCheckDuplicatesName()
    ensures var rows := [Category(1, 2, "Bills", "", Expense, 1, 1, false)];
      var req := CreateRequest(2, "Bills", "", Expense);
      var after := rows + [Stamped(NewRecord(req), 2, 2)];
      && UniqueNames(rows) && NameTaken(rows, req.userId, req.name)
      && !UniqueNames(after)
      && !NameTaken(after, 2, "Bills")
  {
    var rows := [Category(1, 2, "Bills", "", Expense, 1, 1, false)];
    var req := CreateRequest(2, "Bills", "", Expense);
    assert NameTaken(rows, 2, "Bills") by {
      assert rows[..0] == [];
    }
    var after := rows + [Stamped(NewRecord(req), 2, 2)];
    assert after[0] == rows[0] && after[1].name == "Bills" && after[1].userId == 2 && !after[1].deleted;
    DuplicatesHideName(after, 2, "Bills", 0, 1);
  }

  /**
   * Because the name check uses the caller's id rather than the owner's,
   * a caller who does not own a category can rename it to a name its owner
   * already uses. The owner then has two live categories of that name, and
   * ExistsWithName no longer reports the name as taken for them.
   */
  lemma ForeignRenameDuplicatesName()
    ensures var rows := [Category(1, 2, "Bills", "", Expense, 1, 1, false),
                         Category(2, 2, "Rent", "", Expense, 2, 2, false)];
      var req := UpdateRequest(2, 3, Some("Bills"), None);
      var after := Saved(rows, Patched(ById(rows, 2).value, req), 3);
      && DistinctIds(rows) && UniqueNames(rows)
      && ById(rows, 2).Success? && ById(rows, 2).value.userId != req.userId
      && PatchVerdict(req, NameCheckHits(rows, req, false)).None?
      && !UniqueNames(after)
      && !NameTaken(after, 2, "Bills")
  {
    var rows := [Category(1, 2, "Bills", "", Expense, 1, 1, false),
                 Category(2, 2, "Rent", "", Expense, 2, 2, false)];
    var req := UpdateRequest(2, 3, Some("Bills"), None);
    assert rows[1..][0] == rows[1];
    assert ById(rows, 2) == Success(rows[1]);
    assert !NameTaken(rows, 3, "Bills") by {
      assert rows[..1][..0] == [];
      assert CountNamed(rows[..1], 3, "Bills") == 0;
    }
    var after := Saved(rows, Patched(rows[1], req), 3);
    SavedOverwrites(rows, Patched(rows[1], req), 3, 1);
    assert after[0] == rows[0] && after[1].name == "Bills" && after[1].userId == 2 && !after[1].deleted;
    DuplicatesHideName(after, 2, "Bills", 0, 1);
  }

  /**
   * After a successful update the category heads its owner's listing: its
   * update time is later than that of every other row.
   */
  lemma UpdatedCategoryListedFirst(rows: seq<Category>, req: UpdateRequest, at: nat, listing: seq<Category>)
    requires DistinctIds(rows) && ById(rows, req.id).Success?
    requires forall i :: 0 <= i < |rows| ==> rows[i].updatedAt < at
    requires var found := ById(rows, req.id).value;
      ByRecency(listing) && multiset(listing) == multiset(OwnedLive(Saved(rows, Patched(found, req), at), found.userId))
    ensures |listing| > 0 && listing[0].id == req.id && listing[0].updatedAt == at
  {
    var found := ById(rows, req.id).value;
    ByIdFinds(rows, req.id);
    var k :| 0 <= k < |rows| && rows[k].id == req.id && !rows[k].deleted;
    assert found == rows[k];
    var after := Saved(rows, Patched(found, req), at);
    SavedOverwrites(rows, Patched(found, req), at, k);
    var x := after[k];
    forall y | y in after && y != x
      ensures y.updatedAt < x.updatedAt
    {
      var j :| 0 <= j < |after| && after[j] == y;
      assert after[j] == rows[j];
    }
    NewestOwnedFirst(listing, after, x);
  }

  /** The category use cases over one store. */
  class CategoryService {
    const store: CategoryStore

    constructor (store: CategoryStore)
      ensures this.store == store
    {
      this.store := store;
    }

    /** The owner's live categories, most recently updated first, straight from the store. */
    method GetCategoriesByUserId(userId: nat, fault: bool) returns (r: Result<seq<Category>, Error>)
      ensures fault ==> r == Failure(Store(DatabaseError))
      ensures !fault ==> r.Success? && ByRecency(r.value) && multiset(r.value) == multiset(OwnedLive(store.rows, userId))
      ensures r.Success? ==> forall c :: c in r.value <==> c in store.rows && !c.deleted && c.userId == userId
    {
      var listing := store.GetCategoriesByUserId(userId, fault);
      match listing
      case Success(categories) => return Success(categories);
      case Failure(e) => return Failure(Store(e));
    }

    /** Refuses a name the owner already uses; otherwise stores a record built from the request. */
    method CreateCategory(req: CreateRequest, faults: Faults) returns (category: Option<Category>, err: Option<Error>)
      requires store.Valid()
      modifies store
      ensures store.Valid()
      ensures category.Some? <==> err.None?
      ensures !faults.nameCheck && NameTaken(old(store.rows), req.userId, req.name) ==>
        err == Some(Sentinel(CategoryAlreadyExists)) && unchanged(store)
      ensures (faults.nameCheck || !NameTaken(old(store.rows), req.userId, req.name)) ==>
        && (faults.write ==> err == Some(Store(DatabaseError)) && unchanged(store))
        && (!faults.write ==>
              && category == Some(Stamped(NewRecord(req), old(store.nextId), old(store.clock)))
              && store.rows == old(store.rows) + [category.value]
              && store.nextId == old(store.nextId) + 1 && store.clock == old(store.clock) + 1)
      ensures category.Some? ==>
        && category.value.userId == req.userId && category.value.name == req.name
        && category.value.description == req.description && category.value.kind == req.kind
    {
      var taken := store.ExistsWithName(req.userId, req.name, faults.nameCheck);
      if taken {
        return None, Some(Sentinel(CategoryAlreadyExists));
      }
      var created := store.CreateCategory(NewRecord(req), faults.write);
      match created
      case Success(c) => return Some(c), None;
      case Failure(e) => return None, Some(Store(e));
    }

    /**
     * Checks a patch against `category` and writes its accepted fields onto
     * it. A name written before the description is refused stays written,
     * as it does on the shared record in the Go service.
     */
    method ValidateUpdateAttributes(category: Category, req: UpdateRequest, fault: bool)
      returns (updated: Category, err: Option<CategoryError>)
      ensures err == PatchVerdict(req, NameCheckHits(store.rows, req, fault))
      ensures err.None? ==> updated == Patched(category, req)
      ensures err == Some(CategoryDescriptionLengthError) ==> updated == Patched(category, req.(description := None))
      ensures err.Some? && err != Some(CategoryDescriptionLengthError) ==> updated == category
    {
      if req.name.None? && req.description.None? {
        return category, Some(AtLeastOneFieldIsRequired);
      }
      updated := category;
      if req.name.Some? {
        var name := req.name.value;
        if |name| < MinNameLength || |name| > MaxNameLength {
          return updated, Some(CategoryNameLengthError);
        }
        var taken := store.ExistsWithName(req.userId, name, fault);
        if taken {
          return updated, Some(CategoryAlreadyExists);
        }
        updated := updated.(name := name);
      }
      if req.description.Some? {
        var description := req.description.value;
        if |description| > MaxDescriptionLength {
          return updated, Some(CategoryDescriptionLengthError);
        }
        updated := updated.(description := description);
      }
      return updated, None;
    }

    /**
     * Fetches the category, validates the patch, and saves the patched
     * record. The caller's id is used only for the name check: nothing
     * compares it with the category's owner.
     */
    method UpdateCategory(req: UpdateRequest, faults: Faults) returns (category: Option<Category>, err: Option<Error>)
      requires store.Valid()
      modifies store
      ensures store.Valid()
      ensures Fetched(old(store.rows), req.id, faults.lookup).Failure? ==>
        category.None? && err == Some(Sentinel(CategoryDoesntExist)) && unchanged(store)
      ensures Fetched(old(store.rows), req.id, faults.lookup).Success? ==>
        var found := Fetched(old(store.rows), req.id, faults.lookup).value;
        var verdict := PatchVerdict(req, NameCheckHits(old(store.rows), req, faults.nameCheck));
        && (verdict.Some? ==> category.None? && err == Some(Sentinel(verdict.value)) && unchanged(store))
        && (verdict.None? && faults.write ==>
              category == Some(Patched(found, req)) && err == Some(Store(DatabaseError)) && unchanged(store))
        && (verdict.None? && !faults.write ==>
              && err.None? && category == Some(Patched(found, req).(updatedAt := old(store.clock)))
              && store.rows == Saved(old(store.rows), Patched(found, req), old(store.clock))
              && store.nextId == old(store.nextId) && store.clock == old(store.clock) + 1)
    {
      var fetched := store.GetCategoryById(req.id, faults.lookup);
      if fetched.Failure? {
        return None, Some(Sentinel(CategoryDoesntExist));
      }
      var found := fetched.value;
      var patched, invalid := ValidateUpdateAttributes(found, req, faults.nameCheck);
      if invalid.Some? {
        return None, Some(Sentinel(invalid.value));
      }
      var saved, failed := store.UpdateCategory(patched, faults.write);
      category := Some(saved);
      err := if failed.Some? then Some(Store(failed.value)) else None;
    }

    /** Soft-deletes the category, but only for its owner. */
    method DeleteCategory(req: DeleteRequest, faults: Faults) returns (err: Option<Error>)
      requires store.Valid()
      modifies store
      ensures store.Valid()
      ensures !Belongs(old(store.rows), req, faults.lookup) ==>
        err == Some(Sentinel(CategoryDoesntBelongToUser)) && unchanged(store)
      ensures Belongs(old(store.rows), req, faults.lookup) ==>
        && (faults.write ==> err == Some(Store(DatabaseError)) && unchanged(store))
        && (!faults.write ==>
              && err.None? && store.rows == SoftDeleted(old(store.rows), req.id)
              && store.nextId == old(store.nextId) && store.clock == old(store.clock))
    {
      var belongs := store.CategoryBelongsToUser(req.id, req.userId, faults.lookup);
      if !belongs {
        return Some(Sentinel(CategoryDoesntBelongToUser));
      }
      var failed := store.DeleteCategory(req.id, faults.write);
      err := if failed.Some? then Some(Store(failed.value)) else None;
    }
  }

  /**
   * Example clients of the service, checked against a store holding one
   * category, with every conclusion drawn from the contracts above.
   */
  method StoreWithGroceries() returns (service: CategoryService, row: Category)
    ensures fresh(service) && fresh(service.store) && service.store.Valid()
    ensures service.store.rows == [row]
    ensures row == Category(1, 1, "Groceries", "weekly shopping", Expense, 1, 1, false)
  {
    var store := new CategoryStore();
    service := new CategoryService(store);
    var created, err := service.CreateCategory(CreateRequest(1, "Groceries", "weekly shopping", Expense), Faults(false, false, false));
    row := created.value;
  }

  /** The same name again, for the same owner, is refused and stores nothing. */
  method DuplicateCreateScenario()
  {
    var service, row := StoreWithGroceries();
    assert NameTaken([row], 1, "Groceries") by {
      assert [row][..0] == [];
    }
    var again, err := service.CreateCategory(CreateRequest(1, "Groceries", "", Income), Faults(false, false, false));
    assert again.None? && err == Some(Sentinel(CategoryAlreadyExists)) && service.store.rows == [row];
  }

  /** Patches: an empty one and one for a missing id are refused; a rename keeps the description. */
  method UpdateScenario()
  {
    var service, row := StoreWithGroceries();
    var healthy := Faults(false, false, false);
    var none, err := service.UpdateCategory(UpdateRequest(1, 1, None, None), healthy);
    assert err == Some(Sentinel(AtLeastOneFieldIsRequired)) && service.store.rows == [row];

    var missing, err2 := service.UpdateCategory(UpdateRequest(7, 1, Some("Food"), None), healthy);
    assert err2 == Some(Sentinel(CategoryDoesntExist)) && service.store.rows == [row];

    assert !NameTaken([row], 1, "Food") by {
      assert [row][..0] == [];
    }
    var renamed, err3 := service.UpdateCategory(UpdateRequest(1, 1, Some("Food"), None), healthy);
    assert err3.None? && renamed.value.name == "Food" && renamed.value.description == "weekly shopping";
    assert renamed.value.kind == Expense && renamed.value.userId == 1;
  }

  /** Another user may not delete the category; its owner may, after which it is gone. */
  method DeleteScenario()
  {
    var service, row := StoreWithGroceries();
    var healthy := Faults(false, false, false);
    var denied := service.DeleteCategory(DeleteRequest(1, 2), healthy);
    assert denied == Some(Sentinel(CategoryDoesntBelongToUser)) && service.store.rows == [row];

    var deleted := service.DeleteCategory(DeleteRequest(1, 1), healthy);
    assert deleted.None?;
    SoftDeleteHides([row], 1);
    assert ById(service.store.rows, 1).Failure?;
  }
}
