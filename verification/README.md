# Category service: a Dafny model

This project models the core of the `portmonetka.category` microservice, which
keeps per-user "category" records (INCOME or EXPENSE buckets). It covers:

- the category domain service with its four use cases: list, create, partial
  update and delete;
- the GORM category repository the service runs against;
- the error vocabulary: the six sentinel errors and the `ErrorMessage`
  accumulator.

Files and modules:

- `wrappers.dfy` (`Wrappers`): `Option` and `Result`.
- `errors.dfy` (`Errors`): the sentinel errors as one datatype, their texts,
  and the `ErrorMessage` class with `Append` and `ToError`.
- `entity.dfy` (`Entity`): the `Category` row, the `CategoryType` enum and the
  create/update/delete request values. An update request holds an `Option`
  per field: absent is a nil pointer, not an empty string.
- `repo.dfy` (`Repo`): the repository as a `CategoryStore` class. It owns the
  table (`rows`, soft-deleted rows included), the next auto-numbered key and
  an abstract clock. Each of the seven operations is a method specified by
  functions over the table: `CountNamed`, `ById`, `OwnedLive`, `Saved`,
  `SoftDeleted`.
- `service.dfy` (`Service`): the `CategoryService` class, which holds a store.
  Validation is specified by `PatchVerdict` and `Patched`. The module also has
  lemmas that relate several operations: uniqueness of names, identity of the
  updated row, and listing order after an update.

Modelling conventions:

- Identifiers and timestamps are unbounded naturals. `uint64` limits are not modelled.
- A timestamp is a tick of the store's `clock`. Every insert or save stamps
  the current tick and advances the clock.
- A string is a sequence whose elements each stand for one byte. So `|s|` is
  Go's `len(s)`, a byte count.
- Soft deletion is the `deleted` flag. Every lookup, count and listing skips
  deleted rows, as GORM's soft-delete scope does.
- Database failures are inputs. Each store method takes `fault`, which is true
  when the database reports an error for that statement. The create, update
  and delete use cases take `Faults(lookup, nameCheck, write)`, one flag per
  statement they can issue; the list use case issues one statement and takes a
  single `fault`.
  ExistsWithName reads a failed count as zero, so it answers false.

Behaviour the model makes explicit:

- `ExistsWithName` answers `count == 1`. When an owner has two live
  categories with the same name, it answers false for that name
  (`Repo.DuplicatesHideName`).
- `UpdateCategory` never checks that the caller owns the category. It checks
  the new name against the caller's names, not the owner's. A non-owner can
  therefore give a category a name its owner already uses
  (`Service.ForeignRenameDuplicatesName`). When the caller is the owner and the
  name check saw the table, an update keeps names unique
  (`Service.OwnerUpdateKeepsNamesUnique`). `DeleteCategory`, by contrast,
  checks ownership first.
- `CreateCategory` reads a failed name count as "name free", so a create whose
  count fails stores a second live category of a name its owner already uses
  (`Service.FailedNameCheckDuplicatesName`). `Service.CreateKeepsNamesUnique`
  covers only the case where no live row of the owner carries the name.
- When the caller owns the category, the owner's names are unique and the
  name count succeeds, renaming the category to its current name is refused
  with `CategoryAlreadyExists` (`Service.RenameToOwnNameRefused`). It is not
  refused when the owner already has a second live row of that name, when the
  count fails, or when the caller is not the owner.
- A description of exactly 256 bytes is accepted. The sentinel's text says
  "less than 256", but the code checks `> 256`; the model follows the code.
- Only the update path checks lengths. Create stores any name and description
  it is given.

## Model

| member | source | states |
|---|---|---|
| `Errors.MessageIdentifiesError` | error/error.go:8-15 | distinct sentinel errors carry distinct texts |
| `Errors.AppendedExtends` | error/error.go:27-32 | appending keeps the old message as a prefix; the new length is the old one plus the separator (when non-empty) plus the appended text |
| `Errors.ErrorMessage.Append` | error/error.go:27-32 | appending to an empty message gives exactly the argument; otherwise the old message, `"; "`, then the argument, even when the argument is empty |
| `Errors.ErrorMessage.ToError` | error/error.go:34-39 | nil exactly when the message is empty; otherwise an error formatted from the message, which is left unchanged |
| `Errors.AccumulatedIsJoined` | error/error.go:27-32 | appending a list of messages joins them with `"; "`, except that empty messages appended while the accumulator is still empty leave no trace |
| `Errors.AccumulatedEmptyIff` | error/error.go:34-37 | the accumulated message (and so `ToError` gives nil) is empty exactly when every appended message was empty |
| `Entity.TypeName` | internal/adapter/storage/entity/category.go:21-26 | the two category types have the stored spellings "INCOME" and "EXPENSE", and each spelling belongs to one type only |
| `Repo.CountNamedPositiveIff` | internal/adapter/storage/gorm/repo/category.go:18-22 | the count of live rows with a given owner and name is positive exactly when such a row exists |
| `Repo.NameTakenIffPresent` | internal/adapter/storage/gorm/repo/category.go:18-22 | when names are unique per owner, ExistsWithName's `count == 1` means "a live row with this owner and name exists" |
| `Repo.DuplicatesHideName` | internal/adapter/storage/gorm/repo/category.go:18-22 | two live rows with the same owner and name make ExistsWithName answer false |
| `Repo.CategoryStore.ExistsWithName` | internal/adapter/storage/gorm/repo/category.go:18-22 | true exactly when the count succeeds and exactly one live row has the owner and name |
| `Repo.FindLive` | internal/adapter/storage/gorm/repo/category.go:24-31 | a lookup by key finds a live row with that key, and finds nothing only when every row with that key is soft-deleted |
| `Repo.ByIdFinds` | internal/adapter/storage/gorm/repo/category.go:24-31 | with unique keys, the lookup succeeds exactly when a live row has the key, and then returns that row |
| `Repo.CategoryStore.GetCategoryById` | internal/adapter/storage/gorm/repo/category.go:24-31 | returns the live row with the key, RecordNotFound when there is none, the database error when the query fails; the table is not modified |
| `Repo.CategoryStore.CategoryBelongsToUser` | internal/adapter/storage/gorm/repo/category.go:33-39 | false when the lookup fails for any reason; otherwise whether the row's owner is the given user |
| `Repo.InsertByRecency` | internal/adapter/storage/gorm/repo/category.go:41-51 | inserting a row into a listing adds exactly that row (multiset) |
| `Repo.InsertByRecencyOrdered` | internal/adapter/storage/gorm/repo/category.go:41-51 | inserting into a listing ordered by descending update time keeps it ordered |
| `Repo.OwnedLiveMembers` | internal/adapter/storage/gorm/repo/category.go:41-51 | the rows selected for a listing are exactly the live rows of that owner |
| `Repo.CategoryStore.GetCategoriesByUserId` | internal/adapter/storage/gorm/repo/category.go:41-51 | returns a permutation of the owner's live rows, ordered by descending update time; the query error when it fails |
| `Repo.NewestFirst` | internal/adapter/storage/gorm/repo/category.go:41-51 | in a listing ordered by recency, a row strictly newer than every other row comes first |
| `Repo.NewestOwnedFirst` | internal/adapter/storage/gorm/repo/category.go:41-51 | a live row updated strictly after every other row of the table heads its owner's listing |
| `Repo.CategoryStore.CreateCategory` | internal/adapter/storage/gorm/repo/category.go:53-58 | on success appends one row, which is the given record with a fresh key and the current time, and returns that row; other rows are unchanged; on failure nothing changes |
| `Repo.SavedOverwrites` | internal/adapter/storage/gorm/repo/category.go:60-63 | saving a record whose key is in the table replaces that row only, keeping its creation time |
| `Repo.CategoryStore.UpdateCategory` | internal/adapter/storage/gorm/repo/category.go:60-63 | saves the full record over the row with its key (inserting it when missing, creating it when it has no key) and returns the record with the error, even when the error is set |
| `Repo.CategoryStore.DeleteCategory` | internal/adapter/storage/gorm/repo/category.go:65-67 | soft-deletes the live row with the key and nothing else; a missing row is not an error |
| `Repo.SoftDeleteHides` | internal/adapter/storage/gorm/repo/category.go:65-67 | after a soft delete the key is no longer found |
| `Repo.SoftDeleteKeepsOthers` | internal/adapter/storage/gorm/repo/category.go:65-67 | a soft delete leaves every other key's lookup as it was |
| `Repo.SoftDeleteFreesName` | internal/adapter/storage/gorm/repo/category.go:18-22 | once a live category is soft-deleted, its owner's name check no longer finds that name, so the name may be created again |
| `Repo.SoftDeleteLeavesListing` | internal/adapter/storage/gorm/repo/category.go:65-67 | a soft delete removes the row from its owner's listing and keeps every other row there |
| `Service.CategoryService.constructor` | internal/core/service/category/category.go:15-17 | the service runs against the store it is given |
| `Service.CategoryService.GetCategoriesByUserId` | internal/core/service/category/category.go:19-21 | the owner's live categories, newest update first, or the store's error, passed straight through |
| `Service.CategoryService.CreateCategory` | internal/core/service/category/category.go:23-33 | a name the owner already uses (count of one) is refused with CategoryAlreadyExists and the store is unchanged; otherwise a row with exactly the request's owner, name, description and type is stored and returned, or the store's error is returned |
| `Service.CreateKeepsNamesUnique` | internal/core/service/category/category.go:23-33 | creating a name that no live row of the owner carries (what a successful count reports as free) keeps names unique per owner |
| `Service.PatchAcceptedIff` | internal/core/service/category/category.go:55-75 | a patch is accepted exactly when some field is present, a present name is 3..128 bytes and not taken, and a present description is at most 256 bytes |
| `Service.PatchChecksInOrder` | internal/core/service/category/category.go:56-71 | an empty patch always fails with AtLeastOneFieldIsRequired; a bad name length fails before the name check; a taken name fails before the description check; 256 bytes of description pass and 257 fail |
| `Service.PatchKeepsIdentity` | internal/core/service/category/category.go:59-73 | a patch changes only the name and description; an absent field keeps its old value; key, owner, type and timestamps are kept |
| `Service.CategoryService.ValidateUpdateAttributes` | internal/core/service/category/category.go:55-75 | the verdict is the first failing check; on success the record carries every present field; a name accepted before the description is refused stays written on the record |
| `Service.CategoryService.UpdateCategory` | internal/core/service/category/category.go:35-45 | any lookup failure becomes CategoryDoesntExist; a validation error is returned and nothing is saved; otherwise the patched record is saved over its row and returned with the store's error, if any; no ownership check |
| `Service.UpdateTouchesOnlyTarget` | internal/core/service/category/category.go:35-45 | a successful update changes only the target row: its name and description as patched and its update time; key, owner, type, creation time and deletion state are kept; every other row is unchanged |
| `Service.OwnerUpdateKeepsNamesUnique` | internal/core/service/category/category.go:35-45 | when the caller owns the category and the name check saw the table, an accepted update keeps names unique per owner |
| `Service.RenameToOwnNameRefused` | internal/core/service/category/category.go:63-65 | when the caller owns the category, the owner's names are unique and the count succeeds, renaming it to its current name is refused with CategoryAlreadyExists |
| `Service.FailedNameCheckDuplicatesName` | internal/core/service/category/category.go:23-33 | when the name count fails, create still stores the name: a witness table where the owner already uses the name ends with two live rows of that name, which the count-of-one check then no longer reports |
| `Service.ForeignRenameDuplicatesName` | internal/core/service/category/category.go:35-45 | a non-owner's rename to a name the owner already uses passes validation, duplicates the owner's name, and then hides it from ExistsWithName |
| `Service.UpdatedCategoryListedFirst` | internal/core/service/category/category.go:44 | after a successful update, the updated category heads its owner's listing |
| `Service.CategoryService.DeleteCategory` | internal/core/service/category/category.go:47-52 | when the category is missing, not owned by the caller, or the lookup fails: CategoryDoesntBelongToUser and no deletion; otherwise exactly the store's soft delete and its result |

## Left out

- HTTP handlers, routing, JWT middleware, logging and request binding are not
  modelled. The model assumes what the handlers do: they overwrite a request's
  `UserId` with the authenticated user and its `Id` with the path's category id
  (internal/handler/category.go:88, 135-136, 183-184).
- The database connection, migrations and the library validator's struct tags
  are not modelled. The length tags on the entity and the request types are not
  enforced, so create checks no lengths. The one tag the model does build in is
  the `oneof=INCOME EXPENSE` check on the category type (internal/model/dto.go:11,
  internal/adapter/storage/entity/category.go:13): `Entity.CategoryType` has just
  those two values.
- `Entity.CategoryType` assumes the handler's `oneof` binding check. In Go the
  type is a plain string that the service and the repository pass through
  unchanged, so a spelling such as `"expense"` that reaches the service is
  stored as given; the model cannot represent such a value.
- The `(user_id, name, deleted_at)` unique index is not modelled. The database
  may enforce it or not; any error it raises is a `fault` on the write.
- The check-then-write race on name uniqueness between concurrent requests is
  not modelled: every use case runs alone.
- Real timestamps are an abstract clock. `DeletedAt` is a flag, and its time is
  not kept.
- `Repo.CategoryStore.CreateCategory` always assigns a fresh key and stamps
  both timestamps. GORM keeps a key or a timestamp the caller has already set;
  the service never sets one.
- `Repo.CategoryStore.UpdateCategory` inserting a record whose key matches no
  row models GORM's upsert fallback. The model then raises the next
  auto-numbered key above that key; PostgreSQL's sequence is not modelled.
  On a failing save, the model returns the record without a new update time.
  On both insert paths (a record with no key, and a key that matches no row)
  the model stamps `createdAt` with the clock. GORM keeps a non-zero
  `CreatedAt` the caller has set. The service never takes these paths: it only
  saves a live row it has just fetched.
- `Errors.ErrorMessage.ToError` states only the format string it passes to
  `fmt.Errorf`. Formatting is a library call: a message containing `%` does not
  come out verbatim, and the model makes no claim about the error's text.
- The handler-level message constants in error/error.go:17-23 are not modelled:
  only the HTTP handlers use them.
- Go's `uint64` wrap-around is not modelled. Identifiers are unbounded.
- The fetched category is a value, not a shared pointer. The in-place writes of
  `validateUpdateCategoryAttributes` show up in the record it returns.
