/**
 * The category record (internal/adapter/storage/entity/category.go) and the
 * request values the service receives (internal/model/dto.go).
 *
 * Identifiers are unbounded naturals standing for Go's uint64. Strings are
 * sequences whose elements each stand for one byte, so `|s|` is Go's `len(s)`.
 * Timestamps are ticks of an abstract clock; `deleted` stands for a non-null
 * `DeletedAt` (the row has been soft-deleted).
 */
module Entity {
  import opened Wrappers

  /** The two kinds of category. */
  datatype CategoryType = Income | Expense

  /** The stored spelling of a category type. */
  function TypeName(t: CategoryType): (name: string)
    ensures name == "INCOME" <==> t == Income
    ensures name == "EXPENSE" <==> t == Expense
  {
    match t
    case Income => "INCOME"
    case Expense => "EXPENSE"
  }

  /** One row of the categories table. */
  datatype Category = Category(
    id: nat,
    userId: nat,
    name: string,
    description: string,
    kind: CategoryType,
    createdAt: nat,
    updatedAt: nat,
    deleted: bool)

  /** Fields of a create request; the owner comes from the authenticated caller. */
  datatype CreateRequest = CreateRequest(userId: nat, name: string, description: string, kind: CategoryType)

  /** A partial update: an absent field (a nil pointer in Go) is left as it is. */
  datatype UpdateRequest = UpdateRequest(id: nat, userId: nat, name: Option<string>, description: Option<string>)

  /** Which category to delete, on whose behalf. */
  datatype DeleteRequest = DeleteRequest(id: nat, userId: nat)
}
