/** The rows the recipe views read and write. */
module Entities {

  /** A user, as the primary key of the `AuthUser` row that owns a record. */
  type UserId = int

  /**
   * A Tag or an Ingredient row. Both tables have the same shape (a name and
   * an owning user) and live in separate tables with their own ids.
   */
  datatype Attr = Attr(id: int, owner: UserId, name: string)

  /**
   * A Recipe row with the ids of its many-to-many Tag and Ingredient links.
   * The price is kept in cents.
   */
  datatype Recipe = Recipe(
    id: int,
    owner: UserId,
    title: string,
    timeMinutes: int,
    priceCents: int,
    link: string,
    tagIds: set<int>,
    ingredientIds: set<int>
  )

  predicate IdAtMost(a: Recipe, b: Recipe) {
    a.id <= b.id
  }

  predicate IdBelow(a: Recipe, b: Recipe) {
    a.id < b.id
  }

  predicate SameId(a: Recipe, b: Recipe) {
    a.id == b.id
  }

  /** No two rows of a table share a primary key. */
  predicate UniqueIds(s: seq<Recipe>) {
    forall i, j :: 0 <= i < |s| && 0 <= j < |s| && SameId(s[i], s[j]) ==> i == j
  }
}
