/**
 * The database the recipe writer works on: four tables, each a sequence
 * whose positions are the rows' primary keys, and the constraints the
 * schema imposes on them.
 */
module Store {
  import Users
  import Tags
  import Ingredients
  import Recipes

  datatype Db = Db(
    users: seq<Users.User>,
    tags: seq<Tags.Tag>,
    ingredients: seq<Ingredients.Ingredient>,
    recipes: seq<Recipes.Recipe>)

  /** Every foreign key and every many-to-many link names an existing row. */
  predicate ReferencesValid(db: Db) {
    && (forall i :: 0 <= i < |db.tags| ==> db.tags[i].creator < |db.users|)
    && (forall i :: 0 <= i < |db.ingredients| ==> db.ingredients[i].user < |db.users|)
    && (forall i :: 0 <= i < |db.recipes| ==> db.recipes[i].owner < |db.users|)
    && (forall i, t :: 0 <= i < |db.recipes| && t in db.recipes[i].tags ==> t < |db.tags|)
    && (forall i, g :: 0 <= i < |db.recipes| && g in db.recipes[i].ingredients ==> g < |db.ingredients|)
  }

  /** The schema's unique constraints and foreign keys. */
  predicate Valid(db: Db) {
    && Users.Valid(db.users)
    && Tags.NamesUnique(db.tags)
    && Ingredients.KeysUnique(db.ingredients)
    && ReferencesValid(db)
  }

  /** `b` extends `a` without deleting or altering any tag, ingredient or user row. */
  predicate RowsKept(a: Db, b: Db) {
    && |a.users| <= |b.users| && b.users[..|a.users|] == a.users
    && |a.tags| <= |b.tags| && b.tags[..|a.tags|] == a.tags
    && |a.ingredients| <= |b.ingredients| && b.ingredients[..|a.ingredients|] == a.ingredients
  }
}
