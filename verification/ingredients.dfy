/**
 * The ingredient table and the ingredient serializer's create:
 * ingredients are keyed by the pair (user, name), and creating one whose
 * key is taken returns the existing row.
 */
module Ingredients {
  import opened Wrappers

  /** A row of the ingredient table; `user` is the owning user's primary key. */
  datatype Ingredient = Ingredient(name: string, user: nat)

  /** The validated data the serializer's create receives; `user` comes from `save(user=...)`. */
  datatype IngredientData = IngredientData(name: string, user: Option<nat>)

  /** `KeyError('user')` when the validated data carries no user. */
  datatype CreateError = MissingUser

  /** The unique constraint on (user, name). */
  predicate KeysUnique(ings: seq<Ingredient>) {
    forall i, j :: 0 <= i < |ings| && 0 <= j < |ings| && ings[i] == ings[j] ==> i == j
  }

  predicate HasKey(ings: seq<Ingredient>, user: nat, name: string) {
    exists i :: 0 <= i < |ings| && ings[i] == Ingredient(name, user)
  }

  function FindFrom(ings: seq<Ingredient>, user: nat, name: string, start: nat): (r: Option<nat>)
    requires start <= |ings|
    ensures r.None? <==> forall i :: start <= i < |ings| ==> ings[i] != Ingredient(name, user)
    ensures r.Some? ==> start <= r.value < |ings| && ings[r.value] == Ingredient(name, user)
    decreases |ings| - start
  {
    if start == |ings| then None
    else if ings[start] == Ingredient(name, user) then Some(start)
    else FindFrom(ings, user, name, start + 1)
  }

  /** `Ingredient.objects.get(user=user, name=name)`, `None` when no row matches. */
  function Find(ings: seq<Ingredient>, user: nat, name: string): (r: Option<nat>)
    ensures r.None? <==> !HasKey(ings, user, name)
    ensures r.Some? ==> r.value < |ings| && ings[r.value] == Ingredient(name, user)
  {
    FindFrom(ings, user, name, 0)
  }

  /**
   * Resolve-or-create on (user, name): an existing row is returned and
   * the table left alone, otherwise one row is appended. The recipe
   * writer's `get_or_create` and the serializer's insert-then-fetch both
   * reduce to this when run one request at a time.
   */
  function GetOrCreate(ings: seq<Ingredient>, user: nat, name: string): (r: (seq<Ingredient>, nat))
    ensures r.1 < |r.0| && r.0[r.1] == Ingredient(name, user)
    ensures HasKey(ings, user, name) ==> r.0 == ings
    ensures !HasKey(ings, user, name) ==> r.0 == ings + [Ingredient(name, user)] && r.1 == |ings|
    ensures KeysUnique(ings) ==>
      && KeysUnique(r.0)
      && forall i :: 0 <= i < |r.0| && r.0[i] == Ingredient(name, user) ==> i == r.1
  {
    match Find(ings, user, name)
    case Some(id) => (ings, id)
    case None => (ings + [Ingredient(name, user)], |ings|)
  }

  /**
   * `IngredientSerializer.create`: read the name and the user from the
   * validated data (a missing user raises), then resolve-or-create.
   */
  function Create(ings: seq<Ingredient>, data: IngredientData): (r: Result<(seq<Ingredient>, nat), CreateError>)
    ensures r.Err? <==> data.user.None?
    ensures r.Ok? ==>
      var (ings', id) := r.value;
      && id < |ings'|
      && ings'[id].name == data.name
      && ings'[id].user == data.user.value
      && |ings| <= |ings'| <= |ings| + 1
      && ings'[..|ings|] == ings
      && (HasKey(ings, data.user.value, data.name) <==> ings' == ings)
  {
    match data.user
    case None => Err(MissingUser)
    case Some(user) =>
      var (ings', id) := GetOrCreate(ings, user, data.name);
      assert ings'[..|ings|] == ings;
      Ok((ings', id))
  }

  /**
   * The key is the pair: the same name created for two different users
   * gives two distinct rows, and for the same user gives one row.
   */
  lemma {:induction false} KeyIsThePair(ings: seq<Ingredient>, u1: nat, u2: nat, name: string)
    requires KeysUnique(ings)
    ensures var (ings1, id1) := GetOrCreate(ings, u1, name);
      var (ings2, id2) := GetOrCreate(ings1, u2, name);
      && KeysUnique(ings2)
      && (u1 != u2 <==> id1 != id2)
      && (u1 == u2 ==> ings2 == ings1)
  {
    var (ings1, id1) := GetOrCreate(ings, u1, name);
    var (ings2, id2) := GetOrCreate(ings1, u2, name);
    assert ings2[..|ings1|] == ings1;
    assert ings2[id1] == Ingredient(name, u1);
    if u1 == u2 {
      assert HasKey(ings1, u2, name);
    }
  }
}
