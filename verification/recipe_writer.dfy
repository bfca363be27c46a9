/**
 * The recipe serializer: validation of a recipe payload, and the create
 * and update transitions that resolve nested `{name}` lists into tag and
 * ingredient rows and link them to the recipe.
 */
module RecipeWriter {
  import opened Wrappers
  import Text
  import Tags
  import Ingredients
  import Recipes
  import opened Store

  /**
   * A recipe payload as the client sends it. Every key may be missing.
   * `id`, `user` and `created_at` are read-only fields of the serializer;
   * `description` and `link` are not among its fields at all.
   */
  datatype RecipeRequest = RecipeRequest(
    id: Option<nat>,
    title: Option<string>,
    prepMinutes: Option<int>,
    priceCents: Option<int>,
    difficulty: Option<int>,
    createdAt: Option<nat>,
    user: Option<nat>,
    description: Option<string>,
    link: Option<string>,
    tags: Option<seq<string>>,
    ingredients: Option<seq<string>>)

  /** The validated data: only the writable fields, each possibly absent. */
  datatype RecipeData = RecipeData(
    title: Option<string>,
    prepMinutes: Option<int>,
    priceCents: Option<int>,
    difficulty: Option<int>,
    tags: Option<seq<string>>,
    ingredients: Option<seq<string>>)

  /** The fields `Recipe.objects.create` needs, which have no model default. */
  predicate Creatable(data: RecipeData) {
    data.title.Some? && data.prepMinutes.Some? && data.priceCents.Some?
  }

  function TagNames(data: RecipeData): seq<string> {
    data.tags.GetOr([])
  }

  function IngredientNames(data: RecipeData): seq<string> {
    data.ingredients.GetOr([])
  }

  /** A field without a model default is required unless the update is partial. */
  predicate FieldOk<T>(value: Option<T>, required: bool, ok: T -> bool) {
    match value
    case None => !required
    case Some(v) => ok(v)
  }

  /** The title field: stripped, then neither blank nor over the column's 60 characters. */
  predicate TitleOk(title: string) {
    var t := Text.Trim(title);
    t != "" && |t| <= Recipes.TitleMaxLength
  }

  /** Each nested `{name}` is stripped and must not be blank. */
  predicate NamesOk(names: seq<string>) {
    forall i :: 0 <= i < |names| ==> Text.Trim(names[i]) != ""
  }

  /**
   * The names as the nested serializers hand them on: each one stripped,
   * in order. A handed-on name is blank exactly when the submitted one is
   * all whitespace, and otherwise has no surrounding whitespace.
   */
  function CleanNames(names: seq<string>): (r: seq<string>)
    ensures |r| == |names|
    ensures forall i :: 0 <= i < |names| ==> r[i] == Text.Trim(names[i])
    ensures forall i :: 0 <= i < |names| ==>
      (r[i] == [] <==> forall k :: 0 <= k < |names[i]| ==> Text.IsSpace(names[i][k]))
    ensures forall i :: 0 <= i < |r| && r[i] != [] ==> !Text.IsSpace(r[i][0]) && !Text.IsSpace(r[i][|r[i]| - 1])
  {
    seq(|names|, i requires 0 <= i < |names| => Text.Trim(names[i]))
  }

  /** Names already handed on pass through the nested fields unchanged. */
  lemma CleanNamesIdempotent(names: seq<string>)
    ensures CleanNames(CleanNames(names)) == CleanNames(names)
  {
    var r := CleanNames(names);
    forall i | 0 <= i < |r|
      ensures CleanNames(r)[i] == r[i]
    {
      Text.TrimIdempotent(names[i]);
    }
  }

  function CleanTitle(title: Option<string>): Option<string> {
    if title.Some? then Some(Text.Trim(title.value)) else None
  }

  function CleanList(names: Option<seq<string>>): Option<seq<string>> {
    if names.Some? then Some(CleanNames(names.value)) else None
  }

  const TitleKey := "title"
  const PrepKey := "preparation_time_minutes"
  const PriceKey := "price"
  const DifficultyKey := "difficulty_level"
  const TagsKey := "tags"
  const IngredientsKey := "ingredients"

  /** The keys under which the serializer reports field errors. */
  const FieldKeys: set<string> := {TitleKey, PrepKey, PriceKey, DifficultyKey, TagsKey, IngredientsKey}

  /** Whether the field under `key` passes its check. */
  predicate FieldPasses(req: RecipeRequest, partial: bool, key: string) {
    if key == TitleKey then FieldOk(req.title, !partial, TitleOk)
    else if key == PrepKey then FieldOk(req.prepMinutes, !partial, Recipes.PrepMinutesFit)
    else if key == PriceKey then FieldOk(req.priceCents, !partial, Recipes.PriceFits)
    else if key == DifficultyKey then FieldOk(req.difficulty, false, Recipes.IsDifficulty)
    else if key == TagsKey then FieldOk(req.tags, false, NamesOk)
    else FieldOk(req.ingredients, false, NamesOk)
  }

  /**
   * The keys of the fields that fail validation: each field is reported
   * under its own key exactly when its check fails, and no other key
   * appears.
   */
  function FieldErrors(req: RecipeRequest, partial: bool): (r: set<string>)
    ensures r <= FieldKeys
    ensures forall k :: k in FieldKeys ==> (k in r <==> !FieldPasses(req, partial, k))
    ensures TitleKey in r <==>
      if req.title.Some? then Text.Trim(req.title.value) == "" || |Text.Trim(req.title.value)| > 60 else !partial
    ensures PrepKey in r <==>
      if req.prepMinutes.Some? then !(0 <= req.prepMinutes.value <= 2147483647) else !partial
    ensures PriceKey in r <==>
      if req.priceCents.Some? then !(-100000 < req.priceCents.value < 100000) else !partial
    ensures DifficultyKey in r <==> req.difficulty.Some? && !(0 <= req.difficulty.value <= 3)
    ensures TagsKey in r <==>
      req.tags.Some? && exists i :: 0 <= i < |req.tags.value| && Text.Trim(req.tags.value[i]) == ""
    ensures IngredientsKey in r <==>
      req.ingredients.Some? && exists i :: 0 <= i < |req.ingredients.value| && Text.Trim(req.ingredients.value[i]) == ""
  {
    assert TitleKey in FieldKeys && PrepKey in FieldKeys && PriceKey in FieldKeys;
    assert DifficultyKey in FieldKeys && TagsKey in FieldKeys && IngredientsKey in FieldKeys;
    assert req.difficulty.Some? && 0 <= req.difficulty.value <= 3 ==>
      Recipes.DifficultyChoices[req.difficulty.value].0 == req.difficulty.value;
    set k | k in FieldKeys && !FieldPasses(req, partial, k)
  }

  /**
   * Serializer validation: collect the failing fields, and on success
   * keep only the writable fields, stripped of surrounding whitespace,
   * dropping the read-only ones and the ones the serializer does not
   * declare. A payload is accepted exactly when every field passes, and
   * a refusal names exactly the failing fields.
   */
  function Validate(req: RecipeRequest, partial: bool): (r: Result<RecipeData, set<string>>)
    ensures r.Ok? <==>
      && FieldOk(req.title, !partial, TitleOk)
      && FieldOk(req.prepMinutes, !partial, Recipes.PrepMinutesFit)
      && FieldOk(req.priceCents, !partial, Recipes.PriceFits)
      && FieldOk(req.difficulty, false, Recipes.IsDifficulty)
      && FieldOk(req.tags, false, NamesOk)
      && FieldOk(req.ingredients, false, NamesOk)
    ensures r.Err? ==>
      && r.error != {}
      && (TitleKey in r.error <==> !FieldOk(req.title, !partial, TitleOk))
      && (PrepKey in r.error <==> !FieldOk(req.prepMinutes, !partial, Recipes.PrepMinutesFit))
      && (PriceKey in r.error <==> !FieldOk(req.priceCents, !partial, Recipes.PriceFits))
      && (DifficultyKey in r.error <==> !FieldOk(req.difficulty, false, Recipes.IsDifficulty))
      && (TagsKey in r.error <==> !FieldOk(req.tags, false, NamesOk))
      && (IngredientsKey in r.error <==> !FieldOk(req.ingredients, false, NamesOk))
    ensures r.Err? ==> r.error <= FieldKeys
    ensures r.Ok? && !partial ==> Creatable(r.value)
    ensures r.Ok? ==>
      var d := r.value;
      && (d.title.Some? ==> d.title.value != "" && |d.title.value| <= Recipes.TitleMaxLength)
      && (d.prepMinutes.Some? ==> Recipes.PrepMinutesFit(d.prepMinutes.value))
      && (d.priceCents.Some? ==> Recipes.PriceFits(d.priceCents.value))
      && (d.difficulty.Some? ==> Recipes.IsDifficulty(d.difficulty.value))
      && (d.tags.Some? ==> forall i :: 0 <= i < |d.tags.value| ==> d.tags.value[i] != "")
      && (d.ingredients.Some? ==> forall i :: 0 <= i < |d.ingredients.value| ==> d.ingredients.value[i] != "")
    ensures r.Ok? ==>
      && (r.value.title.Some? <==> req.title.Some?)
      && (req.title.Some? ==> r.value.title.value == Text.Trim(req.title.value))
      && r.value.prepMinutes == req.prepMinutes
      && r.value.priceCents == req.priceCents
      && r.value.difficulty == req.difficulty
      && (r.value.tags.Some? <==> req.tags.Some?)
      && (req.tags.Some? ==> r.value.tags.value == CleanNames(req.tags.value))
      && (r.value.ingredients.Some? <==> req.ingredients.Some?)
      && (req.ingredients.Some? ==> r.value.ingredients.value == CleanNames(req.ingredients.value))
  {
    var errs := FieldErrors(req, partial);
    assert TitleKey in FieldKeys && PrepKey in FieldKeys && PriceKey in FieldKeys;
    assert DifficultyKey in FieldKeys && TagsKey in FieldKeys && IngredientsKey in FieldKeys;
    if errs != {} then Err(errs)
    else Ok(RecipeData(CleanTitle(req.title), req.prepMinutes, req.priceCents, req.difficulty,
                       CleanList(req.tags), CleanList(req.ingredients)))
  }

  /**
   * `_get_or_create_tags`: for each name in order, find the tag with
   * that name anywhere in the table or create it with `creator`, and add
   * it to the link set (adding a present link changes nothing).
   */
  function ResolveTags(tags: seq<Tags.Tag>, names: seq<string>, creator: nat, now: nat, links: set<nat>)
    : (r: (seq<Tags.Tag>, set<nat>))
    ensures |tags| <= |r.0| && r.0[..|tags|] == tags
    ensures forall n :: n in names ==> Tags.HasName(r.0, n)
    ensures (forall n :: n in names ==> Tags.HasName(tags, n)) ==> r.0 == tags
    ensures forall i :: |tags| <= i < |r.0| ==>
      && r.0[i] == Tags.Tag(r.0[i].name, creator, "", now)
      && r.0[i].name in names
      && !Tags.HasName(tags, r.0[i].name)
    ensures Tags.NamesUnique(tags) ==>
      && Tags.NamesUnique(r.0)
      && forall i :: i in r.1 <==> i in links || (0 <= i < |r.0| && r.0[i].name in names)
    decreases |names|
  {
    if names == [] then (tags, links)
    else
      var (t1, id) := Tags.GetOrCreate(tags, names[0], creator, now);
      var r := ResolveTags(t1, names[1..], creator, now, links + {id});
      assert t1[..|tags|] == tags;
      assert r.0[..|tags|] == r.0[..|t1|][..|tags|];
      assert r.0[id] == t1[id];
      assert forall n :: n in names ==> n == names[0] || n in names[1..];
      assert forall i :: |tags| <= i < |t1| ==> i == |tags| && t1[i] == Tags.Tag(names[0], creator, "", now);
      assert forall i :: |tags| <= i < |t1| ==> r.0[i] == t1[i];
      assert forall n :: Tags.HasName(tags, n) ==> Tags.HasName(t1, n);
      r
  }

  /**
   * `_get_or_create_ingredients`: for each name in order,
   * `get_or_create` on (owner, name) and add the row to the link set.
   */
  function ResolveIngredients(ings: seq<Ingredients.Ingredient>, names: seq<string>, owner: nat, links: set<nat>)
    : (r: (seq<Ingredients.Ingredient>, set<nat>))
    ensures |ings| <= |r.0| && r.0[..|ings|] == ings
    ensures forall n :: n in names ==> Ingredients.HasKey(r.0, owner, n)
    ensures (forall n :: n in names ==> Ingredients.HasKey(ings, owner, n)) ==> r.0 == ings
    ensures forall i :: |ings| <= i < |r.0| ==>
      && r.0[i].user == owner
      && r.0[i].name in names
      && !Ingredients.HasKey(ings, owner, r.0[i].name)
    ensures Ingredients.KeysUnique(ings) ==>
      && Ingredients.KeysUnique(r.0)
      && forall i :: i in r.1 <==> i in links || (0 <= i < |r.0| && r.0[i].user == owner && r.0[i].name in names)
    decreases |names|
  {
    if names == [] then (ings, links)
    else
      var (g1, id) := Ingredients.GetOrCreate(ings, owner, names[0]);
      var r := ResolveIngredients(g1, names[1..], owner, links + {id});
      assert g1[..|ings|] == ings;
      assert r.0[..|ings|] == r.0[..|g1|][..|ings|];
      assert r.0[id] == g1[id];
      assert forall n :: n in names ==> n == names[0] || n in names[1..];
      assert forall i :: |ings| <= i < |g1| ==> i == |ings| && g1[i] == Ingredients.Ingredient(names[0], owner);
      assert forall i :: |ings| <= i < |g1| ==> r.0[i] == g1[i];
      assert forall n :: Ingredients.HasKey(ings, owner, n) ==> Ingredients.HasKey(g1, owner, n);
      r
  }

  /**
   * `RecipeSerializer.create`: insert the recipe owned by `owner` (the
   * user handed to `save`), with the model defaults for the fields the
   * serializer does not write, then resolve the tag list and the
   * ingredient list; a missing list counts as empty. Returns the new
   * database and the new recipe's primary key.
   */
  function Create(db: Db, data: RecipeData, owner: nat, now: nat): (r: (Db, nat))
    requires Creatable(data)
    ensures var (db', id) := r;
      && id == |db.recipes|
      && |db'.recipes| == |db.recipes| + 1
      && db'.recipes[..id] == db.recipes
      && db'.users == db.users
      && RowsKept(db, db')
    ensures var (db', id) := r;
      var rec := db'.recipes[id];
      && rec.owner == owner
      && rec.createdAt == now
      && rec.title == data.title.value
      && rec.prepMinutes == data.prepMinutes.value
      && rec.priceCents == data.priceCents.value
      && rec.difficulty == data.difficulty.GetOr(Recipes.DefaultDifficulty)
      && rec.description == ""
      && rec.link == ""
    ensures var (db', id) := r;
      forall i :: |db.tags| <= i < |db'.tags| ==>
        && db'.tags[i].creator == owner
        && db'.tags[i].name in TagNames(data)
        && !Tags.HasName(db.tags, db'.tags[i].name)
    ensures var (db', id) := r;
      forall i :: |db.ingredients| <= i < |db'.ingredients| ==>
        && db'.ingredients[i].user == owner
        && db'.ingredients[i].name in IngredientNames(data)
    ensures var (db', id) := r;
      && (forall n :: n in TagNames(data) ==> Tags.HasName(db'.tags, n))
      && (forall n :: n in IngredientNames(data) ==> Ingredients.HasKey(db'.ingredients, owner, n))
    ensures Tags.NamesUnique(db.tags) ==>
      var (db', id) := r;
      && Tags.NamesUnique(db'.tags)
      && forall t :: t in db'.recipes[id].tags <==> 0 <= t < |db'.tags| && db'.tags[t].name in TagNames(data)
    ensures Ingredients.KeysUnique(db.ingredients) ==>
      var (db', id) := r;
      && Ingredients.KeysUnique(db'.ingredients)
      && forall g :: g in db'.recipes[id].ingredients <==>
           0 <= g < |db'.ingredients| && db'.ingredients[g].user == owner &&
           db'.ingredients[g].name in IngredientNames(data)
  {
    var (tags', tagLinks) := ResolveTags(db.tags, TagNames(data), owner, now, {});
    var (ings', ingLinks) := ResolveIngredients(db.ingredients, IngredientNames(data), owner, {});
    var rec := Recipes.Recipe(
      title := data.title.value,
      description := "",
      prepMinutes := data.prepMinutes.value,
      priceCents := data.priceCents.value,
      link := "",
      createdAt := now,
      difficulty := data.difficulty.GetOr(Recipes.DefaultDifficulty),
      owner := owner,
      tags := tagLinks,
      ingredients := ingLinks);
    var db' := db.(tags := tags', ingredients := ings', recipes := db.recipes + [rec]);
    assert db'.recipes[..|db.recipes|] == db.recipes;
    (db', |db.recipes|)
  }

  /**
   * `RecipeSerializer.update`: a supplied tag list (even an empty one)
   * clears the recipe's tag links and resolves the list again; an absent
   * one leaves the links alone; ingredients likewise and independently.
   * Supplied writable scalars overwrite, absent ones are kept. Owner,
   * creation time, description and link are never written.
   */
  function Update(db: Db, id: nat, data: RecipeData, now: nat): (db': Db)
    requires id < |db.recipes|
    ensures |db'.recipes| == |db.recipes|
    ensures db'.users == db.users && RowsKept(db, db')
    ensures forall j :: 0 <= j < |db.recipes| && j != id ==> db'.recipes[j] == db.recipes[j]
    ensures var before := db.recipes[id];
      var rec := db'.recipes[id];
      && rec.owner == before.owner
      && rec.createdAt == before.createdAt
      && rec.description == before.description
      && rec.link == before.link
      && rec.title == data.title.GetOr(before.title)
      && rec.prepMinutes == data.prepMinutes.GetOr(before.prepMinutes)
      && rec.priceCents == data.priceCents.GetOr(before.priceCents)
      && rec.difficulty == data.difficulty.GetOr(before.difficulty)
      && (data.tags.None? ==> rec.tags == before.tags && db'.tags == db.tags)
      && (data.ingredients.None? ==> rec.ingredients == before.ingredients && db'.ingredients == db.ingredients)
    ensures forall i :: |db.tags| <= i < |db'.tags| ==>
      && db'.tags[i].creator == db.recipes[id].owner
      && db'.tags[i].name in TagNames(data)
      && !Tags.HasName(db.tags, db'.tags[i].name)
    ensures forall i :: |db.ingredients| <= i < |db'.ingredients| ==>
      && db'.ingredients[i].user == db.recipes[id].owner
      && db'.ingredients[i].name in IngredientNames(data)
    ensures data.tags.Some? ==> forall n :: n in data.tags.value ==> Tags.HasName(db'.tags, n)
    ensures data.ingredients.Some? ==>
      forall n :: n in data.ingredients.value ==> Ingredients.HasKey(db'.ingredients, db.recipes[id].owner, n)
    ensures Tags.NamesUnique(db.tags) ==>
      && Tags.NamesUnique(db'.tags)
      && (data.tags.Some? ==>
            forall t :: t in db'.recipes[id].tags <==> 0 <= t < |db'.tags| && db'.tags[t].name in data.tags.value)
    ensures Ingredients.KeysUnique(db.ingredients) ==>
      && Ingredients.KeysUnique(db'.ingredients)
      && (data.ingredients.Some? ==>
            forall g :: g in db'.recipes[id].ingredients <==>
              0 <= g < |db'.ingredients| && db'.ingredients[g].user == db.recipes[id].owner &&
              db'.ingredients[g].name in data.ingredients.value)
  {
    var before := db.recipes[id];
    var (tags', tagLinks) :=
      if data.tags.Some? then ResolveTags(db.tags, data.tags.value, before.owner, now, {})
      else (db.tags, before.tags);
    var (ings', ingLinks) :=
      if data.ingredients.Some? then ResolveIngredients(db.ingredients, data.ingredients.value, before.owner, {})
      else (db.ingredients, before.ingredients);
    var rec := before.(
      title := data.title.GetOr(before.title),
      prepMinutes := data.prepMinutes.GetOr(before.prepMinutes),
      priceCents := data.priceCents.GetOr(before.priceCents),
      difficulty := data.difficulty.GetOr(before.difficulty),
      tags := tagLinks,
      ingredients := ingLinks);
    db.(tags := tags', ingredients := ings', recipes := db.recipes[id := rec])
  }
}
