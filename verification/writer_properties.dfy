/**
 * Properties of the recipe writer that relate several calls or count
 * rows and links: reuse without duplication, per-user ingredient keys,
 * "absent = untouched, list = replace", read-only owner, idempotent
 * re-save, and preservation of the schema constraints.
 */
module WriterProperties {
  import opened Wrappers
  import Text
  import Tags
  import Ingredients
  import Recipes
  import Cardinality
  import opened Store
  import opened RecipeWriter

  /** The distinct names of a payload list. */
  function NameSet(names: seq<string>): set<string> {
    set n | n in names
  }

  /** The payload names that no tag row carries yet. */
  function NovelTagNames(tags: seq<Tags.Tag>, names: seq<string>): set<string> {
    set n | n in names && !Tags.HasName(tags, n)
  }

  /**
   * When every name already has a row, resolving leaves the table as it
   * is and links exactly the rows carrying those names.
   */
  lemma ResolveTagsSettled(tags: seq<Tags.Tag>, names: seq<string>, creator: nat, now: nat)
    requires Tags.NamesUnique(tags)
    requires forall n :: n in names ==> Tags.HasName(tags, n)
    ensures var r := ResolveTags(tags, names, creator, now, {});
      && r.0 == tags
      && forall t :: t in r.1 <==> 0 <= t < |tags| && tags[t].name in names
  {
  }

  /** The ingredient counterpart of `ResolveTagsSettled`, on (owner, name). */
  lemma ResolveIngredientsSettled(ings: seq<Ingredients.Ingredient>, names: seq<string>, owner: nat)
    requires Ingredients.KeysUnique(ings)
    requires forall n :: n in names ==> Ingredients.HasKey(ings, owner, n)
    ensures var r := ResolveIngredients(ings, names, owner, {});
      && r.0 == ings
      && forall g :: g in r.1 <==> 0 <= g < |ings| && ings[g].user == owner && ings[g].name in names
  {
  }

  /**
   * Links are set-like: a tag link set that holds exactly the rows named
   * by a payload has one element per distinct name, however often a name
   * repeats in the payload.
   */
  lemma TagLinkCount(tags: seq<Tags.Tag>, names: seq<string>, links: set<nat>)
    requires Tags.NamesUnique(tags)
    requires forall n :: n in names ==> Tags.HasName(tags, n)
    requires forall t :: t in links <==> 0 <= t < |tags| && tags[t].name in names
    ensures |links| == |NameSet(names)|
  {
    var f := (t: nat) => if t < |tags| then tags[t].name else "";
    Cardinality.InjectiveImageCard(links, f);
    var image := Cardinality.Image(links, f);
    forall n | n in NameSet(names)
      ensures n in image
    {
      var i :| 0 <= i < |tags| && tags[i].name == n;
      assert i in links && f(i) == n;
    }
    forall n | n in image
      ensures n in NameSet(names)
    {
      var t :| t in links && f(t) == n;
    }
    assert image == NameSet(names);
  }

  /**
   * A tag table grown from `tags` by rows that each carry a payload name
   * no old row carried, and that ends up naming every payload name with
   * unique names, grew by exactly the number of novel names.
   */
  lemma GrowthIsNovelNames(tags: seq<Tags.Tag>, tags': seq<Tags.Tag>, names: seq<string>)
    requires |tags| <= |tags'| && tags'[..|tags|] == tags
    requires Tags.NamesUnique(tags')
    requires forall n :: n in names ==> Tags.HasName(tags', n)
    requires forall i :: |tags| <= i < |tags'| ==> tags'[i].name in names && !Tags.HasName(tags, tags'[i].name)
    ensures |tags'| - |tags| == |NovelTagNames(tags, names)|
  {
    var added := Cardinality.Range(|tags|, |tags'|);
    var f := (t: nat) => if t < |tags'| then tags'[t].name else "";
    assert forall j :: 0 <= j < |tags| ==> tags'[j] == tags'[..|tags|][j];
    assert forall j :: 0 <= j < |tags| ==> Tags.HasName(tags, tags'[j].name) by {
      forall j | 0 <= j < |tags|
        ensures Tags.HasName(tags, tags'[j].name)
      {
        assert tags[j] == tags'[j];
      }
    }
    Cardinality.InjectiveImageCard(added, f);
    var image := Cardinality.Image(added, f);
    forall n | n in NovelTagNames(tags, names)
      ensures n in image
    {
      assert Tags.HasName(tags', n);
      var i :| 0 <= i < |tags'| && tags'[i].name == n;
      assert i in added && f(i) == n;
    }
    assert image == NovelTagNames(tags, names);
  }

  /**
   * Resolving a tag list appends exactly one row per payload name that
   * no row carried before.
   */
  lemma ResolveTagsRowCount(tags: seq<Tags.Tag>, names: seq<string>, creator: nat, now: nat)
    requires Tags.NamesUnique(tags)
    ensures |ResolveTags(tags, names, creator, now, {}).0| - |tags| == |NovelTagNames(tags, names)|
  {
    var tags' := ResolveTags(tags, names, creator, now, {}).0;
    GrowthIsNovelNames(tags, tags', names);
  }

  /**
   * Create attributes exactly one new tag row to each payload name that
   * no row carried before, and none to the others: N novel names give N
   * new rows.
   */
  lemma CreateTagRowCount(db: Db, data: RecipeData, owner: nat, now: nat)
    requires Creatable(data) && Tags.NamesUnique(db.tags)
    ensures var db' := Create(db, data, owner, now).0;
      |db'.tags| - |db.tags| == |NovelTagNames(db.tags, TagNames(data))|
  {
    ResolveTagsRowCount(db.tags, TagNames(data), owner, now);
  }

  /**
   * Create links one tag per distinct payload name, so a name repeated
   * in the payload yields a single link.
   */
  lemma CreateTagLinkCount(db: Db, data: RecipeData, owner: nat, now: nat)
    requires Creatable(data) && Tags.NamesUnique(db.tags)
    ensures var (db', id) := Create(db, data, owner, now);
      |db'.recipes[id].tags| == |NameSet(TagNames(data))|
  {
    var (db', id) := Create(db, data, owner, now);
    assert db'.tags == ResolveTags(db.tags, TagNames(data), owner, now, {}).0;
    TagLinkCount(db'.tags, TagNames(data), db'.recipes[id].tags);
  }

  /**
   * A payload name that an existing tag carries, whoever created it,
   * links that row; the row keeps its creator and description and no
   * second row with the name appears.
   */
  lemma CreateReusesExistingTag(db: Db, data: RecipeData, owner: nat, now: nat, i: nat)
    requires Creatable(data) && Tags.NamesUnique(db.tags)
    requires i < |db.tags| && db.tags[i].name in TagNames(data)
    ensures var (db', id) := Create(db, data, owner, now);
      && i in db'.recipes[id].tags
      && db'.tags[i] == db.tags[i]
      && forall j :: 0 <= j < |db'.tags| && db'.tags[j].name == db.tags[i].name ==> j == i
  {
    var (db', id) := Create(db, data, owner, now);
    assert db'.tags[i] == db'.tags[..|db.tags|][i];
  }

  /**
   * Ingredient rows are per user: two recipes created with the same
   * ingredient name share the row exactly when they have the same owner.
   */
  lemma IngredientRowsPerOwner(db: Db, d1: RecipeData, d2: RecipeData, u1: nat, u2: nat,
                               now1: nat, now2: nat, name: string)
    requires Creatable(d1) && Creatable(d2) && Ingredients.KeysUnique(db.ingredients)
    requires name in IngredientNames(d1) && name in IngredientNames(d2)
    ensures var (db1, id1) := Create(db, d1, u1, now1);
      var (db2, id2) := Create(db1, d2, u2, now2);
      forall g1, g2 ::
        && g1 in db2.recipes[id1].ingredients && 0 <= g1 < |db2.ingredients|
        && g2 in db2.recipes[id2].ingredients && 0 <= g2 < |db2.ingredients|
        && db2.ingredients[g1].name == name && db2.ingredients[g2].name == name
        ==> (g1 == g2 <==> u1 == u2)
    ensures var (db1, id1) := Create(db, d1, u1, now1);
      var (db2, id2) := Create(db1, d2, u2, now2);
      && (exists g1 :: g1 in db2.recipes[id1].ingredients && 0 <= g1 < |db2.ingredients| &&
            db2.ingredients[g1] == Ingredients.Ingredient(name, u1))
      && (exists g2 :: g2 in db2.recipes[id2].ingredients && 0 <= g2 < |db2.ingredients| &&
            db2.ingredients[g2] == Ingredients.Ingredient(name, u2))
  {
    var (db1, id1) := Create(db, d1, u1, now1);
    var (db2, id2) := Create(db1, d2, u2, now2);
    assert db2.recipes[id1] == db2.recipes[..id2][id1];
    var g1 :| 0 <= g1 < |db1.ingredients| && db1.ingredients[g1] == Ingredients.Ingredient(name, u1);
    assert g1 in db1.recipes[id1].ingredients;
    assert db2.ingredients[g1] == db2.ingredients[..|db1.ingredients|][g1];
    var g2 :| 0 <= g2 < |db2.ingredients| && db2.ingredients[g2] == Ingredients.Ingredient(name, u2);
    assert g2 in db2.recipes[id2].ingredients;
    forall g | g in db2.recipes[id1].ingredients
      ensures g < |db1.ingredients| && db2.ingredients[g] == db1.ingredients[g] && db2.ingredients[g].user == u1
    {
      assert db2.ingredients[g] == db2.ingredients[..|db1.ingredients|][g];
    }
  }

  /** With no tag or ingredient list, create links nothing and adds no tag or ingredient row. */
  lemma CreateWithoutLists(db: Db, data: RecipeData, owner: nat, now: nat)
    requires Creatable(data) && data.tags.None? && data.ingredients.None?
    ensures var (db', id) := Create(db, data, owner, now);
      && db'.recipes[id].tags == {}
      && db'.recipes[id].ingredients == {}
      && db'.tags == db.tags
      && db'.ingredients == db.ingredients
  {
  }

  /** Create keeps every unique constraint and foreign key when the owner is a user. */
  lemma CreatePreservesValid(db: Db, data: RecipeData, owner: nat, now: nat)
    requires Creatable(data) && Valid(db) && owner < |db.users|
    ensures Valid(Create(db, data, owner, now).0)
  {
    var (db', id) := Create(db, data, owner, now);
    forall i | 0 <= i < |db'.tags|
      ensures db'.tags[i].creator < |db'.users|
    {
      if i < |db.tags| {
        assert db'.tags[i] == db'.tags[..|db.tags|][i];
      }
    }
    forall i | 0 <= i < |db'.ingredients|
      ensures db'.ingredients[i].user < |db'.users|
    {
      if i < |db.ingredients| {
        assert db'.ingredients[i] == db'.ingredients[..|db.ingredients|][i];
      }
    }
    forall i | 0 <= i < |db'.recipes|
      ensures db'.recipes[i].owner < |db'.users|
      ensures forall t :: t in db'.recipes[i].tags ==> t < |db'.tags|
      ensures forall g :: g in db'.recipes[i].ingredients ==> g < |db'.ingredients|
    {
      if i < |db.recipes| {
        assert db'.recipes[i] == db'.recipes[..id][i];
      }
    }
  }

  /** Update keeps every unique constraint and foreign key. */
  lemma UpdatePreservesValid(db: Db, id: nat, data: RecipeData, now: nat)
    requires id < |db.recipes| && Valid(db)
    ensures Valid(Update(db, id, data, now))
  {
    var db' := Update(db, id, data, now);
    forall i | 0 <= i < |db'.tags|
      ensures db'.tags[i].creator < |db'.users|
    {
      if i < |db.tags| {
        assert db'.tags[i] == db'.tags[..|db.tags|][i];
      }
    }
    forall i | 0 <= i < |db'.ingredients|
      ensures db'.ingredients[i].user < |db'.users|
    {
      if i < |db.ingredients| {
        assert db'.ingredients[i] == db'.ingredients[..|db.ingredients|][i];
      }
    }
  }

  /**
   * Update with a list, even an empty one, replaces the tag links with
   * the resolved set; with an empty list none remain, yet every tag row
   * the recipe was linked to is still in the table, unchanged.
   */
  lemma UpdateEmptyTagListClearsLinksOnly(db: Db, id: nat, data: RecipeData, now: nat)
    requires id < |db.recipes| && Valid(db) && data.tags == Some([])
    ensures var db' := Update(db, id, data, now);
      && db'.recipes[id].tags == {}
      && db'.tags == db.tags
      && forall t :: t in db.recipes[id].tags ==> t < |db'.tags| && db'.tags[t] == db.tags[t]
  {
  }

  /**
   * The owner is read-only: whatever `user`, `id` or `created_at` the
   * payload carries, validation drops it, and an update never changes
   * the recipe's owner or creation time.
   */
  lemma OwnerIsReadOnly(db: Db, id: nat, req: RecipeRequest, partial: bool, now: nat,
                        user: Option<nat>, pk: Option<nat>, createdAt: Option<nat>)
    requires id < |db.recipes|
    requires Validate(req, partial).Ok?
    ensures Validate(req.(user := user, id := pk, createdAt := createdAt), partial) == Validate(req, partial)
    ensures var db' := Update(db, id, Validate(req, partial).value, now);
      db'.recipes[id].owner == db.recipes[id].owner && db'.recipes[id].createdAt == db.recipes[id].createdAt
  {
  }

  /**
   * An update whose payload the recipe already reflects changes nothing:
   * every supplied scalar equals the stored one, and every supplied list
   * names only existing rows and is exactly what the recipe links.
   */
  lemma UpdateWithSettledData(db: Db, id: nat, data: RecipeData, now: nat)
    requires id < |db.recipes|
    requires Tags.NamesUnique(db.tags) && Ingredients.KeysUnique(db.ingredients)
    requires var rec := db.recipes[id];
      && data.title.GetOr(rec.title) == rec.title
      && data.prepMinutes.GetOr(rec.prepMinutes) == rec.prepMinutes
      && data.priceCents.GetOr(rec.priceCents) == rec.priceCents
      && data.difficulty.GetOr(rec.difficulty) == rec.difficulty
    requires var rec := db.recipes[id];
      data.tags.Some? ==>
        && (forall n :: n in data.tags.value ==> Tags.HasName(db.tags, n))
        && forall t :: t in rec.tags <==> 0 <= t < |db.tags| && db.tags[t].name in data.tags.value
    requires var rec := db.recipes[id];
      data.ingredients.Some? ==>
        && (forall n :: n in data.ingredients.value ==> Ingredients.HasKey(db.ingredients, rec.owner, n))
        && forall g :: g in rec.ingredients <==>
             0 <= g < |db.ingredients| && db.ingredients[g].user == rec.owner &&
             db.ingredients[g].name in data.ingredients.value
    ensures Update(db, id, data, now) == db
  {
    var owner := db.recipes[id].owner;
    if data.tags.Some? {
      ResolveTagsSettled(db.tags, data.tags.value, owner, now);
    }
    if data.ingredients.Some? {
      ResolveIngredientsSettled(db.ingredients, data.ingredients.value, owner);
    }
    var db' := Update(db, id, data, now);
    assert db'.recipes[id] == db.recipes[id];
    assert db'.recipes == db.recipes;
  }

  /**
   * Updating twice with the same payload gives the same database as
   * updating once, whatever the clock says the second time.
   */
  lemma UpdateIdempotent(db: Db, id: nat, data: RecipeData, now1: nat, now2: nat)
    requires id < |db.recipes|
    requires Tags.NamesUnique(db.tags) && Ingredients.KeysUnique(db.ingredients)
    ensures var db1 := Update(db, id, data, now1);
      Update(db1, id, data, now2) == db1
  {
    var db1 := Update(db, id, data, now1);
    var owner := db.recipes[id].owner;
    if data.tags.Some? {
      assert db1.tags == ResolveTags(db.tags, data.tags.value, owner, now1, {}).0;
    }
    if data.ingredients.Some? {
      assert db1.ingredients == ResolveIngredients(db.ingredients, data.ingredients.value, owner, {}).0;
    }
    UpdateWithSettledData(db1, id, data, now2);
  }

  /**
   * The create view saves twice: the second save runs update with the
   * same validated data. That second step changes nothing: no link, no
   * row, no scalar.
   */
  lemma SecondSaveChangesNothing(db: Db, data: RecipeData, owner: nat, now1: nat, now2: nat)
    requires Creatable(data)
    requires Tags.NamesUnique(db.tags) && Ingredients.KeysUnique(db.ingredients)
    ensures var (db1, id) := Create(db, data, owner, now1);
      id < |db1.recipes| && Update(db1, id, data, now2) == db1
  {
    var (db1, id) := Create(db, data, owner, now1);
    if data.tags.Some? {
      assert db1.tags == ResolveTags(db.tags, data.tags.value, owner, now1, {}).0;
    }
    if data.ingredients.Some? {
      assert db1.ingredients == ResolveIngredients(db.ingredients, data.ingredients.value, owner, {}).0;
    }
    UpdateWithSettledData(db1, id, data, now2);
  }

  /**
   * The writer does not apply the five-tag check of `clean`: a payload
   * with more than five distinct tag names creates a recipe that `clean`
   * would reject.
   */
  lemma WriterDoesNotEnforceTagCap(db: Db, data: RecipeData, owner: nat, now: nat)
    requires Creatable(data) && Tags.NamesUnique(db.tags)
    requires |NameSet(TagNames(data))| > Recipes.MaxTags
    ensures var (db', id) := Create(db, data, owner, now);
      Recipes.Clean(db'.recipes[id]).Fail?
  {
    CreateTagLinkCount(db, data, owner, now);
  }

  /** A recipe created from a payload that passed validation satisfies every column bound. */
  lemma ValidatedCreateWithinBounds(db: Db, req: RecipeRequest, owner: nat, now: nat)
    requires Validate(req, false).Ok?
    ensures var (db', id) := Create(db, Validate(req, false).value, owner, now);
      Recipes.FieldsWithinBounds(db'.recipes[id])
  {
    var data := Validate(req, false).value;
    if data.difficulty.None? {
      assert Recipes.DifficultyChoices[0].0 == 0;
    }
  }

  /** An update from a payload that passed validation keeps a recipe within the column bounds. */
  lemma ValidatedUpdateKeepsBounds(db: Db, id: nat, req: RecipeRequest, partial: bool, now: nat)
    requires id < |db.recipes| && Recipes.FieldsWithinBounds(db.recipes[id])
    requires Validate(req, partial).Ok?
    ensures Recipes.FieldsWithinBounds(Update(db, id, Validate(req, partial).value, now).recipes[id])
  {
  }

  /** A create whose tag names all have rows adds no tag row. */
  lemma CreateWithKnownTagNames(db: Db, data: RecipeData, owner: nat, now: nat)
    requires Creatable(data) && Tags.NamesUnique(db.tags)
    requires forall n :: n in TagNames(data) ==> Tags.HasName(db.tags, n)
    ensures Create(db, data, owner, now).0.tags == db.tags
  {
    var (db', id) := Create(db, data, owner, now);
    assert forall i :: |db.tags| <= i < |db'.tags| ==> db'.tags[i].name in TagNames(data);
    assert |db'.tags| == |db.tags|;
    assert db'.tags == db'.tags[..|db.tags|];
  }

  /**
   * Tag names are stripped before they are looked up: when every
   * submitted name strips to a stored one (" Indian" for a stored
   * "Indian"), creating the recipe adds no tag row and links exactly the
   * stored rows whose names are the stripped submissions.
   */
  lemma PaddedTagNamesReuseTags(db: Db, req: RecipeRequest, owner: nat, now: nat)
    requires Tags.NamesUnique(db.tags)
    requires Validate(req, false).Ok? && req.tags.Some?
    requires forall i :: 0 <= i < |req.tags.value| ==> Tags.HasName(db.tags, Text.Trim(req.tags.value[i]))
    ensures var (db', id) := Create(db, Validate(req, false).value, owner, now);
      && db'.tags == db.tags
      && forall t :: t in db'.recipes[id].tags <==>
           0 <= t < |db.tags| && db.tags[t].name in CleanNames(req.tags.value)
  {
    var data := Validate(req, false).value;
    var names := CleanNames(req.tags.value);
    assert TagNames(data) == names;
    assert forall n :: n in names ==> Tags.HasName(db.tags, n) by {
      forall n | n in names
        ensures Tags.HasName(db.tags, n)
      {
        var i :| 0 <= i < |names| && names[i] == n;
        assert Tags.HasName(db.tags, Text.Trim(req.tags.value[i]));
      }
    }
    CreateWithKnownTagNames(db, data, owner, now);
  }

  /** A recipe created without a difficulty level is displayed as "Not chosen". */
  lemma CreatedWithoutDifficultyIsNotChosen(db: Db, data: RecipeData, owner: nat, now: nat)
    requires Creatable(data) && data.difficulty.None?
    ensures var (db', id) := Create(db, data, owner, now);
      && Recipes.DifficultyDisplay(db'.recipes[id]) == Some("Not chosen")
      && Recipes.IsDifficulty(db'.recipes[id].difficulty)
  {
    assert Recipes.DifficultyChoices[0].0 == 0;
  }
}
