/**
 * Properties that tie the read helpers to each other and to the writer:
 * the existence check against the lookup, the priority of keys, and the
 * ownership and ordering of freshly written rows.
 */
module QueryProperties {
  import opened Wrappers
  import Users
  import Tags
  import Store
  import RecipeWriter
  import opened Queries

  /** Whatever the existence check confirms, the lookup finds. */
  lemma ExistsImpliesFound(users: seq<Users.User>, uid: Option<int>, email: Option<string>,
                           username: Option<string>)
    ensures CheckUserExists(users, uid, email, username) ==> GetUser(users, uid, email, username).Some?
  {
  }

  /**
   * The converse fails: with an unknown id and a registered e-mail, the
   * existence check answers false (it looks at the id only) while the
   * lookup falls through to the e-mail and finds the user.
   */
  lemma CheckAndLookupDisagree(users: seq<Users.User>, uid: int, email: string, username: Option<string>)
    requires !(0 <= uid < |users|)
    requires Users.EmailTaken(users, email)
    ensures !CheckUserExists(users, Some(uid), Some(email), username)
    ensures var r := GetUser(users, Some(uid), Some(email), username);
      r.Some? && users[r.value].email == email
  {
  }

  /** The existence check ignores every key after the first one supplied. */
  lemma CheckIgnoresLaterKeys(users: seq<Users.User>, uid: int, email: string,
                              e1: Option<string>, e2: Option<string>,
                              n1: Option<string>, n2: Option<string>)
    ensures CheckUserExists(users, Some(uid), e1, n1) == CheckUserExists(users, Some(uid), e2, n2)
    ensures CheckUserExists(users, None, Some(email), n1) == CheckUserExists(users, None, Some(email), n2)
  {
  }

  /**
   * The lookup by e-mail picks the first matching row; on a table with
   * unique e-mails that is the only one.
   */
  lemma LookupByEmailIsTheUser(users: seq<Users.User>, i: nat)
    requires Users.Valid(users) && i < |users|
    ensures GetUser(users, None, Some(users[i].email), None) == Some(i)
  {
    var r := GetUser(users, None, Some(users[i].email), None);
    assert Users.EmailTaken(users, users[i].email);
    assert users[r.value].email == users[i].email;
  }

  /**
   * A recipe the writer has just created is owned by the acting user and
   * by nobody else, and it is listed among that user's recipes.
   */
  lemma CreatorOwnsNewRecipe(db: Store.Db, data: RecipeWriter.RecipeData, owner: nat, now: nat, user: nat)
    requires RecipeWriter.Creatable(data)
    ensures var (db', id) := RecipeWriter.Create(db, data, owner, now);
      && 0 <= id < |db'.recipes|
      && (RecipeOwner(db'.recipes, id, user) <==> user == owner)
      && id in MyRecipes(db'.recipes, owner)
      && (user != owner ==> id !in MyRecipes(db'.recipes, user))
  {
  }

  /** An update never changes who the ownership check accepts. */
  lemma UpdateKeepsOwnership(db: Store.Db, id: nat, data: RecipeWriter.RecipeData, now: nat, user: nat)
    requires id < |db.recipes|
    ensures var db' := RecipeWriter.Update(db, id, data, now);
      RecipeOwner(db'.recipes, id, user) == RecipeOwner(db.recipes, id, user)
  {
  }

  /**
   * The tag ownership check after a tag create: a fresh name belongs to
   * the requesting user; an existing name still belongs to its original
   * creator, whoever asked.
   */
  lemma TagOwnerAfterCreate(tags: seq<Tags.Tag>, name: string, creator: nat, now: nat, user: nat)
    ensures var (tags', pk) := Tags.GetOrCreate(tags, name, creator, now);
      && 0 <= pk < |tags'|
      && (!Tags.HasName(tags, name) ==> (TagOwner(tags', pk, user) <==> user == creator))
      && (Tags.HasName(tags, name) ==> pk < |tags| && TagOwner(tags', pk, user) == TagOwner(tags, pk, user))
  {
  }

  /**
   * With a clock that moves forward, the recipe just created heads the
   * newest-first listing.
   */
  lemma NewRecipeListedFirst(db: Store.Db, data: RecipeWriter.RecipeData, owner: nat, now: nat)
    requires RecipeWriter.Creatable(data)
    requires forall i :: 0 <= i < |db.recipes| ==> db.recipes[i].createdAt < now
    ensures var (db', id) := RecipeWriter.Create(db, data, owner, now);
      AllRecipes(db'.recipes)[0] == id
  {
    var (db', id) := RecipeWriter.Create(db, data, owner, now);
    var r := AllRecipes(db'.recipes);
    assert id in r;
    assert forall i :: 0 <= i < id ==> db'.recipes[i] == db'.recipes[..id][i];
    var p :| 0 <= p < |r| && r[p] == id;
    assert db'.recipes[r[0]].createdAt >= db'.recipes[r[p]].createdAt;
  }
}
