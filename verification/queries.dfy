/**
 * The read helpers of the application: user existence and lookup with
 * their key priority, primary-key lookups, the ownership checks, and the
 * newest-first recipe and tag listings.
 */
module Queries {
  import opened Wrappers
  import Users
  import Tags
  import Recipes
  import Sorting

  /**
   * `check_user_exists`: only the first supplied key is consulted, in the
   * order id, e-mail, username; with no key the answer is false.
   */
  function CheckUserExists(users: seq<Users.User>, uid: Option<int>, email: Option<string>,
                           username: Option<string>): (r: bool)
    ensures uid.Some? ==> (r <==> 0 <= uid.value < |users|)
    ensures uid.None? && email.Some? ==> (r <==> Users.EmailTaken(users, email.value))
    ensures uid.None? && email.None? && username.Some? ==> (r <==> Users.UsernameTaken(users, username.value))
    ensures uid.None? && email.None? && username.None? ==> !r
  {
    match (uid, email, username)
    case (Some(id), _, _) => 0 <= id < |users|
    case (None, Some(e), _) => Users.EmailTaken(users, e)
    case (None, None, Some(n)) => Users.UsernameTaken(users, n)
    case (None, None, None) => false
  }

  /** The lowest position from `from` on whose row satisfies `p`. */
  function FirstFrom(users: seq<Users.User>, p: Users.User -> bool, from: nat): (r: Option<nat>)
    requires from <= |users|
    ensures r.Some? ==> from <= r.value < |users| && p(users[r.value])
    ensures r.Some? ==> forall j :: from <= j < r.value ==> !p(users[j])
    ensures r.None? <==> forall j :: from <= j < |users| ==> !p(users[j])
    decreases |users| - from
  {
    if from == |users| then None
    else if p(users[from]) then Some(from)
    else FirstFrom(users, p, from + 1)
  }

  /** `filter(email=e).first()`: a `None` argument matches no row, the e-mail column being non-null. */
  function FirstByEmail(users: seq<Users.User>, email: Option<string>): Option<nat> {
    if email.None? then None else FirstFrom(users, (u: Users.User) => u.email == email.value, 0)
  }

  /** `filter(username=n).first()`, with the same treatment of `None`. */
  function FirstByUsername(users: seq<Users.User>, username: Option<string>): Option<nat> {
    if username.None? then None else FirstFrom(users, (u: Users.User) => u.username == username.value, 0)
  }

  /**
   * `get_user`: try the id, then the e-mail, then the username, each
   * lookup running whether or not an earlier key was supplied, and
   * return the first user found (as its primary key), or `None`.
   */
  function GetUser(users: seq<Users.User>, uid: Option<int>, email: Option<string>,
                   username: Option<string>): (r: Option<nat>)
    ensures r.Some? ==> r.value < |users|
    ensures uid.Some? && 0 <= uid.value < |users| ==> r == Some(uid.value as nat)
    ensures r.None? <==>
      && (uid.None? || !(0 <= uid.value < |users|))
      && (email.None? || !Users.EmailTaken(users, email.value))
      && (username.None? || !Users.UsernameTaken(users, username.value))
    ensures (r.Some? && (uid.None? || !(0 <= uid.value < |users|)) && email.Some? &&
             Users.EmailTaken(users, email.value)) ==>
      && users[r.value].email == email.value
      && forall j :: 0 <= j < r.value ==> users[j].email != email.value
    ensures (r.Some? && (uid.None? || !(0 <= uid.value < |users|)) &&
             (email.None? || !Users.EmailTaken(users, email.value))) ==>
      && username.Some? && users[r.value].username == username.value
      && forall j :: 0 <= j < r.value ==> users[j].username != username.value
  {
    if uid.Some? && 0 <= uid.value < |users| then Some(uid.value as nat)
    else
      var byEmail := FirstByEmail(users, email);
      if byEmail.Some? then byEmail else FirstByUsername(users, username)
  }

  /**
   * `get_recipe_by_id` and `get_tag_by_id`, which differ only in the table
   * they read: the row with that primary key, or `None`.
   */
  function RowById<T>(table: seq<T>, pk: int): (r: Option<T>)
    ensures r.Some? <==> 0 <= pk < |table|
    ensures r.Some? ==> r.value == table[pk]
  {
    if 0 <= pk < |table| then Some(table[pk]) else None
  }

  /**
   * `get_recipe_owner`: whether the acting user owns the recipe. The
   * source dereferences the lookup without a check, so the recipe must
   * exist.
   */
  function RecipeOwner(recipes: seq<Recipes.Recipe>, pk: int, user: nat): (r: bool)
    requires 0 <= pk < |recipes|
    ensures r <==> RowById(recipes, pk).value.owner == user
  {
    recipes[pk].owner == user
  }

  /** `get_tag_owner`: whether the acting user created the tag; the tag must exist. */
  function TagOwner(tags: seq<Tags.Tag>, pk: int, user: nat): (r: bool)
    requires 0 <= pk < |tags|
    ensures r <==> RowById(tags, pk).value.creator == user
  {
    tags[pk].creator == user
  }

  /** The positions below `n` that satisfy `keep`, in increasing order. */
  function Positions(n: nat, keep: nat -> bool): (r: seq<nat>)
    ensures forall i :: 0 <= i < |r| ==> r[i] < n && keep(r[i])
    ensures forall k :: 0 <= k < n && keep(k) ==> k in r
    ensures Sorting.Distinct(r)
    ensures (forall k :: 0 <= k < n ==> keep(k)) ==> |r| == n
  {
    if n == 0 then []
    else
      var r := Positions(n - 1, keep);
      if keep(n - 1) then r + [n - 1] else r
  }

  /** The creation time of a recipe position, the sort key of the listings. */
  function RecipeStamp(recipes: seq<Recipes.Recipe>): nat -> int {
    (i: nat) => if i < |recipes| then recipes[i].createdAt else 0
  }

  /** The creation time of a tag position. */
  function TagStamp(tags: seq<Tags.Tag>): nat -> int {
    (i: nat) => if i < |tags| then tags[i].createdAt else 0
  }

  /** `get_all_recipes`: every recipe, newest first. */
  function AllRecipes(recipes: seq<Recipes.Recipe>): (r: seq<nat>)
    ensures forall i :: 0 <= i < |r| ==> r[i] < |recipes|
    ensures forall k: nat :: k in r <==> k < |recipes|
    ensures |r| == |recipes|
    ensures Sorting.Distinct(r)
    ensures forall i, j :: 0 <= i < j < |r| ==> recipes[r[i]].createdAt >= recipes[r[j]].createdAt
  {
    var ids := Positions(|recipes|, (i: nat) => true);
    var r := Sorting.SortDesc(ids, RecipeStamp(recipes));
    Sorting.SortDescDistinct(ids, RecipeStamp(recipes));
    assert forall k: nat :: k in r <==> k in ids by {
      forall k: nat {
        Sorting.SortDescMembers(ids, RecipeStamp(recipes), k);
      }
    }
    r
  }

  /** `get_my_recipes`: exactly the acting user's recipes, newest first. */
  function MyRecipes(recipes: seq<Recipes.Recipe>, user: nat): (r: seq<nat>)
    ensures forall i :: 0 <= i < |r| ==> r[i] < |recipes|
    ensures forall k: nat :: k in r <==> k < |recipes| && recipes[k].owner == user
    ensures Sorting.Distinct(r)
    ensures forall i, j :: 0 <= i < j < |r| ==> recipes[r[i]].createdAt >= recipes[r[j]].createdAt
  {
    var ids := Positions(|recipes|, (i: nat) => i < |recipes| && recipes[i].owner == user);
    var r := Sorting.SortDesc(ids, RecipeStamp(recipes));
    Sorting.SortDescDistinct(ids, RecipeStamp(recipes));
    assert forall k: nat :: k in r <==> k in ids by {
      forall k: nat {
        Sorting.SortDescMembers(ids, RecipeStamp(recipes), k);
      }
    }
    r
  }

  /** `get_all_tags`: every tag, newest first. */
  function AllTags(tags: seq<Tags.Tag>): (r: seq<nat>)
    ensures forall i :: 0 <= i < |r| ==> r[i] < |tags|
    ensures forall k: nat :: k in r <==> k < |tags|
    ensures |r| == |tags|
    ensures Sorting.Distinct(r)
    ensures forall i, j :: 0 <= i < j < |r| ==> tags[r[i]].createdAt >= tags[r[j]].createdAt
  {
    var ids := Positions(|tags|, (i: nat) => true);
    var r := Sorting.SortDesc(ids, TagStamp(tags));
    Sorting.SortDescDistinct(ids, TagStamp(tags));
    assert forall k: nat :: k in r <==> k in ids by {
      forall k: nat {
        Sorting.SortDescMembers(ids, TagStamp(tags), k);
      }
    }
    r
  }

  /** `get_my_tags`: exactly the tags the acting user created, newest first. */
  function MyTags(tags: seq<Tags.Tag>, user: nat): (r: seq<nat>)
    ensures forall i :: 0 <= i < |r| ==> r[i] < |tags|
    ensures forall k: nat :: k in r <==> k < |tags| && tags[k].creator == user
    ensures Sorting.Distinct(r)
    ensures forall i, j :: 0 <= i < j < |r| ==> tags[r[i]].createdAt >= tags[r[j]].createdAt
  {
    var ids := Positions(|tags|, (i: nat) => i < |tags| && tags[i].creator == user);
    var r := Sorting.SortDesc(ids, TagStamp(tags));
    Sorting.SortDescDistinct(ids, TagStamp(tags));
    assert forall k: nat :: k in r <==> k in ids by {
      forall k: nat {
        Sorting.SortDescMembers(ids, TagStamp(tags), k);
      }
    }
    r
  }
}
