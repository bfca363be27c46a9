/**
 * The tag table and the tag serializer's create: tags are keyed
 * globally by name, and creating a tag whose name is taken returns the
 * existing row instead of failing.
 */
module Tags {
  import opened Wrappers
  import Text

  /** A row of the tag table; `creator` is the user's primary key. */
  datatype Tag = Tag(name: string, creator: nat, description: string, createdAt: nat)

  /** The unique constraint on the name column. */
  predicate NamesUnique(tags: seq<Tag>) {
    forall i, j :: 0 <= i < |tags| && 0 <= j < |tags| && tags[i].name == tags[j].name ==> i == j
  }

  predicate HasName(tags: seq<Tag>, name: string) {
    exists i :: 0 <= i < |tags| && tags[i].name == name
  }

  /**
   * The name field of the serializer: required, stripped of surrounding
   * whitespace and then refused when blank; the model's uniqueness
   * validator is removed, so a taken name is accepted. The stored name is
   * the stripped one.
   */
  predicate NameValid(raw: string): (ok: bool)
    ensures ok <==> exists k :: 0 <= k < |raw| && !Text.IsSpace(raw[k])
  {
    Text.Trim(raw) != ""
  }

  function FindFrom(tags: seq<Tag>, name: string, start: nat): (r: Option<nat>)
    requires start <= |tags|
    ensures r.None? <==> forall i :: start <= i < |tags| ==> tags[i].name != name
    ensures r.Some? ==>
      && start <= r.value < |tags|
      && tags[r.value].name == name
      && forall j :: start <= j < r.value ==> tags[j].name != name
    decreases |tags| - start
  {
    if start == |tags| then None
    else if tags[start].name == name then Some(start)
    else FindFrom(tags, name, start + 1)
  }

  /** `Tag.objects.filter(name=name).first()`: the row with the lowest key carrying `name`. */
  function Find(tags: seq<Tag>, name: string): (r: Option<nat>)
    ensures r.None? <==> !HasName(tags, name)
    ensures r.Some? ==>
      && r.value < |tags|
      && tags[r.value].name == name
      && forall j :: 0 <= j < r.value ==> tags[j].name != name
  {
    FindFrom(tags, name, 0)
  }

  /**
   * Resolve-or-create by name: an existing row with the name is
   * returned and the table is left alone; otherwise one row attributed
   * to `creator`, with an empty description, is appended. Both the
   * serializer's create (insert, then fetch on a unique-constraint
   * failure) and the recipe writer's lookup-then-create reduce to this
   * when run one request at a time.
   */
  function GetOrCreate(tags: seq<Tag>, name: string, creator: nat, now: nat): (r: (seq<Tag>, nat))
    ensures r.1 < |r.0| && r.0[r.1].name == name
    ensures HasName(tags, name) ==> r.0 == tags
    ensures !HasName(tags, name) ==>
      r.0 == tags + [Tag(name, creator, "", now)] && r.1 == |tags|
    ensures NamesUnique(tags) ==>
      && NamesUnique(r.0)
      && forall i :: 0 <= i < |r.0| && r.0[i].name == name ==> i == r.1
  {
    match Find(tags, name)
    case Some(id) => (tags, id)
    case None => (tags + [Tag(name, creator, "", now)], |tags|)
  }

  /**
   * A submitted name that strips to a taken one passes validation, and
   * creating it returns the existing row with its original creator and
   * description, whoever asks, without adding a row: " Indian" resolves
   * to a stored "Indian".
   */
  lemma TakenNameResolvesToExisting(tags: seq<Tag>, i: nat, raw: string, requester: nat, now: nat)
    requires NamesUnique(tags)
    requires i < |tags| && Text.Trim(raw) == tags[i].name
    ensures var (tags', id) := GetOrCreate(tags, Text.Trim(raw), requester, now);
      && (NameValid(raw) <==> tags[i].name != "")
      && tags' == tags
      && id == i
      && tags'[id].creator == tags[i].creator
      && tags'[id].description == tags[i].description
  {
  }

  /** Creating the same name twice gives the same row and adds at most one row. */
  lemma {:induction false} GetOrCreateIdempotent(tags: seq<Tag>, name: string, c1: nat, c2: nat, n1: nat, n2: nat)
    ensures var (t1, id1) := GetOrCreate(tags, name, c1, n1);
      var (t2, id2) := GetOrCreate(t1, name, c2, n2);
      t2 == t1 && |t1| <= |tags| + 1 && (NamesUnique(tags) ==> id2 == id1)
  {
    var (t1, id1) := GetOrCreate(tags, name, c1, n1);
    assert HasName(t1, name);
  }
}
