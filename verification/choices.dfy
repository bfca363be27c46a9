/** Django `choices` tuples and the `get_..._display` lookup the models write by hand. */
module Choices {
  import opened Wrappers

  /** A sequence of (stored value, human-readable label) pairs. */
  type Choices = seq<(int, string)>

  /**
   * The label of the first pair whose stored value is `key`, or `None`
   * when no pair matches: the loop with early return both models use.
   */
  function Label(choices: Choices, key: int): (r: Option<string>)
    ensures r.None? <==> forall i :: 0 <= i < |choices| ==> choices[i].0 != key
    ensures r.Some? ==>
      exists i :: 0 <= i < |choices| && choices[i] == (key, r.value) &&
        forall j :: 0 <= j < i ==> choices[j].0 != key
  {
    if choices == [] then None
    else if choices[0].0 == key then Some(choices[0].1)
    else
      var r := Label(choices[1..], key);
      assert forall i :: 1 <= i < |choices| ==> choices[i] == choices[1..][i - 1];
      r
  }

  /** When the stored values are distinct, the label found is the one paired with the key. */
  lemma {:induction false} LabelOfDistinct(choices: Choices, i: nat)
    requires i < |choices|
    requires forall a, b :: 0 <= a < b < |choices| ==> choices[a].0 != choices[b].0
    ensures Label(choices, choices[i].0) == Some(choices[i].1)
  {
    var r := Label(choices, choices[i].0);
    var k :| 0 <= k < |choices| && choices[k] == (choices[i].0, r.value) &&
      forall j :: 0 <= j < k ==> choices[j].0 != choices[i].0;
    assert k == i;
  }
}
