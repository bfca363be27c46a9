/**
 * The recipe model: the row with its scalar fields, owner and two link
 * sets, the column bounds, the difficulty labels and the five-tag check
 * of `clean`.
 */
module Recipes {
  import opened Wrappers
  import Choices

  const TitleMaxLength := 60
  const LinkMaxLength := 255
  /**
   * `preparation_time_minutes` is a positive integer column: the model
   * field carries the range Django gives it, 0 to 2**31 - 1.
   */
  const PrepMinutesMax := 0x7FFF_FFFF
  /**
   * A decimal column of five digits with two after the point holds at
   * most three before it, so a price in hundredths lies strictly between
   * -100000 and 100000.
   */
  const PriceLimit := 100000
  const MaxTags := 5
  const DefaultDifficulty := 0

  const DifficultyChoices: Choices.Choices := [
    (0, "Not chosen"),
    (1, "Novice"),
    (2, "Intermediate"),
    (3, "Advanced")
  ]

  const TooManyTags := "A recipe can have at most 5 tags."

  /**
   * A row of the recipe table. The price is held in hundredths, so the
   * two decimal places are exact; `owner` is the user's primary key and
   * the link sets hold primary keys of tag and ingredient rows.
   */
  datatype Recipe = Recipe(
    title: string,
    description: string,
    prepMinutes: int,
    priceCents: int,
    link: string,
    createdAt: nat,
    difficulty: int,
    owner: nat,
    tags: set<nat>,
    ingredients: set<nat>)

  predicate IsDifficulty(level: int) {
    exists i :: 0 <= i < |DifficultyChoices| && DifficultyChoices[i].0 == level
  }

  /** A price in hundredths fits the decimal column. */
  predicate PriceFits(cents: int) {
    -PriceLimit < cents < PriceLimit
  }

  predicate PrepMinutesFit(minutes: int) {
    0 <= minutes <= PrepMinutesMax
  }

  /**
   * The column constraints of one row, spelled out as numbers: a title of
   * at most 60 characters, a link of at most 255, 0..2147483647 minutes,
   * a price strictly between -1000.00 and 1000.00 (so -100000 and 100000
   * in hundredths), a difficulty among 0..3.
   */
  predicate FieldsWithinBounds(r: Recipe): (ok: bool)
    ensures ok <==>
      && |r.title| <= 60
      && |r.link| <= 255
      && 0 <= r.prepMinutes <= 2147483647
      && -100000 < r.priceCents < 100000
      && 0 <= r.difficulty <= 3
  {
    assert 0 <= r.difficulty <= 3 ==> DifficultyChoices[r.difficulty].0 == r.difficulty;
    && |r.title| <= TitleMaxLength
    && |r.link| <= LinkMaxLength
    && PrepMinutesFit(r.prepMinutes)
    && PriceFits(r.priceCents)
    && IsDifficulty(r.difficulty)
  }

  /**
   * `Recipe.get_competence_level_display`: the label of the stored
   * difficulty, `None` outside 0..3.
   */
  function DifficultyDisplay(recipe: Recipe): (r: Option<string>)
    ensures r.Some? <==> 0 <= recipe.difficulty <= 3
    ensures recipe.difficulty == 0 ==> r == Some("Not chosen")
    ensures recipe.difficulty == 1 ==> r == Some("Novice")
    ensures recipe.difficulty == 2 ==> r == Some("Intermediate")
    ensures recipe.difficulty == 3 ==> r == Some("Advanced")
  {
    Choices.Label(DifficultyChoices, recipe.difficulty)
  }

  /** `Recipe.clean`: a recipe fails validation when more than five tags are linked. */
  function Clean(r: Recipe): (o: Outcome<string>)
    ensures o.Pass? <==> |r.tags| <= 5
    ensures o.Fail? ==> o.error == TooManyTags
  {
    if |r.tags| > MaxTags then Fail(TooManyTags) else Pass
  }
}
