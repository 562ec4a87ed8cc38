/**
 * recipe/models.py: the entities of the application as values, the choice
 * enumerations, the field bounds, `Recipe.clean`, the display helpers, the
 * upload-path builders and the positional image getters.
 */
module Models {
  import opened Wrappers
  import opened Text

  type UserId = nat
  type RecipeId = nat

  // ---------------------------------------------------------------------------
  // Enumerations (IntegerChoices): the stored value is the index of the label
  // ---------------------------------------------------------------------------

  const CATEGORY_LABELS: seq<string> := ["Veg", "Vegan", "Non-Veg"]
  const DIFFICULTY_LABELS: seq<string> := ["Easy", "Medium", "Hard"]
  const UNIT_LABELS: seq<string> := ["grams", "kilogram", "teaspoon", "tablespoon", "cup", "piece"]

  predicate IsCategory(v: int) { 0 <= v < |CATEGORY_LABELS| }
  predicate IsDifficulty(v: int) { 0 <= v < |DIFFICULTY_LABELS| }
  predicate IsUnit(v: int) { 0 <= v < |UNIT_LABELS| }

  // ---------------------------------------------------------------------------
  // Field defaults and bounds
  // ---------------------------------------------------------------------------

  const DEFAULT_CATEGORY: nat := 0      // Veg
  const DEFAULT_DIFFICULTY: nat := 0    // Easy
  const DEFAULT_SERVINGS: nat := 1
  const MIN_TOTAL_TIME: nat := 5
  const MAX_TOTAL_TIME: nat := 300
  const DEFAULT_UNIT: int := 0          // grams

  /** The image name a RecipeImage row carries when nothing was uploaded. */
  const DEFAULT_RECIPE_IMAGE: string := "default-recipe.jpg"

  const TIME_ERROR: string := "Total time cannot be less than prep time."

  // ---------------------------------------------------------------------------
  // Rows
  // ---------------------------------------------------------------------------

  /** A Recipe row. Positive-integer columns are `nat`. */
  datatype Recipe = Recipe(
    title: string,
    author: UserId,
    category: nat,
    cuisine: string,
    difficulty: nat,
    servings: nat,
    prepTime: nat,
    totalTime: nat,
    instructions: string,
    featured: bool,
    likes: nat)

  /** The one-to-one Nutrition row of a recipe. */
  datatype Nutrition = Nutrition(
    calories: nat, protein: nat, fat: nat, sugar: nat, fiber: nat, carbohydrates: nat)

  /** An Ingredient row: `unit` is a plain integer column, so values outside the
      choices can be stored by code that bypasses form validation. */
  datatype Ingredient = Ingredient(
    id: nat, recipe: RecipeId, name: string, quantity: Decimal, unit: int, optional: bool)

  /** A RecipeImage row; the image name is empty when the file field is empty. */
  datatype RecipeImage = RecipeImage(id: nat, recipe: RecipeId, image: string)

  // ---------------------------------------------------------------------------
  // Validation
  // ---------------------------------------------------------------------------

  /** `Recipe.clean`: raises when both times are known and the total is below
      the preparation time. */
  function Clean(prepTime: Option<int>, totalTime: Option<int>): (r: Outcome<string>)
    ensures r.Fail? <==> prepTime.Some? && totalTime.Some? && totalTime.value < prepTime.value
    ensures r.Fail? ==> r.error == TIME_ERROR
  {
    if prepTime.Some? && totalTime.Some? && totalTime.value < prepTime.value then Fail(TIME_ERROR)
    else Pass
  }

  /** The field validators and choices a full clean checks on a Recipe:
      category and difficulty among their choices, total time within bounds. */
  predicate FieldsValid(r: Recipe) {
    IsCategory(r.category) && IsDifficulty(r.difficulty)
    && MIN_TOTAL_TIME <= r.totalTime <= MAX_TOTAL_TIME
  }

  /** The (title, author) pair of every recipe is unique (`unique_together`). */
  predicate UniqueTitles(recipes: map<RecipeId, Recipe>) {
    forall i, j :: i in recipes && j in recipes && i != j ==>
      recipes[i].title != recipes[j].title || recipes[i].author != recipes[j].author
  }

  /** Some recipe of `author` is titled `title`. */
  predicate TitleTaken(recipes: map<RecipeId, Recipe>, title: string, author: UserId) {
    exists id :: id in recipes && recipes[id].title == title && recipes[id].author == author
  }

  /** A recipe that passes its field validators and `clean` has its
      preparation inside the bounded total time. */
  lemma ValidRecipeTimes(r: Recipe)
    requires FieldsValid(r) && Clean(Some(r.prepTime), Some(r.totalTime)).Pass?
    ensures r.prepTime <= r.totalTime <= MAX_TOTAL_TIME
    ensures r.prepTime <= MAX_TOTAL_TIME
  {
  }

  // ---------------------------------------------------------------------------
  // Display helpers
  // ---------------------------------------------------------------------------

  /** `Recipe.difficulty_display`: a lookup in a literal dict with a fallback. */
  function DifficultyDisplay(difficulty: int): (shown: string)
    ensures IsDifficulty(difficulty) ==> shown == DIFFICULTY_LABELS[difficulty]
    ensures !IsDifficulty(difficulty) ==> shown == "Unknown"
  {
    var labels := map[0 := "Easy", 1 := "Medium", 2 := "Hard"];
    if difficulty in labels then labels[difficulty] else "Unknown"
  }

  /** Distinct difficulty levels are displayed differently, and no level is
      displayed as the fallback. */
  lemma DifficultyDisplayInjective(a: int, b: int)
    requires IsDifficulty(a) && IsDifficulty(b) && a != b
    ensures DifficultyDisplay(a) != DifficultyDisplay(b)
    ensures DifficultyDisplay(a) != "Unknown"
  {
  }

  /** `prep_time_display` and `total_time_display`: the number of minutes
      followed by " min". */
  function MinutesDisplay(minutes: nat): string
  {
    NatToString(minutes) + " min"
  }

  /** The displayed text ends in " min" and what precedes it reads back as the
      number of minutes. */
  lemma MinutesDisplayReadsBack(minutes: nat)
    requires WithinDigitLimit(minutes)
    ensures var s := MinutesDisplay(minutes);
            |s| > 4 && s[|s| - 4..] == " min" && ParseInt(s[..|s| - 4]) == Some(minutes)
  {
    var s := MinutesDisplay(minutes);
    assert s[..|s| - 4] == NatToString(minutes) == IntToString(minutes);
    IntRoundTrip(minutes);
  }

  // ---------------------------------------------------------------------------
  // Upload paths
  // ---------------------------------------------------------------------------

  /** The title with every non-alphanumeric character replaced by '_'. */
  function SafeTitle(title: string): (safe: string)
    ensures |safe| == |title|
    ensures forall i :: 0 <= i < |title| ==> (IsAlnum(title[i]) ==> safe[i] == title[i])
    ensures forall i :: 0 <= i < |title| ==> (!IsAlnum(title[i]) ==> safe[i] == '_')
  {
    if title == [] then []
    else [if IsAlnum(title[0]) then title[0] else '_'] + SafeTitle(title[1..])
  }

  /** A sanitised title holds only alphanumerics and '_', so sanitising it
      again changes nothing and it never contains a path separator. */
  lemma SafeTitleIsSafe(title: string)
    ensures forall i :: 0 <= i < |SafeTitle(title)| ==> IsAlnum(SafeTitle(title)[i]) || SafeTitle(title)[i] == '_'
    ensures '/' !in SafeTitle(title)
    ensures SafeTitle(SafeTitle(title)) == SafeTitle(title)
  {
    var s := SafeTitle(title);
    var t := SafeTitle(s);
    assert forall i :: 0 <= i < |s| ==> t[i] == s[i];
  }

  /** `recipe_image_upload_to`: "<author id>/recipe/<safe title>/<filename>". */
  function RecipeImageUploadTo(authorId: UserId, title: string, filename: string): string
  {
    NatToString(authorId) + "/recipe/" + SafeTitle(title) + "/" + filename
  }

  /** `user_profile_upload_to`: "<user id>/profile/<filename>". */
  function UserProfileUploadTo(userId: UserId, filename: string): string
  {
    NatToString(userId) + "/profile/" + filename
  }

  /** The recipe image path is the '/'-join of its four components. */
  lemma RecipeImagePathIsJoin(authorId: UserId, title: string, filename: string)
    ensures JoinWith([NatToString(authorId), "recipe", SafeTitle(title), filename], '/')
            == RecipeImageUploadTo(authorId, title, filename)
  {
    var a, t := NatToString(authorId), SafeTitle(title);
    var parts := [a, "recipe", t, filename];
    assert parts[1..] == ["recipe", t, filename];
    assert parts[1..][1..] == [t, filename];
    assert parts[1..][1..][1..] == [filename];
    assert JoinWith([t, filename], '/') == t + ['/'] + filename;
    assert JoinWith(parts[1..], '/') == "recipe" + ['/'] + (t + ['/'] + filename);
    assert JoinWith(parts, '/') == a + ['/'] + ("recipe" + ['/'] + (t + ['/'] + filename));
    assert "/" == ['/'];
    assert a + "/" + ("recipe" + "/" + (t + "/" + filename)) == a + "/recipe/" + t + "/" + filename;
  }

  /** For a plain file name the recipe image path has exactly four components,
      and the first reads back as the author's id. */
  lemma RecipeImagePathComponents(authorId: UserId, title: string, filename: string)
    requires '/' !in filename && WithinDigitLimit(authorId)
    ensures SplitOn(RecipeImageUploadTo(authorId, title, filename), '/')
            == [NatToString(authorId), "recipe", SafeTitle(title), filename]
    ensures ParseInt(SplitOn(RecipeImageUploadTo(authorId, title, filename), '/')[0]) == Some(authorId)
  {
    var parts := [NatToString(authorId), "recipe", SafeTitle(title), filename];
    SafeTitleIsSafe(title);
    assert '/' !in NatToString(authorId) by {
      assert AllDigits(NatToString(authorId));
    }
    assert forall i :: 0 <= i < |parts| ==> '/' !in parts[i];
    RecipeImagePathIsJoin(authorId, title, filename);
    SplitJoin(parts, '/');
    IntRoundTrip(authorId);
  }

  /** For a plain file name the profile picture path has exactly three
      components, and the first reads back as the user's id. */
  lemma ProfilePathComponents(userId: UserId, filename: string)
    requires '/' !in filename && WithinDigitLimit(userId)
    ensures SplitOn(UserProfileUploadTo(userId, filename), '/') == [NatToString(userId), "profile", filename]
    ensures ParseInt(SplitOn(UserProfileUploadTo(userId, filename), '/')[0]) == Some(userId)
  {
    var parts := [NatToString(userId), "profile", filename];
    assert '/' !in NatToString(userId) by {
      assert AllDigits(NatToString(userId));
    }
    assert JoinWith(parts, '/') == UserProfileUploadTo(userId, filename) by {
      assert parts[1..] == ["profile", filename];
      assert parts[1..][1..] == [filename];
      assert JoinWith(parts[1..], '/') == "profile" + ['/'] + filename;
      assert "/" == ['/'];
      assert "/" + ("profile" + "/" + filename) == "/profile/" + filename;
    }
    SplitJoin(parts, '/');
    IntRoundTrip(userId);
  }

  // ---------------------------------------------------------------------------
  // Positional image getters. The related images come newest first (the
  // RecipeImage default ordering); "oldest first" is that list reversed.
  // ---------------------------------------------------------------------------

  /** An image URL: an uploaded image, or the default recipe image. */
  datatype ImageUrl = Uploaded(name: string) | DefaultImage

  function Reverse<T>(s: seq<T>): (r: seq<T>)
    ensures |r| == |s|
    ensures forall i :: 0 <= i < |s| ==> r[i] == s[|s| - 1 - i]
  {
    if s == [] then [] else Reverse(s[1..]) + [s[0]]
  }

  /** `get_first_image_url`: the last image of the newest-first list, that is
      the oldest one, when it has a file. */
  function FirstImageUrl(newestFirst: seq<string>): (u: ImageUrl)
    ensures u.Uploaded? <==> |newestFirst| > 0 && Reverse(newestFirst)[0] != ""
    ensures u.Uploaded? ==> u.name == Reverse(newestFirst)[0]
  {
    if |newestFirst| > 0 && newestFirst[|newestFirst| - 1] != "" then
      Uploaded(newestFirst[|newestFirst| - 1])
    else
      DefaultImage
  }

  /** `get_second_image_url`: position 1 of the oldest-first list, when there
      are at least two images and that one has a file. */
  function SecondImageUrl(newestFirst: seq<string>): (u: ImageUrl)
    ensures u.Uploaded? <==> |newestFirst| > 1 && newestFirst[|newestFirst| - 2] != ""
    ensures u.Uploaded? ==> u.name == newestFirst[|newestFirst| - 2]
  {
    var oldestFirst := Reverse(newestFirst);
    if |oldestFirst| > 1 && oldestFirst[1] != "" then Uploaded(oldestFirst[1]) else DefaultImage
  }

  /** `get_remaining_image` as written: the newest-first list without its
      first two entries, or None when that is empty. */
  function RemainingImagesAsWritten(newestFirst: seq<string>): (rest: Option<seq<string>>)
    ensures rest.Some? <==> |newestFirst| > 2
    ensures rest.Some? ==> rest.value == newestFirst[2..]
  {
    if |newestFirst| > 2 then Some(newestFirst[2..]) else None
  }

  /** As written, with three images the oldest is shown twice (first and
      remaining) and the newest is never shown. */
  lemma RemainingImagesAsWrittenSkipsNewest()
    ensures var imgs := ["c.jpg", "b.jpg", "a.jpg"];
            FirstImageUrl(imgs) == Uploaded("a.jpg")
            && SecondImageUrl(imgs) == Uploaded("b.jpg")
            && RemainingImagesAsWritten(imgs) == Some(["a.jpg"])
  {
    var imgs := ["c.jpg", "b.jpg", "a.jpg"];
    assert imgs[2..] == ["a.jpg"];
  }

  /** As written, the two newest of four or more distinct images are shown by
      none of the three getters. */
  lemma RemainingImagesAsWrittenHidesNewest(newestFirst: seq<string>, k: nat)
    requires |newestFirst| >= 4 && k < 2
    requires forall i, j :: 0 <= i < j < |newestFirst| ==> newestFirst[i] != newestFirst[j]
    ensures FirstImageUrl(newestFirst) != Uploaded(newestFirst[k])
    ensures SecondImageUrl(newestFirst) != Uploaded(newestFirst[k])
    ensures newestFirst[k] !in RemainingImagesAsWritten(newestFirst).value
  {
    var n := |newestFirst|;
    assert newestFirst[k] != newestFirst[n - 1] && newestFirst[k] != newestFirst[n - 2];
    assert forall j :: 0 <= j < n - 2 ==> newestFirst[2..][j] == newestFirst[j + 2] != newestFirst[k];
  }

  /** The remaining images in the oldest-first order the other two getters use:
      everything after the first two, or None when nothing is left. */
  function RemainingImages(newestFirst: seq<string>): (rest: Option<seq<string>>)
    ensures rest.Some? <==> |newestFirst| > 2
  {
    var oldestFirst := Reverse(newestFirst);
    if |oldestFirst| > 2 then Some(oldestFirst[2..]) else None
  }

  /** With the corrected getter, first, second and remaining show every image
      exactly once, oldest first, when every image has a file. */
  lemma ImageGettersPartition(newestFirst: seq<string>)
    requires |newestFirst| > 2
    requires forall i :: 0 <= i < |newestFirst| ==> newestFirst[i] != ""
    ensures [FirstImageUrl(newestFirst).name, SecondImageUrl(newestFirst).name]
            + RemainingImages(newestFirst).value == Reverse(newestFirst)
  {
    var o := Reverse(newestFirst);
    assert o == [o[0], o[1]] + o[2..];
  }
}
