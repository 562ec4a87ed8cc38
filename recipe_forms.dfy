/**
 * recipe/forms.py: the RecipeForm validation hooks `clean_title` and `clean`,
 * over the existing recipes.
 */
module RecipeForms {
  import opened Wrappers
  import opened Models

  const DUPLICATE_TITLE_ERROR: string := "You already have a recipe with this title."

  /** The cleaned values of the RecipeForm's fields. */
  datatype RecipeInput = RecipeInput(
    title: string,
    category: nat,
    difficulty: nat,
    cuisine: string,
    servings: nat,
    prepTime: nat,
    totalTime: nat,
    instructions: string)

  /** `RecipeForm.clean_title` as written: with a user set, a title the user
      already has is rejected; otherwise the title is returned unchanged. */
  function CleanTitle(recipes: map<RecipeId, Recipe>, user: Option<UserId>, title: string): (r: Result<string, string>)
    ensures r.Failure? <==> user.Some? && TitleTaken(recipes, title, user.value)
    ensures r.Success? ==> r.value == title
    ensures r.Failure? ==> r.error == DUPLICATE_TITLE_ERROR
  {
    if user.Some? && TitleTaken(recipes, title, user.value) then Failure(DUPLICATE_TITLE_ERROR)
    else Success(title)
  }

  /** Recipes by other authors never affect the title check. */
  lemma CleanTitleScopedToAuthor(recipes: map<RecipeId, Recipe>, id: RecipeId, other: Recipe, user: UserId, title: string)
    requires other.author != user
    requires id in recipes ==> recipes[id].author != user
    ensures CleanTitle(recipes[id := other], Some(user), title) == CleanTitle(recipes, Some(user), title)
  {
    var updated := recipes[id := other];
    if TitleTaken(recipes, title, user) {
      var k :| k in recipes && recipes[k].title == title && recipes[k].author == user;
      assert k != id && updated[k] == recipes[k];
    }
    if TitleTaken(updated, title, user) {
      var k :| k in updated && updated[k].title == title && updated[k].author == user;
      assert k != id && recipes[k] == updated[k];
    }
  }

  /** As written, the check does not exclude the recipe being edited: when the
      edit view binds the form to a recipe of the acting user, resubmitting its
      unchanged title is rejected. */
  lemma EditUnchangedTitleRejected(recipes: map<RecipeId, Recipe>, id: RecipeId)
    requires id in recipes
    ensures CleanTitle(recipes, Some(recipes[id].author), recipes[id].title).Failure?
  {
  }

  /** The check with the bound instance excluded, as the edit view needs it:
      a title is a duplicate when another recipe of the user carries it. */
  function CleanTitleForInstance(recipes: map<RecipeId, Recipe>, user: Option<UserId>, title: string,
                                 instance: Option<RecipeId>): (r: Result<string, string>)
    ensures r.Failure? <==>
      user.Some? && TitleTaken(if instance.Some? then recipes - {instance.value} else recipes, title, user.value)
    ensures r.Success? ==> r.value == title
    ensures r.Failure? ==> r.error == DUPLICATE_TITLE_ERROR
  {
    var others := if instance.Some? then recipes - {instance.value} else recipes;
    CleanTitle(others, user, title)
  }

  /** Without a bound instance (the create views) the corrected check is the
      check as written. */
  lemma CleanTitleForInstanceOnCreate(recipes: map<RecipeId, Recipe>, user: Option<UserId>, title: string)
    ensures CleanTitleForInstance(recipes, user, title, None) == CleanTitle(recipes, user, title)
  {
  }

  /** With the instance excluded, an edit that keeps the title is accepted,
      while taking the title of another recipe of the same user is rejected. */
  lemma CleanTitleForInstanceOnEdit(recipes: map<RecipeId, Recipe>, id: RecipeId, other: RecipeId)
    requires UniqueTitles(recipes)
    requires id in recipes && other in recipes && other != id
    requires recipes[other].author == recipes[id].author
    ensures CleanTitleForInstance(recipes, Some(recipes[id].author), recipes[id].title, Some(id)).Success?
    ensures CleanTitleForInstance(recipes, Some(recipes[id].author), recipes[other].title, Some(id)).Failure?
  {
    var others := recipes - {id};
    var u := recipes[id].author;
    forall k | k in others && others[k].author == u
      ensures others[k].title != recipes[id].title
    {
      assert k != id;
    }
    assert other in others;
  }

  /** `RecipeForm.clean`: with both times present, a total below the
      preparation time is rejected. */
  function CleanTimes(prepTime: Option<nat>, totalTime: Option<nat>): (r: Outcome<string>)
    ensures r.Fail? <==> prepTime.Some? && totalTime.Some? && totalTime.value < prepTime.value
  {
    if prepTime.Some? && totalTime.Some? then
      if totalTime.value < prepTime.value then Fail(TIME_ERROR) else Pass
    else
      Pass
  }

  /** The form's own time check agrees with `Recipe.clean`, which a model
      form also runs; equal times are accepted. */
  lemma CleanTimesAgreesWithModel(prepTime: Option<nat>, totalTime: Option<nat>)
    ensures CleanTimes(prepTime, totalTime) == Clean(prepTime, totalTime)
    ensures prepTime.Some? && prepTime == totalTime ==> CleanTimes(prepTime, totalTime).Pass?
  {
  }

  /** The Recipe row the form's values describe, before it is saved. */
  function AsRecipe(input: RecipeInput, author: UserId): (r: Recipe)
    ensures r.title == input.title && r.author == author
    ensures r.prepTime == input.prepTime && r.totalTime == input.totalTime
  {
    Recipe(input.title, author, input.category, input.cuisine, input.difficulty, input.servings,
           input.prepTime, input.totalTime, input.instructions, false, 0)
  }

  /** Whether a bound RecipeForm is valid: the title check (with the bound
      instance excluded), the form's `clean`, and the model's full clean run by
      the model form (field validators, choices and `Recipe.clean`). */
  predicate IsValid(recipes: map<RecipeId, Recipe>, user: Option<UserId>, input: RecipeInput,
                    instance: Option<RecipeId>)
  {
    && CleanTitleForInstance(recipes, user, input.title, instance).Success?
    && CleanTimes(Some(input.prepTime), Some(input.totalTime)).Pass?
    && FieldsValid(AsRecipe(input, user.GetOr(0)))
    && Clean(Some(input.prepTime), Some(input.totalTime)).Pass?
  }

  /** A valid form describes a recipe that keeps the Recipe invariants: the
      times are consistent and bounded, and a creating user gets a fresh
      (title, author) pair. */
  lemma ValidFormKeepsInvariants(recipes: map<RecipeId, Recipe>, user: UserId, input: RecipeInput)
    requires IsValid(recipes, Some(user), input, None)
    ensures input.prepTime <= input.totalTime <= MAX_TOTAL_TIME
    ensures !TitleTaken(recipes, input.title, user)
    ensures FieldsValid(AsRecipe(input, user))
  {
  }
}
