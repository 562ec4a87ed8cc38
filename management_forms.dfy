/**
 * recipe_management/forms.py: the RecipeForm of the recipe-management create
 * view. It has the same `clean_title` as recipe/forms.py and no `clean` of its
 * own; the time invariant still applies through the model's `Recipe.clean`.
 */
module ManagementForms {
  import opened Wrappers
  import opened Models
  import RecipeForms

  /** `RecipeForm.clean_title`: with a user set, a title the user already has
      is rejected; otherwise the title is returned unchanged. */
  function CleanTitle(recipes: map<RecipeId, Recipe>, user: Option<UserId>, title: string): (r: Result<string, string>)
    ensures user.None? ==> r == Success(title)
    ensures user.Some? ==> (r.Failure? <==> TitleTaken(recipes, title, user.value))
    ensures r.Success? ==> r.value == title
  {
    if user.Some? && TitleTaken(recipes, title, user.value) then Failure(RecipeForms.DUPLICATE_TITLE_ERROR)
    else Success(title)
  }

  /** Both forms decide duplicate titles identically. */
  lemma CleanTitleSameAsRecipeForm(recipes: map<RecipeId, Recipe>, user: Option<UserId>, title: string)
    ensures CleanTitle(recipes, user, title) == RecipeForms.CleanTitle(recipes, user, title)
  {
  }

  /** Whether the bound form is valid: the title check and the model's full
      clean (field validators, choices and `Recipe.clean`). */
  predicate IsValid(recipes: map<RecipeId, Recipe>, user: Option<UserId>, input: RecipeForms.RecipeInput)
  {
    && CleanTitle(recipes, user, input.title).Success?
    && FieldsValid(RecipeForms.AsRecipe(input, user.GetOr(0)))
    && Clean(Some(input.prepTime), Some(input.totalTime)).Pass?
  }

  /** Lacking a time check of its own changes nothing: this form accepts
      exactly what the recipe app's form accepts when creating. */
  lemma SameValidityAsRecipeForm(recipes: map<RecipeId, Recipe>, user: Option<UserId>, input: RecipeForms.RecipeInput)
    ensures IsValid(recipes, user, input) <==> RecipeForms.IsValid(recipes, user, input, None)
  {
    RecipeForms.CleanTimesAgreesWithModel(Some(input.prepTime), Some(input.totalTime));
  }
}
