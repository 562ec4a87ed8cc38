# Tastora recipe core in Dafny

Tastora is a Django application for sharing recipes. This project models the
parts of it that carry logic of their own, over an in-memory database, and
proves what that logic promises:

- `recipe/domains.py`: the two transactional operations that write a recipe
  together with its nutrition row, images and ingredient rows. They are
  methods over a `Store.Database` class holding the Recipe, Nutrition,
  RecipeImage, Ingredient and RecipeLike tables. A refused write rolls every
  table back to its state before the call.
- `recipe_management/views.py`, `CreateRecipeView.post`: the positional
  ingredient-row parser (`zip_longest` over four posted lists, strip and
  lower-case of names, `Decimal`/`int` parsing with defaults, skipping of
  unparsable rows) and the single transaction around the inserts.
- `recipe_management/signals.py`: the `likes` counter kept in step with
  RecipeLike rows (increment on a new like, decrement floored at 0).
- `recipe/models.py`: the time rule of `Recipe.clean`, the field bounds and
  choices, `difficulty_display`, the "N min" displays, the upload-path
  builders and the first/second/remaining image getters.
- `recipe/forms.py` and `recipe_management/forms.py`: the duplicate-title
  check per author and the prep/total time check.
- `recipe/views.py`: the instruction splitter, the `form-TOTAL_FORMS` index
  parse, the formset-entry filters, `forms_are_valid` and the homepage
  "popular" list.

Files: `wrappers.dfy` (Option, Result, Outcome), `text.dfy` (ASCII models of
`str.strip`, `str.lower`, `str.split`, `str.join`, `str.replace`, `int()`,
`str()` and `Decimal()`), `models.dfy`, `recipe_forms.dfy`,
`management_forms.dfy`, `recipe_views.dfy`, `store.dfy` (the tables and the
`Database` class with one method per ORM write), `domains.dfy`,
`signals.dfy` and `management_views.dfy`.

Django behaviour the model relies on: `objects.create` and `save` run no
field validators; a NOT NULL column given None (`prep_time`, `total_time`,
the six nutrition columns, an ingredient's `name` and `unit`; the domain
functions pass `name` and `unit` explicitly, so `unit`'s default does not
apply) refuses None, and the surrounding `transaction.atomic` block is
rolled back; a `ModelForm` runs the model's `clean` during validation.

Where the prose description of the system and the code differ, the model
follows the code. `update_recipe_with_details` replaces the whole ingredient
set (delete, then `bulk_create`); it does not merge it by identity. The
domain functions store ingredient names as given; only the management view
lower-cases them.

## Model

| member | source | states |
|---|---|---|
| Models.Clean | recipe/models.py:101-104 | the time rule fails, with its message, iff both times are present and the total is below the prep time; so equal times pass |
| Models.ValidRecipeTimes | recipe/models.py:44-50 | a recipe that passes the field validators and `clean` has prep time ≤ total time ≤ 300 |
| Models.DifficultyDisplay | recipe/models.py:78-79 | levels 0, 1 and 2 show "Easy", "Medium" and "Hard"; every other value shows "Unknown" |
| Models.DifficultyDisplayInjective | recipe/models.py:34-37 | distinct difficulty levels get distinct labels, never "Unknown" |
| Models.MinutesDisplayReadsBack | recipe/models.py:81-85 | the display ends in " min" and the text before it reads back as the number of minutes, for any number whose digits `str()` converts |
| Models.SafeTitle | recipe/models.py:164 | the sanitised title has the title's length, keeps alphanumeric characters and puts `_` in place of every other character |
| Models.SafeTitleIsSafe | recipe/models.py:164 | a sanitised title holds only alphanumerics and `_`, no `/`, and sanitising again changes nothing |
| Models.RecipeImagePathIsJoin | recipe/models.py:163-165 | the upload path is the `/`-join of author id, "recipe", sanitised title and file name |
| Models.RecipeImagePathComponents | recipe/models.py:163-165 | splitting the upload path on `/` gives back its four components, and the first parses back to the author id (within `int()`'s digit limit) |
| Models.ProfilePathComponents | recipe/models.py:9-10 | the profile path splits into user id, "profile" and file name, and the first parses back to the user id (within `int()`'s digit limit) |
| Models.FirstImageUrl | recipe/models.py:57-61 | with newest-first images, the first image is the oldest one when it has a name; otherwise the default image |
| Models.SecondImageUrl | recipe/models.py:64-69 | the second image is the second-oldest one when there are at least two and it has a name; otherwise the default image |
| Models.RemainingImagesAsWritten | recipe/models.py:71-73 | the remaining images are the newest-first list without its first two, and None when that is empty |
| Models.RemainingImagesAsWrittenSkipsNewest | recipe/models.py:57-73 | with three images, the getters show the oldest image twice and never show the newest |
| Models.RemainingImagesAsWrittenHidesNewest | recipe/models.py:57-73 | with four or more distinct images, neither of the two newest is shown by any getter |
| Models.RemainingImages | recipe/models.py:71-73 | corrected getter: the images not shown as first or second, or None when there are none |
| Models.ImageGettersPartition | recipe/models.py:57-73 | with the corrected getter, first, second and remaining together show every image exactly once |
| RecipeForms.CleanTitle | recipe/forms.py:17-21 | the title is rejected iff a user is set and that user already has a recipe with this title; otherwise it is returned unchanged |
| RecipeForms.CleanTitleScopedToAuthor | recipe/forms.py:19 | another author's recipe with the same title never causes a rejection |
| RecipeForms.EditUnchangedTitleRejected | recipe/forms.py:19 | as written, the edit form rejects resubmitting a recipe's own unchanged title |
| RecipeForms.CleanTitleForInstance | recipe/forms.py:17-21 | corrected check: a title is rejected iff a user is set and another recipe of that user, not the bound instance, has it |
| RecipeForms.CleanTitleForInstanceOnCreate | recipe/forms.py:17-21 | without a bound instance the corrected check is the check as written |
| RecipeForms.CleanTitleForInstanceOnEdit | recipe/forms.py:17-21 | on edit, the recipe's own title is accepted, and a title used by another of the author's recipes is still rejected |
| RecipeForms.CleanTimes | recipe/forms.py:23-34 | the form fails only when both times are present, and passing means prep time ≤ total time |
| RecipeForms.CleanTimesAgreesWithModel | recipe/forms.py:30-32 | the form's time check decides exactly as `Recipe.clean`, and equal times pass |
| RecipeForms.ValidFormKeepsInvariants | recipe/forms.py:5-34 | a valid create form describes a recipe with consistent, bounded times and a (title, author) pair not yet taken |
| ManagementForms.CleanTitle | recipe_management/forms.py:17-21 | without a user no duplicate check is made; with one, rejection iff the user already has the title; accepted titles are unchanged |
| ManagementForms.CleanTitleSameAsRecipeForm | recipe_management/forms.py:17-21 | this form's title check decides exactly as recipe/forms.py's |
| ManagementForms.SameValidityAsRecipeForm | recipe_management/forms.py:5-21 | without a time check of its own, this form still accepts exactly what the recipe form accepts on create, because the model's `clean` runs |
| RecipeViews.NonEmptyStrippedSteps | recipe/views.py:111 | from dot-free pieces, every kept step is non-empty, dot-free and already stripped |
| RecipeViews.InstructionsWellFormed | recipe/views.py:111 | no instruction step is empty, contains "." or has surrounding whitespace |
| RecipeViews.InstructionsSingleStep | recipe/views.py:111 | text without a "." is one step, its stripped self, or none when blank |
| RecipeViews.InstructionsExample | recipe/tests.py:182-187 | "Step 1. Step 2. Step 3." gives the steps "Step 1", "Step 2" and "Step 3" |
| RecipeViews.FormIndex | recipe/views.py:92-96 | a missing parameter gives 0, a non-integer gives 0, an integer gives its value |
| RecipeViews.FormIndexRoundTrip | recipe/views.py:92-99 | the index of any integer's decimal string within the digit limit is that integer, the prefix becomes "form-" followed by it, and the new total reads back as one more |
| RecipeViews.FormIndexDigitLimit | recipe/views.py:93-96 | a parameter of more than 4300 digits makes `int()` raise ValueError, so the index falls back to 0 |
| RecipeViews.KeptForCreateDistributes | recipe/views.py:54 | the create filter treats each entry on its own: filtering a concatenation concatenates the filtered parts |
| RecipeViews.KeptForEditDistributes | recipe/views.py:172-176 | the edit filter treats each entry on its own in the same way |
| RecipeViews.KeptMembership | recipe/views.py:172-176 | a value is kept on create iff some entry has it as cleaned data, and on edit iff such an entry is also not marked DELETE |
| RecipeViews.KeptAgreeWithoutDeletion | recipe/views.py:172-176 | without DELETE marks the edit filter keeps what the create filter keeps |
| RecipeViews.AllValidIffEvery | recipe/views.py:35-37 | `forms_are_valid` holds iff every form is valid |
| RecipeViews.EditFormsAreValidIffEvery | recipe/views.py:182-184 | the edit view's check holds iff every entry that is a form is valid |
| RecipeViews.SortByLikes | recipe/views.py:27 | the ordering by likes is non-increasing and a permutation of the recipes |
| RecipeViews.PopularRecipesShape | recipe/views.py:19-27 | the popular list has min(5, number of recipes) entries, in non-increasing likes, all drawn from the recipes |
| RecipeViews.PopularRecipesAreTop | recipe/views.py:27 | every recipe left out of the popular list has at most as many likes as each one in it |
| Text.IntRoundTrip | recipe/views.py:94-97 | `int(str(i)) == i` for every integer of at most 4300 digits |
| Text.ParseIntDigitLimit | recipe/views.py:94 | `int()` refuses a digit string longer than Python's default 4300-digit limit, whatever its value |
| Text.Int64WithinDigitLimit | recipe/models.py:9-10 | every value a 64-bit integer column holds converts within the digit limit, so the limit never affects a stored id |
| Text.StripIdempotent | recipe/views.py:111 | stripping twice is stripping once |
| Text.StripEmptyIffBlank | recipe_management/views.py:32 | a stripped string is empty exactly when the string is whitespace only |
| Text.IntStringIsDecimal | recipe_management/views.py:74-75 | every string `int()` accepts, `Decimal()` accepts with the same value |
| Text.FractionalDecimal | recipe_management/views.py:74 | digits, a point and digits read as `Decimal` with all the digits as units, scaled by the digits after the point |
| Text.FractionalDecimalExample | recipe_management/views.py:74 | `Decimal("1.25")` is 125 hundredths |
| Domains.NewRecipe | recipe/domains.py:7 | the insert fails iff a time is missing; otherwise the row is authored by the user, with no likes and not featured |
| Domains.NewRecipeIsDefaultsUpdated | recipe/domains.py:7 | the inserted row is the row of column defaults with the submitted keys applied |
| Domains.ApplyRecipeDataOverwritesPresentKeys | recipe/domains.py:32-34 | the update sets every submitted column to its value, keeps every other column, and sets the author to the acting user |
| Domains.ApplyRecipeDataLaws | recipe/domains.py:32-34 | an empty patch only sets the author; applying a patch twice is applying it once; two patches compose into their merge |
| Domains.NewNutrition | recipe/domains.py:8 | the Nutrition insert succeeds iff all six values are present, and stores them |
| Domains.ApplyNutritionDataSpec | recipe/domains.py:38-40 | present nutrition keys overwrite, absent ones keep their value; a complete patch gives the inserted row; the patch is idempotent |
| Domains.NutritionForUpdateAsWritten | recipe/domains.py:37-40 | as written, the update's nutrition step succeeds iff the recipe already has a Nutrition row |
| Domains.NutritionForUpdateAsWrittenRefusesMissingRow | recipe/domains.py:37 | as written, a recipe without a Nutrition row cannot be updated even with all six values submitted |
| Domains.NutritionForUpdateSpec | recipe/domains.py:37-40 | corrected fetch-or-create: equal to the code for an existing row; for a missing row it succeeds iff the data is complete, and inserts it |
| Domains.ImageRows | recipe/domains.py:10-12 | one image row is added iff an image is given, non-empty and not the default image's name |
| Domains.StoredQuantity | recipe/domains.py:18 | a missing or zero quantity is stored as 0; any other quantity as given |
| Domains.FirstEntryErrorAt | recipe/domains.py:14-21 | the create fails on the first entry with a missing name or unit, after the entries before it were stored |
| Domains.IngredientRowsStoreSubmitted | recipe/domains.py:14-21 | each entry yields one row, in order, with name and unit as given, quantity defaulted and optional false only when absent |
| Domains.ReplaceIngredientsSpec | recipe/domains.py:46-56 | after an update the recipe's rows are exactly the new rows, storing the submitted contents; other recipes' rows are unchanged |
| Domains.ReplaceIngredientsKeepsNoOldRow | recipe/domains.py:46-56 | no row of the recipe from before the update survives it |
| Domains.ReplaceIngredientsTwice | recipe/domains.py:46-56 | updating twice with the same entries gives the same contents as once, without duplicates |
| Domains.InsertKeepsUniqueTitles | recipe/models.py:95 | inserting a recipe whose (title, author) is untaken keeps the pairs unique |
| Domains.OverwriteKeepsUniqueTitles | recipe/models.py:95 | saving a recipe whose (title, author) no other recipe has keeps the pairs unique |
| Domains.CreateError | recipe/domains.py:5-21 | a create is refused iff a time is missing, the user already has the title, a nutrition value is missing or an entry lacks a name or unit |
| Domains.CreatedTablesConsistent | recipe/domains.py:5-21 | a successful create keeps every key, foreign key and the (title, author) uniqueness consistent |
| Domains.InsertIngredients | recipe/domains.py:14-21 | the loop stores one row per entry in order under consecutive keys, or reports the first entry that cannot be stored |
| Domains.CreateRecipeWithDetails | recipe/domains.py:5-21 | fails iff `CreateError` says so, leaving every table unchanged; otherwise adds the user's recipe, one Nutrition row, the image row when stored and the ingredient rows |
| Domains.UpdateError | recipe/domains.py:23-56 | an update is refused iff the saved row would repeat the author's title, a new Nutrition row is incomplete, or an entry lacks a name or unit |
| Domains.UpdatedTablesConsistent | recipe/domains.py:23-56 | a successful update keeps the tables consistent |
| Domains.UpdateRecipeWithDetails | recipe/domains.py:23-56 | fails iff `UpdateError` says so, leaving every table unchanged; otherwise patches the recipe and its Nutrition row (created from the data when missing, as corrected under Findings), only adds images and replaces the recipe's ingredient rows |
| Signals.AfterLikeSaved | recipe_management/signals.py:6-12 | a newly created like adds exactly one; re-saving an existing like changes nothing |
| Signals.AfterLikeDeleted | recipe_management/signals.py:13-23 | a deleted like takes one away while the count is positive; a count of 0 stays 0 |
| Signals.ReplayAppend | recipe_management/signals.py:6-23 | replaying two runs of like events is replaying the second from the count the first leaves |
| Signals.ReplayCreates | recipe_management/signals.py:9-12 | n new likes add n |
| Signals.ReplayResaves | recipe_management/signals.py:9 | re-saving existing likes never changes the count |
| Signals.ReplayDeletes | recipe_management/signals.py:18-23 | n deletions take n away, stopping at 0, so the count is never negative |
| Signals.CreatesThenDeletes | recipe_management/signals.py:6-23 | from any count, and so from 0, n new likes followed by n deletions give the count back |
| Signals.WithCounter | recipe_management/signals.py:12 | setting one recipe's counter leaves every other recipe, and every other column, as it was |
| Signals.WithCounterKeepsConsistent | recipe_management/signals.py:12 | changing only a counter keeps the tables consistent |
| Signals.OnLikeSaved | recipe_management/signals.py:6-12 | only the liked recipe's counter changes, as `AfterLikeSaved` says; a missing recipe changes nothing |
| Signals.OnLikeDeleted | recipe_management/signals.py:13-23 | only the liked recipe's counter changes, as `AfterLikeDeleted` says; a missing recipe changes nothing |
| Signals.LikeSavedKeepsCount | recipe/models.py:112 | with likes unique per (user, recipe), saving a like keeps every counter equal to its number of likes |
| Signals.LikeDeletedKeepsCount | recipe/models.py:112 | deleting a like keeps every counter equal to its number of likes, so the floor at 0 is never reached |
| Signals.LikeThenUnlike | recipe_management/signals.py:6-23 | a new like followed by its deletion leaves every recipe, counter included, and every recipe's likers as they were, also for a recipe never liked before; the tables are identical when the recipe had a likers entry |
| Signals.SaveLike | recipe_management/signals.py:6-12 | the row is created iff the user did not like the recipe yet, and the post_save handler follows |
| Signals.DeleteLike | recipe_management/signals.py:13-23 | the row is deleted iff it exists, and only then the post_delete handler runs |
| ManagementViews.ZipLongestColumns | recipe_management/views.py:64-66 | unzipping the rows gives back each posted list followed by `''` padding up to the longest list |
| ManagementViews.ParseRow | recipe_management/views.py:67-80 | a row is skipped silently iff its name is blank, and an invalid row reports its stripped name |
| ManagementViews.ParsedNameIsClean | recipe_management/views.py:67-73 | a stored name is the stripped, lower-cased posted name: non-empty, without surrounding whitespace or upper-case letters |
| ManagementViews.ParseRowDefaults | recipe_management/views.py:74-76 | an empty quantity and an empty unit are 0, the unit being grams, the field's default choice; optional is true iff the posted string is exactly "True" |
| ManagementViews.QuantityStringRoundTrip | recipe_management/views.py:74 | an integer quantity posted as its decimal string reads back as that integer with no fractional digits |
| ManagementViews.UnitStringRoundTrip | recipe_management/views.py:75 | a unit posted as its decimal string reads back as that integer, within the digit limit |
| ManagementViews.ParseRowRoundTrip | recipe_management/views.py:71-77 | a clean name with the decimal strings of a quantity and unit (within the digit limit) parses back to exactly those values |
| ManagementViews.UnitChoicesNotChecked | recipe_management/views.py:75 | the unit is not checked against the field's choices: any integer is stored, a value outside the six units included |
| ManagementViews.OverlongUnitInvalidates | recipe_management/views.py:75-80 | a unit of more than 4300 digits makes `int()` raise ValueError, so the row is skipped with a warning |
| ManagementViews.UnparsableFieldInvalidates | recipe_management/views.py:70-80 | a quantity or unit that does not parse makes the row invalid whatever else it holds |
| ManagementViews.AcceptedAppend | recipe_management/views.py:64-80 | a skipped row does not stop the loop: the rows after it are stored and reported as if it were absent |
| ManagementViews.AcceptedSingle | recipe_management/views.py:67-80 | one row is stored iff it parses and reported iff it is invalid |
| ManagementViews.AcceptedMembership | recipe_management/views.py:70-77 | exactly the rows that parse are stored |
| ManagementViews.NoParsedRowStoresNothing | recipe_management/views.py:70-80 | when no row parses the recipe is still created, with no ingredient |
| ManagementViews.EveryNonBlankRowAccounted | recipe_management/views.py:64-80 | every row with a non-blank name is either stored or reported |
| ManagementViews.SubmittedTablesConsistent | recipe_management/views.py:41-57 | a valid recipe form rules out a duplicate (title, author), so the IntegrityError handler is not reached, and the new tables are consistent |
| ManagementViews.StoreOutcomes | recipe_management/views.py:64-80 | the loop inserts the accepted rows in order under consecutive keys and reports the invalid ones |
| ManagementViews.StoreRows | recipe_management/views.py:64-80 | the loop over the zipped rows stores exactly the accepted rows and reports exactly the skipped names |
| ManagementViews.CreateRecipeSubmission | recipe_management/views.py:26-98 | no write without a non-blank name or with an invalid form; otherwise one recipe by the user, one nutrition row, one image row (upload or default) and the accepted ingredient rows |

## Left out

- The ORM, `transaction.atomic` and the database engine are modelled only as the in-memory tables and an explicit rollback to a snapshot. Concurrent requests are not modelled.
- Of the schema's constraints, the model keeps NOT NULL columns, foreign keys, one-to-one Nutrition and the (title, author) and (user, recipe) uniqueness. `max_length`, `max_digits=10` and `decimal_places=2` are not enforced; quantities are exact decimals.
- Image files, upload handling, storage name collisions, `.url`, `MEDIA_URL` joining and image validation are not modelled. An image is its stored name; `default_recipe_image_url` is the `DefaultImage` value.
- Messages, template rendering, redirects, `get_object_or_404`, login decorators and `get`/`post` plumbing are not modelled. `CreateRecipeSubmission` returns the skipped names instead of emitting warnings.
- Field-level form cleaning is not modelled. The forms' cleaned values arrive as parameters, and `None` stands for a form whose field cleaning failed.
- Python's full `Decimal` grammar (exponents, NaN, Infinity, underscores), Unicode `isalnum`, `strip` and `lower`, and digit-group underscores in `int()` are not modelled. Character handling is ASCII.
- `ManagementViews.ParseUnit`, `ManagementViews.StoreRows`, `ManagementViews.CreateRecipeSubmission`: the unit column's integer range is not modelled. A unit that `int()` reads but the column cannot hold (beyond 64 bits on SQLite, beyond 32 bits on PostgreSQL) makes the insert raise an error the view does not catch, so the request fails and the transaction discards the recipe; the model stores the row and reports the recipe as created.
- `RecipeViews.FormIndex`: the index is not bounded by any integer width; `str()` of a new total one digit past the 4300-digit limit, which would raise while the page is rendered, is not modelled.
- `Models.MinutesDisplay`, `Models.RecipeImageUploadTo`, `Models.UserProfileUploadTo`: `str()` raising for numbers of more than 4300 digits is not modelled; `Int64WithinDigitLimit` shows no value a database integer column holds comes near it.
- `Domains.StoreError`: when a write would break several constraints, the model names the first in write order; which error a real database reports is not modelled.
- `Domains.NewRecipe`: a recipe key present with the value None is modelled as absent. Django would pass None and the insert would fail the same way for the two time columns.
- `ManagementViews.StoreRows`: every row is parsed before the inserts rather than interleaved with them. Parsing writes nothing, so the rows stored and the names reported are the same.
- `ManagementViews.CreateRecipeSubmission`: the `except IntegrityError` branch is not a separate outcome. `SubmittedTablesConsistent` shows that a valid form leaves no constraint for the inserts to break in a sequential run.
- `latest_recipes` on the homepage (creation order), `total_likes`, `is_liked_by_user` and `get_profile_picture_url` are not modelled. They are ORM reads with nothing to state beyond the read.
- accounts/, recipe/filters.py, the `urls.py` files, recipe/admin.py, recipe_management/apps.py, recipe/factories.py and recipe/mixins.py are not part of this model: they are authentication lookups, declarative configuration or randomised test data.

## Findings

| source | as written | input that shows it | evidently intended | confidence | as-written member | corrected member |
|---|---|---|---|---|---|---|
| recipe/forms.py:19 | `clean_title` looks for any recipe of the user with the title, including the recipe the edit form is bound to | editing a recipe and resubmitting its unchanged title | exclude the bound instance, so an unchanged title is accepted on edit | not executed | RecipeForms.EditUnchangedTitleRejected | RecipeForms.CleanTitleForInstanceOnEdit |
| recipe/domains.py:37 | `Nutrition.objects.get_or_create(recipe=recipe)` without defaults inserts a row with NULL in six NOT NULL columns | updating a recipe that has no Nutrition row, with all six values submitted | create the missing row from the submitted values | not executed | Domains.NutritionForUpdateAsWrittenRefusesMissingRow | Domains.NutritionForUpdateSpec |
| recipe/models.py:72 | `get_remaining_image` skips the first two of the newest-first list, while the first and second getters show the two oldest | a recipe with three images: the oldest is shown twice and the newest never | skip the two oldest, so every image is shown once | not executed | Models.RemainingImagesAsWrittenSkipsNewest | Models.ImageGettersPartition |
