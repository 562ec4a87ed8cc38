/**
 * recipe/domains.py: creating a recipe with its nutrition, image and
 * ingredients, and updating all of them, each as one transaction over the
 * store. A failed insert rolls the whole transaction back.
 */
module Domains {
  import opened Wrappers
  import opened Text
  import opened Models
  import opened Store

  // ---------------------------------------------------------------------------
  // Submitted data: the keys of the forms' cleaned data, None when absent
  // ---------------------------------------------------------------------------

  datatype RecipeData = RecipeData(
    title: Option<string>,
    category: Option<nat>,
    difficulty: Option<nat>,
    cuisine: Option<string>,
    servings: Option<nat>,
    prepTime: Option<nat>,
    totalTime: Option<nat>,
    instructions: Option<string>)

  datatype NutritionData = NutritionData(
    calories: Option<nat>, protein: Option<nat>, fat: Option<nat>,
    sugar: Option<nat>, fiber: Option<nat>, carbohydrates: Option<nat>)

  datatype IngredientData = IngredientData(
    name: Option<string>, quantity: Option<Decimal>, unit: Option<int>, optional: Option<bool>)

  /** Why the database refused an insert or update (an IntegrityError). */
  datatype StoreError = DuplicateTitle | MissingValue(column: string)

  // ---------------------------------------------------------------------------
  // Recipe rows
  // ---------------------------------------------------------------------------

  /** The row `Recipe.objects.create(author=user, **data)` inserts: absent keys
      take the column default (text columns default to the empty string); the
      two time columns have no default and a NULL is refused. */
  function NewRecipe(user: UserId, d: RecipeData): (r: Result<Recipe, StoreError>)
    ensures r.Failure? <==> d.prepTime.None? || d.totalTime.None?
    ensures r.Success? ==> r.value.author == user && r.value.likes == 0 && !r.value.featured
  {
    if d.prepTime.None? then Failure(MissingValue("prep_time"))
    else if d.totalTime.None? then Failure(MissingValue("total_time"))
    else
      Success(Recipe(d.title.GetOr(""), user, d.category.GetOr(DEFAULT_CATEGORY), d.cuisine.GetOr(""),
                     d.difficulty.GetOr(DEFAULT_DIFFICULTY), d.servings.GetOr(DEFAULT_SERVINGS),
                     d.prepTime.value, d.totalTime.value, d.instructions.GetOr(""), false, 0))
  }

  /** The update's `setattr` loop over the submitted keys, then
      `recipe.author = user`: present keys overwrite, every other column keeps
      its value. */
  function ApplyRecipeData(r: Recipe, d: RecipeData, user: UserId): (s: Recipe)
    ensures s.author == user && s.likes == r.likes && s.featured == r.featured
  {
    r.(title := d.title.GetOr(r.title), category := d.category.GetOr(r.category),
       difficulty := d.difficulty.GetOr(r.difficulty), cuisine := d.cuisine.GetOr(r.cuisine),
       servings := d.servings.GetOr(r.servings), prepTime := d.prepTime.GetOr(r.prepTime),
       totalTime := d.totalTime.GetOr(r.totalTime), instructions := d.instructions.GetOr(r.instructions),
       author := user)
  }

  const NO_RECIPE_DATA: RecipeData := RecipeData(None, None, None, None, None, None, None, None)

  /** The keys of `later` win over those of `earlier`. */
  function MergeRecipeData(earlier: RecipeData, later: RecipeData): RecipeData
  {
    RecipeData(Or(later.title, earlier.title), Or(later.category, earlier.category),
               Or(later.difficulty, earlier.difficulty), Or(later.cuisine, earlier.cuisine),
               Or(later.servings, earlier.servings), Or(later.prepTime, earlier.prepTime),
               Or(later.totalTime, earlier.totalTime), Or(later.instructions, earlier.instructions))
  }

  function Or<T>(a: Option<T>, b: Option<T>): (r: Option<T>)
    ensures r.Some? <==> a.Some? || b.Some?
  {
    if a.Some? then a else b
  }

  /** Every column the data names takes the submitted value; every other column
      keeps its value, except the author, which becomes the acting user. */
  lemma ApplyRecipeDataOverwritesPresentKeys(r: Recipe, d: RecipeData, user: UserId)
    ensures var s := ApplyRecipeData(r, d, user);
      && (d.title.Some? ==> s.title == d.title.value) && (d.title.None? ==> s.title == r.title)
      && (d.category.Some? ==> s.category == d.category.value) && (d.category.None? ==> s.category == r.category)
      && (d.difficulty.Some? ==> s.difficulty == d.difficulty.value) && (d.difficulty.None? ==> s.difficulty == r.difficulty)
      && (d.cuisine.Some? ==> s.cuisine == d.cuisine.value) && (d.cuisine.None? ==> s.cuisine == r.cuisine)
      && (d.servings.Some? ==> s.servings == d.servings.value) && (d.servings.None? ==> s.servings == r.servings)
      && (d.prepTime.Some? ==> s.prepTime == d.prepTime.value) && (d.prepTime.None? ==> s.prepTime == r.prepTime)
      && (d.totalTime.Some? ==> s.totalTime == d.totalTime.value) && (d.totalTime.None? ==> s.totalTime == r.totalTime)
      && (d.instructions.Some? ==> s.instructions == d.instructions.value)
      && (d.instructions.None? ==> s.instructions == r.instructions)
  {
  }

  /** Updating with no keys changes only the author; updating twice with the
      same keys is updating once; two updates in a row are one update with the
      merged keys. */
  lemma ApplyRecipeDataLaws(r: Recipe, d: RecipeData, d2: RecipeData, user: UserId)
    ensures ApplyRecipeData(r, NO_RECIPE_DATA, user) == r.(author := user)
    ensures ApplyRecipeData(ApplyRecipeData(r, d, user), d, user) == ApplyRecipeData(r, d, user)
    ensures ApplyRecipeData(ApplyRecipeData(r, d, user), d2, user) == ApplyRecipeData(r, MergeRecipeData(d, d2), user)
  {
  }

  /** Creating is updating a row of defaults: with both times given, the new
      row is the defaults overwritten by the submitted keys. */
  lemma NewRecipeIsDefaultsUpdated(user: UserId, d: RecipeData)
    requires d.prepTime.Some? && d.totalTime.Some?
    ensures NewRecipe(user, d).Success?
    ensures var defaults := Recipe("", user, DEFAULT_CATEGORY, "", DEFAULT_DIFFICULTY, DEFAULT_SERVINGS,
                                   d.prepTime.value, d.totalTime.value, "", false, 0);
            NewRecipe(user, d).value == ApplyRecipeData(defaults, d, user)
  {
  }

  // ---------------------------------------------------------------------------
  // Nutrition rows
  // ---------------------------------------------------------------------------

  predicate NutritionComplete(d: NutritionData) {
    d.calories.Some? && d.protein.Some? && d.fat.Some? && d.sugar.Some? && d.fiber.Some? && d.carbohydrates.Some?
  }

  /** The row `Nutrition.objects.create(recipe=recipe, **data)` inserts: none of
      the six columns has a default, so each must be given. */
  function NewNutrition(d: NutritionData): (r: Result<Nutrition, StoreError>)
    ensures r.Success? <==> NutritionComplete(d)
    ensures r.Success? ==> r.value == Nutrition(d.calories.value, d.protein.value, d.fat.value,
                                                d.sugar.value, d.fiber.value, d.carbohydrates.value)
  {
    if d.calories.None? then Failure(MissingValue("calories"))
    else if d.protein.None? then Failure(MissingValue("protein"))
    else if d.fat.None? then Failure(MissingValue("fat"))
    else if d.sugar.None? then Failure(MissingValue("sugar"))
    else if d.fiber.None? then Failure(MissingValue("fiber"))
    else if d.carbohydrates.None? then Failure(MissingValue("carbohydrates"))
    else Success(Nutrition(d.calories.value, d.protein.value, d.fat.value,
                           d.sugar.value, d.fiber.value, d.carbohydrates.value))
  }

  /** The update's `setattr` loop over the submitted nutrition keys. */
  function ApplyNutritionData(n: Nutrition, d: NutritionData): Nutrition
  {
    Nutrition(d.calories.GetOr(n.calories), d.protein.GetOr(n.protein), d.fat.GetOr(n.fat),
              d.sugar.GetOr(n.sugar), d.fiber.GetOr(n.fiber), d.carbohydrates.GetOr(n.carbohydrates))
  }

  /** Present nutrition keys overwrite, absent ones keep their value; a complete
      set of keys replaces the row with the created one. */
  lemma ApplyNutritionDataSpec(n: Nutrition, d: NutritionData)
    ensures var m := ApplyNutritionData(n, d);
      && m.calories == (if d.calories.Some? then d.calories.value else n.calories)
      && m.protein == (if d.protein.Some? then d.protein.value else n.protein)
      && m.fat == (if d.fat.Some? then d.fat.value else n.fat)
      && m.sugar == (if d.sugar.Some? then d.sugar.value else n.sugar)
      && m.fiber == (if d.fiber.Some? then d.fiber.value else n.fiber)
      && m.carbohydrates == (if d.carbohydrates.Some? then d.carbohydrates.value else n.carbohydrates)
    ensures NutritionComplete(d) ==> ApplyNutritionData(n, d) == NewNutrition(d).value
    ensures ApplyNutritionData(ApplyNutritionData(n, d), d) == ApplyNutritionData(n, d)
  {
  }

  /** `Nutrition.objects.get_or_create(recipe=recipe)` then the `setattr`
      loop, as written: the get_or_create passes no defaults, so a missing row
      is inserted with NULL in every column, which the database refuses. */
  function NutritionForUpdateAsWritten(existing: Option<Nutrition>, d: NutritionData): (r: Result<Nutrition, StoreError>)
    ensures r.Success? <==> existing.Some?
  {
    if existing.Some? then Success(ApplyNutritionData(existing.value, d))
    else Failure(MissingValue("calories"))
  }

  /** As written, updating a recipe that has no Nutrition row fails even when
      every nutrition key is submitted. */
  lemma NutritionForUpdateAsWrittenRefusesMissingRow()
    ensures var full := NutritionData(Some(250), Some(15), Some(10), Some(5), Some(3), Some(30));
            NutritionForUpdateAsWritten(None, full).Failure? && NewNutrition(full).Success?
  {
  }

  /** The intended fetch-or-create: an existing row is updated in place, a
      missing one is created from the submitted keys. */
  function NutritionForUpdate(existing: Option<Nutrition>, d: NutritionData): (r: Result<Nutrition, StoreError>)
  {
    if existing.Some? then Success(ApplyNutritionData(existing.value, d)) else NewNutrition(d)
  }

  /** The corrected fetch-or-create agrees with the code as written whenever the
      row exists, and creates a missing row exactly when all keys are given. */
  lemma NutritionForUpdateSpec(existing: Option<Nutrition>, d: NutritionData)
    ensures existing.Some? ==> NutritionForUpdate(existing, d) == NutritionForUpdateAsWritten(existing, d)
    ensures existing.None? ==> (NutritionForUpdate(existing, d).Success? <==> NutritionComplete(d))
    ensures existing.None? && NutritionComplete(d) ==> NutritionForUpdate(existing, d) == NewNutrition(d)
  {
  }

  // ---------------------------------------------------------------------------
  // Images
  // ---------------------------------------------------------------------------

  /** An image is stored when one was submitted (a non-empty name) and it is
      not the default image's name. */
  predicate StoresImage(image: Option<string>) {
    image.Some? && image.value != "" && image.value != DEFAULT_RECIPE_IMAGE
  }

  /** The RecipeImage rows the operations add: one for a stored image, none
      otherwise. */
  function ImageRows(id: nat, recipe: RecipeId, image: Option<string>): (rows: seq<RecipeImage>)
    ensures |rows| == if StoresImage(image) then 1 else 0
    ensures forall k :: 0 <= k < |rows| ==> rows[k].recipe == recipe && rows[k].image == image.value
  {
    if StoresImage(image) then [RecipeImage(id, recipe, image.value)] else []
  }

  // ---------------------------------------------------------------------------
  // Ingredient rows
  // ---------------------------------------------------------------------------

  /** Name and unit are passed on as given; a NULL in either is refused. */
  function EntryError(d: IngredientData): (e: Option<StoreError>)
    ensures e.None? <==> d.name.Some? && d.unit.Some?
  {
    if d.name.None? then Some(MissingValue("name"))
    else if d.unit.None? then Some(MissingValue("unit"))
    else None
  }

  predicate Storable(d: IngredientData) {
    d.name.Some? && d.unit.Some?
  }

  /** `quantity or 0`: an absent or zero quantity is stored as 0. */
  function StoredQuantity(q: Option<Decimal>): (v: Decimal)
    ensures v.units == 0 <==> q.None? || q.value.units == 0
  {
    if q.None? || q.value.units == 0 then Decimal(0, 0) else q.value
  }

  /** The Ingredient row an entry becomes: `optional` is false only when the
      key is absent. */
  function IngredientRow(id: nat, recipe: RecipeId, d: IngredientData): (row: Ingredient)
    requires Storable(d)
    ensures row.id == id && row.recipe == recipe
  {
    Ingredient(id, recipe, d.name.value, StoredQuantity(d.quantity), d.unit.value, d.optional.GetOr(false))
  }

  /** The rows for a list of entries, numbered from `firstId`, in order. */
  function IngredientRows(firstId: nat, recipe: RecipeId, ds: seq<IngredientData>): (rows: seq<Ingredient>)
    requires forall k :: 0 <= k < |ds| ==> Storable(ds[k])
    ensures |rows| == |ds|
    ensures forall k :: 0 <= k < |ds| ==> rows[k] == IngredientRow(firstId + k, recipe, ds[k])
  {
    seq(|ds|, k requires 0 <= k < |ds| => IngredientRow(firstId + k, recipe, ds[k]))
  }

  /** The error of the first entry that cannot be stored, if any. */
  function FirstEntryError(ds: seq<IngredientData>): (e: Option<StoreError>)
    ensures e.None? <==> forall k :: 0 <= k < |ds| ==> Storable(ds[k])
  {
    if ds == [] then None
    else if EntryError(ds[0]).Some? then EntryError(ds[0])
    else
      assert forall k :: 1 <= k < |ds| ==> ds[k] == ds[1..][k - 1];
      FirstEntryError(ds[1..])
  }

  lemma {:induction false} FirstEntryErrorAt(ds: seq<IngredientData>, i: nat)
    requires i < |ds| && !Storable(ds[i])
    requires forall k :: 0 <= k < i ==> Storable(ds[k])
    ensures FirstEntryError(ds) == EntryError(ds[i])
    decreases i
  {
    if i > 0 {
      assert forall k :: 0 <= k < i - 1 ==> ds[1..][k] == ds[k + 1];
      FirstEntryErrorAt(ds[1..], i - 1);
    }
  }

  /** What a row stores, without its identity. */
  datatype IngredientContent = IngredientContent(name: string, quantity: Decimal, unit: int, optional: bool)

  function Contents(rows: seq<Ingredient>): (cs: seq<IngredientContent>)
    ensures |cs| == |rows|
  {
    seq(|rows|, k requires 0 <= k < |rows| =>
      IngredientContent(rows[k].name, rows[k].quantity, rows[k].unit, rows[k].optional))
  }

  /** What the entries ask to store, with the defaults applied. */
  function Submitted(ds: seq<IngredientData>): (cs: seq<IngredientContent>)
    requires forall k :: 0 <= k < |ds| ==> Storable(ds[k])
    ensures |cs| == |ds|
  {
    seq(|ds|, k requires 0 <= k < |ds| && Storable(ds[k]) =>
      IngredientContent(ds[k].name.value, StoredQuantity(ds[k].quantity), ds[k].unit.value,
                        ds[k].optional.GetOr(false)))
  }

  /** Each entry yields exactly one row, in order, storing what was submitted
      whatever identifiers the rows receive. */
  lemma IngredientRowsStoreSubmitted(firstId: nat, recipe: RecipeId, ds: seq<IngredientData>)
    requires forall k :: 0 <= k < |ds| ==> Storable(ds[k])
    ensures Contents(IngredientRows(firstId, recipe, ds)) == Submitted(ds)
  {
  }

  lemma {:induction false} RowsOfAppend(a: seq<Ingredient>, b: seq<Ingredient>, recipe: RecipeId)
    ensures RowsOf(a + b, recipe) == RowsOf(a, recipe) + RowsOf(b, recipe)
    decreases |a|
  {
    if a == [] {
      assert a + b == b;
    } else {
      RowsOfAppend(a[1..], b, recipe);
      assert (a + b)[1..] == a[1..] + b;
    }
  }

  lemma {:induction false} RowsOfAllMine(rows: seq<Ingredient>, recipe: RecipeId)
    requires forall k :: 0 <= k < |rows| ==> rows[k].recipe == recipe
    ensures RowsOf(rows, recipe) == rows
    decreases |rows|
  {
    if rows != [] {
      RowsOfAllMine(rows[1..], recipe);
    }
  }

  lemma {:induction false} RowsOfNoneMine(rows: seq<Ingredient>, recipe: RecipeId)
    requires forall k :: 0 <= k < |rows| ==> rows[k].recipe != recipe
    ensures RowsOf(rows, recipe) == []
    decreases |rows|
  {
    if rows != [] {
      RowsOfNoneMine(rows[1..], recipe);
    }
  }

  lemma {:induction false} RowsOfWithoutOther(rows: seq<Ingredient>, recipe: RecipeId, other: RecipeId)
    requires other != recipe
    ensures RowsOf(WithoutRecipe(rows, recipe), other) == RowsOf(rows, other)
    decreases |rows|
  {
    if rows != [] {
      RowsOfWithoutOther(rows[1..], recipe, other);
    }
  }

  /** The ingredient table after an update: the recipe's rows deleted, then
      the new rows bulk-created, numbered from `firstId`. */
  function ReplaceIngredients(rows: seq<Ingredient>, recipe: RecipeId, firstId: nat, ds: seq<IngredientData>): seq<Ingredient>
    requires forall k :: 0 <= k < |ds| ==> Storable(ds[k])
  {
    WithoutRecipe(rows, recipe) + IngredientRows(firstId, recipe, ds)
  }

  /** After the replacement the recipe's rows are exactly the new rows, storing
      exactly the submitted entries, and every other recipe's rows are as
      they were. */
  lemma ReplaceIngredientsSpec(rows: seq<Ingredient>, recipe: RecipeId, firstId: nat, ds: seq<IngredientData>, other: RecipeId)
    requires forall k :: 0 <= k < |ds| ==> Storable(ds[k])
    ensures RowsOf(ReplaceIngredients(rows, recipe, firstId, ds), recipe) == IngredientRows(firstId, recipe, ds)
    ensures Contents(RowsOf(ReplaceIngredients(rows, recipe, firstId, ds), recipe)) == Submitted(ds)
    ensures other != recipe ==> RowsOf(ReplaceIngredients(rows, recipe, firstId, ds), other) == RowsOf(rows, other)
  {
    var kept := WithoutRecipe(rows, recipe);
    var created := IngredientRows(firstId, recipe, ds);
    RowsOfAppend(kept, created, recipe);
    RowsOfNoneMine(kept, recipe);
    RowsOfAllMine(created, recipe);
    if other != recipe {
      RowsOfAppend(kept, created, other);
      RowsOfWithoutOther(rows, recipe, other);
      RowsOfNoneMine(created, other);
    }
  }

  /** No row of the recipe survives the replacement: when every existing row's
      id is below `firstId`, every row the recipe has afterwards is new. */
  lemma ReplaceIngredientsKeepsNoOldRow(rows: seq<Ingredient>, recipe: RecipeId, firstId: nat, ds: seq<IngredientData>)
    requires forall k :: 0 <= k < |ds| ==> Storable(ds[k])
    requires forall k :: 0 <= k < |rows| ==> rows[k].id < firstId
    ensures forall row, old_row :: row in RowsOf(ReplaceIngredients(rows, recipe, firstId, ds), recipe) && old_row in rows ==>
      row.id != old_row.id
  {
    ReplaceIngredientsSpec(rows, recipe, firstId, ds, recipe);
  }

  /** Updating twice with the same entries leaves the same contents as
      updating once: no duplicates accumulate. */
  lemma ReplaceIngredientsTwice(rows: seq<Ingredient>, recipe: RecipeId, id1: nat, id2: nat, ds: seq<IngredientData>)
    requires forall k :: 0 <= k < |ds| ==> Storable(ds[k])
    ensures var first := ReplaceIngredients(rows, recipe, id1, ds);
            var second := ReplaceIngredients(first, recipe, id2, ds);
            Contents(RowsOf(second, recipe)) == Contents(RowsOf(first, recipe)) == Submitted(ds)
            && |RowsOf(second, recipe)| == |ds|
  {
    var first := ReplaceIngredients(rows, recipe, id1, ds);
    ReplaceIngredientsSpec(rows, recipe, id1, ds, recipe);
    ReplaceIngredientsSpec(first, recipe, id2, ds, recipe);
  }

  // ---------------------------------------------------------------------------
  // Integrity of the tables
  // ---------------------------------------------------------------------------

  /** Inserting a recipe under a fresh key with an untaken (title, author)
      pair keeps the pairs unique. */
  lemma InsertKeepsUniqueTitles(recipes: map<RecipeId, Recipe>, id: RecipeId, r: Recipe)
    requires UniqueTitles(recipes) && id !in recipes
    requires !TitleTaken(recipes, r.title, r.author)
    ensures UniqueTitles(recipes[id := r])
  {
    var updated := recipes[id := r];
    forall i, j | i in updated && j in updated && i != j
      ensures updated[i].title != updated[j].title || updated[i].author != updated[j].author
    {
      if i == id {
        assert j in recipes;
      } else if j == id {
        assert i in recipes;
      }
    }
  }

  /** Overwriting a recipe with a (title, author) pair no other recipe has
      keeps the pairs unique. */
  lemma OverwriteKeepsUniqueTitles(recipes: map<RecipeId, Recipe>, id: RecipeId, r: Recipe)
    requires UniqueTitles(recipes) && id in recipes
    requires !TitleTaken(recipes - {id}, r.title, r.author)
    ensures UniqueTitles(recipes[id := r])
  {
    var updated := recipes[id := r];
    forall i, j | i in updated && j in updated && i != j
      ensures updated[i].title != updated[j].title || updated[i].author != updated[j].author
    {
      if i == id {
        assert j in recipes - {id};
      } else if j == id {
        assert i in recipes - {id};
      }
    }
  }

  // ---------------------------------------------------------------------------
  // create_recipe_with_details
  // ---------------------------------------------------------------------------

  /** Why a create is refused, checked in the order of the inserts: the Recipe
      row (missing time, then a duplicate (title, author)), the Nutrition row,
      then the first ingredient entry with a NULL name or unit. */
  function CreateError(recipes: map<RecipeId, Recipe>, user: UserId, recipeData: RecipeData,
                       nutritionData: NutritionData, ingredientsData: seq<IngredientData>): (e: Option<StoreError>)
    ensures e.None? <==>
      && NewRecipe(user, recipeData).Success?
      && !TitleTaken(recipes, NewRecipe(user, recipeData).value.title, user)
      && NutritionComplete(nutritionData)
      && forall k :: 0 <= k < |ingredientsData| ==> Storable(ingredientsData[k])
  {
    var recipe := NewRecipe(user, recipeData);
    if recipe.Failure? then Some(recipe.error)
    else if TitleTaken(recipes, recipe.value.title, user) then Some(DuplicateTitle)
    else
      var nutrition := NewNutrition(nutritionData);
      if nutrition.Failure? then Some(nutrition.error)
      else FirstEntryError(ingredientsData)
  }

  /** The tables after the inserts of a successful create. */
  function CreatedTables(t: Tables, recipe: Recipe, nutrition: Nutrition, image: Option<string>,
                         ds: seq<IngredientData>): Tables
    requires forall k :: 0 <= k < |ds| ==> Storable(ds[k])
  {
    var id := t.nextRecipeId;
    var imgs := ImageRows(t.nextImageId, id, image);
    t.(recipes := t.recipes[id := recipe], nextRecipeId := id + 1,
       nutrition := t.nutrition[id := nutrition],
       images := t.images + imgs, nextImageId := t.nextImageId + |imgs|,
       ingredients := t.ingredients + IngredientRows(t.nextIngredientId, id, ds),
       nextIngredientId := t.nextIngredientId + |ds|)
  }

  /** A successful create keeps the tables consistent. */
  lemma CreatedTablesConsistent(t: Tables, recipe: Recipe, nutrition: Nutrition, image: Option<string>,
                                ds: seq<IngredientData>)
    requires Consistent(t) && !TitleTaken(t.recipes, recipe.title, recipe.author)
    requires forall k :: 0 <= k < |ds| ==> Storable(ds[k])
    ensures Consistent(CreatedTables(t, recipe, nutrition, image, ds))
  {
    var id := t.nextRecipeId;
    InsertKeepsUniqueTitles(t.recipes, id, recipe);
    var u := CreatedTables(t, recipe, nutrition, image, ds);
    var rows := IngredientRows(t.nextIngredientId, id, ds);
    forall i | 0 <= i < |u.ingredients|
      ensures u.ingredients[i].recipe in u.recipes && u.ingredients[i].id < u.nextIngredientId
    {
      if i >= |t.ingredients| {
        assert u.ingredients[i] == rows[i - |t.ingredients|];
      }
    }
    forall i | 0 <= i < |u.images|
      ensures u.images[i].recipe in u.recipes && u.images[i].id < u.nextImageId
    {
      if i >= |t.images| {
        assert u.images[i] == ImageRows(t.nextImageId, id, image)[i - |t.images|];
      }
    }
  }

  /** The loop of the create: one `Ingredient.objects.create` per entry, in
      order, stopping at the first entry the database refuses (the rows
      inserted before it are undone by the caller's rollback). */
  method InsertIngredients(db: Database, id: RecipeId, ingredientsData: seq<IngredientData>)
    returns (e: Option<StoreError>)
    modifies db
    ensures e == FirstEntryError(ingredientsData)
    ensures e.None? ==> db.State() == old(db.State()).(
      ingredients := old(db.ingredients) + IngredientRows(old(db.nextIngredientId), id, ingredientsData),
      nextIngredientId := old(db.nextIngredientId) + |ingredientsData|)
  {
    ghost var start := db.State();
    var i := 0;
    while i < |ingredientsData|
      invariant 0 <= i <= |ingredientsData|
      invariant forall k :: 0 <= k < i ==> Storable(ingredientsData[k])
      invariant db.State() == start.(
        ingredients := start.ingredients + IngredientRows(start.nextIngredientId, id, ingredientsData[..i]),
        nextIngredientId := start.nextIngredientId + i)
    {
      var d := ingredientsData[i];
      e := EntryError(d);
      if e.Some? {
        FirstEntryErrorAt(ingredientsData, i);
        return;
      }
      db.InsertIngredient(id, d.name.value, StoredQuantity(d.quantity), d.unit.value, d.optional.GetOr(false));
      assert ingredientsData[..i + 1] == ingredientsData[..i] + [d];
      assert IngredientRows(start.nextIngredientId, id, ingredientsData[..i + 1])
          == IngredientRows(start.nextIngredientId, id, ingredientsData[..i]) + [IngredientRow(start.nextIngredientId + i, id, d)];
      i := i + 1;
    }
    assert ingredientsData[..i] == ingredientsData;
    e := None;
  }

  /** `create_recipe_with_details`: inserts the recipe (authored by the acting
      user), its Nutrition row, its image when one is stored, and one
      ingredient row per entry, in order. Any refused insert rolls every table
      back to its state before the call. */
  method CreateRecipeWithDetails(db: Database, user: UserId, recipeData: RecipeData, nutritionData: NutritionData,
                                 image: Option<string>, ingredientsData: seq<IngredientData>)
    returns (r: Result<RecipeId, StoreError>)
    requires db.Valid()
    modifies db
    ensures db.Valid()
    ensures r.Failure? <==> CreateError(old(db.recipes), user, recipeData, nutritionData, ingredientsData).Some?
    ensures r.Failure? ==>
      r.error == CreateError(old(db.recipes), user, recipeData, nutritionData, ingredientsData).value
      && db.State() == old(db.State())
    ensures r.Success? ==>
      && r.value == old(db.nextRecipeId) && r.value !in old(db.recipes)
      && db.State() == CreatedTables(old(db.State()), NewRecipe(user, recipeData).value,
                                     NewNutrition(nutritionData).value, image, ingredientsData)
  {
    var saved := db.State();
    var recipe := NewRecipe(user, recipeData);
    if recipe.Failure? {
      return Failure(recipe.error);
    }
    if TitleTaken(db.recipes, recipe.value.title, user) {
      return Failure(DuplicateTitle);
    }
    var id := db.InsertRecipe(recipe.value);

    var nutrition := NewNutrition(nutritionData);
    if nutrition.Failure? {
      db.Restore(saved);
      return Failure(nutrition.error);
    }
    db.SaveNutrition(id, nutrition.value);

    if StoresImage(image) {
      db.InsertImage(id, image.value);
    }

    var e := InsertIngredients(db, id, ingredientsData);
    if e.Some? {
      db.Restore(saved);
      return Failure(e.value);
    }
    assert db.State() == CreatedTables(saved, recipe.value, nutrition.value, image, ingredientsData);
    CreatedTablesConsistent(saved, recipe.value, nutrition.value, image, ingredientsData);
    return Success(id);
  }

  // ---------------------------------------------------------------------------
  // update_recipe_with_details
  // ---------------------------------------------------------------------------

  /** The recipe's Nutrition row, if it has one. */
  function NutritionOf(nutrition: map<RecipeId, Nutrition>, id: RecipeId): (n: Option<Nutrition>)
    ensures n.Some? <==> id in nutrition
  {
    if id in nutrition then Some(nutrition[id]) else None
  }

  /** Why an update is refused, checked in the order of the writes: saving the
      recipe under a (title, author) pair another recipe has, creating a
      missing Nutrition row without every key, then the first ingredient entry
      with a NULL name or unit. */
  function UpdateError(t: Tables, id: RecipeId, user: UserId, recipeData: RecipeData,
                       nutritionData: NutritionData, ingredientsData: seq<IngredientData>): (e: Option<StoreError>)
    requires id in t.recipes
    ensures e.None? <==>
      && !TitleTaken(t.recipes - {id}, ApplyRecipeData(t.recipes[id], recipeData, user).title, user)
      && NutritionForUpdate(NutritionOf(t.nutrition, id), nutritionData).Success?
      && forall k :: 0 <= k < |ingredientsData| ==> Storable(ingredientsData[k])
  {
    var updated := ApplyRecipeData(t.recipes[id], recipeData, user);
    if TitleTaken(t.recipes - {id}, updated.title, user) then Some(DuplicateTitle)
    else
      var nutrition := NutritionForUpdate(NutritionOf(t.nutrition, id), nutritionData);
      if nutrition.Failure? then Some(nutrition.error)
      else FirstEntryError(ingredientsData)
  }

  /** The tables after a successful update: the recipe and its Nutrition row
      overwritten, the image added, the ingredient rows replaced. */
  function UpdatedTables(t: Tables, id: RecipeId, recipe: Recipe, nutrition: Nutrition, image: Option<string>,
                         ds: seq<IngredientData>): Tables
    requires forall k :: 0 <= k < |ds| ==> Storable(ds[k])
  {
    var imgs := ImageRows(t.nextImageId, id, image);
    t.(recipes := t.recipes[id := recipe],
       nutrition := t.nutrition[id := nutrition],
       images := t.images + imgs, nextImageId := t.nextImageId + |imgs|,
       ingredients := ReplaceIngredients(t.ingredients, id, t.nextIngredientId, ds),
       nextIngredientId := t.nextIngredientId + |ds|)
  }

  /** A successful update keeps the tables consistent. */
  lemma UpdatedTablesConsistent(t: Tables, id: RecipeId, recipe: Recipe, nutrition: Nutrition, image: Option<string>,
                                ds: seq<IngredientData>)
    requires Consistent(t) && id in t.recipes && !TitleTaken(t.recipes - {id}, recipe.title, recipe.author)
    requires forall k :: 0 <= k < |ds| ==> Storable(ds[k])
    ensures Consistent(UpdatedTables(t, id, recipe, nutrition, image, ds))
  {
    OverwriteKeepsUniqueTitles(t.recipes, id, recipe);
    var u := UpdatedTables(t, id, recipe, nutrition, image, ds);
    var kept := WithoutRecipe(t.ingredients, id);
    var rows := IngredientRows(t.nextIngredientId, id, ds);
    forall i | 0 <= i < |u.ingredients|
      ensures u.ingredients[i].recipe in u.recipes && u.ingredients[i].id < u.nextIngredientId
    {
      if i >= |kept| {
        assert u.ingredients[i] == rows[i - |kept|];
      } else {
        assert u.ingredients[i] == kept[i] && kept[i] in t.ingredients;
      }
    }
    forall i | 0 <= i < |u.images|
      ensures u.images[i].recipe in u.recipes && u.images[i].id < u.nextImageId
    {
      if i >= |t.images| {
        assert u.images[i] == ImageRows(t.nextImageId, id, image)[i - |t.images|];
      }
    }
  }

  /** `update_recipe_with_details` with the intended fetch-or-create of the
      Nutrition row: overwrites the submitted recipe and nutrition keys and the
      author, adds the image when one is stored, and replaces the recipe's
      ingredient rows with one new row per entry. Any refused write rolls every
      table back. */
  method UpdateRecipeWithDetails(db: Database, id: RecipeId, user: UserId, recipeData: RecipeData,
                                 nutritionData: NutritionData, image: Option<string>,
                                 ingredientsData: seq<IngredientData>)
    returns (r: Outcome<StoreError>)
    requires db.Valid() && id in db.recipes
    modifies db
    ensures db.Valid()
    ensures r.Fail? <==> UpdateError(old(db.State()), id, user, recipeData, nutritionData, ingredientsData).Some?
    ensures r.Fail? ==>
      r.error == UpdateError(old(db.State()), id, user, recipeData, nutritionData, ingredientsData).value
      && db.State() == old(db.State())
    ensures r.Pass? ==>
      db.State() == UpdatedTables(old(db.State()), id, ApplyRecipeData(old(db.recipes)[id], recipeData, user),
                                  NutritionForUpdate(NutritionOf(old(db.nutrition), id), nutritionData).value,
                                  image, ingredientsData)
  {
    var saved := db.State();
    var updated := ApplyRecipeData(db.recipes[id], recipeData, user);
    if TitleTaken(db.recipes - {id}, updated.title, user) {
      return Fail(DuplicateTitle);
    }
    db.SaveRecipe(id, updated);

    var nutrition := NutritionForUpdate(NutritionOf(db.nutrition, id), nutritionData);
    if nutrition.Failure? {
      db.Restore(saved);
      return Fail(nutrition.error);
    }
    db.SaveNutrition(id, nutrition.value);

    if StoresImage(image) {
      db.InsertImage(id, image.value);
    }

    db.DeleteIngredientsOf(id);
    var e := FirstEntryError(ingredientsData);
    if e.Some? {
      db.Restore(saved);
      return Fail(e.value);
    }
    db.BulkCreateIngredients(IngredientRows(db.nextIngredientId, id, ingredientsData));
    assert db.State() == UpdatedTables(saved, id, updated, nutrition.value, image, ingredientsData);
    UpdatedTablesConsistent(saved, id, updated, nutrition.value, image, ingredientsData);
    return Pass;
  }
}
