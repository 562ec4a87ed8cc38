/**
 * The database the application's operations read and write, held in memory:
 * the Recipe, Nutrition, RecipeImage, Ingredient and RecipeLike tables, and
 * the next primary key the database hands out for each table with rows that
 * are inserted one by one.
 */
module Store {
  import opened Text
  import opened Models

  /** A snapshot of every table. */
  datatype Tables = Tables(
    recipes: map<RecipeId, Recipe>,
    nutrition: map<RecipeId, Nutrition>,
    images: seq<RecipeImage>,
    ingredients: seq<Ingredient>,
    likers: map<RecipeId, set<UserId>>,
    nextRecipeId: nat,
    nextImageId: nat,
    nextIngredientId: nat)

  /** The integrity the schema guarantees: keys below the next key, every
      foreign key resolving to a recipe, one Nutrition row per recipe at most,
      and (title, author) unique. */
  predicate Consistent(t: Tables) {
    && (forall id :: id in t.recipes ==> id < t.nextRecipeId)
    && t.nutrition.Keys <= t.recipes.Keys
    && t.likers.Keys <= t.recipes.Keys
    && (forall i :: 0 <= i < |t.images| ==> t.images[i].recipe in t.recipes && t.images[i].id < t.nextImageId)
    && (forall i :: 0 <= i < |t.ingredients| ==>
          t.ingredients[i].recipe in t.recipes && t.ingredients[i].id < t.nextIngredientId)
    && UniqueTitles(t.recipes)
  }

  /** `Ingredient.objects.filter(recipe=recipe)`: the rows of one recipe, in order. */
  function RowsOf(rows: seq<Ingredient>, recipe: RecipeId): (mine: seq<Ingredient>)
    ensures |mine| <= |rows|
    ensures forall k :: 0 <= k < |mine| ==> mine[k].recipe == recipe && mine[k] in rows
  {
    if rows == [] then []
    else if rows[0].recipe == recipe then [rows[0]] + RowsOf(rows[1..], recipe)
    else RowsOf(rows[1..], recipe)
  }

  /** What `Ingredient.objects.filter(recipe=recipe).delete()` leaves: the rows
      of every other recipe, in order. */
  function WithoutRecipe(rows: seq<Ingredient>, recipe: RecipeId): (kept: seq<Ingredient>)
    ensures |kept| <= |rows|
    ensures forall k :: 0 <= k < |kept| ==> kept[k].recipe != recipe && kept[k] in rows
  {
    if rows == [] then []
    else if rows[0].recipe != recipe then [rows[0]] + WithoutRecipe(rows[1..], recipe)
    else WithoutRecipe(rows[1..], recipe)
  }

  class Database {
    /** Recipe rows by primary key. */
    var recipes: map<RecipeId, Recipe>
    /** The one-to-one Nutrition rows, keyed by their recipe. */
    var nutrition: map<RecipeId, Nutrition>
    /** RecipeImage rows in insertion order. */
    var images: seq<RecipeImage>
    /** Ingredient rows in insertion order. */
    var ingredients: seq<Ingredient>
    /** RecipeLike rows grouped by recipe: the users who like it. */
    var likers: map<RecipeId, set<UserId>>
    var nextRecipeId: nat
    var nextImageId: nat
    var nextIngredientId: nat

    /** An empty database: no rows, and every table's first key is 1. */
    constructor()
      ensures Valid()
      ensures State() == Tables(map[], map[], [], [], map[], 1, 1, 1)
    {
      recipes, nutrition, images, ingredients, likers := map[], map[], [], [], map[];
      nextRecipeId, nextImageId, nextIngredientId := 1, 1, 1;
    }

    function State(): Tables
      reads this
    {
      Tables(recipes, nutrition, images, ingredients, likers, nextRecipeId, nextImageId, nextIngredientId)
    }

    predicate Valid()
      reads this
    {
      Consistent(State())
    }

    /** `Recipe.objects.create(...)`: the row under the next key. */
    method InsertRecipe(r: Recipe) returns (id: RecipeId)
      modifies this
      ensures id == old(nextRecipeId)
      ensures State() == old(State()).(recipes := old(recipes)[id := r], nextRecipeId := id + 1)
    {
      id := nextRecipeId;
      recipes := recipes[id := r];
      nextRecipeId := id + 1;
    }

    /** `recipe.save()` of an existing row. */
    method SaveRecipe(id: RecipeId, r: Recipe)
      modifies this
      ensures State() == old(State()).(recipes := old(recipes)[id := r])
    {
      recipes := recipes[id := r];
    }

    /** `nutrition.save()` or `Nutrition.objects.create(recipe=recipe, ...)`. */
    method SaveNutrition(recipe: RecipeId, n: Nutrition)
      modifies this
      ensures State() == old(State()).(nutrition := old(nutrition)[recipe := n])
    {
      nutrition := nutrition[recipe := n];
    }

    /** The RecipeLike rows of `recipe` after a like is saved or deleted. */
    method SaveLikers(recipe: RecipeId, users: set<UserId>)
      modifies this
      ensures State() == old(State()).(likers := old(likers)[recipe := users])
    {
      likers := likers[recipe := users];
    }

    /** `RecipeImage.objects.create(recipe=recipe, image=image)`. */
    method InsertImage(recipe: RecipeId, image: string)
      modifies this
      ensures State() == old(State()).(images := old(images) + [RecipeImage(old(nextImageId), recipe, image)],
                                       nextImageId := old(nextImageId) + 1)
    {
      images := images + [RecipeImage(nextImageId, recipe, image)];
      nextImageId := nextImageId + 1;
    }

    /** `Ingredient.objects.create(...)`: the row under the next key. */
    method InsertIngredient(recipe: RecipeId, name: string, quantity: Decimal, unit: int, optional: bool)
      modifies this
      ensures State() == old(State()).(
        ingredients := old(ingredients) + [Ingredient(old(nextIngredientId), recipe, name, quantity, unit, optional)],
        nextIngredientId := old(nextIngredientId) + 1)
    {
      ingredients := ingredients + [Ingredient(nextIngredientId, recipe, name, quantity, unit, optional)];
      nextIngredientId := nextIngredientId + 1;
    }

    /** `Ingredient.objects.filter(recipe=recipe).delete()`. */
    method DeleteIngredientsOf(recipe: RecipeId)
      modifies this
      ensures State() == old(State()).(ingredients := WithoutRecipe(old(ingredients), recipe))
    {
      ingredients := WithoutRecipe(ingredients, recipe);
    }

    /** `Ingredient.objects.bulk_create(rows)`: the rows, numbered from the
        next key. */
    method BulkCreateIngredients(rows: seq<Ingredient>)
      requires forall k :: 0 <= k < |rows| ==> rows[k].id == nextIngredientId + k
      modifies this
      ensures State() == old(State()).(ingredients := old(ingredients) + rows,
                                       nextIngredientId := old(nextIngredientId) + |rows|)
    {
      ingredients := ingredients + rows;
      nextIngredientId := nextIngredientId + |rows|;
    }

    /** The rollback of a transaction: every table as it was at the snapshot. */
    method Restore(saved: Tables)
      modifies this
      ensures State() == saved
    {
      recipes, nutrition, images, ingredients := saved.recipes, saved.nutrition, saved.images, saved.ingredients;
      likers := saved.likers;
      nextRecipeId, nextImageId, nextIngredientId := saved.nextRecipeId, saved.nextImageId, saved.nextIngredientId;
    }
  }
}
