/**
 * recipe_management/signals.py: the `likes` counter of a recipe follows the
 * RecipeLike rows. Saving a newly created like adds one; deleting a like
 * takes one away, but never below zero.
 */
module Signals {
  import opened Models
  import opened Store

  // ---------------------------------------------------------------------------
  // The counter transitions
  // ---------------------------------------------------------------------------

  /** `update_likes_on_create`: one more like when the row was just created,
      no change when an existing row was saved again. */
  function AfterLikeSaved(likes: nat, created: bool): (n: nat)
    ensures created ==> n == likes + 1
    ensures !created ==> n == likes
  {
    if created then likes + 1 else likes
  }

  /** `update_likes_on_delete`: one less while positive, otherwise 0. */
  function AfterLikeDeleted(likes: nat): (n: nat)
    ensures likes > 0 ==> n == likes - 1
    ensures likes == 0 ==> n == 0
  {
    if likes > 0 then likes - 1 else 0
  }

  /** The signals a recipe's RecipeLike rows send. */
  datatype LikeEvent = Saved(created: bool) | Deleted

  /** The counter after the events, in order. */
  function Replay(likes: nat, events: seq<LikeEvent>): nat
    decreases |events|
  {
    if events == [] then likes
    else
      var next := match events[0]
        case Saved(created) => AfterLikeSaved(likes, created)
        case Deleted => AfterLikeDeleted(likes);
      Replay(next, events[1..])
  }

  function Repeat(e: LikeEvent, n: nat): (events: seq<LikeEvent>)
    ensures |events| == n
    ensures forall k :: 0 <= k < n ==> events[k] == e
  {
    if n == 0 then [] else [e] + Repeat(e, n - 1)
  }

  /** Replaying two runs of events is replaying the second from where the first
      left the counter. */
  lemma {:induction false} ReplayAppend(likes: nat, a: seq<LikeEvent>, b: seq<LikeEvent>)
    ensures Replay(likes, a + b) == Replay(Replay(likes, a), b)
    decreases |a|
  {
    if a == [] {
      assert a + b == b;
    } else {
      assert (a + b)[1..] == a[1..] + b;
      var next := match a[0]
        case Saved(created) => AfterLikeSaved(likes, created)
        case Deleted => AfterLikeDeleted(likes);
      ReplayAppend(next, a[1..], b);
    }
  }

  /** n new likes add n. */
  lemma {:induction false} ReplayCreates(likes: nat, n: nat)
    ensures Replay(likes, Repeat(Saved(true), n)) == likes + n
    decreases n
  {
    if n > 0 {
      ReplayCreates(likes + 1, n - 1);
    }
  }

  /** Re-saving existing likes never moves the counter. */
  lemma {:induction false} ReplayResaves(likes: nat, n: nat)
    ensures Replay(likes, Repeat(Saved(false), n)) == likes
    decreases n
  {
    if n > 0 {
      ReplayResaves(likes, n - 1);
    }
  }

  /** n deletions take n away, stopping at 0: the counter is never negative. */
  lemma {:induction false} ReplayDeletes(likes: nat, n: nat)
    ensures Replay(likes, Repeat(Deleted, n)) == if likes >= n then likes - n else 0
    decreases n
  {
    if n > 0 {
      ReplayDeletes(AfterLikeDeleted(likes), n - 1);
    }
  }

  /** From any count, n new likes followed by their n deletions give the count
      back; in particular from 0 they return to 0. */
  lemma CreatesThenDeletes(likes: nat, n: nat)
    ensures Replay(likes, Repeat(Saved(true), n) + Repeat(Deleted, n)) == likes
  {
    ReplayAppend(likes, Repeat(Saved(true), n), Repeat(Deleted, n));
    ReplayCreates(likes, n);
    ReplayDeletes(likes + n, n);
  }

  // ---------------------------------------------------------------------------
  // The handlers, on the store
  // ---------------------------------------------------------------------------

  /** The recipe's counter; a key without a recipe reads as 0. */
  function LikesOf(t: Tables, id: RecipeId): nat
  {
    if id in t.recipes then t.recipes[id].likes else 0
  }

  /** The tables with one recipe's counter set to `likes`; the filtered update
      of a key without a recipe matches no row and changes nothing. */
  function WithCounter(t: Tables, id: RecipeId, likes: nat): (u: Tables)
    ensures u.recipes.Keys == t.recipes.Keys
    ensures forall other :: other in t.recipes && other != id ==> u.recipes[other] == t.recipes[other]
    ensures id in t.recipes ==> u.recipes[id] == t.recipes[id].(likes := likes)
    ensures u == t.(recipes := u.recipes)
  {
    if id in t.recipes then t.(recipes := t.recipes[id := t.recipes[id].(likes := likes)]) else t
  }

  lemma OverwriteCounterKeepsUniqueTitles(recipes: map<RecipeId, Recipe>, id: RecipeId, likes: nat)
    requires UniqueTitles(recipes) && id in recipes
    ensures UniqueTitles(recipes[id := recipes[id].(likes := likes)])
  {
    var updated := recipes[id := recipes[id].(likes := likes)];
    forall i, j | i in updated && j in updated && i != j
      ensures updated[i].title != updated[j].title || updated[i].author != updated[j].author
    {
      assert updated[i].title == recipes[i].title && updated[i].author == recipes[i].author;
      assert updated[j].title == recipes[j].title && updated[j].author == recipes[j].author;
    }
  }

  /** Changing only a recipe's counter keeps the tables consistent. */
  lemma WithCounterKeepsConsistent(t: Tables, id: RecipeId, likes: nat)
    requires Consistent(t)
    ensures Consistent(WithCounter(t, id, likes))
  {
    if id in t.recipes {
      OverwriteCounterKeepsUniqueTitles(t.recipes, id, likes);
    }
  }

  /** `update_likes_on_create`, run after a RecipeLike row of `recipe` is saved:
      only that recipe's counter changes. */
  method OnLikeSaved(db: Database, recipe: RecipeId, created: bool)
    requires db.Valid()
    modifies db
    ensures db.Valid()
    ensures db.State() == WithCounter(old(db.State()), recipe, AfterLikeSaved(LikesOf(old(db.State()), recipe), created))
  {
    WithCounterKeepsConsistent(db.State(), recipe, AfterLikeSaved(LikesOf(db.State(), recipe), created));
    if created && recipe in db.recipes {
      db.SaveRecipe(recipe, db.recipes[recipe].(likes := db.recipes[recipe].likes + 1));
    }
  }

  /** `update_likes_on_delete`, run after a RecipeLike row of `recipe` is
      deleted: only that recipe's counter changes. */
  method OnLikeDeleted(db: Database, recipe: RecipeId)
    requires db.Valid()
    modifies db
    ensures db.Valid()
    ensures db.State() == WithCounter(old(db.State()), recipe, AfterLikeDeleted(LikesOf(old(db.State()), recipe)))
  {
    WithCounterKeepsConsistent(db.State(), recipe, AfterLikeDeleted(LikesOf(db.State(), recipe)));
    if recipe in db.recipes {
      var likes := db.recipes[recipe].likes;
      var next := if likes > 0 then likes - 1 else 0;
      db.SaveRecipe(recipe, db.recipes[recipe].(likes := next));
    }
  }

  // ---------------------------------------------------------------------------
  // RecipeLike rows and the counter
  // ---------------------------------------------------------------------------

  /** The users with a RecipeLike row for the recipe. */
  function LikersOf(t: Tables, id: RecipeId): set<UserId>
  {
    if id in t.likers then t.likers[id] else {}
  }

  /** Every recipe's counter equals the number of its RecipeLike rows. */
  predicate LikesCounted(t: Tables) {
    forall id :: id in t.recipes ==> t.recipes[id].likes == |LikersOf(t, id)|
  }

  /** The tables after the row (user, recipe), unique per pair, is saved and
      the post_save handler has run. */
  function LikeSaved(t: Tables, user: UserId, recipe: RecipeId): Tables
  {
    var rows := t.(likers := t.likers[recipe := LikersOf(t, recipe) + {user}]);
    WithCounter(rows, recipe, AfterLikeSaved(LikesOf(t, recipe), user !in LikersOf(t, recipe)))
  }

  /** The tables after the row (user, recipe) is deleted when it exists, and
      the post_delete handler has run. */
  function LikeDeleted(t: Tables, user: UserId, recipe: RecipeId): Tables
  {
    if user in LikersOf(t, recipe) then
      var rows := t.(likers := t.likers[recipe := LikersOf(t, recipe) - {user}]);
      WithCounter(rows, recipe, AfterLikeDeleted(LikesOf(t, recipe)))
    else t
  }

  /** While the counter equals the number of likes, deleting an existing like
      never reaches the floor at 0: the decrement is exact. */
  lemma CountedDeleteIsExact(likes: nat, likers: set<UserId>, user: UserId)
    requires likes == |likers| && user in likers
    ensures AfterLikeDeleted(likes) == likes - 1 == |likers - {user}|
  {
  }

  /** Saving a like keeps every counter equal to its number of likes. */
  lemma LikeSavedKeepsCount(t: Tables, user: UserId, recipe: RecipeId)
    requires LikesCounted(t) && recipe in t.recipes
    ensures LikesCounted(LikeSaved(t, user, recipe))
    ensures LikersOf(LikeSaved(t, user, recipe), recipe) == LikersOf(t, recipe) + {user}
  {
    var u := LikeSaved(t, user, recipe);
    forall id | id in u.recipes ensures u.recipes[id].likes == |LikersOf(u, id)| {
      if id != recipe {
        assert LikersOf(u, id) == LikersOf(t, id);
      } else if user in LikersOf(t, recipe) {
        assert LikersOf(t, recipe) + {user} == LikersOf(t, recipe);
      }
    }
  }

  /** Deleting a like keeps every counter equal to its number of likes. */
  lemma LikeDeletedKeepsCount(t: Tables, user: UserId, recipe: RecipeId)
    requires LikesCounted(t) && recipe in t.recipes
    ensures LikesCounted(LikeDeleted(t, user, recipe))
    ensures LikersOf(LikeDeleted(t, user, recipe), recipe) == LikersOf(t, recipe) - {user}
  {
    var u := LikeDeleted(t, user, recipe);
    if user in LikersOf(t, recipe) {
      CountedDeleteIsExact(LikesOf(t, recipe), LikersOf(t, recipe), user);
      forall id | id in u.recipes ensures u.recipes[id].likes == |LikersOf(u, id)| {
        if id != recipe {
          assert LikersOf(u, id) == LikersOf(t, id);
        }
      }
    } else {
      assert LikersOf(t, recipe) - {user} == LikersOf(t, recipe);
    }
  }

  /** A like saved and then deleted by the same user who did not like the
      recipe before leaves every table as it was, counter included. The only
      trace is an empty set of likers recorded for a recipe that had none,
      which holds the same rows as no entry at all. */
  lemma LikeThenUnlike(t: Tables, user: UserId, recipe: RecipeId)
    requires recipe in t.recipes && user !in LikersOf(t, recipe)
    ensures var u := LikeDeleted(LikeSaved(t, user, recipe), user, recipe);
      u.(likers := t.likers) == t && forall id :: LikersOf(u, id) == LikersOf(t, id)
    ensures recipe in t.likers ==> LikeDeleted(LikeSaved(t, user, recipe), user, recipe) == t
  {
    var s := LikeSaved(t, user, recipe);
    var u := LikeDeleted(s, user, recipe);
    assert LikersOf(s, recipe) - {user} == LikersOf(t, recipe);
    assert u.likers == t.likers[recipe := LikersOf(t, recipe)];
    assert t.recipes[recipe].(likes := t.recipes[recipe].likes) == t.recipes[recipe];
    assert t.recipes[recipe := t.recipes[recipe]] == t.recipes;
    if recipe in t.likers {
      assert t.likers[recipe := LikersOf(t, recipe)] == t.likers;
    }
  }

  /** Saving the RecipeLike row (user, recipe): the row is created only when the
      user does not like the recipe yet, and the post_save handler follows. */
  method SaveLike(db: Database, user: UserId, recipe: RecipeId) returns (created: bool)
    requires db.Valid() && recipe in db.recipes
    modifies db
    ensures db.Valid()
    ensures created <==> user !in LikersOf(old(db.State()), recipe)
    ensures db.State() == LikeSaved(old(db.State()), user, recipe)
  {
    var likers := if recipe in db.likers then db.likers[recipe] else {};
    created := user !in likers;
    db.SaveLikers(recipe, likers + {user});
    OnLikeSaved(db, recipe, created);
  }

  /** Deleting the RecipeLike row (user, recipe) when it exists, followed by the
      post_delete handler; without such a row nothing happens. */
  method DeleteLike(db: Database, user: UserId, recipe: RecipeId) returns (deleted: bool)
    requires db.Valid() && recipe in db.recipes
    modifies db
    ensures db.Valid()
    ensures deleted <==> user in LikersOf(old(db.State()), recipe)
    ensures db.State() == LikeDeleted(old(db.State()), user, recipe)
  {
    var likers := if recipe in db.likers then db.likers[recipe] else {};
    deleted := user in likers;
    if deleted {
      db.SaveLikers(recipe, likers - {user});
      OnLikeDeleted(db, recipe);
    }
  }
}
