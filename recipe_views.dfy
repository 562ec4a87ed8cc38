/**
 * The pure helpers of recipe/views.py: the instruction steps of the detail
 * page, the ingredient-form index of the "add ingredient" endpoint, the
 * filters over submitted formset entries, the validity of a group of forms
 * and the homepage's popular list.
 */
module RecipeViews {
  import opened Wrappers
  import opened Text
  import opened Models

  // ---------------------------------------------------------------------------
  // Instruction steps (RecipeDetailView)
  // ---------------------------------------------------------------------------

  /** The stripped pieces, with the ones left empty dropped, in order. */
  function NonEmptyStripped(pieces: seq<string>): (steps: seq<string>)
    ensures |steps| <= |pieces|
  {
    if pieces == [] then []
    else
      var rest := NonEmptyStripped(pieces[1..]);
      if Strip(pieces[0]) == [] then rest else [Strip(pieces[0])] + rest
  }

  /** The steps shown on the detail page: the instructions split on '.', each
      piece stripped, empty pieces dropped. */
  function Instructions(text: string): seq<string>
  {
    NonEmptyStripped(SplitOn(text, '.'))
  }

  /** Stripping a piece without a '.' leaves a string without a '.'. */
  lemma StripKeepsNoDot(piece: string)
    requires '.' !in piece
    ensures '.' !in Strip(piece)
  {
    StripIsPaddedSlice(piece);
    var k := StripStart(piece);
    var r := Strip(piece);
    forall m | 0 <= m < |r| ensures r[m] != '.' {
      assert r[m] == piece[k + m];
    }
  }

  /** Every kept step is non-empty, already stripped, and free of '.' when the
      pieces are. */
  lemma {:induction false} NonEmptyStrippedSteps(pieces: seq<string>)
    requires forall i :: 0 <= i < |pieces| ==> '.' !in pieces[i]
    ensures forall step :: step in NonEmptyStripped(pieces) ==>
      step != [] && '.' !in step && Strip(step) == step
  {
    if pieces != [] {
      NonEmptyStrippedSteps(pieces[1..]);
      StripIdempotent(pieces[0]);
      StripKeepsNoDot(pieces[0]);
    }
  }

  /** No step is empty, contains '.', or has surrounding whitespace. */
  lemma InstructionsWellFormed(text: string)
    ensures forall step :: step in Instructions(text) ==>
      step != [] && '.' !in step && !IsSpace(step[0]) && !IsSpace(step[|step| - 1])
  {
    NonEmptyStrippedSteps(SplitOn(text, '.'));
  }

  /** Text without a '.' is a single step, or none when it is blank. */
  lemma InstructionsSingleStep(text: string)
    requires '.' !in text
    ensures Instructions(text) == if Strip(text) == [] then [] else [Strip(text)]
  {
    SplitWithoutSeparator(text, '.');
  }

  /** The worked example of the detail page. */
  lemma InstructionsExample()
    ensures Instructions("Step 1. Step 2. Step 3.") == ["Step 1", "Step 2", "Step 3"]
  {
    ExamplePieces();
    ExampleSteps();
  }

  lemma ExampleSteps()
    ensures NonEmptyStripped(["Step 1", " Step 2", " Step 3", ""]) == ["Step 1", "Step 2", "Step 3"]
  {
    ExampleStrips();
    ThreeSteps("Step 1", " Step 2", " Step 3", "");
  }

  /** Three non-blank pieces followed by a blank one give three steps. */
  lemma ThreeSteps(a: string, b: string, c: string, d: string)
    requires Strip(a) != [] && Strip(b) != [] && Strip(c) != [] && Strip(d) == []
    ensures NonEmptyStripped([a, b, c, d]) == [Strip(a), Strip(b), Strip(c)]
  {
    NonEmptyStrippedCons(a, [b, c, d]);
    NonEmptyStrippedCons(b, [c, d]);
    NonEmptyStrippedCons(c, [d]);
    NonEmptyStrippedCons(d, []);
    assert [a, b, c, d] == [a] + [b, c, d] && [b, c, d] == [b] + [c, d] && [c, d] == [c] + [d] && [d] == [d] + [];
  }

  lemma NonEmptyStrippedCons(piece: string, rest: seq<string>)
    ensures NonEmptyStripped([piece] + rest) ==
      (if Strip(piece) == [] then [] else [Strip(piece)]) + NonEmptyStripped(rest)
  {
    assert ([piece] + rest)[1..] == rest;
  }

  lemma ExamplePieces()
    ensures SplitOn("Step 1. Step 2. Step 3.", '.') == ["Step 1", " Step 2", " Step 3", ""]
  {
    var pieces := ["Step 1", " Step 2", " Step 3", ""];
    assert JoinWith(pieces[3..], '.') == "";
    assert JoinWith(pieces[2..], '.') == " Step 3.";
    assert JoinWith(pieces[1..], '.') == " Step 2. Step 3.";
    assert JoinWith(pieces, '.') == "Step 1. Step 2. Step 3.";
    SplitJoin(pieces, '.');
  }

  lemma ExampleStrips()
    ensures Strip("Step 1") == "Step 1" && Strip(" Step 2") == "Step 2"
    ensures Strip(" Step 3") == "Step 3" && Strip("") == ""
  {
    StripUnchanged("Step 1");
    StripUnchanged("");
    StripSingleLeadingSpace("Step 2");
    assert " Step 2" == [' '] + "Step 2";
    StripSingleLeadingSpace("Step 3");
    assert " Step 3" == [' '] + "Step 3";
  }

  lemma StripSingleLeadingSpace(s: string)
    requires s != [] && !IsSpace(s[0]) && !IsSpace(s[|s| - 1])
    ensures Strip([' '] + s) == s
  {
    assert ([' '] + s)[1..] == s;
    StripUnchanged(s);
  }

  // ---------------------------------------------------------------------------
  // Ingredient-form index (AddIngredientFormView.get)
  // ---------------------------------------------------------------------------

  /** The prefix of the formset's empty form, before it is numbered. */
  const EMPTY_FORM_PREFIX: string := "form-__prefix__"
  const PREFIX_PLACEHOLDER: string := "__prefix__"

  /** The `form-TOTAL_FORMS` query parameter read as an int: "0" when absent,
      0 when it is not an integer. */
  function FormIndex(param: Option<string>): (idx: int)
    ensures param.None? ==> idx == 0
    ensures param.Some? && ParseInt(param.value).None? ==> idx == 0
    ensures param.Some? && ParseInt(param.value).Some? ==> idx == ParseInt(param.value).value
  {
    match ParseInt(param.GetOr("0"))
    case Some(i) => i
    case None => 0
  }

  /** The prefix given to the new ingredient form. */
  function FormPrefix(idx: int): string
  {
    ReplaceAll(EMPTY_FORM_PREFIX, PREFIX_PLACEHOLDER, IntToString(idx))
  }

  /** The total the page reports after adding the form. */
  function NewTotal(param: Option<string>): (total: int)
    ensures total == FormIndex(param) + 1
  {
    FormIndex(param) + 1
  }

  /** A total written by the page is read back as that number: the new form
      is named "form-<idx>", the index is recoverable from the name, and the
      next request numbers its form one higher. */
  lemma FormIndexRoundTrip(idx: int)
    requires WithinDigitLimit(idx) && WithinDigitLimit(idx + 1)
    ensures FormIndex(Some(IntToString(idx))) == idx
    ensures FormPrefix(idx) == "form-" + IntToString(idx)
    ensures ParseInt(FormPrefix(idx)[5..]) == Some(idx)
    ensures FormIndex(Some(IntToString(NewTotal(Some(IntToString(idx)))))) == idx + 1
  {
    IntRoundTrip(idx);
    IntRoundTrip(idx + 1);
    ReplacePrefixPlaceholder(IntToString(idx));
    assert ("form-" + IntToString(idx))[5..] == IntToString(idx);
  }

  /** A parameter of more digits than `int()` reads falls back to index 0,
      whatever number it spells. */
  lemma FormIndexDigitLimit(param: string)
    requires |param| > MAX_STR_DIGITS && AllDigits(param)
    ensures FormIndex(Some(param)) == 0
  {
    ParseIntDigitLimit(param);
  }

  // ---------------------------------------------------------------------------
  // Formset entries handed to the domain operations (create and edit views)
  // ---------------------------------------------------------------------------

  /** One formset form after validation: its cleaned data (None when empty, as
      for an untouched extra form) and whether its DELETE box is ticked. */
  datatype FormEntry<D> = FormEntry(cleaned: Option<D>, delete: bool)

  /** The create view keeps the entries whose cleaned data is non-empty. */
  function KeptForCreate<D>(entries: seq<FormEntry<D>>): (kept: seq<D>)
    ensures |kept| <= |entries|
  {
    if entries == [] then []
    else
      var rest := KeptForCreate(entries[1..]);
      if entries[0].cleaned.Some? then [entries[0].cleaned.value] + rest else rest
  }

  /** The edit view also drops the entries marked for deletion. */
  function KeptForEdit<D>(entries: seq<FormEntry<D>>): (kept: seq<D>)
    ensures |kept| <= |entries|
  {
    if entries == [] then []
    else
      var rest := KeptForEdit(entries[1..]);
      if entries[0].cleaned.Some? && !entries[0].delete then [entries[0].cleaned.value] + rest else rest
  }

  /** Both filters keep the order of the entries: filtering a concatenation
      concatenates the filtered parts. */
  lemma {:induction false} KeptForCreateDistributes<D>(a: seq<FormEntry<D>>, b: seq<FormEntry<D>>)
    ensures KeptForCreate(a + b) == KeptForCreate(a) + KeptForCreate(b)
    decreases |a|
  {
    if a == [] {
      assert a + b == b;
    } else {
      KeptForCreateDistributes(a[1..], b);
      assert (a + b)[1..] == a[1..] + b;
    }
  }

  lemma {:induction false} KeptForEditDistributes<D>(a: seq<FormEntry<D>>, b: seq<FormEntry<D>>)
    ensures KeptForEdit(a + b) == KeptForEdit(a) + KeptForEdit(b)
    decreases |a|
  {
    if a == [] {
      assert a + b == b;
    } else {
      KeptForEditDistributes(a[1..], b);
      assert (a + b)[1..] == a[1..] + b;
    }
  }

  /** An entry's data is kept on edit exactly when some non-deleted entry
      carries it, and on create exactly when some entry carries it. */
  lemma {:induction false} KeptMembership<D>(entries: seq<FormEntry<D>>, d: D)
    ensures d in KeptForCreate(entries) <==> exists i :: 0 <= i < |entries| && entries[i].cleaned == Some(d)
    ensures d in KeptForEdit(entries) <==>
      exists i :: 0 <= i < |entries| && entries[i].cleaned == Some(d) && !entries[i].delete
    decreases |entries|
  {
    if entries != [] {
      KeptMembership(entries[1..], d);
      if exists i :: 0 <= i < |entries| && entries[i].cleaned == Some(d) {
        var i :| 0 <= i < |entries| && entries[i].cleaned == Some(d);
        if i > 0 { assert entries[1..][i - 1] == entries[i]; }
      }
      if exists i :: 0 <= i < |entries| && entries[i].cleaned == Some(d) && !entries[i].delete {
        var i :| 0 <= i < |entries| && entries[i].cleaned == Some(d) && !entries[i].delete;
        if i > 0 { assert entries[1..][i - 1] == entries[i]; }
      }
    }
  }

  /** With nothing marked for deletion both views keep the same entries. */
  lemma {:induction false} KeptAgreeWithoutDeletion<D>(entries: seq<FormEntry<D>>)
    requires forall i :: 0 <= i < |entries| ==> !entries[i].delete
    ensures KeptForEdit(entries) == KeptForCreate(entries)
    decreases |entries|
  {
    if entries != [] {
      KeptAgreeWithoutDeletion(entries[1..]);
    }
  }

  // ---------------------------------------------------------------------------
  // forms_are_valid
  // ---------------------------------------------------------------------------

  /** `all(...)` over the forms' `is_valid()` results, in order. */
  function AllValid(results: seq<bool>): bool
  {
    if results == [] then true else results[0] && AllValid(results[1..])
  }

  lemma {:induction false} AllValidIffEvery(results: seq<bool>)
    ensures AllValid(results) <==> forall i :: 0 <= i < |results| ==> results[i]
    decreases |results|
  {
    if results != [] {
      AllValidIffEvery(results[1..]);
      assert forall i :: 1 <= i < |results| ==> results[i] == results[1..][i - 1];
    }
  }

  /** The edit view's variant: the context entries without `is_valid` (None)
      are skipped. */
  function ResultsOfForms(entries: seq<Option<bool>>): (results: seq<bool>)
    ensures |results| <= |entries|
  {
    if entries == [] then []
    else
      var rest := ResultsOfForms(entries[1..]);
      if entries[0].Some? then [entries[0].value] + rest else rest
  }

  function EditFormsAreValid(entries: seq<Option<bool>>): bool
  {
    AllValid(ResultsOfForms(entries))
  }

  lemma {:induction false} EditFormsAreValidIffEvery(entries: seq<Option<bool>>)
    ensures EditFormsAreValid(entries) <==> forall i :: 0 <= i < |entries| && entries[i].Some? ==> entries[i].value
    decreases |entries|
  {
    if entries != [] {
      EditFormsAreValidIffEvery(entries[1..]);
      assert forall i :: 1 <= i < |entries| ==> entries[i] == entries[1..][i - 1];
    }
  }

  // ---------------------------------------------------------------------------
  // The homepage's popular recipes
  // ---------------------------------------------------------------------------

  const RECIPES_ON_HOMEPAGE: nat := 5

  predicate ByLikesDescending(rs: seq<Recipe>) {
    forall i, j :: 0 <= i < j < |rs| ==> rs[i].likes >= rs[j].likes
  }

  /** Inserts `r` into a list ordered by likes, after every recipe with more likes. */
  function InsertByLikes(r: Recipe, sorted: seq<Recipe>): (res: seq<Recipe>)
    requires ByLikesDescending(sorted)
    ensures ByLikesDescending(res)
    ensures multiset(res) == multiset(sorted) + multiset{r}
    ensures |res| > 0 && (res[0] == r || (sorted != [] && res[0] == sorted[0]))
  {
    if sorted == [] || sorted[0].likes <= r.likes then
      ConsByLikes(r, sorted);
      [r] + sorted
    else
      var rest := InsertByLikes(r, sorted[1..]);
      assert sorted == [sorted[0]] + sorted[1..];
      assert rest[0].likes <= sorted[0].likes;
      ConsByLikes(sorted[0], rest);
      [sorted[0]] + rest
  }

  /** A recipe with at least the likes of an ordered list's head may go first. */
  lemma ConsByLikes(r: Recipe, rs: seq<Recipe>)
    requires ByLikesDescending(rs) && (rs == [] || rs[0].likes <= r.likes)
    ensures ByLikesDescending([r] + rs)
  {
    var all := [r] + rs;
    forall i, j | 0 <= i < j < |all| ensures all[i].likes >= all[j].likes {
      if i == 0 {
        assert all[j] == rs[j - 1] && rs[0].likes >= rs[j - 1].likes;
      } else {
        assert all[i] == rs[i - 1] && all[j] == rs[j - 1];
      }
    }
  }

  /** `order_by('-likes')`: the recipes in non-increasing order of likes (ties
      in the order of the input). */
  function SortByLikes(rs: seq<Recipe>): (sorted: seq<Recipe>)
    ensures ByLikesDescending(sorted)
    ensures multiset(sorted) == multiset(rs)
  {
    if rs == [] then []
    else
      assert rs == [rs[0]] + rs[1..];
      InsertByLikes(rs[0], SortByLikes(rs[1..]))
  }

  /** The popular list: the first five recipes by likes. */
  function PopularRecipes(rs: seq<Recipe>): seq<Recipe>
  {
    var sorted := SortByLikes(rs);
    if |sorted| <= RECIPES_ON_HOMEPAGE then sorted else sorted[..RECIPES_ON_HOMEPAGE]
  }

  /** Sorting keeps the number of recipes. */
  lemma SortByLikesLength(rs: seq<Recipe>)
    ensures |SortByLikes(rs)| == |rs|
  {
    var sorted := SortByLikes(rs);
    assert |sorted| == |multiset(sorted)| == |multiset(rs)| == |rs|;
  }

  /** The popular list holds min(5, n) of the recipes, in non-increasing order
      of likes. */
  lemma PopularRecipesShape(rs: seq<Recipe>)
    ensures |PopularRecipes(rs)| == if |rs| < RECIPES_ON_HOMEPAGE then |rs| else RECIPES_ON_HOMEPAGE
    ensures ByLikesDescending(PopularRecipes(rs))
    ensures multiset(PopularRecipes(rs)) <= multiset(rs)
  {
    var sorted := SortByLikes(rs);
    SortByLikesLength(rs);
    var k := if |sorted| <= RECIPES_ON_HOMEPAGE then |sorted| else RECIPES_ON_HOMEPAGE;
    assert PopularRecipes(rs) == sorted[..k];
    SortedPrefix(sorted, k);
  }

  /** A prefix of a list ordered by likes is ordered and drawn from the list. */
  lemma SortedPrefix(sorted: seq<Recipe>, k: nat)
    requires ByLikesDescending(sorted) && k <= |sorted|
    ensures ByLikesDescending(sorted[..k])
    ensures multiset(sorted[..k]) <= multiset(sorted)
  {
    assert sorted == sorted[..k] + sorted[k..];
    assert multiset(sorted) == multiset(sorted[..k]) + multiset(sorted[k..]);
  }

  /** No recipe left out of the popular list has more likes than one shown. */
  lemma PopularRecipesAreTop(rs: seq<Recipe>)
    ensures forall x, i :: x in multiset(rs) - multiset(PopularRecipes(rs)) && 0 <= i < |PopularRecipes(rs)| ==>
      x.likes <= PopularRecipes(rs)[i].likes
  {
    var sorted := SortByLikes(rs);
    var shown := PopularRecipes(rs);
    var k := |shown|;
    assert sorted == shown + sorted[k..];
    assert multiset(rs) - multiset(shown) == multiset(sorted[k..]);
    SortedPrefixDominates(sorted, k);
  }

  /** In a list ordered by likes, nothing after position k has more likes than
      anything before it. */
  lemma SortedPrefixDominates(sorted: seq<Recipe>, k: nat)
    requires ByLikesDescending(sorted) && k <= |sorted|
    ensures forall x, i :: x in multiset(sorted[k..]) && 0 <= i < k ==> x.likes <= sorted[i].likes
  {
    forall x, i | x in multiset(sorted[k..]) && 0 <= i < k
      ensures x.likes <= sorted[i].likes
    {
      assert x in sorted[k..];
      var j :| 0 <= j < |sorted[k..]| && sorted[k..][j] == x;
      assert sorted[k + j] == x;
    }
  }
}
