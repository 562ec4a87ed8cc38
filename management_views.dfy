/**
 * recipe_management/views.py, `CreateRecipeView.post`: the recipe, nutrition
 * and image forms plus four parallel lists of ingredient fields, stored in one
 * transaction. Ingredient rows are formed positionally, blank names are
 * skipped, and a row whose quantity or unit does not parse is skipped with a
 * warning while the others are still stored.
 */
module ManagementViews {
  import opened Wrappers
  import opened Text
  import opened Models
  import opened Store
  import ManagementForms
  import RecipeForms

  // ---------------------------------------------------------------------------
  // zip_longest(names, quantities, units, optionals, fillvalue='')
  // ---------------------------------------------------------------------------

  /** One row of the four posted lists. */
  datatype RawRow = RawRow(name: string, quantity: string, unit: string, optional: string)

  /** The list's k-th value, or the fill value past its end. */
  function At(list: seq<string>, k: nat): string
  {
    if k < |list| then list[k] else ""
  }

  function Max(a: nat, b: nat): nat
  {
    if a < b then b else a
  }

  /** The rows of `zip_longest`: as many as the longest list, shorter lists
      padded with the empty string. */
  function ZipLongest(names: seq<string>, quantities: seq<string>, units: seq<string>,
                      optionals: seq<string>): (rows: seq<RawRow>)
    ensures |rows| == Max(Max(|names|, |quantities|), Max(|units|, |optionals|))
  {
    var n := Max(Max(|names|, |quantities|), Max(|units|, |optionals|));
    seq(n, k requires 0 <= k < n => RawRow(At(names, k), At(quantities, k), At(units, k), At(optionals, k)))
  }

  function Names(rows: seq<RawRow>): (column: seq<string>)
    ensures |column| == |rows|
  {
    seq(|rows|, k requires 0 <= k < |rows| => rows[k].name)
  }

  function Quantities(rows: seq<RawRow>): (column: seq<string>)
    ensures |column| == |rows|
  {
    seq(|rows|, k requires 0 <= k < |rows| => rows[k].quantity)
  }

  function Units(rows: seq<RawRow>): (column: seq<string>)
    ensures |column| == |rows|
  {
    seq(|rows|, k requires 0 <= k < |rows| => rows[k].unit)
  }

  function Optionals(rows: seq<RawRow>): (column: seq<string>)
    ensures |column| == |rows|
  {
    seq(|rows|, k requires 0 <= k < |rows| => rows[k].optional)
  }

  function Fill(n: nat): (s: seq<string>)
    ensures |s| == n && forall k :: 0 <= k < n ==> s[k] == ""
  {
    if n == 0 then [] else Fill(n - 1) + [""]
  }

  /** Unzipping the rows gives back each posted list, followed by the padding. */
  lemma ZipLongestColumns(names: seq<string>, quantities: seq<string>, units: seq<string>, optionals: seq<string>)
    ensures var rows := ZipLongest(names, quantities, units, optionals);
      && Names(rows) == names + Fill(|rows| - |names|)
      && Quantities(rows) == quantities + Fill(|rows| - |quantities|)
      && Units(rows) == units + Fill(|rows| - |units|)
      && Optionals(rows) == optionals + Fill(|rows| - |optionals|)
  {
  }

  // ---------------------------------------------------------------------------
  // One row
  // ---------------------------------------------------------------------------

  /** What the loop body does with a row. */
  datatype RowOutcome =
    | BlankName
      /** `Decimal(quantity or "0")` or `int(unit or 0)` raised: skipped with a
          warning naming the stripped name. */
    | Invalid(cleanName: string)
    | Parsed(name: string, quantity: Decimal, unit: int, optional: bool)

  /** `int(unit or 0)`: the empty string stands for 0. */
  function ParseUnit(unit: string): Option<int>
  {
    if unit == "" then Some(0) else ParseInt(unit)
  }

  /** `Decimal(quantity or "0")`. */
  function ParseQuantity(quantity: string): Option<Decimal>
  {
    ParseDecimal(if quantity == "" then "0" else quantity)
  }

  function ParseRow(row: RawRow): (o: RowOutcome)
    ensures o.BlankName? <==> Blank(row.name)
    ensures o.Invalid? ==> o.cleanName == Strip(row.name)
  {
    StripEmptyIffBlank(row.name);
    var cleanName := Strip(row.name);
    if cleanName == "" then BlankName
    else
      var quantity := ParseQuantity(row.quantity);
      var unit := ParseUnit(row.unit);
      if quantity.None? || unit.None? then Invalid(cleanName)
      else Parsed(Lower(cleanName), quantity.value, unit.value, row.optional == "True")
  }

  /** A stored name is the stripped, lower-cased posted name: never empty, no
      surrounding whitespace, no upper-case letter. */
  lemma ParsedNameIsClean(row: RawRow)
    requires ParseRow(row).Parsed?
    ensures var name := ParseRow(row).name;
      && name == Lower(Strip(row.name))
      && name != [] && !IsSpace(name[0]) && !IsSpace(name[|name| - 1])
      && forall i :: 0 <= i < |name| ==> !IsUpper(name[i])
  {
    LowerStripped(row.name);
  }

  /** An empty quantity is 0, an empty unit is 0, and the optional flag is set
      by exactly the string "True". */
  lemma ParseRowDefaults(name: string, optional: string)
    requires !Blank(name)
    ensures ParseRow(RawRow(name, "", "", optional)) == Parsed(Lower(Strip(name)), Decimal(0, 0), 0, optional == "True")
    ensures IsUnit(ParseRow(RawRow(name, "", "", optional)).unit) && ParseRow(RawRow(name, "", "", optional)).unit == DEFAULT_UNIT
  {
    StripEmptyIffBlank(name);
    assert SignAndBody("0") == (false, "0");
    SplitWithoutSeparator("0", '.');
    assert "0" + "" == "0";
  }

  /** A quantity posted as the decimal string of an integer reads back as
      that integer, with no fractional digits. */
  lemma QuantityStringRoundTrip(quantity: int)
    requires WithinDigitLimit(quantity)
    ensures ParseQuantity(IntToString(quantity)) == Some(Decimal(quantity, 0))
  {
    IntRoundTrip(quantity);
    IntStringIsDecimal(IntToString(quantity));
  }

  /** A unit posted as the decimal string of an integer reads back as it. */
  lemma UnitStringRoundTrip(unit: int)
    requires WithinDigitLimit(unit)
    ensures ParseUnit(IntToString(unit)) == Some(unit)
  {
    IntRoundTrip(unit);
  }

  /** Every parsed row is read back from the strings a form would post for its
      values: the name unchanged when already clean, the quantity and unit from
      their decimal strings. */
  lemma ParseRowRoundTrip(name: string, quantity: int, unit: int, optional: bool)
    requires name != [] && !IsSpace(name[0]) && !IsSpace(name[|name| - 1])
    requires Lower(name) == name
    requires WithinDigitLimit(quantity) && WithinDigitLimit(unit)
    ensures ParseRow(RawRow(name, IntToString(quantity), IntToString(unit), if optional then "True" else "False"))
         == Parsed(name, Decimal(quantity, 0), unit, optional)
  {
    var row := RawRow(name, IntToString(quantity), IntToString(unit), if optional then "True" else "False");
    StripUnchanged(name);
    QuantityStringRoundTrip(quantity);
    UnitStringRoundTrip(unit);
    ParseRowParsed(row, Decimal(quantity, 0), unit);
  }

  /** A named row whose quantity and unit parse is stored with those values. */
  lemma ParseRowParsed(row: RawRow, quantity: Decimal, unit: int)
    requires !Blank(row.name)
    requires ParseQuantity(row.quantity) == Some(quantity) && ParseUnit(row.unit) == Some(unit)
    ensures ParseRow(row) == Parsed(Lower(Strip(row.name)), quantity, unit, row.optional == "True")
  {
  }

  /** A unit of more digits than `int()` reads makes a named row invalid, so
      it is skipped with a warning rather than stored. */
  lemma OverlongUnitInvalidates(row: RawRow)
    requires !Blank(row.name)
    requires |row.unit| > MAX_STR_DIGITS && AllDigits(row.unit)
    ensures ParseRow(row) == Invalid(Strip(row.name))
  {
    ParseIntDigitLimit(row.unit);
  }

  /** The view does not check the unit against the field's choices: any
      integer the unit string spells is stored, a value outside the choices
      included. */
  lemma UnitChoicesNotChecked(name: string, unit: int)
    requires !Blank(name) && WithinDigitLimit(unit)
    ensures var o := ParseRow(RawRow(name, "", IntToString(unit), ""));
      o.Parsed? && o.unit == unit
    ensures !IsUnit(|UNIT_LABELS|) && ParseRow(RawRow(name, "", IntToString(|UNIT_LABELS|), "")).Parsed?
  {
    UnitStringRoundTrip(unit);
    UnitStringRoundTrip(|UNIT_LABELS|);
    ParseRowDefaults(name, "");
  }

  /** A quantity or unit that does not parse makes the row invalid whatever the
      other fields hold. */
  lemma UnparsableFieldInvalidates(row: RawRow)
    requires !Blank(row.name)
    requires ParseQuantity(row.quantity).None? || ParseUnit(row.unit).None?
    ensures ParseRow(row) == Invalid(Strip(row.name))
  {
  }

  // ---------------------------------------------------------------------------
  // All rows
  // ---------------------------------------------------------------------------

  /** The outcome of every row, in order. */
  function ParseRows(rows: seq<RawRow>): (outcomes: seq<RowOutcome>)
    ensures |outcomes| == |rows|
  {
    seq(|rows|, k requires 0 <= k < |rows| => ParseRow(rows[k]))
  }

  /** The outcomes that store a row, in order. */
  function Kept(outcomes: seq<RowOutcome>): (parsed: seq<RowOutcome>)
    ensures |parsed| <= |outcomes|
    ensures forall k :: 0 <= k < |parsed| ==> parsed[k].Parsed?
    decreases |outcomes|
  {
    if outcomes == [] then []
    else
      var last := outcomes[|outcomes| - 1];
      Kept(outcomes[..|outcomes| - 1]) + (if last.Parsed? then [last] else [])
  }

  /** The names the warnings report, in order. */
  function Reported(outcomes: seq<RowOutcome>): (names: seq<string>)
    ensures |names| <= |outcomes|
    decreases |outcomes|
  {
    if outcomes == [] then []
    else
      var last := outcomes[|outcomes| - 1];
      Reported(outcomes[..|outcomes| - 1]) + (if last.Invalid? then [last.cleanName] else [])
  }

  /** The rows that become Ingredient rows, in order. */
  function Accepted(rows: seq<RawRow>): (parsed: seq<RowOutcome>)
    ensures |parsed| <= |rows|
    ensures forall k :: 0 <= k < |parsed| ==> parsed[k].Parsed?
  {
    Kept(ParseRows(rows))
  }

  /** The stripped names of the rows skipped with a warning, in order. */
  function SkippedNames(rows: seq<RawRow>): (names: seq<string>)
    ensures |names| <= |rows|
  {
    Reported(ParseRows(rows))
  }

  lemma {:induction false} KeptAppend(a: seq<RowOutcome>, b: seq<RowOutcome>)
    ensures Kept(a + b) == Kept(a) + Kept(b)
    ensures Reported(a + b) == Reported(a) + Reported(b)
    decreases |b|
  {
    if b == [] {
      assert a + b == a;
    } else {
      var init := b[..|b| - 1];
      assert (a + b)[..|a + b| - 1] == a + init;
      assert (a + b)[|a + b| - 1] == b[|b| - 1];
      KeptAppend(a, init);
    }
  }

  /** A skipped row does not stop the loop: the rows after it are handled as
      if it had not been there. */
  lemma AcceptedAppend(a: seq<RawRow>, b: seq<RawRow>)
    ensures Accepted(a + b) == Accepted(a) + Accepted(b)
    ensures SkippedNames(a + b) == SkippedNames(a) + SkippedNames(b)
  {
    ParseRowsAppend(a, b);
    KeptAppend(ParseRows(a), ParseRows(b));
  }

  /** Each row is parsed on its own. */
  lemma ParseRowsAppend(a: seq<RawRow>, b: seq<RawRow>)
    ensures ParseRows(a + b) == ParseRows(a) + ParseRows(b)
  {
    ParseRowsIsMap(a);
    ParseRowsIsMap(b);
    ParseRowsIsMap(a + b);
    MapAllAppend(ParseRow, a, b);
  }

  /** `f` applied to every element, in order. */
  function MapAll<A, B>(f: A -> B, xs: seq<A>): (ys: seq<B>)
    ensures |ys| == |xs|
  {
    seq(|xs|, k requires 0 <= k < |xs| => f(xs[k]))
  }

  lemma MapAllAppend<A, B>(f: A -> B, a: seq<A>, b: seq<A>)
    ensures MapAll(f, a + b) == MapAll(f, a) + MapAll(f, b)
  {
    var whole, parts := MapAll(f, a + b), MapAll(f, a) + MapAll(f, b);
    forall k | 0 <= k < |a + b| ensures whole[k] == parts[k] {
      if k < |a| {
        assert (a + b)[k] == a[k];
      } else {
        assert (a + b)[k] == b[k - |a|];
      }
    }
  }

  lemma ParseRowsIsMap(rows: seq<RawRow>)
    ensures ParseRows(rows) == MapAll(ParseRow, rows)
  {
    var mapped := MapAll(ParseRow, rows);
    forall k | 0 <= k < |rows| ensures ParseRows(rows)[k] == mapped[k] {
    }
  }

  /** A single row is accepted exactly when it parses, and skipped with a
      warning exactly when it is invalid. */
  lemma AcceptedSingle(row: RawRow)
    ensures Accepted([row]) == if ParseRow(row).Parsed? then [ParseRow(row)] else []
    ensures SkippedNames([row]) == if ParseRow(row).Invalid? then [ParseRow(row).cleanName] else []
  {
    assert ParseRows([row]) == [ParseRow(row)];
    assert ParseRows([row])[..0] == [];
  }

  lemma {:induction false} KeptMembership(outcomes: seq<RowOutcome>, o: RowOutcome)
    ensures o in Kept(outcomes) <==> o in outcomes && o.Parsed?
    decreases |outcomes|
  {
    if outcomes != [] {
      var init := outcomes[..|outcomes| - 1];
      KeptMembership(init, o);
      assert outcomes == init + [outcomes[|outcomes| - 1]];
    }
  }

  /** Exactly the rows that parse are stored. */
  lemma AcceptedMembership(rows: seq<RawRow>, o: RowOutcome)
    ensures o in Accepted(rows) <==> o.Parsed? && exists k :: 0 <= k < |rows| && ParseRow(rows[k]) == o
  {
    KeptMembership(ParseRows(rows), o);
    if o in ParseRows(rows) {
      var k :| 0 <= k < |rows| && ParseRows(rows)[k] == o;
      assert ParseRow(rows[k]) == o;
    }
    if exists k :: 0 <= k < |rows| && ParseRow(rows[k]) == o {
      var k :| 0 <= k < |rows| && ParseRow(rows[k]) == o;
      assert ParseRows(rows)[k] == o;
    }
  }

  /** When no row parses, nothing is stored: the recipe is still created, with
      no ingredient. */
  lemma NoParsedRowStoresNothing(rows: seq<RawRow>)
    requires forall k :: 0 <= k < |rows| ==> !ParseRow(rows[k]).Parsed?
    ensures Accepted(rows) == []
  {
    if Accepted(rows) != [] {
      AcceptedMembership(rows, Accepted(rows)[0]);
    }
  }

  /** The number of outcomes that are not a blank name. */
  function Handled(outcomes: seq<RowOutcome>): nat
    decreases |outcomes|
  {
    if outcomes == [] then 0
    else Handled(outcomes[..|outcomes| - 1]) + (if outcomes[|outcomes| - 1].BlankName? then 0 else 1)
  }

  lemma {:induction false} KeptCount(outcomes: seq<RowOutcome>)
    ensures |Kept(outcomes)| + |Reported(outcomes)| == Handled(outcomes)
    decreases |outcomes|
  {
    if outcomes != [] {
      KeptCount(outcomes[..|outcomes| - 1]);
    }
  }

  /** The number of rows with a non-blank name. */
  function NonBlankCount(rows: seq<RawRow>): nat
    decreases |rows|
  {
    if rows == [] then 0
    else NonBlankCount(rows[..|rows| - 1]) + (if Blank(rows[|rows| - 1].name) then 0 else 1)
  }

  lemma {:induction false} HandledRows(rows: seq<RawRow>)
    ensures Handled(ParseRows(rows)) == NonBlankCount(rows)
    decreases |rows|
  {
    if rows != [] {
      var init := rows[..|rows| - 1];
      HandledRows(init);
      assert ParseRows(rows)[..|rows| - 1] == ParseRows(init);
    }
  }

  /** Every non-blank row is either stored or reported, never both. */
  lemma EveryNonBlankRowAccounted(rows: seq<RawRow>)
    ensures |Accepted(rows)| + |SkippedNames(rows)| == NonBlankCount(rows)
  {
    KeptCount(ParseRows(rows));
    HandledRows(rows);
  }

  /** Whether some posted name is non-blank (the view's first check). */
  predicate HasIngredientName(names: seq<string>) {
    exists k :: 0 <= k < |names| && !Blank(names[k])
  }

  // ---------------------------------------------------------------------------
  // The submission
  // ---------------------------------------------------------------------------

  /** The image field of the bound RecipeImageForm. */
  datatype ImageUpload = NoUpload | Upload(filename: string) | NotAnImage

  /** What the view answers. */
  datatype Submission =
    | NoIngredients
    | InvalidForms
      /** The id of the new recipe and the names of the rows skipped with a
          warning. */
    | Created(id: RecipeId, skipped: seq<string>)

  /** The recipe form (None: a required field is missing or malformed), the
      nutrition form (the same) and the image form all valid. */
  predicate FormsValid(recipes: map<RecipeId, Recipe>, user: UserId, recipe: Option<RecipeForms.RecipeInput>,
                       nutrition: Option<Nutrition>, image: ImageUpload)
  {
    && recipe.Some? && ManagementForms.IsValid(recipes, Some(user), recipe.value)
    && nutrition.Some?
    && !image.NotAnImage?
  }

  /** The image name the RecipeImage row stores: the upload's path, or the
      field's default without an upload. */
  function StoredImage(user: UserId, title: string, image: ImageUpload): (name: string)
    ensures image.NoUpload? ==> name == DEFAULT_RECIPE_IMAGE
  {
    match image
    case Upload(filename) => RecipeImageUploadTo(user, title, filename)
    case _ => DEFAULT_RECIPE_IMAGE
  }

  /** The Ingredient rows for the accepted rows, numbered from `firstId`. */
  function IngredientRowsFor(firstId: nat, recipe: RecipeId, parsed: seq<RowOutcome>): (rows: seq<Ingredient>)
    requires forall k :: 0 <= k < |parsed| ==> parsed[k].Parsed?
    ensures |rows| == |parsed|
  {
    seq(|parsed|, k requires 0 <= k < |parsed| && parsed[k].Parsed? =>
      Ingredient(firstId + k, recipe, parsed[k].name, parsed[k].quantity, parsed[k].unit, parsed[k].optional))
  }

  /** The tables after a successful submission: one recipe by the user, one
      nutrition row, one image row and the accepted ingredient rows. */
  function SubmittedTables(t: Tables, user: UserId, recipe: RecipeForms.RecipeInput, nutrition: Nutrition,
                           image: ImageUpload, rows: seq<RawRow>): Tables
  {
    var id := t.nextRecipeId;
    var accepted := Accepted(rows);
    t.(recipes := t.recipes[id := RecipeForms.AsRecipe(recipe, user)], nextRecipeId := id + 1,
       nutrition := t.nutrition[id := nutrition],
       images := t.images + [RecipeImage(t.nextImageId, id, StoredImage(user, recipe.title, image))],
       nextImageId := t.nextImageId + 1,
       ingredients := t.ingredients + IngredientRowsFor(t.nextIngredientId, id, accepted),
       nextIngredientId := t.nextIngredientId + |accepted|)
  }

  /** A valid recipe form never lets the insert break the (title, author)
      constraint, so the view's IntegrityError handler is never reached from a
      consistent database, and the new tables are consistent. */
  lemma SubmittedTablesConsistent(t: Tables, user: UserId, recipe: RecipeForms.RecipeInput, nutrition: Nutrition,
                                  image: ImageUpload, rows: seq<RawRow>)
    requires Consistent(t) && ManagementForms.IsValid(t.recipes, Some(user), recipe)
    ensures !TitleTaken(t.recipes, recipe.title, user)
    ensures Consistent(SubmittedTables(t, user, recipe, nutrition, image, rows))
  {
    var id := t.nextRecipeId;
    var r := RecipeForms.AsRecipe(recipe, user);
    assert ManagementForms.CleanTitle(t.recipes, Some(user), recipe.title).Success?;
    var u := SubmittedTables(t, user, recipe, nutrition, image, rows);
    forall i, j | i in u.recipes && j in u.recipes && i != j
      ensures u.recipes[i].title != u.recipes[j].title || u.recipes[i].author != u.recipes[j].author
    {
      if i != id && j != id {
        assert u.recipes[i] == t.recipes[i] && u.recipes[j] == t.recipes[j];
      }
    }
    var added := IngredientRowsFor(t.nextIngredientId, id, Accepted(rows));
    forall i | 0 <= i < |u.ingredients|
      ensures u.ingredients[i].recipe in u.recipes && u.ingredients[i].id < u.nextIngredientId
    {
      if i >= |t.ingredients| {
        assert u.ingredients[i] == added[i - |t.ingredients|];
      }
    }
  }

  /** Handling one more outcome extends what the loop has stored or reported. */
  lemma KeptStep(outcomes: seq<RowOutcome>, i: nat)
    requires i < |outcomes|
    ensures outcomes[i].Parsed? ==> Kept(outcomes[..i + 1]) == Kept(outcomes[..i]) + [outcomes[i]]
    ensures !outcomes[i].Parsed? ==> Kept(outcomes[..i + 1]) == Kept(outcomes[..i])
    ensures outcomes[i].Invalid? ==> Reported(outcomes[..i + 1]) == Reported(outcomes[..i]) + [outcomes[i].cleanName]
    ensures !outcomes[i].Invalid? ==> Reported(outcomes[..i + 1]) == Reported(outcomes[..i])
  {
    assert outcomes[..i + 1][..i] == outcomes[..i];
    assert Kept(outcomes[..i]) + [] == Kept(outcomes[..i]);
    assert Reported(outcomes[..i]) + [] == Reported(outcomes[..i]);
  }

  lemma RowsForStep(firstId: nat, recipe: RecipeId, parsed: seq<RowOutcome>, o: RowOutcome)
    requires forall k :: 0 <= k < |parsed| ==> parsed[k].Parsed?
    requires o.Parsed?
    ensures IngredientRowsFor(firstId, recipe, parsed + [o])
         == IngredientRowsFor(firstId, recipe, parsed)
            + [Ingredient(firstId + |parsed|, recipe, o.name, o.quantity, o.unit, o.optional)]
  {
  }

  /** The loop over the rows' outcomes: each accepted row is inserted under the
      next key, each invalid one only reported. */
  method StoreOutcomes(db: Database, id: RecipeId, outcomes: seq<RowOutcome>) returns (skipped: seq<string>)
    modifies db
    ensures skipped == Reported(outcomes)
    ensures db.State() == old(db.State()).(
      ingredients := old(db.ingredients) + IngredientRowsFor(old(db.nextIngredientId), id, Kept(outcomes)),
      nextIngredientId := old(db.nextIngredientId) + |Kept(outcomes)|)
  {
    ghost var start := db.State();
    ghost var accepted: seq<RowOutcome> := [];
    skipped := [];
    var i := 0;
    while i < |outcomes|
      invariant 0 <= i <= |outcomes|
      invariant accepted == Kept(outcomes[..i])
      invariant skipped == Reported(outcomes[..i])
      invariant db.State() == start.(
        ingredients := start.ingredients + IngredientRowsFor(start.nextIngredientId, id, accepted),
        nextIngredientId := start.nextIngredientId + |accepted|)
    {
      KeptStep(outcomes, i);
      var outcome := outcomes[i];
      if outcome.Invalid? {
        skipped := skipped + [outcome.cleanName];
      } else if outcome.Parsed? {
        RowsForStep(start.nextIngredientId, id, accepted, outcome);
        ghost var added := IngredientRowsFor(start.nextIngredientId, id, accepted);
        ghost var row := Ingredient(start.nextIngredientId + |accepted|, id, outcome.name, outcome.quantity,
                                    outcome.unit, outcome.optional);
        db.InsertIngredient(id, outcome.name, outcome.quantity, outcome.unit, outcome.optional);
        assert (start.ingredients + added) + [row] == start.ingredients + (added + [row]);
        accepted := accepted + [outcome];
      }
      i := i + 1;
    }
    assert outcomes[..i] == outcomes;
  }

  /** The `for` loop over the zipped rows. Parsing a row writes nothing, so the
      rows are parsed first and then stored in order. */
  method StoreRows(db: Database, id: RecipeId, rows: seq<RawRow>) returns (skipped: seq<string>)
    modifies db
    ensures skipped == SkippedNames(rows)
    ensures db.State() == old(db.State()).(
      ingredients := old(db.ingredients) + IngredientRowsFor(old(db.nextIngredientId), id, Accepted(rows)),
      nextIngredientId := old(db.nextIngredientId) + |Accepted(rows)|)
  {
    skipped := StoreOutcomes(db, id, ParseRows(rows));
  }

  /** `CreateRecipeView.post`. Without a non-blank ingredient name, or with an
      invalid form, nothing is written. Otherwise one transaction stores the
      recipe (authored by the user), its nutrition row, one image row and one
      ingredient row per accepted row, reporting the skipped rows. */
  method CreateRecipeSubmission(db: Database, user: UserId, recipe: Option<RecipeForms.RecipeInput>,
                                nutrition: Option<Nutrition>, image: ImageUpload,
                                names: seq<string>, quantities: seq<string>, units: seq<string>,
                                optionals: seq<string>)
    returns (s: Submission)
    requires db.Valid()
    modifies db
    ensures db.Valid()
    ensures s.NoIngredients? <==> !HasIngredientName(names)
    ensures s.InvalidForms? <==>
      HasIngredientName(names) && !FormsValid(old(db.recipes), user, recipe, nutrition, image)
    ensures !s.Created? ==> db.State() == old(db.State())
    ensures s.Created? ==>
      var rows := ZipLongest(names, quantities, units, optionals);
      && s.id == old(db.nextRecipeId) && s.id !in old(db.recipes)
      && s.skipped == SkippedNames(rows)
      && db.State() == SubmittedTables(old(db.State()), user, recipe.value, nutrition.value, image, rows)
  {
    var k := 0;
    while k < |names| && Blank(names[k])
      invariant 0 <= k <= |names|
      invariant forall j :: 0 <= j < k ==> Blank(names[j])
    {
      k := k + 1;
    }
    if k == |names| {
      return NoIngredients;
    }
    if !FormsValid(db.recipes, user, recipe, nutrition, image) {
      return InvalidForms;
    }
    ghost var start := db.State();
    SubmittedTablesConsistent(start, user, recipe.value, nutrition.value, image,
                              ZipLongest(names, quantities, units, optionals));
    var id := db.InsertRecipe(RecipeForms.AsRecipe(recipe.value, user));
    db.SaveNutrition(id, nutrition.value);
    db.InsertImage(id, StoredImage(user, recipe.value.title, image));
    var rows := ZipLongest(names, quantities, units, optionals);
    var skipped := StoreRows(db, id, rows);
    return Created(id, skipped);
  }
}
