/**
 * The recipe store: the two tables `recipe_categories` and `recipes` and the
 * exported operations over them (`addCategory`, `getCategorySummaries`,
 * `hasCategory`, `getCategory`, `addRecipe`, `deleteRecipe`) together with the
 * seeding that runs when the category table is empty.
 *
 * Each table is a sequence of rows in rowid order. The constraints of the
 * schema (UNIQUE slug, fresh primary keys, NOT NULL category reference,
 * foreign key to an existing category) are the class invariant `Valid`.
 */
module RecipeStore {
  import opened Wrappers

  /** A row of `recipe_categories`: `category_id` (the internal key), `id`
      (the slug used in URLs) and `name`. */
  datatype Category = Category(key: int, slug: string, name: string)

  /** The three text columns a recipe is created from. */
  datatype RecipeData = RecipeData(title: string, ingredients: string, instructions: string)

  /** A row of `recipes`: `id`, `category_id` and the three text columns. */
  datatype Recipe = Recipe(id: int, categoryKey: int, data: RecipeData)

  /** A recipe as the module's statements return it: `id, title, ingredients, instructions`. */
  datatype RecipeView = RecipeView(id: int, title: string, ingredients: string, instructions: string)

  /** A row of the category listing: `id, name`. */
  datatype CategorySummary = CategorySummary(slug: string, name: string)

  /** What `getCategory` returns: the category row with its recipes attached. */
  datatype CategoryWithRecipes = CategoryWithRecipes(key: int, slug: string, name: string, recipes: seq<RecipeView>)

  /** The table constraint a refused INSERT violates. */
  datatype Violation =
    | UniqueSlug       // UNIQUE on recipe_categories.id
    | NotNullCategory  // NOT NULL on recipes.category_id

  function View(r: Recipe): RecipeView {
    RecipeView(r.id, r.data.title, r.data.ingredients, r.data.instructions)
  }

  function Views(rs: seq<Recipe>): (r: seq<RecipeView>)
    ensures |r| == |rs|
  {
    seq(|rs|, i requires 0 <= i < |rs| => View(rs[i]))
  }

  function Summaries(cats: seq<Category>): (r: seq<CategorySummary>)
    ensures |r| == |cats|
  {
    seq(|cats|, i requires 0 <= i < |cats| => CategorySummary(cats[i].slug, cats[i].name))
  }

  function CategoryKeys(cats: seq<Category>): (r: seq<int>)
    ensures |r| == |cats|
  {
    seq(|cats|, i requires 0 <= i < |cats| => cats[i].key)
  }

  function RecipeIds(rs: seq<Recipe>): (r: seq<int>)
    ensures |r| == |rs|
  {
    seq(|rs|, i requires 0 <= i < |rs| => rs[i].id)
  }

  predicate UniqueSlugs(cats: seq<Category>) {
    forall i, j :: 0 <= i < j < |cats| ==> cats[i].slug != cats[j].slug
  }

  predicate UniqueKeys(keys: seq<int>) {
    forall i, j :: 0 <= i < j < |keys| ==> keys[i] != keys[j]
  }

  /** Every recipe's `category_id` names an existing category. */
  predicate ReferencesResolve(cats: seq<Category>, rs: seq<Recipe>) {
    forall x :: x in rs ==> x.categoryKey in CategoryKeys(cats)
  }

  /** A key that no existing row uses; INTEGER PRIMARY KEY picks one for every
      INSERT that does not name it. */
  function FreshKey(keys: seq<int>): (k: int)
    ensures k >= 1
    ensures forall x :: x in keys ==> x < k
  {
    if keys == [] then 1
    else
      var k := FreshKey(keys[1..]);
      assert forall x :: x in keys ==> x == keys[0] || x in keys[1..];
      if keys[0] < k then k else keys[0] + 1
  }

  /** `SELECT category_id, id, name FROM recipe_categories WHERE id = ?`, read
      with `.get`: the first row with this slug, if any. */
  function FindCategory(cats: seq<Category>, slug: string): (r: Option<Category>)
    ensures r.None? <==> forall c :: c in cats ==> c.slug != slug
    ensures r.Some? ==> r.value in cats && r.value.slug == slug
  {
    if cats == [] then None
    else if cats[0].slug == slug then Some(cats[0])
    else FindCategory(cats[1..], slug)
  }

  /** `SELECT ... FROM recipes WHERE category_id = ?`: the recipes of one
      category, in table order. */
  function RecipesIn(rs: seq<Recipe>, key: int): (r: seq<Recipe>)
    ensures |r| <= |rs|
  {
    if rs == [] then []
    else (if rs[0].categoryKey == key then [rs[0]] else []) + RecipesIn(rs[1..], key)
  }

  /** `DELETE FROM recipes WHERE id = ?`: the table without the rows of that id. */
  function WithoutRecipe(rs: seq<Recipe>, id: int): (r: seq<Recipe>)
    ensures |r| <= |rs|
  {
    if rs == [] then []
    else (if rs[0].id == id then [] else [rs[0]]) + WithoutRecipe(rs[1..], id)
  }

  /** A category's recipes are exactly the rows whose `category_id` is its key. */
  lemma {:induction false} RecipesInMembers(rs: seq<Recipe>, key: int, x: Recipe)
    ensures x in RecipesIn(rs, key) <==> x in rs && x.categoryKey == key
  {
    if rs != [] {
      assert rs == [rs[0]] + rs[1..];
      RecipesInMembers(rs[1..], key, x);
    }
  }

  /** After a delete, the rows left are exactly those with another id. */
  lemma {:induction false} WithoutRecipeMembers(rs: seq<Recipe>, id: int, x: Recipe)
    ensures x in WithoutRecipe(rs, id) <==> x in rs && x.id != id
  {
    if rs != [] {
      assert rs == [rs[0]] + rs[1..];
      WithoutRecipeMembers(rs[1..], id, x);
    }
  }

  /** The WHERE filter of a listing distributes over the rows of two tables. */
  lemma {:induction false} RecipesInConcat(a: seq<Recipe>, b: seq<Recipe>, key: int)
    ensures RecipesIn(a + b, key) == RecipesIn(a, key) + RecipesIn(b, key)
  {
    if a == [] {
      assert a + b == b;
    } else {
      var head := if a[0].categoryKey == key then [a[0]] else [];
      assert (a + b)[0] == a[0];
      assert (a + b)[1..] == a[1..] + b;
      assert RecipesIn(a + b, key) == head + RecipesIn(a[1..] + b, key);
      RecipesInConcat(a[1..], b, key);
      assert RecipesIn(a, key) == head + RecipesIn(a[1..], key);
    }
  }

  /** The WHERE filter of a delete distributes over the rows of two tables. */
  lemma {:induction false} WithoutRecipeConcat(a: seq<Recipe>, b: seq<Recipe>, id: int)
    ensures WithoutRecipe(a + b, id) == WithoutRecipe(a, id) + WithoutRecipe(b, id)
  {
    if a == [] {
      assert a + b == b;
    } else {
      assert (a + b)[0] == a[0];
      assert (a + b)[1..] == a[1..] + b;
      WithoutRecipeConcat(a[1..], b, id);
    }
  }

  /** With unique slugs, looking up the slug of any row finds that row. */
  lemma {:induction false} FindCategoryAt(cats: seq<Category>, i: int)
    requires UniqueSlugs(cats)
    requires 0 <= i < |cats|
    ensures FindCategory(cats, cats[i].slug) == Some(cats[i])
  {
    if i > 0 {
      assert cats[0].slug != cats[i].slug;
      assert cats[1..][i - 1] == cats[i];
      FindCategoryAt(cats[1..], i - 1);
    }
  }

  /** Filtering a table that grew by one row filters the new row on its own. */
  lemma RecipesInAppend(rs: seq<Recipe>, x: Recipe, key: int)
    ensures RecipesIn(rs + [x], key) == RecipesIn(rs, key) + (if x.categoryKey == key then [x] else [])
  {
    RecipesInConcat(rs, [x], key);
  }

  /** Deleting a recipe and then listing a category lists that category
      without the deleted recipe. */
  lemma {:induction false} RecipesInWithout(rs: seq<Recipe>, id: int, key: int)
    ensures RecipesIn(WithoutRecipe(rs, id), key) == WithoutRecipe(RecipesIn(rs, key), id)
  {
    if rs != [] {
      var h, t := rs[0], rs[1..];
      var kept := if h.id == id then [] else [h];
      assert WithoutRecipe(rs, id) == kept + WithoutRecipe(t, id);
      RecipesInConcat(kept, WithoutRecipe(t, id), key);
      var listed := if h.categoryKey == key then [h] else [];
      assert RecipesIn(rs, key) == listed + RecipesIn(t, key);
      WithoutRecipeConcat(listed, RecipesIn(t, key), id);
      RecipesInWithout(t, id, key);
    }
  }

  /** Deleting the same id twice deletes no more than once. */
  lemma {:induction false} WithoutRecipeIdempotent(rs: seq<Recipe>, id: int)
    ensures WithoutRecipe(WithoutRecipe(rs, id), id) == WithoutRecipe(rs, id)
  {
    if rs != [] {
      var kept := if rs[0].id == id then [] else [rs[0]];
      WithoutRecipeConcat(kept, WithoutRecipe(rs[1..], id), id);
      WithoutRecipeIdempotent(rs[1..], id);
    }
  }

  /** Deleting an id no row has leaves the table as it was. */
  lemma {:induction false} WithoutAbsentRecipe(rs: seq<Recipe>, id: int)
    requires id !in RecipeIds(rs)
    ensures WithoutRecipe(rs, id) == rs
  {
    if rs != [] {
      assert RecipeIds(rs)[0] == rs[0].id;
      assert RecipeIds(rs[1..]) == RecipeIds(rs)[1..];
      WithoutAbsentRecipe(rs[1..], id);
    }
  }

  /** With unique ids, a delete removes exactly the one row with that id when
      there is one, keeping the others in order. */
  lemma {:induction false} WithoutRecipeAt(rs: seq<Recipe>, k: int)
    requires UniqueKeys(RecipeIds(rs))
    requires 0 <= k < |rs|
    ensures WithoutRecipe(rs, rs[k].id) == rs[..k] + rs[k + 1..]
  {
    var id := rs[k].id;
    if k == 0 {
      forall j | 0 <= j < |rs| - 1 ensures RecipeIds(rs[1..])[j] != id {
        assert RecipeIds(rs)[j + 1] != RecipeIds(rs)[0];
      }
      WithoutAbsentRecipe(rs[1..], id);
    } else {
      assert RecipeIds(rs)[0] != RecipeIds(rs)[k];
      assert RecipeIds(rs[1..]) == RecipeIds(rs)[1..];
      assert rs[1..][k - 1] == rs[k];
      WithoutRecipeAt(rs[1..], k - 1);
      assert rs[..k] == [rs[0]] + rs[1..][..k - 1];
      assert rs[k + 1..] == rs[1..][k..];
    }
  }

  /** Removing one row keeps the remaining ids distinct. */
  lemma UniqueIdsAfterRemoval(rs: seq<Recipe>, k: int)
    requires UniqueKeys(RecipeIds(rs))
    requires 0 <= k < |rs|
    ensures UniqueKeys(RecipeIds(rs[..k] + rs[k + 1..]))
  {
    var r := rs[..k] + rs[k + 1..];
    forall i, j | 0 <= i < j < |r| ensures RecipeIds(r)[i] != RecipeIds(r)[j] {
      var i', j' := if i < k then i else i + 1, if j < k then j else j + 1;
      assert r[i] == rs[i'] && r[j] == rs[j'];
      assert RecipeIds(rs)[i'] != RecipeIds(rs)[j'];
    }
  }

  /** The recipes of a category no recipe references: none. */
  lemma RecipesInUnreferenced(rs: seq<Recipe>, key: int)
    requires forall x :: x in rs ==> x.categoryKey != key
    ensures RecipesIn(rs, key) == []
  {
    if RecipesIn(rs, key) != [] {
      RecipesInMembers(rs, key, RecipesIn(rs, key)[0]);
    }
  }

  /** With no categories, the foreign key admits no recipe rows. */
  lemma NoRecipesWithoutCategories(cats: seq<Category>, rs: seq<Recipe>)
    requires cats == []
    requires ReferencesResolve(cats, rs)
    ensures rs == []
  {
    // A first row, if there were one, would have to reference a category key.
    var firstKey := if rs == [] then 0 else rs[0].categoryKey;
    assert CategoryKeys(cats) == [];
  }

  /** A row of the category lands in the listing right after the rows of the
      category that precede it in the table. */
  lemma RecipesInPosition(rs: seq<Recipe>, key: int, p: int)
    requires 0 <= p < |rs| && rs[p].categoryKey == key
    ensures |RecipesIn(rs[..p], key)| < |RecipesIn(rs, key)|
    ensures RecipesIn(rs, key)[|RecipesIn(rs[..p], key)|] == rs[p]
  {
    assert rs == rs[..p] + ([rs[p]] + rs[p + 1..]);
    RecipesInConcat(rs[..p], [rs[p]] + rs[p + 1..], key);
    RecipesInConcat([rs[p]], rs[p + 1..], key);
  }

  /** A row of the category earlier in the table has fewer rows of the category
      before it than a later row. */
  lemma RecipesInOrder(rs: seq<Recipe>, key: int, p: int, q: int)
    requires 0 <= p < q <= |rs| && rs[p].categoryKey == key
    ensures |RecipesIn(rs[..p], key)| < |RecipesIn(rs[..q], key)|
  {
    assert rs[..q] == rs[..p] + ([rs[p]] + rs[p + 1..q]);
    RecipesInConcat(rs[..p], [rs[p]] + rs[p + 1..q], key);
    RecipesInConcat([rs[p]], rs[p + 1..q], key);
  }

  /** Filtering a table with distinct ids lists no id twice. */
  lemma {:induction false} RecipesInUniqueIds(rs: seq<Recipe>, key: int)
    requires UniqueKeys(RecipeIds(rs))
    ensures UniqueKeys(RecipeIds(RecipesIn(rs, key)))
  {
    if rs != [] {
      var t := rs[1..];
      assert RecipeIds(t) == RecipeIds(rs)[1..];
      RecipesInUniqueIds(t, key);
      var rest := RecipesIn(t, key);
      var l := RecipesIn(rs, key);
      if rs[0].categoryKey == key {
        assert l == [rs[0]] + rest;
        forall i, j | 0 <= i < j < |l| ensures RecipeIds(l)[i] != RecipeIds(l)[j] {
          if i == 0 {
            var y := rest[j - 1];
            RecipesInMembers(t, key, y);
            var p :| 0 <= p < |t| && t[p] == y;
            assert RecipeIds(rs)[0] != RecipeIds(rs)[p + 1];
          } else {
            assert RecipeIds(l)[i] == RecipeIds(rest)[i - 1];
            assert RecipeIds(l)[j] == RecipeIds(rest)[j - 1];
          }
        }
      } else {
        assert l == rest;
      }
    }
  }

  /** Views of a table that grew by one row. */
  lemma ViewsAppend(rs: seq<Recipe>, x: Recipe)
    ensures Views(rs + [x]) == Views(rs) + [View(x)]
  {
  }

  /** The categories seeded into an empty store, in insertion order. */
  const SeedCategories: seq<CategorySummary> := [
    CategorySummary("sniadanie", "Śniadanie"),
    CategorySummary("obiad", "Obiad"),
    CategorySummary("deser", "Desery")
  ]

  /** The one sample recipe seeded into each of the seeded categories. */
  const SeedRecipes: seq<RecipeData> := [
    RecipeData(
      "Jajecznica z boczkiem",
      "3 jajka, 2 plastry boczku, sól, pieprz, szczypiorek",
      "Podsmaż boczek, dodaj jajka, dopraw i smaż do uzyskania pożądanej konsystencji."),
    RecipeData(
      "Spaghetti Bolognese",
      "Makaron spaghetti, mięso mielone, cebula, czosnek, sos pomidorowy, przyprawy",
      "Ugotuj makaron, podsmaż mięso z cebulą i czosnkiem, dodaj sos i duś 20 minut."),
    RecipeData(
      "Szarlotka",
      "Jabłka, mąka, masło, cukier, cynamon",
      "Przygotuj ciasto kruche, dodaj jabłka z cynamonem, piecz 45 minut w 180°C.")
  ]

  /** The database the module opens once per process: both tables in rowid order. */
  class Store {
    var categories: seq<Category>
    var recipes: seq<Recipe>

    /** The schema's constraints: unique slugs, unique primary keys, and every
        recipe referencing an existing category. */
    ghost predicate Valid()
      reads this
    {
      && UniqueSlugs(categories)
      && UniqueKeys(CategoryKeys(categories))
      && UniqueKeys(RecipeIds(recipes))
      && ReferencesResolve(categories, recipes)
    }

    /** Opens a database file that does not exist yet: both tables are created empty. */
    constructor ()
      ensures Valid()
      ensures categories == [] && recipes == []
    {
      categories := [];
      recipes := [];
    }

    /** `getCategorySummaries()`: the slug and name of every category, in
        table order; each listed slug looks up the category at its position. */
    function CategorySummaries(): (r: seq<CategorySummary>)
      reads this
      requires Valid()
      ensures |r| == |categories|
      ensures forall i :: 0 <= i < |r| ==>
        FindCategory(categories, r[i].slug) == Some(categories[i]) && r[i].name == categories[i].name
    {
      var r := Summaries(categories);
      forall i | 0 <= i < |r| ensures FindCategory(categories, r[i].slug) == Some(categories[i]) {
        FindCategoryAt(categories, i);
      }
      r
    }

    /** `hasCategory(slug)`: whether some category row has this slug. */
    function HasCategory(slug: string): (r: bool)
      reads this
      ensures r <==> exists c :: c in categories && c.slug == slug
    {
      FindCategory(categories, slug).Some?
    }

    /** `getCategory(slug)`: absent when no category has this slug; otherwise
        that category's row with the recipes whose `category_id` is its key. */
    function GetCategory(slug: string): (r: Option<CategoryWithRecipes>)
      reads this
      ensures r.None? <==> !HasCategory(slug)
      ensures r.Some? ==> r.value.slug == slug && Category(r.value.key, slug, r.value.name) in categories
      ensures r.Some? ==> |r.value.recipes| <= |recipes|
    {
      match FindCategory(categories, slug)
      case None => None
      case Some(c) => Some(CategoryWithRecipes(c.key, c.slug, c.name, Views(RecipesIn(recipes, c.key))))
    }

    /** `addCategory(slug, name)`: refused by the UNIQUE constraint when the slug
        is taken; otherwise appends one row with a fresh key and returns it. */
    method AddCategory(slug: string, name: string) returns (result: Result<Category, Violation>)
      requires Valid()
      modifies this
      ensures Valid()
      ensures recipes == old(recipes)
      ensures old(HasCategory(slug)) ==> result == Failure(UniqueSlug) && categories == old(categories)
      ensures !old(HasCategory(slug)) ==>
        && result.Success?
        && result.value.slug == slug && result.value.name == name
        && result.value.key !in old(CategoryKeys(categories))
        && categories == old(categories) + [result.value]
        && GetCategory(slug) == Some(CategoryWithRecipes(result.value.key, slug, name, []))
      ensures HasCategory(slug)
    {
      if FindCategory(categories, slug).Some? {
        return Failure(UniqueSlug);
      }
      var c := Category(FreshKey(CategoryKeys(categories)), slug, name);
      ghost var oldCats := categories;
      categories := categories + [c];
      result := Success(c);
      assert CategoryKeys(categories) == CategoryKeys(oldCats) + [c.key];
      assert forall i :: 0 <= i < |recipes| ==> recipes[i].categoryKey in CategoryKeys(oldCats);
      RecipesInUnreferenced(recipes, c.key);
      FindCategoryAt(categories, |oldCats|);
    }

    /** `addRecipe(slug, recipe)`: the sub-select resolves the slug to a
        category key; an unknown slug yields NULL, which NOT NULL refuses.
        Otherwise appends one row with a fresh id and returns it. */
    method AddRecipe(slug: string, data: RecipeData) returns (result: Result<RecipeView, Violation>)
      requires Valid()
      modifies this
      ensures Valid()
      ensures categories == old(categories)
      ensures !old(HasCategory(slug)) ==> result == Failure(NotNullCategory) && recipes == old(recipes)
      ensures old(HasCategory(slug)) ==>
        && result.Success?
        && result.value.id !in old(RecipeIds(recipes))
        && result.value == RecipeView(result.value.id, data.title, data.ingredients, data.instructions)
        && recipes == old(recipes) + [Recipe(result.value.id, FindCategory(categories, slug).value.key, data)]
        && GetCategory(slug).Some?
        && GetCategory(slug).value.recipes == old(GetCategory(slug)).value.recipes + [result.value]
    {
      match FindCategory(categories, slug)
      case None =>
        result := Failure(NotNullCategory);
      case Some(c) =>
        var row := Recipe(FreshKey(RecipeIds(recipes)), c.key, data);
        ghost var oldRecipes := recipes;
        recipes := recipes + [row];
        result := Success(View(row));
        assert RecipeIds(recipes) == RecipeIds(oldRecipes) + [row.id];
        assert forall i :: 0 <= i < |oldRecipes| ==> RecipeIds(oldRecipes)[i] in RecipeIds(oldRecipes);
        assert c.key in CategoryKeys(categories) by {
          var i :| 0 <= i < |categories| && categories[i] == c;
          assert CategoryKeys(categories)[i] == c.key;
        }
        RecipesInAppend(oldRecipes, row, c.key);
        ViewsAppend(RecipesIn(oldRecipes, c.key), row);
    }

    /** `deleteRecipe(id)`: removes the recipe with this id, if any, and reports
        how many rows changed; every other row stays as it was. */
    method DeleteRecipe(id: int) returns (changes: nat)
      requires Valid()
      modifies this
      ensures Valid()
      ensures categories == old(categories)
      ensures recipes == WithoutRecipe(old(recipes), id)
      ensures changes == |old(recipes)| - |recipes|
      ensures changes == if id in old(RecipeIds(recipes)) then 1 else 0
      ensures id !in old(RecipeIds(recipes)) ==> recipes == old(recipes)
      ensures id !in RecipeIds(recipes)
    {
      var oldRecipes := recipes;
      recipes := WithoutRecipe(recipes, id);
      changes := |oldRecipes| - |recipes|;
      if id in RecipeIds(oldRecipes) {
        var k :| 0 <= k < |oldRecipes| && RecipeIds(oldRecipes)[k] == id;
        WithoutRecipeAt(oldRecipes, k);
        UniqueIdsAfterRemoval(oldRecipes, k);
      } else {
        WithoutAbsentRecipe(oldRecipes, id);
      }
      forall x | x in recipes ensures x.categoryKey in CategoryKeys(categories) && x.id != id {
        WithoutRecipeMembers(oldRecipes, id, x);
      }
    }

    /** The start-up block: when the category listing is empty, inserts the three
        seed categories in order and one sample recipe into each. */
    method SeedIfEmpty()
      requires Valid()
      modifies this
      ensures Valid()
      ensures old(categories) != [] ==> categories == old(categories) && recipes == old(recipes)
      ensures old(categories) == [] ==>
        && CategorySummaries() == SeedCategories
        && |recipes| == |SeedRecipes|
        && forall i :: 0 <= i < |recipes| ==>
             recipes[i].categoryKey == categories[i].key && recipes[i].data == SeedRecipes[i]
    {
      if |Summaries(categories)| == 0 {
        SeedCategoryRows(SeedCategories);
        SeedRecipeRows(SeedRecipes);
      }
    }

    /** The first half of the start-up block: three categories with distinct
        slugs, inserted in order into an empty table. */
    method SeedCategoryRows(seed: seq<CategorySummary>)
      requires Valid()
      requires categories == []
      requires |seed| == 3
      requires seed[0].slug != seed[1].slug && seed[0].slug != seed[2].slug && seed[1].slug != seed[2].slug
      modifies this
      ensures Valid()
      ensures recipes == old(recipes) == []
      ensures Summaries(categories) == seed
    {
      NoRecipesWithoutCategories(categories, recipes);
      SeedCategory(seed[0]);
      SeedCategory(seed[1]);
      SeedCategory(seed[2]);
      assert seed == [seed[0], seed[1], seed[2]];
    }

    /** One insert of the start-up block, with a slug not yet taken: the
        listing grows by exactly that category and only its slug becomes
        known. */
    method SeedCategory(c: CategorySummary)
      requires Valid()
      requires !HasCategory(c.slug)
      modifies this
      ensures Valid()
      ensures recipes == old(recipes)
      ensures Summaries(categories) == old(Summaries(categories)) + [c]
      ensures forall s :: HasCategory(s) <==> old(HasCategory(s)) || s == c.slug
    {
      var added := AddCategory(c.slug, c.name);
      assert categories == old(categories) + [added.value];
      assert Summaries(categories) == old(Summaries(categories)) + [c];
    }

    /** The second half of the start-up block: one recipe in each of the
        three categories, inserted by slug. */
    method SeedRecipeRows(seed: seq<RecipeData>)
      requires Valid()
      requires |categories| == 3 && |seed| == 3
      requires recipes == []
      modifies this
      ensures Valid()
      ensures categories == old(categories)
      ensures |recipes| == |seed|
      ensures forall i :: 0 <= i < |recipes| ==>
        recipes[i].categoryKey == categories[i].key && recipes[i].data == seed[i]
    {
      FindCategoryAt(categories, 0);
      FindCategoryAt(categories, 1);
      FindCategoryAt(categories, 2);
      var r0 := AddRecipe(categories[0].slug, seed[0]);
      ghost var first := recipes[0];
      var r1 := AddRecipe(categories[1].slug, seed[1]);
      ghost var second := recipes[1];
      var r2 := AddRecipe(categories[2].slug, seed[2]);
      assert recipes[0] == first && recipes[1] == second;
      forall i | 0 <= i < |recipes|
        ensures recipes[i].categoryKey == categories[i].key && recipes[i].data == seed[i]
      {
        assert i == 0 || i == 1 || i == 2;
      }
    }
  }

  /** The recipes `getCategory` attaches are exactly the recipe rows whose
      `category_id` is the category's key: a row is listed if and only if it
      references that category. */
  lemma GetCategoryRecipes(store: Store, slug: string, x: Recipe)
    requires store.Valid()
    requires store.GetCategory(slug).Some?
    requires x in store.recipes
    ensures View(x) in store.GetCategory(slug).value.recipes <==> x.categoryKey == store.GetCategory(slug).value.key
  {
    var key := store.GetCategory(slug).value.key;
    var rs := store.recipes;
    var listed := RecipesIn(rs, key);
    assert store.GetCategory(slug).value.recipes == Views(listed);
    RecipesInMembers(rs, key, x);
    if x.categoryKey == key {
      var i :| 0 <= i < |listed| && listed[i] == x;
      assert Views(listed)[i] == View(x);
    }
    if View(x) in Views(listed) {
      var i :| 0 <= i < |listed| && Views(listed)[i] == View(x);
      var y := listed[i];
      RecipesInMembers(rs, key, y);
      var a :| 0 <= a < |rs| && rs[a] == x;
      var b :| 0 <= b < |rs| && rs[b] == y;
      assert RecipeIds(rs)[a] == RecipeIds(rs)[b];
      assert a == b;
    }
  }

  /** `v` is what the listing returns for some row of `rs` whose `category_id` is `key`. */
  predicate IsViewOfRow(rs: seq<Recipe>, key: int, v: RecipeView) {
    exists p :: 0 <= p < |rs| && rs[p].categoryKey == key && v == View(rs[p])
  }

  /** Everything `getCategory` attaches is a recipe row of that category, and
      no recipe is attached twice. */
  lemma GetCategoryRowsOnly(store: Store, slug: string)
    requires store.Valid()
    requires store.GetCategory(slug).Some?
    ensures forall v :: v in store.GetCategory(slug).value.recipes ==>
      IsViewOfRow(store.recipes, store.GetCategory(slug).value.key, v)
    ensures forall i, j :: 0 <= i < j < |store.GetCategory(slug).value.recipes| ==>
      store.GetCategory(slug).value.recipes[i].id != store.GetCategory(slug).value.recipes[j].id
  {
    var c := store.GetCategory(slug).value;
    var rs := store.recipes;
    var listed := RecipesIn(rs, c.key);
    assert c.recipes == Views(listed);
    forall v | v in c.recipes ensures IsViewOfRow(rs, c.key, v) {
      var i :| 0 <= i < |c.recipes| && c.recipes[i] == v;
      var y := listed[i];
      RecipesInMembers(rs, c.key, y);
      var p :| 0 <= p < |rs| && rs[p] == y;
      assert v == View(rs[p]);
    }
    RecipesInUniqueIds(rs, c.key);
    forall i, j | 0 <= i < j < |c.recipes| ensures c.recipes[i].id != c.recipes[j].id {
      assert RecipeIds(listed)[i] != RecipeIds(listed)[j];
    }
  }

  /** `getCategory` attaches the category's recipes in table order: of two rows
      of the category, the earlier one is listed first. */
  lemma GetCategoryOrder(store: Store, slug: string, p: int, q: int)
    requires store.GetCategory(slug).Some?
    requires 0 <= p < q < |store.recipes|
    requires store.recipes[p].categoryKey == store.GetCategory(slug).value.key
    requires store.recipes[q].categoryKey == store.GetCategory(slug).value.key
    ensures exists i, j ::
      && 0 <= i < j < |store.GetCategory(slug).value.recipes|
      && store.GetCategory(slug).value.recipes[i] == View(store.recipes[p])
      && store.GetCategory(slug).value.recipes[j] == View(store.recipes[q])
  {
    var c := store.GetCategory(slug).value;
    var rs := store.recipes;
    var listed := RecipesIn(rs, c.key);
    assert c.recipes == Views(listed);
    RecipesInPosition(rs, c.key, p);
    RecipesInPosition(rs, c.key, q);
    RecipesInOrder(rs, c.key, p, q);
    var i, j := |RecipesIn(rs[..p], c.key)|, |RecipesIn(rs[..q], c.key)|;
    assert c.recipes[i] == View(rs[p]) && c.recipes[j] == View(rs[q]);
  }

  /** Two start-ups against the same storage: the second one finds the seeded
      categories and adds nothing, so the listing keeps its three entries. */
  method RestartKeepsSeed(store: Store)
    requires store.Valid()
    modifies store
    ensures store.Valid()
    ensures old(store.categories) == [] ==> store.CategorySummaries() == SeedCategories && |store.recipes| == 3
    ensures old(store.categories) != [] ==>
      store.categories == old(store.categories) && store.recipes == old(store.recipes)
  {
    store.SeedIfEmpty();
    store.SeedIfEmpty();
  }
}
