# Recipe catalog store: a Dafny model

This project models the data layer of a small server-rendered recipe catalog,
the module `projekt03/models/recipe.js`. That module does two things.

- **Validation.** `validateRecipeData` takes a submitted recipe, a loosely typed
  bag of JavaScript values. It checks the fields `title`, `ingredients` and
  `instructions` in that order. A field fails when it is missing, falsy, not a
  string, or blank after `trim()`. Each failing field adds the Polish message
  `Pole "<field>" jest wymagane.`
- **The store.** A SQLite database holds two tables. `recipe_categories` has an
  integer key `category_id`, a UNIQUE text slug `id` and a `name`. `recipes` has
  an integer key `id`, a NOT NULL `category_id` that must name an existing
  category, and three text columns. The module exports `addCategory`,
  `getCategorySummaries`, `hasCategory`, `getCategory`, `addRecipe` and
  `deleteRecipe`. At start-up it seeds three categories with one recipe each
  when the category table is empty.

The files:

- `wrappers.dfy` (module `Wrappers`): `Option`, used for the store's `null`, and
  `Result`, used for an INSERT that a constraint refuses.
- `recipe_validation.dfy` (module `RecipeValidation`): JavaScript values as the
  datatype `JsValue`, truthiness, `String.prototype.trim`, and the validator.
  The validator is a method with the source's `for` loop. It is proved equal to
  the function `ValidationErrors`, and lemmas state what that function promises.
- `recipe_store.dfy` (module `RecipeStore`): the class `Store`. Its fields
  `categories` and `recipes` are the two tables as sequences of rows in rowid
  order, the order in which SQLite's plain table scan returns them. The
  schema's constraints are the invariant `Valid()`: unique slugs, unique keys
  in both tables, and every recipe naming an existing category.
  The mutating statements are methods whose contracts give the new tables in
  terms of the old ones. The read-only queries are functions over the fields.

JavaScript's `trim()` strips ECMAScript's WhiteSpace and LineTerminator code
points. `IsWhitespace` lists exactly those code points: TAB, VT, FF, SPACE,
NBSP, ZWNBSP, the Unicode category Zs, LF, CR, LINE SEPARATOR and PARAGRAPH
SEPARATOR.

Two behaviours of the code deserve a note:

- `addRecipe` with an unknown slug: the sub-select at `recipe.js:32` yields
  NULL and the `NOT NULL` constraint on `recipes.category_id` (`recipe.js:15`)
  refuses the INSERT, so nothing is stored with a missing category. `AddRecipe`
  returns `Failure(NotNullCategory)` and leaves both tables unchanged.
- `index.js:100` and `index.js:132` call `getRecipe` and `updateRecipe`, which
  `recipe.js` neither defines nor exports (`recipe.js:122-130`), so they are not
  modelled.

## Model

| member | source | states |
|---|---|---|
| `RecipeValidation.ValidateRecipeData` | projekt03/models/recipe.js:111-120 | The loop over the three fields returns exactly `ValidationErrors(recipe)`: one message per rejected field, in field order. |
| `RecipeValidation.ValidationEmptyIff` | projekt03/models/recipe.js:111-120 | The result is empty exactly when every one of the three fields holds a string that is not blank after trimming. |
| `RecipeValidation.ValidationErrorsExplicit` | projekt03/models/recipe.js:113-117 | The result is title's message, then ingredients', then instructions'. Each is present exactly when that field fails, so there is one message per failing field in the fixed order. |
| `RecipeValidation.ValidationErrors` | projekt03/models/recipe.js:112-119 | The result never has more than three messages, one per checked field at most. |
| `RecipeValidation.ValidationMessagesIdentifyFields` | projekt03/models/recipe.js:116 | A field's message is in the result exactly when that field fails. Every message in the result reads back as a field that failed. |
| `RecipeValidation.MessageNamesField` | projekt03/models/recipe.js:116 | Parsing `Pole "<field>" jest wymagane.` gives back the field it was built for, so different fields have different messages. |
| `RecipeValidation.MessageInMessages` | projekt03/models/recipe.js:116 | Within a list of messages, a field's message appears exactly when the field is in the list. |
| `RecipeValidation.MessagesReadBack` | projekt03/models/recipe.js:116 | Every message in a list of messages reads back as one of the list's fields. |
| `RecipeValidation.ParseFieldName` | projekt03/models/recipe.js:113 | Each field's property name (`title`, `ingredients`, `instructions`) reads back as that field. |
| `RecipeValidation.RejectedFieldsMembers` | projekt03/models/recipe.js:114-118 | A field is reported exactly when it is among the fields checked and the recipe fails it. |
| `RecipeValidation.RejectedIff` | projekt03/models/recipe.js:115 | The guard `!v \|\| typeof v !== "string" \|\| v.trim().length === 0` holds exactly when `v` is not a string containing a non-white-space character. |
| `RecipeValidation.RejectedIffBlank` | projekt03/models/recipe.js:115 | The falsy test adds nothing: a field is rejected exactly when it is not a string whose trimmed form is non-empty. |
| `RecipeValidation.IsFalsy` | projekt03/models/recipe.js:115 | Defines `!v`: true for `undefined`, `null`, `false`, `0`, `NaN`, `0n` and the empty string, false for every other value. |
| `RecipeValidation.IsWhitespace` | projekt03/models/recipe.js:115 | Defines the characters `trim()` removes: ECMAScript's WhiteSpace and LineTerminator code points. |
| `RecipeValidation.TrimStart` | projekt03/models/recipe.js:115 | Defines the removal of leading white space; `TrimStartShape` states what it keeps and removes. |
| `RecipeValidation.TrimEnd` | projekt03/models/recipe.js:115 | Defines the removal of trailing white space; `TrimEndShape` states what it keeps and removes. |
| `RecipeValidation.Trim` | projekt03/models/recipe.js:115 | Defines `String.prototype.trim` as trimming both ends; `TrimEmptyIff` states when the result is empty. |
| `RecipeValidation.IsRejected` | projekt03/models/recipe.js:115 | Defines the guard of the `if`: falsy, or not a string, or empty after trimming; `RejectedIff` characterises it. |
| `RecipeValidation.Message` | projekt03/models/recipe.js:116 | Defines the message template `Pole "<field>" jest wymagane.`; `MessageNamesField` shows it names its field. |
| `RecipeValidation.TrimEmptyIff` | projekt03/models/recipe.js:115 | `s.trim()` is empty exactly when every character of `s` is white space. |
| `RecipeValidation.TrimStartShape` | projekt03/models/recipe.js:115 | Trimming the front keeps a suffix that does not start with white space. Everything it removes is white space. |
| `RecipeValidation.TrimEndShape` | projekt03/models/recipe.js:115 | Trimming the back keeps a prefix that does not end with white space. Everything it removes is white space. |
| `RecipeStore.Store.constructor` | projekt03/models/recipe.js:6-20 | Creating the tables in a new database file gives two empty tables that satisfy the invariant. |
| `RecipeStore.Store.AddCategory` | projekt03/models/recipe.js:77-79 | A taken slug fails with `UniqueSlug` and no table changes. Otherwise exactly one row with a fresh key, the slug and the name is appended and returned; `getCategory` then finds it with no recipes. Recipes are never touched. Afterwards `hasCategory(slug)` is true. The invariant is kept. |
| `RecipeStore.Store.CategorySummaries` | projekt03/models/recipe.js:81-83 | Lists one entry per category in table order. Each listed slug looks up the category at that position and carries its name. |
| `RecipeStore.Store.HasCategory` | projekt03/models/recipe.js:85-88 | True exactly when some category row has this slug. |
| `RecipeStore.Store.GetCategory` | projekt03/models/recipe.js:90-97 | Absent exactly when no category has this slug. Otherwise it returns that category's row, with no more recipes than the table holds. `GetCategoryRecipes`, `GetCategoryRowsOnly` and `GetCategoryOrder` pin the attached list down. |
| `RecipeStore.GetCategoryRecipes` | projekt03/models/recipe.js:44-46 | In a valid store, a recipe row is attached by `getCategory` exactly when its `category_id` is the category's key. |
| `RecipeStore.Store.AddRecipe` | projekt03/models/recipe.js:99-106 | An unknown slug makes the sub-select NULL. The NOT NULL constraint then refuses the INSERT and no table changes. A known slug appends exactly one recipe with a fresh id, that category's key and the given texts. The new recipe is returned and added to the end of that category's list. Categories are never touched. |
| `RecipeStore.Store.DeleteRecipe` | projekt03/models/recipe.js:107-110 | Removes the rows with this id and keeps all other rows. It returns the `changes` field of the statement's result, the number of rows removed: 1 if the id existed, else 0. An absent id changes nothing. Afterwards no row has the id. |
| `RecipeStore.Store.SeedIfEmpty` | projekt03/models/recipe.js:50-75 | An empty category table receives `sniadanie`/Śniadanie, `obiad`/Obiad and `deser`/Desery in that order, and each gets its sample recipe. A non-empty store is left unchanged. |
| `RecipeStore.Store.SeedCategoryRows` | projekt03/models/recipe.js:51-53 | Inserting three categories with distinct slugs into an empty table lists exactly those three, in order. |
| `RecipeStore.Store.SeedCategory` | projekt03/models/recipe.js:51-53 | One insert of the start-up block with a slug not yet taken: the listing grows by exactly that category, recipes are untouched, and only that slug becomes known. |
| `RecipeStore.Store.SeedRecipeRows` | projekt03/models/recipe.js:55-74 | Inserting one recipe into each of three categories by slug yields three rows. Row `i` belongs to category `i` and holds recipe `i`. |
| `RecipeStore.RestartKeepsSeed` | projekt03/models/recipe.js:50 | Two start-ups against the same storage seed once. From empty the listing has the three seed categories and three recipes; otherwise nothing changes. |
| `RecipeStore.FreshKey` | projekt03/models/recipe.js:8 | The key chosen for a new row is positive and larger than every existing key, hence fresh. |
| `RecipeStore.FindCategory` | projekt03/models/recipe.js:40-42 | Finds nothing exactly when no row has the slug. Whatever it finds is a row of the table with that slug. |
| `RecipeStore.FindCategoryAt` | projekt03/models/recipe.js:9 | When slugs are unique, looking up any row's slug finds that very row. |
| `RecipeStore.Store.Valid` | projekt03/models/recipe.js:7-19 | Defines the schema's constraints: UNIQUE slugs, distinct INTEGER PRIMARY KEYs in both tables, and every recipe's `category_id` naming an existing category (the REFERENCES clause, which `node:sqlite` enforces). |
| `RecipeStore.RecipesIn` | projekt03/models/recipe.js:44-46 | Defines `WHERE category_id = ?` over the recipe rows; its length never exceeds the table's, and `RecipesInMembers` states which rows it keeps. |
| `RecipeStore.WithoutRecipe` | projekt03/models/recipe.js:108 | Defines `DELETE FROM recipes WHERE id = ?`; the result never has more rows than the table, and `WithoutRecipeMembers` states which rows remain. |
| `RecipeStore.GetCategoryRowsOnly` | projekt03/models/recipe.js:93 | In a valid store, every recipe `getCategory` attaches is the view of a table row whose `category_id` is the category's key, and no recipe id is attached twice. |
| `RecipeStore.GetCategoryOrder` | projekt03/models/recipe.js:93 | Of two rows of the category, the one earlier in the table is attached earlier. |
| `RecipeStore.RecipesInPosition` | projekt03/models/recipe.js:44-46 | A row of the category is listed at the index equal to the number of rows of that category before it in the table. |
| `RecipeStore.RecipesInOrder` | projekt03/models/recipe.js:44-46 | A row of the category earlier in the table has fewer rows of the category before it than any later row. |
| `RecipeStore.RecipesInUniqueIds` | projekt03/models/recipe.js:14 | Filtering a table whose ids are distinct lists no id twice. |
| `RecipeStore.NoRecipesWithoutCategories` | projekt03/models/recipe.js:15 | With no categories, the foreign key admits no recipe rows, so seeding starts from an empty recipe table. |
| `RecipeStore.RecipesInMembers` | projekt03/models/recipe.js:44-46 | A row is in a category's list exactly when it is in the table with that `category_id`. |
| `RecipeStore.RecipesInAppend` | projekt03/models/recipe.js:29-36 | When one row is added, a category's list grows by that row only if the row belongs to the category. |
| `RecipeStore.RecipesInWithout` | projekt03/models/recipe.js:108 | Listing a category after a delete equals deleting from the category's list. |
| `RecipeStore.WithoutRecipeMembers` | projekt03/models/recipe.js:108 | After a delete, the remaining rows are exactly the rows with another id. |
| `RecipeStore.WithoutRecipeIdempotent` | projekt03/models/recipe.js:107-110 | Deleting the same id twice leaves the same table as deleting it once. |
| `RecipeStore.WithoutAbsentRecipe` | projekt03/models/recipe.js:107-110 | Deleting an id that no row has leaves the table unchanged. |
| `RecipeStore.WithoutRecipeAt` | projekt03/models/recipe.js:14 | When ids are unique, deleting the id of row `k` removes exactly row `k` and keeps the rest in order. |
| `RecipeStore.UniqueIdsAfterRemoval` | projekt03/models/recipe.js:14 | Removing a row keeps the remaining recipe ids distinct. |

## Left out

- `projekt03/index.js` is not part of this model: Express routing, view rendering, static files, request logging and HTTP statuses.
- `getRecipe` and `updateRecipe` are called by `index.js` but are not defined in `recipe.js`, so their behaviour is not modelled.
- ON DELETE CASCADE is not modelled: no exported operation deletes a category.
- The database file path, opening the file, statement preparation and failures of the storage engine are left out. The model's constructor stands for creating the tables in a new file.
- STRICT column typing: the slug, name and recipe texts are Dafny strings and recipe ids are integers. A non-string value bound to a TEXT column is not modelled. Neither is the text-to-integer conversion of a `recipe_id` taken from a URL.
- FreshKey: the contracts promise only a fresh key. SQLite's rowid choice is not modelled, including the random key it picks when the largest rowid is at its 64-bit limit. The body picks one more than the largest existing key.
- A constraint violation is thrown as an exception in the source. The model returns it as a `Failure` value.
- Concurrency is not modelled: there is one process and one connection, so a `hasCategory` check followed by `addRecipe` is not atomic across requests.
- ValidateRecipeData: calling the validator with `null` or `undefined` instead of an object is not modelled; it would raise a TypeError. Properties inherited through the prototype chain are not modelled either; a missing own property reads as `undefined`.
- JavaScript numbers are finite IEEE doubles modelled by their real values, plus `NaN` and the two infinities. The sign of zero is not modelled; both zeros are falsy, which is the only thing validation asks of a number.
- DeleteRecipe: returns only the `changes` field of `StatementSync.run`'s result. The other field, `lastInsertRowid`, reports the connection's most recent INSERT, which the model does not track.
- CategorySummaries: the SELECT at `recipe.js:38` has no ORDER BY, so SQL promises no order. The model lists rows in rowid order, which is what SQLite's plain table scan gives. The order stated by CategorySummaries, SeedIfEmpty and SeedCategoryRows rests on that engine behaviour.
- GetCategoryOrder: the SELECT at `recipe.js:45` has no ORDER BY either. The table order it states is SQLite's scan order, not an SQL guarantee.
