# Catalog site: a Dafny model

This models the core of a small affiliate catalog site written with Flask and
Flask-SQLAlchemy on SQLite. The site keeps two tables, categories and
products. Every product belongs to one category and carries a URL slug
derived from its name. The model covers five things:

- the `Category` and `Product` records and their constructors (`models.py`);
- `Product.ensure_unique_slug`, which replaces a product's slug with the
  first of `base`, `base-2`, `base-3`, ... that no stored row holds;
- `seed_if_empty`, which fills an empty database with demo categories and
  products through its `add_prod` helper (`app.py`);
- the queries of the four page routes `index`, `search`, `category` and
  `product_detail`, read as functions of the table contents;
- the parts of SQLite those queries use. These are the UNIQUE constraints,
  `ORDER BY` on text and on ids, `LIMIT`, and `ILIKE`, which SQLAlchemy
  compiles to `lower(x) LIKE lower(y)`. It uses SQLite's ASCII-only `lower()`
  and the `%`/`_` wildcards.

Modules:

- `Wrappers`: `Option`. `None` stands for `first_or_404` finding nothing.
- `Decimal`: the decimal rendering of the counter in `f"{base}-{counter}"`, and
  its inverse.
- `Slugs`: the slug-resolution policy of `ensure_unique_slug` as pure functions
  (`Candidate`, `FirstFreeSuffix`, `ResolveSlug`) and its properties.
- `Text`: Python's `str.strip`, SQLite's `lower()` and `LIKE`, and what
  `ILIKE '%q%'` means.
- `Ordering`: a stable insertion sort standing for `ORDER BY`, and the
  code-point order of SQLite's BINARY collation on text.
- `Models`: the records and the `Category(...)` / `Product(...)` constructors.
- `Pages`: the route queries.
- `Catalog`: the database as the class `Catalog`. The two tables are `seq`
  fields in insertion order, beside the next id of each table. Its methods are
  the statements that change the tables: add and flush, `ensure_unique_slug`,
  `add_prod` and `seed_if_empty`.

The slugify library is not modelled. It is a parameter of type
`string -> string`, held by `Catalog` as a constant. No property depends on
what it computes. A record that has not been flushed has id 0. Stored rows
get ids 1, 2, ... as SQLite hands them out.

`add_prod` adds the product and flushes it with its base slug before calling
`ensure_unique_slug`. That query therefore always finds the product's own row
holding `base`, so a seeded product never keeps the bare base slug: it gets
`base-2` or later (`Catalog.SeededProductGetsSuffix`). The model follows the
code here. A flush that meets an existing row with the same base slug violates
the UNIQUE constraint on `products.slug` and fails. The model reports that as
`ok == false` and restores the table as the rollback would.

`EnsureUniqueSlug` writes the resolved slug into the table at once, while the
source's `self.slug = unique_slug` (models.py:50) reaches the database only at
the next flush (app.py:71 for the next product, app.py:162 for the last).
The two agree because SQLAlchemy's unit of work issues a table's UPDATEs before
its INSERTs within one flush. The renamed product therefore frees its base slug
before the next product is inserted, so two seed products with the same base
slug do not collide in the source, and they do not collide in the model.

## Model

| member | source | states |
|---|---|---|
| `Decimal.Dec` | models.py:48 | The counter's decimal text is a non-empty string of digits, with a leading 0 only for the counter 0 |
| `Decimal.ParseDecOfDec` | models.py:48 | The counter's decimal text reads back as the counter, so distinct counters give distinct texts |
| `Decimal.DecInjective` | models.py:48 | Two counters with the same decimal text are equal |
| `Slugs.Candidate` | models.py:48 | `base-k` starts with base, is longer than base and differs from it |
| `Slugs.CandidateInjective` | models.py:46-49 | Different counters give different candidate slugs, so the loop never retries a slug |
| `Slugs.TakenBeforeBound` | models.py:47-49 | If base, base-2, ..., base-(k-1) are all taken, then k-1 is at most the number of taken slugs, so the loop ends |
| `Slugs.FirstFreeSuffix` | models.py:46-49 | The counter search from k on stops at a counter between k and the number of taken slugs + 1, and that candidate is free |
| `Slugs.FirstFreeSuffixIsLeast` | models.py:46-49 | Every candidate tried before the stopping counter is taken |
| `Slugs.ResolveSlug` | models.py:43-50 | The chosen slug is not taken, and it is base exactly when base is free |
| `Slugs.ResolveSlugLeastSuffix` | models.py:45-49 | With base taken, the result is base-k for the least k >= 2 whose candidate is free: base and base-2 ... base-(k-1) are all taken |
| `Slugs.ResolutionUnique` | models.py:45-49 | Any k >= 2 with base-k free and every earlier candidate taken is the one the loop returns |
| `Slugs.TakenBaseGetsSuffix` | models.py:45-49 | A taken base always yields some base-k with k >= 2, never base |
| `Slugs.CoffeeExample` | models.py:45-49 | With coffee and coffee-2 stored, coffee resolves to coffee-3 |
| `Text.StripStart` | app.py:19 | Removes exactly the leading whitespace: the result is a suffix, everything removed is whitespace, and the result does not start with whitespace |
| `Text.StripEnd` | app.py:19 | Removes exactly the trailing whitespace, in the same sense |
| `Text.IsSpace` | app.py:19 | The characters Python's `str.strip()` removes: the ASCII whitespace, the separators U+001C..U+001F, and Unicode's spaces and line separators |
| `Text.SpaceAround` | app.py:19 | Everything before index a and from index b on is whitespace |
| `Text.Strip` | app.py:27 | The stripped query is the slice of the input left between leading and trailing whitespace. It neither starts nor ends with whitespace, and it is empty exactly when the input is all whitespace |
| `Text.StripIsSlice` | app.py:19 | Stripping both ends leaves a slice of the input with only whitespace before and after it |
| `Text.Lower` | app.py:32 | SQLite `lower()` maps each character through its ASCII-only case mapping and keeps the length |
| `Text.Like` | app.py:30-32 | SQLite LIKE with no ESCAPE clause: `%` matches any run of characters, `_` any one character, and every other character itself or its other ASCII case, as SQLite does with `case_sensitive_like` off (its default) |
| `Text.ILikeInfix` | app.py:30-32 | The filter `x ILIKE '%q%'` as SQLAlchemy emits it on SQLite: `lower(x) LIKE lower('%q%')` |
| `Text.LikePrefix` | app.py:30-32 | For a wildcard-free q, `LIKE 'q%'` holds exactly when the lower-cased q is a prefix of the lower-cased text |
| `Text.LikeInfix` | app.py:30-32 | For a wildcard-free q, `LIKE '%q%'` holds exactly when the lower-cased q occurs in the lower-cased text |
| `Text.ILikeInfixIsContains` | app.py:30-32 | For a wildcard-free q, `ILIKE '%q%'` is substring search on the lower-cased text |
| `Text.WildcardIsNotLiteral` | app.py:30-32 | A `_` in the query matches any character: "a_c" is found in "xabcx" though it is no substring of it |
| `Ordering.Insert` | app.py:21 | Inserting into a list adds exactly that element, as a multiset |
| `Ordering.SortBy` | app.py:21 | Sorting returns a permutation of the rows |
| `Ordering.InsertSorted` | app.py:21 | Inserting into a sorted list keeps it sorted |
| `Ordering.SortBySorted` | app.py:21 | For a total preorder, the sorted rows are in order |
| `Ordering.TextLe` | app.py:21 | SQLite's BINARY collation: code-point lexicographic order, with a proper prefix first |
| `Ordering.TextLeTotal` | app.py:21 | Any two names compare one way or the other under the BINARY collation |
| `Ordering.TextLeTransitive` | app.py:21 | The BINARY collation order is transitive |
| `Ordering.TextLeAntisymmetric` | app.py:21 | Two names that compare both ways are equal |
| `Models.NewCategory` | models.py:14-17 | A new category has the given name and description, slug slugify(name), and is not yet stored |
| `Models.NewProduct` | models.py:32-41 | A new product has the given fields, its category's id, and slug slugify(name), and is not yet stored |
| `Models.NotFeaturedByDefault` | models.py:32 | A product built without is_featured is not featured |
| `Pages.Where` | app.py:49 | A filter keeps every row that satisfies it, each as often as the table holds it, and no other row |
| `Pages.Take` | app.py:20 | LIMIT n returns the first rows: n of them, or all if there are fewer. No row appears more often than in the input |
| `Pages.FirstWhere` | app.py:39 | `.first()` gives None exactly when no row matches; otherwise a matching row |
| `Pages.NameLeIsTotalPreorder` | app.py:21 | Ordering categories by name is a total preorder |
| `Pages.CategoriesByName` | app.py:21 | The category list holds every category as often as the table does, by name ascending |
| `Pages.NewestFirst` | app.py:22 | ORDER BY id DESC returns every product, by id descending |
| `Pages.TakeKeepsLeast` | app.py:22 | A row that LIMIT cut from a sorted list comes after every row kept |
| `Pages.Featured` | app.py:20 | Featured products of the table only, none repeated beyond the table, at most 8, and every featured product unless there are 8 |
| `Pages.Latest` | app.py:22 | At most 12 products of the table by id descending, none repeated beyond the table, all of them when there are fewer, and none left out that is newer than one kept |
| `Pages.Index` | app.py:17-23 | The home page shows the featured list, the categories by name, the latest list and the stripped query |
| `Pages.SearchResults` | app.py:28-33 | An empty query lists nothing. Otherwise the list is newest first and holds each product whose name or description is ILIKE '%q%', as often as the table does, and no other |
| `Pages.SearchIsSubstringMatch` | app.py:29-33 | For a non-empty wildcard-free query, a product is listed exactly when q occurs in its lower-cased name or description, and as often as the table holds it |
| `Pages.Search` | app.py:25-35 | The search page strips q and lists no products for a blank q. For a wildcard-free q it lists exactly the products containing q, ignoring ASCII case, each as often as the table holds it, newest first. For any q its products are `Pages.SearchResults` of the stripped q, so the ILIKE-pattern contract holds for queries with `%` or `_` too. It also shows all categories by name |
| `Pages.CategoryDetail` | app.py:37-42 | 404 exactly when no category has the slug. Otherwise it shows that category and exactly its products, each as often as the table holds it, newest first, with all categories by name |
| `Pages.ProductDetail` | app.py:44-50 | 404 exactly when no product has the slug. Related products are rows of the table that share its category and have another id, at most 6, none repeated beyond the table, and all such products unless the cap is reached |
| `Catalog.SlugSet` | models.py:24 | The set of slugs the products table holds |
| `Catalog.SlugSetHas` | models.py:24 | A slug is among the stored slugs exactly when some row holds it |
| `Catalog.SlugSetAppend` | app.py:70-71 | Storing a row adds its slug to the stored slugs |
| `Catalog.AppendThenRename` | app.py:70-72 | Adding a product, then making its slug unique, is adding it with the slug resolved against the old slugs plus its own base slug |
| `Catalog.AppendKeepsCategoriesValid` | models.py:8-10 | Appending a category with the next id and a name and slug no row holds keeps the ids ascending and the UNIQUE constraints |
| `Catalog.RenameKeepsIds` | models.py:50 | Changing a row's slug keeps the ids valid |
| `Catalog.RenameKeepsSlugsUnique` | models.py:50 | Giving a row a slug nobody holds keeps the UNIQUE slug constraint |
| `Catalog.SeededRow` | app.py:68-74 | The row add_prod stores for a seed product: the next id, the seed's fields, its category's id, and the slug resolved with its own base slug already stored |
| `Catalog.SeededTable` | app.py:77-160 | Seeding products appends one row per seed product after the existing rows and leaves those rows as they were |
| `Catalog.SeededTableStep` | app.py:68-74 | Seeding one more product appends exactly the row add_prod stores for it |
| `Catalog.AddedSeedIsNextRow` | app.py:68-74 | The row add_prod stored for seed k extends the seeded table by that seed |
| `Catalog.SeedSlugsFree` | app.py:70-71 | Each seed product's base slug is free in the table the seed products before it produced, so its flush meets no UNIQUE violation |
| `Catalog.SeedSlugsFreeStep` | app.py:77-160 | The first k + 1 seeds flush freely exactly when the first k do and seed k's base slug is free after them |
| `Catalog.SeedSlugsFreePrefix` | app.py:77-160 | When all seeds flush freely, so does every prefix of them |
| `Catalog.ProductLookupUnique` | app.py:46 | With product slugs UNIQUE, the product page shows the only product with that slug |
| `Catalog.CategoryLookupUnique` | app.py:39 | With category slugs UNIQUE, the category page shows the only category with that slug |
| `Catalog.SeededProductGetsSuffix` | app.py:68-74 | Each seeded product has the seed's fields, its category's id, the next id, and a slug base-n with n >= 2, never the bare base slug |
| `Catalog.Catalog.Valid` | models.py:8-30 | Ids are positive, ascending in insertion order and below the next id; category names and slugs and product slugs are UNIQUE |
| `Catalog.Catalog.constructor` | app.py:14 | A fresh database has empty tables and ids starting at 1 |
| `Catalog.Catalog.InsertCategory` | models.py:9-10 | Adding and flushing a category fails exactly when its name or slug is already stored. Otherwise the row is appended with the next id |
| `Catalog.Catalog.InsertProduct` | models.py:24 | Adding and flushing a product fails exactly when its slug is already stored. Otherwise the row is appended with the next id |
| `Catalog.Catalog.SlugTaken` | models.py:47 | `filter_by(slug=...).first()` finds a row exactly when the slug is stored |
| `Catalog.Catalog.FindFreeSlug` | models.py:44-49 | The while loop returns the slug the resolution policy picks against the stored slugs |
| `Catalog.Catalog.EnsureUniqueSlug` | models.py:43-50 | Only row i changes, and only its slug, which becomes the resolved slug for its name. The tables stay valid |
| `Catalog.Catalog.AddProd` | app.py:68-74 | add_prod fails exactly when the base slug is stored. Otherwise it appends the product with the next id and its resolved slug |
| `Catalog.Catalog.SeedCategory` | app.py:59-64 | Seed category k is appended with the next id, its name, slug and description. A failure means two seed categories share a name or a slug, and then leaves the categories and the next category id as they were |
| `Catalog.Catalog.SeedCategories` | app.py:58-65 | The commit succeeds exactly when the seed categories have distinct names and slugs. Then they are stored in order, with consecutive ids from the next one; otherwise none is |
| `Catalog.Catalog.AddSeedProduct` | app.py:77-160 | add_prod on the next seed product fails exactly when its base slug is stored, and then changes nothing. Otherwise it extends the seeded table by one row |
| `Catalog.Catalog.RollBackProducts` | app.py:71 | A failed flush discards the products added since the last commit, which leaves the tables valid |
| `Catalog.Catalog.SeedProducts` | app.py:77-162 | Succeeds exactly when every seed product's base slug is free when it is flushed. Then the products table is the seeded table and the next id has moved on by one per seed; otherwise the table is restored |
| `Catalog.Catalog.SeedIfEmpty` | app.py:54-162 | Nothing changes when a category exists. Otherwise the categories are seeded all or none, with consecutive ids. Then the products are seeded, succeeding exactly when every seed product's base slug is free at its flush |
| `Catalog.SeedTwice` | app.py:55-56 | A second seeding after a successful one succeeds and changes neither table |

## Left out

- The web layer (Flask routing, request parsing, templates, the 404 page) is not modelled. Each route is the function computing what it hands its template, and `first_or_404` is `None`.
- The slugify library is a parameter; transliteration and its exact output are not modelled.
- `Product.price` (a Float column) is not modelled: nothing reads it, and floating point is outside the model.
- The demo data's texts (Arabic names, descriptions, image and affiliate URLs) are abstract `SeedData`; the model proves properties for any seed data.
- `Product.category`, the relationship backref, is the `categoryId` field. SQLite does not enforce the foreign key here, and the model does not either.
- Transactions beyond the seeder's commit-or-fail are not modelled, and neither are concurrent requests. A failed flush raises IntegrityError in the source; the model returns `false` and restores the rows that the rollback would discard.
- `Text.Lower`: Python and SQLAlchemy case folding of non-ASCII text is not modelled, because SQLite's `lower()` only folds ASCII letters.
- `Pages.Search`: its contract states the substring reading only for queries without `%` or `_`. For other queries it states that its products are `Pages.SearchResults`, which carries the LIKE-pattern semantics.
- `Pages.FirstWhere`: for `filter_by(slug=...).first()` the slug column is UNIQUE, so at most one row matches and the choice does not matter (`Catalog.ProductLookupUnique`, `Catalog.CategoryLookupUnique`); the model takes the first matching row. The featured and related lists have no ORDER BY, so SQL leaves their order open; the model takes them in insertion order.
- The last line of `app.py`, a stray file-writing statement after the `__main__` block, is not part of this model; the names it uses are not defined in the file.
