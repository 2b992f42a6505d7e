/**
 * The catalog database as one object: the categories and products tables as
 * sequences of rows in insertion order, with the next row id of each table.
 * Adding and flushing a record inserts its row; the UNIQUE constraints of the
 * schema (category name and slug, product slug) make an insert fail, as
 * SQLite raises an IntegrityError. Product.ensure_unique_slug and
 * seed_if_empty are the methods that change the tables.
 */
module Catalog {
  import opened Wrappers
  import opened Models
  import opened Slugs
  import opened Pages

  /** Rows numbered from 1 in insertion order, all below the next id to hand out. */
  ghost predicate CategoryIdsAscending(cats: seq<Category>, next: nat) {
    1 <= next
    && (forall i :: 0 <= i < |cats| ==> 1 <= cats[i].id < next)
    && (forall i, j :: 0 <= i < j < |cats| ==> cats[i].id < cats[j].id)
  }

  ghost predicate ProductIdsAscending(ps: seq<Product>, next: nat) {
    1 <= next
    && (forall i :: 0 <= i < |ps| ==> 1 <= ps[i].id < next)
    && (forall i, j :: 0 <= i < j < |ps| ==> ps[i].id < ps[j].id)
  }

  /** The UNIQUE constraints on categories.name and categories.slug. */
  ghost predicate CategoriesUnique(cats: seq<Category>) {
    forall i, j :: 0 <= i < j < |cats| ==> cats[i].name != cats[j].name && cats[i].slug != cats[j].slug
  }

  /** The UNIQUE constraint on products.slug. */
  ghost predicate SlugsUnique(ps: seq<Product>) {
    forall i, j :: 0 <= i < j < |ps| ==> ps[i].slug != ps[j].slug
  }

  /** The slugs stored in the products table. */
  function SlugSet(ps: seq<Product>): set<string> {
    if ps == [] then {} else SlugSet(ps[..|ps| - 1]) + {ps[|ps| - 1].slug}
  }

  /** A slug is stored exactly when some row holds it. */
  lemma {:induction false} SlugSetHas(ps: seq<Product>, slug: string)
    ensures slug in SlugSet(ps) <==> exists i :: 0 <= i < |ps| && ps[i].slug == slug
  {
    if ps != [] {
      var init := ps[..|ps| - 1];
      SlugSetHas(init, slug);
      if exists i :: 0 <= i < |init| && init[i].slug == slug {
        var i :| 0 <= i < |init| && init[i].slug == slug;
        assert ps[i].slug == slug;
      }
    }
  }

  /** Appending a row adds its slug. */
  lemma SlugSetAppend(ps: seq<Product>, p: Product)
    ensures SlugSet(ps + [p]) == SlugSet(ps) + {p.slug}
  {
  }

  /** Inserting p and then making its slug unique against the table that holds it. */
  lemma AppendThenRename(slugify: Slugifier, ps: seq<Product>, p: Product, t: seq<Product>)
    requires var added := ps + [p];
      t == added[|ps| := added[|ps|].(slug := ResolveSlug(SlugSet(added), slugify(added[|ps|].name)))]
    ensures t == ps + [p.(slug := ResolveSlug(SlugSet(ps) + {p.slug}, slugify(p.name)))]
  {
    var renamed := p.(slug := ResolveSlug(SlugSet(ps + [p]), slugify(p.name)));
    UpdateLast(ps, p, renamed);
    SlugSetAppend(ps, p);
  }

  /** Overwriting the element just appended. */
  lemma UpdateLast<T>(s: seq<T>, x: T, y: T)
    ensures (s + [x])[|s| := y] == s + [y]
  {
  }

  /** Appending a row with the next id and a name and slug no row holds keeps the categories table valid. */
  lemma AppendKeepsCategoriesValid(cats: seq<Category>, next: nat, row: Category)
    requires CategoryIdsAscending(cats, next) && CategoriesUnique(cats) && row.id == next
    requires forall d :: d in cats ==> d.name != row.name && d.slug != row.slug
    ensures CategoryIdsAscending(cats + [row], next + 1) && CategoriesUnique(cats + [row])
  {
  }

  /** Giving one row another slug leaves the ids as they were. */
  lemma RenameKeepsIds(ps: seq<Product>, next: nat, i: nat, slug: string)
    requires ProductIdsAscending(ps, next) && i < |ps|
    ensures ProductIdsAscending(ps[i := ps[i].(slug := slug)], next)
  {
  }

  /** Giving one row a slug that no row holds keeps the slugs unique. */
  lemma RenameKeepsSlugsUnique(ps: seq<Product>, i: nat, slug: string)
    requires SlugsUnique(ps) && i < |ps| && slug !in SlugSet(ps)
    ensures SlugsUnique(ps[i := ps[i].(slug := slug)])
  {
    SlugSetHas(ps, slug);
  }

  /** The categories were stored one after another, with ids first, first + 1, ... */
  ghost predicate CategoryIdsFrom(cats: seq<Category>, first: nat) {
    forall k :: 0 <= k < |cats| ==> cats[k].id == first + k
  }

  /**
   * Under the UNIQUE constraint on products.slug at most one row has a given
   * slug, so the product page shows the one product with it.
   */
  lemma ProductLookupUnique(cats: seq<Category>, ps: seq<Product>, slug: string)
    requires SlugsUnique(ps)
    ensures var r := ProductDetail(cats, ps, slug);
      r.Some? ==> forall p :: p in ps && p.slug == slug ==> p == r.value.product
  {
    var r := ProductDetail(cats, ps, slug);
    if r.Some? {
      forall p | p in ps && p.slug == slug
        ensures p == r.value.product
      {
        var i :| 0 <= i < |ps| && ps[i] == p;
        var j :| 0 <= j < |ps| && ps[j] == r.value.product;
        assert ps[i].slug == ps[j].slug;
      }
    }
  }

  /**
   * Under the UNIQUE constraint on categories.slug the category page shows
   * the one category with that slug.
   */
  lemma CategoryLookupUnique(cats: seq<Category>, ps: seq<Product>, slug: string)
    requires CategoriesUnique(cats)
    ensures var r := CategoryDetail(cats, ps, slug);
      r.Some? ==> forall c :: c in cats && c.slug == slug ==> c == r.value.category
  {
    var r := CategoryDetail(cats, ps, slug);
    if r.Some? {
      forall c | c in cats && c.slug == slug
        ensures c == r.value.category
      {
        var i :| 0 <= i < |cats| && cats[i] == c;
        var j :| 0 <= j < |cats| && cats[j] == r.value.category;
        assert cats[i].slug == cats[j].slug;
      }
    }
  }

  /** One category of the demo data. */
  datatype CategorySeed = CategorySeed(name: string, description: string)

  /** One product of the demo data; category is the position of its category in the seed list. */
  datatype ProductSeed = ProductSeed(
    name: string,
    description: string,
    imageUrl: string,
    affiliateUrl: string,
    category: nat,
    isFeatured: bool)

  datatype SeedData = SeedData(categories: seq<CategorySeed>, products: seq<ProductSeed>)

  /** Every seeded product names one of the seeded categories. */
  ghost predicate SeedWellFormed(seed: SeedData) {
    SeedsPointInto(seed.products, |seed.categories|)
  }

  /** Every seed product points into a category list of length n. */
  ghost predicate SeedsPointInto(seeds: seq<ProductSeed>, n: nat) {
    forall k :: 0 <= k < |seeds| ==> seeds[k].category < n
  }

  /**
   * The row add_prod stores for seed product s when the table holds rows:
   * the next id, the seed's fields, its category's id, and the slug
   * ensure_unique_slug resolves with the rows and the new row's own base
   * slug stored.
   */
  function SeededRow(slugify: Slugifier, s: ProductSeed, id: nat, cats: seq<Category>, rows: seq<Product>): Product
    requires s.category < |cats|
  {
    var base := slugify(s.name);
    Product(id, s.name, ResolveSlug(SlugSet(rows) + {base}, base), s.description, s.imageUrl,
            s.affiliateUrl, s.isFeatured, cats[s.category].id)
  }

  /** The products table after add_prod has run for each of seeds in turn, ids from next on. */
  function SeededTable(slugify: Slugifier, rows: seq<Product>, next: nat, seeds: seq<ProductSeed>,
                       cats: seq<Category>): (t: seq<Product>)
    requires SeedsPointInto(seeds, |cats|)
    ensures |t| == |rows| + |seeds| && t[..|rows|] == rows
  {
    if seeds == [] then rows
    else
      var prev := SeededTable(slugify, rows, next, seeds[..|seeds| - 1], cats);
      prev + [SeededRow(slugify, seeds[|seeds| - 1], next + |seeds| - 1, cats, prev)]
  }

  /** Adding seed k to the table built from the seeds before it. */
  lemma SeededTableStep(slugify: Slugifier, rows: seq<Product>, next: nat, seeds: seq<ProductSeed>,
                        cats: seq<Category>, k: nat)
    requires SeedsPointInto(seeds, |cats|) && k < |seeds|
    ensures var prev := SeededTable(slugify, rows, next, seeds[..k], cats);
      SeededTable(slugify, rows, next, seeds[..k + 1], cats)
        == prev + [SeededRow(slugify, seeds[k], next + k, cats, prev)]
  {
    assert seeds[..k + 1][..k] == seeds[..k];
  }

  /**
   * Every seed product's base slug is free when add_prod flushes it, that is,
   * in the table the seed products before it produced.
   */
  ghost predicate SeedSlugsFree(slugify: Slugifier, rows: seq<Product>, next: nat, seeds: seq<ProductSeed>,
                                cats: seq<Category>)
    requires SeedsPointInto(seeds, |cats|)
  {
    seeds == []
    || (var init := seeds[..|seeds| - 1];
        SeedSlugsFree(slugify, rows, next, init, cats)
        && slugify(seeds[|seeds| - 1].name) !in SlugSet(SeededTable(slugify, rows, next, init, cats)))
  }

  /** The first k + 1 seeds flush freely exactly when the first k do and seed k does too. */
  lemma SeedSlugsFreeStep(slugify: Slugifier, rows: seq<Product>, next: nat, seeds: seq<ProductSeed>,
                          cats: seq<Category>, k: nat)
    requires SeedsPointInto(seeds, |cats|) && k < |seeds|
    ensures SeedSlugsFree(slugify, rows, next, seeds[..k + 1], cats) <==>
      SeedSlugsFree(slugify, rows, next, seeds[..k], cats)
      && slugify(seeds[k].name) !in SlugSet(SeededTable(slugify, rows, next, seeds[..k], cats))
  {
    assert seeds[..k + 1][..k] == seeds[..k];
  }

  /** When all seeds flush freely, so do the first k of them. */
  lemma {:induction false} SeedSlugsFreePrefix(slugify: Slugifier, rows: seq<Product>, next: nat,
                                               seeds: seq<ProductSeed>, cats: seq<Category>, k: nat)
    requires SeedsPointInto(seeds, |cats|) && k <= |seeds|
    ensures SeedSlugsFree(slugify, rows, next, seeds, cats) ==> SeedSlugsFree(slugify, rows, next, seeds[..k], cats)
    decreases |seeds|
  {
    if k < |seeds| {
      var init := seeds[..|seeds| - 1];
      SeedSlugsFreePrefix(slugify, rows, next, init, cats, k);
      assert init[..k] == seeds[..k];
    } else {
      assert seeds[..k] == seeds;
    }
  }

  /** A table that add_prod extended with seed k is the seeded table one seed further on. */
  lemma AddedSeedIsNextRow(slugify: Slugifier, rows: seq<Product>, next: nat, seeds: seq<ProductSeed>,
                           cats: seq<Category>, k: nat, prev: seq<Product>, t: seq<Product>, p: Product)
    requires SeedsPointInto(seeds, |cats|) && k < |seeds|
    requires prev == SeededTable(slugify, rows, next, seeds[..k], cats)
    requires var s, base := seeds[k], slugify(seeds[k].name);
      p.id == next + k && p.name == s.name && p.slug == ResolveSlug(SlugSet(prev) + {base}, base)
      && p.description == s.description && p.imageUrl == s.imageUrl && p.affiliateUrl == s.affiliateUrl
      && p.isFeatured == s.isFeatured && p.categoryId == cats[s.category].id
    requires t == prev + [p]
    ensures t == SeededTable(slugify, rows, next, seeds[..k + 1], cats)
  {
    assert p == SeededRow(slugify, seeds[k], next + k, cats, prev);
    SeededTableStep(slugify, rows, next, seeds, cats, k);
  }

  /**
   * Seeded product k ends up with the seed's fields, the (k+1)-th new id,
   * its category's id, and a slug base-n with n >= 2: since its own row
   * already held the base slug, it never keeps the bare base slug.
   */
  lemma {:induction false} SeededProductGetsSuffix(slugify: Slugifier, rows: seq<Product>, next: nat,
                                                   seeds: seq<ProductSeed>, cats: seq<Category>, k: nat)
    requires SeedsPointInto(seeds, |cats|) && k < |seeds|
    ensures var p, s := SeededTable(slugify, rows, next, seeds, cats)[|rows| + k], seeds[k];
      p.id == next + k && p.name == s.name && p.description == s.description
      && p.imageUrl == s.imageUrl && p.affiliateUrl == s.affiliateUrl && p.isFeatured == s.isFeatured
      && p.categoryId == cats[s.category].id
      && p.slug != slugify(s.name)
      && exists n :: n >= 2 && p.slug == Candidate(slugify(s.name), n)
  {
    var init := seeds[..|seeds| - 1];
    if k < |seeds| - 1 {
      SeededProductGetsSuffix(slugify, rows, next, init, cats, k);
      var prev := SeededTable(slugify, rows, next, init, cats);
      assert SeededTable(slugify, rows, next, seeds, cats)[|rows| + k] == prev[|rows| + k];
      assert init[k] == seeds[k];
    } else {
      var prev := SeededTable(slugify, rows, next, init, cats);
      var base := slugify(seeds[k].name);
      TakenBaseGetsSuffix(SlugSet(prev) + {base}, base);
    }
  }

  class Catalog {
    const slugify: Slugifier
    var categories: seq<Category>
    var products: seq<Product>
    var nextCategoryId: nat
    var nextProductId: nat

    ghost predicate Valid()
      reads this
    {
      CategoryIdsAscending(categories, nextCategoryId)
      && ProductIdsAscending(products, nextProductId)
      && CategoriesUnique(categories)
      && SlugsUnique(products)
    }

    /** A fresh database: both tables empty, ids to start at 1. */
    constructor (slugify: Slugifier)
      ensures Valid() && this.slugify == slugify
      ensures categories == [] && products == []
      ensures nextCategoryId == 1 && nextProductId == 1
    {
      this.slugify := slugify;
      categories, products := [], [];
      nextCategoryId, nextProductId := 1, 1;
    }

    /**
     * Add and flush a category: it gets the next id, unless its name or slug is
     * already stored, in which case the insert fails and nothing changes.
     */
    method InsertCategory(c: Category) returns (ok: bool)
      requires Valid()
      modifies this
      ensures Valid()
      ensures ok <==> forall d :: d in old(categories) ==> d.name != c.name && d.slug != c.slug
      ensures ok ==> categories == old(categories) + [c.(id := old(nextCategoryId))]
                     && nextCategoryId == old(nextCategoryId) + 1
      ensures !ok ==> categories == old(categories) && nextCategoryId == old(nextCategoryId)
      ensures products == old(products) && nextProductId == old(nextProductId)
    {
      ok := FirstWhere(categories, (d: Category) => d.name == c.name || d.slug == c.slug).None?;
      if ok {
        var row := c.(id := nextCategoryId);
        AppendKeepsCategoriesValid(categories, nextCategoryId, row);
        categories := categories + [row];
        nextCategoryId := nextCategoryId + 1;
      }
    }

    /**
     * Add and flush a product: it gets the next id, unless its slug is already
     * stored, in which case the insert fails and nothing changes.
     */
    method InsertProduct(p: Product) returns (ok: bool)
      requires Valid()
      modifies this
      ensures Valid()
      ensures ok <==> p.slug !in SlugSet(old(products))
      ensures ok ==> products == old(products) + [p.(id := old(nextProductId))]
                     && nextProductId == old(nextProductId) + 1
      ensures !ok ==> products == old(products) && nextProductId == old(nextProductId)
      ensures categories == old(categories) && nextCategoryId == old(nextCategoryId)
    {
      var taken := SlugTaken(p.slug);
      ok := !taken;
      if ok {
        var row := p.(id := nextProductId);
        SlugSetHas(products, p.slug);
        products := products + [row];
        nextProductId := nextProductId + 1;
      }
    }

    /** The query Product.query.filter_by(slug=slug).first(): does some row hold slug? */
    method SlugTaken(slug: string) returns (taken: bool)
      ensures taken <==> slug in SlugSet(products)
    {
      taken := FirstWhere(products, (p: Product) => p.slug == slug).Some?;
      SlugSetHas(products, slug);
      assert forall i :: 0 <= i < |products| ==> products[i] in products;
    }

    /**
     * The loop of Product.ensure_unique_slug: try base, base-2, base-3, ...
     * against the stored slugs and return the first one no row holds.
     */
    method FindFreeSlug(base: string) returns (uniqueSlug: string)
      ensures uniqueSlug == ResolveSlug(SlugSet(products), base)
    {
      uniqueSlug := base;
      var counter: nat := 2;
      ghost var taken := SlugSet(products);
      var isTaken := SlugTaken(uniqueSlug);
      while isTaken
        invariant counter >= 2
        invariant uniqueSlug == if counter == 2 then base else Candidate(base, counter - 1)
        invariant isTaken <==> uniqueSlug in taken
        invariant counter > 2 ==> TakenBefore(taken, base, counter - 1)
        decreases |taken| + 2 - counter
      {
        assert TakenBefore(taken, base, counter);
        TakenBeforeBound(taken, base, counter);
        uniqueSlug := Candidate(base, counter);
        counter := counter + 1;
        isTaken := SlugTaken(uniqueSlug);
      }
      if counter > 2 {
        ResolutionUnique(taken, base, counter - 1);
      }
    }

    /**
     * Product.ensure_unique_slug on the stored row i: recompute the base from
     * the name, look for a free slug (the row's own slug counts as taken) and
     * store it. Only that row's slug changes.
     */
    method EnsureUniqueSlug(i: nat)
      requires Valid() && i < |products|
      modifies this
      ensures Valid()
      ensures products == old(products)[i := old(products)[i].(slug := ResolveSlug(SlugSet(old(products)), slugify(old(products)[i].name)))]
      ensures categories == old(categories)
      ensures nextCategoryId == old(nextCategoryId) && nextProductId == old(nextProductId)
    {
      var base := slugify(products[i].name);
      var uniqueSlug := FindFreeSlug(base);
      RenameKeepsIds(products, nextProductId, i, uniqueSlug);
      RenameKeepsSlugsUnique(products, i, uniqueSlug);
      products := products[i := products[i].(slug := uniqueSlug)];
    }

    /** No two seeded categories share a name or a slug. */
    ghost predicate CategorySeedsDistinct(seed: SeedData) {
      SeedsDistinctUpTo(seed, |seed.categories|)
    }

    /** No two of the first k seed categories share a name or a slug. */
    ghost predicate SeedsDistinctUpTo(seed: SeedData, k: nat)
      requires k <= |seed.categories|
    {
      forall i, j :: 0 <= i < j < k ==>
        seed.categories[i].name != seed.categories[j].name
        && slugify(seed.categories[i].name) != slugify(seed.categories[j].name)
    }

    /** cats are the seeded categories, in seed order, each with slug slugify(name). */
    ghost predicate CategoriesSeeded(seed: SeedData, cats: seq<Category>) {
      |cats| == |seed.categories|
      && forall k :: 0 <= k < |cats| ==>
        cats[k].name == seed.categories[k].name
        && cats[k].slug == slugify(seed.categories[k].name)
        && cats[k].description == seed.categories[k].description
    }

    /**
     * The add_prod helper of the seeder: build the product, insert and flush it
     * with its base slug (failing if another row holds that slug), then make
     * its slug unique, which finds the row's own base slug taken.
     */
    method AddProd(name: string, description: string, imageUrl: string, affiliateUrl: string,
                   categoryId: nat, isFeatured: bool) returns (ok: bool)
      requires Valid()
      modifies this
      ensures Valid()
      ensures ok <==> slugify(name) !in SlugSet(old(products))
      ensures !ok ==> products == old(products) && nextProductId == old(nextProductId)
      ensures ok ==>
        var base := slugify(name);
        nextProductId == old(nextProductId) + 1
        && products == old(products) + [Product(old(nextProductId), name, ResolveSlug(SlugSet(old(products)) + {base}, base),
                                                description, imageUrl, affiliateUrl, isFeatured, categoryId)]
      ensures categories == old(categories) && nextCategoryId == old(nextCategoryId)
    {
      var p := NewProduct(slugify, name, description, imageUrl, affiliateUrl, categoryId, isFeatured);
      ok := InsertProduct(p);
      if ok {
        ghost var row := products[|products| - 1];
        EnsureUniqueSlug(|products| - 1);
        AppendThenRename(slugify, old(products), row, products);
      }
    }

    /**
     * Insert seed category k after the ones before it: it fails exactly when
     * its name or slug repeats one of theirs.
     */
    method SeedCategory(seed: SeedData, k: nat) returns (ok: bool)
      requires Valid() && k < |seed.categories|
      requires CategoriesSeeded(SeedData(seed.categories[..k], []), categories) && SeedsDistinctUpTo(seed, k)
      modifies this
      ensures Valid()
      ensures ok ==> CategoriesSeeded(SeedData(seed.categories[..k + 1], []), categories)
                     && SeedsDistinctUpTo(seed, k + 1)
      ensures ok ==>
        var s := seed.categories[k];
        categories == old(categories) + [Category(old(nextCategoryId), s.name, slugify(s.name), s.description)]
        && nextCategoryId == old(nextCategoryId) + 1
      ensures !ok ==> !CategorySeedsDistinct(seed)
      ensures !ok ==> categories == old(categories) && nextCategoryId == old(nextCategoryId)
      ensures products == old(products) && nextProductId == old(nextProductId)
    {
      var s := seed.categories[k];
      ok := InsertCategory(NewCategory(slugify, s.name, s.description));
      if !ok {
        var d :| d in categories && (d.name == s.name || d.slug == slugify(s.name));
        var i :| 0 <= i < |categories| && categories[i] == d;
        assert seed.categories[i].name == s.name || slugify(seed.categories[i].name) == slugify(s.name);
      }
    }

    /**
     * The category half of seed_if_empty: insert the seed categories and
     * commit them; a name or slug that repeats fails the commit, which rolls
     * all of them back.
     */
    method SeedCategories(seed: SeedData) returns (ok: bool)
      requires Valid() && categories == []
      modifies this
      ensures Valid()
      ensures ok <==> CategorySeedsDistinct(seed)
      ensures ok ==> CategoriesSeeded(seed, categories) && CategoryIdsFrom(categories, old(nextCategoryId))
                     && nextCategoryId == old(nextCategoryId) + |seed.categories|
      ensures !ok ==> categories == old(categories) && nextCategoryId == old(nextCategoryId)
      ensures products == old(products) && nextProductId == old(nextProductId)
    {
      var savedNextCategoryId := nextCategoryId;
      var k := 0;
      while k < |seed.categories|
        invariant Valid() && k <= |seed.categories|
        invariant products == old(products) && nextProductId == old(nextProductId)
        invariant CategoryIdsFrom(categories, savedNextCategoryId) && nextCategoryId == savedNextCategoryId + k
        invariant CategoriesSeeded(SeedData(seed.categories[..k], []), categories) && SeedsDistinctUpTo(seed, k)
      {
        ok := SeedCategory(seed, k);
        if !ok {
          categories, nextCategoryId := [], savedNextCategoryId;
          return;
        }
        k := k + 1;
      }
      assert seed.categories[..k] == seed.categories;
      ok := true;
    }

    /** add_prod for seed product k, once the seed products before it are in the table. */
    method AddSeedProduct(seed: SeedData, k: nat, ghost rows: seq<Product>, ghost next: nat) returns (ok: bool)
      requires Valid() && SeedsPointInto(seed.products, |categories|) && k < |seed.products|
      requires products == SeededTable(slugify, rows, next, seed.products[..k], categories)
      requires nextProductId == next + k
      requires SeedSlugsFree(slugify, rows, next, seed.products[..k], categories)
      modifies this
      ensures Valid()
      ensures categories == old(categories) && nextCategoryId == old(nextCategoryId)
      ensures ok <==> slugify(seed.products[k].name) !in SlugSet(old(products))
      ensures ok ==> SeedSlugsFree(slugify, rows, next, seed.products[..k + 1], categories)
      ensures !ok ==> !SeedSlugsFree(slugify, rows, next, seed.products, categories)
      ensures ok ==> products == SeededTable(slugify, rows, next, seed.products[..k + 1], categories)
                     && nextProductId == next + k + 1
      ensures !ok ==> products == old(products) && nextProductId == old(nextProductId)
    {
      var s := seed.products[k];
      SeedSlugsFreeStep(slugify, rows, next, seed.products, categories, k);
      SeedSlugsFreePrefix(slugify, rows, next, seed.products, categories, k + 1);
      ok := AddProd(s.name, s.description, s.imageUrl, s.affiliateUrl, categories[s.category].id, s.isFeatured);
      if ok {
        AddedSeedIsNextRow(slugify, rows, next, seed.products, categories, k, old(products), products,
                           products[|products| - 1]);
      }
    }

    /** Roll the products table back to an earlier valid state. */
    method RollBackProducts(ps: seq<Product>, next: nat)
      requires Valid() && ProductIdsAscending(ps, next) && SlugsUnique(ps)
      modifies this
      ensures Valid()
      ensures products == ps && nextProductId == next
      ensures categories == old(categories) && nextCategoryId == old(nextCategoryId)
    {
      products, nextProductId := ps, next;
    }

    /**
     * The product half of seed_if_empty: each seed product goes through
     * add_prod in order; a failing insert rolls back the products added so far.
     */
    method SeedProducts(seed: SeedData) returns (ok: bool)
      requires Valid() && SeedsPointInto(seed.products, |categories|)
      modifies this
      ensures Valid()
      ensures categories == old(categories) && nextCategoryId == old(nextCategoryId)
      ensures ok <==> SeedSlugsFree(slugify, old(products), old(nextProductId), seed.products, categories)
      ensures !ok ==> products == old(products) && nextProductId == old(nextProductId)
      ensures ok ==> products == SeededTable(slugify, old(products), old(nextProductId), seed.products, categories)
                     && nextProductId == old(nextProductId) + |seed.products|
    {
      var savedProducts, savedNextProductId := products, nextProductId;
      var k := 0;
      while k < |seed.products|
        invariant Valid() && k <= |seed.products|
        invariant categories == old(categories) && nextCategoryId == old(nextCategoryId)
        invariant nextProductId == savedNextProductId + k
        invariant products == SeededTable(slugify, savedProducts, savedNextProductId, seed.products[..k], categories)
        invariant SeedSlugsFree(slugify, savedProducts, savedNextProductId, seed.products[..k], categories)
      {
        var added := AddSeedProduct(seed, k, savedProducts, savedNextProductId);
        if !added {
          RollBackProducts(savedProducts, savedNextProductId);
          return false;
        }
        k := k + 1;
      }
      assert seed.products[..k] == seed.products;
      ok := true;
    }

    /**
     * seed_if_empty: nothing happens when a category exists. Otherwise the seed
     * categories are committed (all or none), then the seed products are added.
     */
    method SeedIfEmpty(seed: SeedData) returns (ok: bool)
      requires Valid() && SeedWellFormed(seed)
      modifies this
      ensures Valid()
      ensures |old(categories)| > 0 ==>
        ok && categories == old(categories) && products == old(products)
        && nextCategoryId == old(nextCategoryId) && nextProductId == old(nextProductId)
      ensures |old(categories)| == 0 && CategorySeedsDistinct(seed) ==>
        CategoriesSeeded(seed, categories) && CategoryIdsFrom(categories, old(nextCategoryId))
        && nextCategoryId == old(nextCategoryId) + |seed.categories|
        && (ok <==> SeedSlugsFree(slugify, old(products), old(nextProductId), seed.products, categories))
      ensures |old(categories)| == 0 && !CategorySeedsDistinct(seed) ==>
        !ok && categories == old(categories) && nextCategoryId == old(nextCategoryId)
      ensures !ok ==> products == old(products) && nextProductId == old(nextProductId)
      ensures ok && |old(categories)| == 0 ==>
        products == SeededTable(slugify, old(products), old(nextProductId), seed.products, categories)
        && nextProductId == old(nextProductId) + |seed.products|
    {
      if |categories| > 0 {
        return true;
      }
      ok := SeedCategories(seed);
      if ok {
        ok := SeedProducts(seed);
      }
    }
  }

  /**
   * Seeding twice in a row: once the first call has stored a category, the
   * second call changes nothing.
   */
  method SeedTwice(c: Catalog, seed: SeedData) returns (first: bool, second: bool,
                                                     seeded: seq<Category>, stored: seq<Product>)
    requires c.Valid() && SeedWellFormed(seed) && |seed.categories| > 0
    modifies c
    ensures c.Valid()
    ensures |old(c.categories)| > 0 || c.CategorySeedsDistinct(seed) ==>
      second && c.categories == seeded && c.products == stored
  {
    first := c.SeedIfEmpty(seed);
    seeded, stored := c.categories, c.products;
    second := c.SeedIfEmpty(seed);
  }
}
