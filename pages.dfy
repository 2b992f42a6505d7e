/**
 * What each page of the site reads from the two tables (the route handlers
 * index, search, category and product_detail of app.py), as pure functions of
 * the category and product rows. A lookup that finds no row gives None, which
 * the web layer turns into a 404 page.
 */
module Pages {
  import opened Wrappers
  import opened Text
  import opened Ordering
  import opened Models

  const FeaturedLimit: nat := 8
  const LatestLimit: nat := 12
  const RelatedLimit: nat := 6

  datatype HomePage = HomePage(featured: seq<Product>, categories: seq<Category>, latest: seq<Product>, q: string)
  datatype SearchPage = SearchPage(q: string, products: seq<Product>, categories: seq<Category>)
  datatype CategoryPage = CategoryPage(category: Category, products: seq<Product>, categories: seq<Category>)
  datatype ProductPage = ProductPage(product: Product, categories: seq<Category>, related: seq<Product>)

  /** WHERE: the rows that satisfy keep, in table order. */
  function Where<T(!new)>(s: seq<T>, keep: T -> bool): (r: seq<T>)
    ensures |r| <= |s|
    ensures forall x :: x in r <==> x in s && keep(x)
    ensures forall x :: multiset(r)[x] == if keep(x) then multiset(s)[x] else 0
  {
    if s == [] then []
    else
      assert s == [s[0]] + s[1..];
      if keep(s[0]) then [s[0]] + Where(s[1..], keep)
      else Where(s[1..], keep)
  }

  /** LIMIT n: the first n rows, or all of them when there are fewer. */
  function Take<T(!new)>(s: seq<T>, n: nat): (r: seq<T>)
    ensures |r| <= n && |r| <= |s| && r == s[..|r|]
    ensures forall x :: x in r ==> x in s
    ensures multiset(r) <= multiset(s)
    ensures |r| == n || r == s
  {
    if |s| <= n then s
    else
      assert s == s[..n] + s[n..];
      s[..n]
  }

  /** .first(): the first row that satisfies keep, or None when no row does. */
  function FirstWhere<T(!new)>(s: seq<T>, keep: T -> bool): (r: Option<T>)
    ensures r.None? <==> forall x :: x in s ==> !keep(x)
    ensures r.Some? ==> r.value in s && keep(r.value)
  {
    if s == [] then None
    else if keep(s[0]) then Some(s[0])
    else FirstWhere(s[1..], keep)
  }

  /** ORDER BY name ASC. */
  predicate NameLe(c: Category, d: Category) {
    TextLe(c.name, d.name)
  }

  /** ORDER BY id DESC. */
  predicate NewerFirst(p: Product, q: Product) {
    p.id >= q.id
  }

  lemma NameLeIsTotalPreorder()
    ensures TotalPreorder(NameLe)
  {
    forall c: Category, d: Category
      ensures NameLe(c, d) || NameLe(d, c)
    {
      TextLeTotal(c.name, d.name);
    }
    forall c: Category, d: Category, e: Category | NameLe(c, d) && NameLe(d, e)
      ensures NameLe(c, e)
    {
      TextLeTransitive(c.name, d.name, e.name);
    }
  }

  /** r lists every category of cats, each as often, by name ascending. */
  ghost predicate ByName(cats: seq<Category>, r: seq<Category>) {
    Sorted(r, NameLe) && multiset(r) == multiset(cats)
  }

  /** r lists every product of ps, each as often, by id descending. */
  ghost predicate ByIdDescending(ps: seq<Product>, r: seq<Product>) {
    Sorted(r, NewerFirst) && multiset(r) == multiset(ps)
  }

  /** The category list shown on every page: all categories, by name ascending. */
  function CategoriesByName(cats: seq<Category>): (r: seq<Category>)
    ensures ByName(cats, r)
    ensures forall c :: c in r <==> c in cats
  {
    NameLeIsTotalPreorder();
    SortBySorted(cats, NameLe);
    assert forall c :: c in SortBy(cats, NameLe) <==> c in multiset(cats);
    SortBy(cats, NameLe)
  }

  /** Products ordered by id descending: the newest row first. */
  function NewestFirst(ps: seq<Product>): (r: seq<Product>)
    ensures ByIdDescending(ps, r)
    ensures forall p :: p in r <==> p in ps
  {
    assert forall p :: p in SortBy(ps, NewerFirst) <==> p in multiset(ps);
    SortBySorted(ps, NewerFirst);
    SortBy(ps, NewerFirst)
  }

  /** A row of a sorted list that LIMIT cut off comes after every row that was kept. */
  lemma TakeKeepsLeast<T(!new)>(s: seq<T>, n: nat, le: (T, T) -> bool)
    requires Sorted(s, le)
    ensures forall x, i :: x in s && x !in Take(s, n) && 0 <= i < |Take(s, n)| ==> le(Take(s, n)[i], x)
  {
  }

  /**
   * The featured list of the home page: featured rows of ps only, none more
   * often than ps holds it, at most 8, and every featured row unless the cap
   * is reached.
   */
  ghost predicate FeaturedSelection(ps: seq<Product>, r: seq<Product>) {
    (forall p :: p in r ==> p in ps && p.isFeatured)
    && multiset(r) <= multiset(ps)
    && |r| <= FeaturedLimit
    && (|r| == FeaturedLimit || forall p: Product :: p.isFeatured ==> multiset(r)[p] == multiset(ps)[p])
  }

  /**
   * The latest list of the home page: at most 12 products of ps by id
   * descending, all of ps when there are fewer, and none left out that has a
   * higher id than one kept.
   */
  ghost predicate LatestSelection(ps: seq<Product>, r: seq<Product>) {
    Sorted(r, NewerFirst) && |r| <= LatestLimit
    && (forall p :: p in r ==> p in ps) && multiset(r) <= multiset(ps)
    && (|r| == LatestLimit || multiset(r) == multiset(ps))
    && (forall p, q :: p in ps && p !in r && q in r ==> p.id <= q.id)
  }

  /** Product.query.filter_by(is_featured=True).limit(8). */
  function Featured(ps: seq<Product>): (r: seq<Product>)
    ensures FeaturedSelection(ps, r)
  {
    Take(Where(ps, (p: Product) => p.isFeatured), FeaturedLimit)
  }

  /** Product.query.order_by(Product.id.desc()).limit(12). */
  function Latest(ps: seq<Product>): (r: seq<Product>)
    ensures LatestSelection(ps, r)
  {
    var newest := NewestFirst(ps);
    TakeKeepsLeast(newest, LatestLimit, NewerFirst);
    Take(newest, LatestLimit)
  }

  /**
   * The home page: the featured list, the categories by name and the latest
   * list, and the stripped q parameter handed back to the search box.
   */
  function Index(cats: seq<Category>, ps: seq<Product>, rawQ: string): (r: HomePage)
    ensures FeaturedSelection(ps, r.featured)
    ensures ByName(cats, r.categories)
    ensures LatestSelection(ps, r.latest)
    ensures r.q == Strip(rawQ)
  {
    HomePage(Featured(ps), CategoriesByName(cats), Latest(ps), Strip(rawQ))
  }

  /**
   * The products the search page lists for the stripped query q: none for an
   * empty q; otherwise every product whose name or description is ILIKE '%q%',
   * newest first, with no cap.
   */
  function SearchResults(ps: seq<Product>, q: string): (r: seq<Product>)
    ensures q == [] ==> r == []
    ensures q != [] ==> Sorted(r, NewerFirst)
    ensures forall p :: p in r ==> p in ps
    ensures q != [] ==> forall p :: p in r <==> p in ps && (ILikeInfix(p.name, q) || ILikeInfix(p.description, q))
    ensures q != [] ==>
      forall p :: multiset(r)[p] ==
        (if ILikeInfix(p.name, q) || ILikeInfix(p.description, q) then multiset(ps)[p] else 0)
  {
    if q == [] then []
    else
      var hits := Where(ps, (p: Product) => ILikeInfix(p.name, q) || ILikeInfix(p.description, q));
      NewestFirst(hits)
  }

  /**
   * For a query without '%' or '_', the search lists exactly the products
   * whose lower-cased name or description contains the lower-cased query.
   */
  lemma SearchIsSubstringMatch(ps: seq<Product>, q: string)
    requires q != [] && NoWildcards(q)
    ensures forall p :: p in SearchResults(ps, q) <==>
      p in ps && (Contains(Lower(p.name), Lower(q)) || Contains(Lower(p.description), Lower(q)))
    ensures forall p ::
      multiset(SearchResults(ps, q))[p] ==
        (if Contains(Lower(p.name), Lower(q)) || Contains(Lower(p.description), Lower(q)) then multiset(ps)[p] else 0)
  {
    forall p: Product
      ensures ILikeInfix(p.name, q) <==> Contains(Lower(p.name), Lower(q))
      ensures ILikeInfix(p.description, q) <==> Contains(Lower(p.description), Lower(q))
    {
      ILikeInfixIsContains(p.name, q);
      ILikeInfixIsContains(p.description, q);
    }
  }

  /** The search page: the request's q stripped of whitespace, its results, and the categories by name. */
  function Search(cats: seq<Category>, ps: seq<Product>, rawQ: string): (r: SearchPage)
    ensures r.q == Strip(rawQ)
    ensures (forall i :: 0 <= i < |rawQ| ==> IsSpace(rawQ[i])) ==> r.products == []
    ensures r.q != [] ==> Sorted(r.products, NewerFirst)
    ensures r.q != [] && NoWildcards(r.q) ==>
      forall p :: p in r.products <==>
        p in ps && (Contains(Lower(p.name), Lower(r.q)) || Contains(Lower(p.description), Lower(r.q)))
    ensures r.q != [] && NoWildcards(r.q) ==>
      forall p :: multiset(r.products)[p] ==
        (if Contains(Lower(p.name), Lower(r.q)) || Contains(Lower(p.description), Lower(r.q)) then multiset(ps)[p] else 0)
    ensures r.products == SearchResults(ps, r.q)
    ensures ByName(cats, r.categories)
  {
    var q := Strip(rawQ);
    var page := SearchPage(q, SearchResults(ps, q), CategoriesByName(cats));
    if q != [] && NoWildcards(q) then
      SearchIsSubstringMatch(ps, q);
      page
    else
      page
  }

  /**
   * The page of the category with this slug, or None (404) when no category
   * has it: the products of that category and only those, newest first.
   */
  function CategoryDetail(cats: seq<Category>, ps: seq<Product>, slug: string): (r: Option<CategoryPage>)
    ensures r.None? <==> forall c :: c in cats ==> c.slug != slug
    ensures r.Some? ==> r.value.category in cats && r.value.category.slug == slug
    ensures r.Some? ==> Sorted(r.value.products, NewerFirst)
    ensures r.Some? ==> forall p :: p in r.value.products <==> p in ps && p.categoryId == r.value.category.id
    ensures r.Some? ==>
      forall p :: multiset(r.value.products)[p] ==
        (if p.categoryId == r.value.category.id then multiset(ps)[p] else 0)
    ensures r.Some? ==> ByName(cats, r.value.categories)
  {
    match FirstWhere(cats, (c: Category) => c.slug == slug)
    case None => None
    case Some(cat) =>
      var mine := Where(ps, (p: Product) => p.categoryId == cat.id);
      Some(CategoryPage(cat, NewestFirst(mine), CategoriesByName(cats)))
  }

  /**
   * The page of the product with this slug, or None (404) when no product has
   * it, with at most 6 related products: same category, other id, so never the
   * product itself, and none when it is alone in its category.
   */
  function ProductDetail(cats: seq<Category>, ps: seq<Product>, slug: string): (r: Option<ProductPage>)
    ensures r.None? <==> forall p :: p in ps ==> p.slug != slug
    ensures r.Some? ==> r.value.product in ps && r.value.product.slug == slug
    ensures r.Some? ==> |r.value.related| <= RelatedLimit
    ensures r.Some? ==> forall q :: q in r.value.related ==>
      q in ps && q.categoryId == r.value.product.categoryId && q.id != r.value.product.id
    ensures r.Some? ==> multiset(r.value.related) <= multiset(ps)
    ensures r.Some? ==> r.value.product !in r.value.related
    ensures r.Some? && (forall q :: q in ps && q.categoryId == r.value.product.categoryId ==> q.id == r.value.product.id)
      ==> r.value.related == []
    ensures r.Some? ==> (|r.value.related| == RelatedLimit ||
      forall q: Product :: q.categoryId == r.value.product.categoryId && q.id != r.value.product.id ==>
        multiset(r.value.related)[q] == multiset(ps)[q])
    ensures r.Some? ==> ByName(cats, r.value.categories)
  {
    match FirstWhere(ps, (p: Product) => p.slug == slug)
    case None => None
    case Some(product) =>
      var related := Take(Where(ps, (q: Product) => q.categoryId == product.categoryId && q.id != product.id), RelatedLimit);
      assert |related| > 0 ==> related[0] in related;
      Some(ProductPage(product, CategoriesByName(cats), related))
  }
}
