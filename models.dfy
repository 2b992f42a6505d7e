/**
 * The two tables of the catalog as records, and their constructors. A record
 * that has not been flushed yet has no row id; the model writes that as id 0,
 * since the rows SQLite numbers start at 1. The product price (a float) is not
 * modelled.
 */
module Models {

  /** The text-to-token transform of python-slugify, left uninterpreted. */
  type Slugifier = string -> string

  /** The id of a record that has not been flushed. */
  const Transient: nat := 0

  datatype Category = Category(id: nat, name: string, slug: string, description: string)

  datatype Product = Product(
    id: nat,
    name: string,
    slug: string,
    description: string,
    imageUrl: string,
    affiliateUrl: string,
    isFeatured: bool,
    categoryId: nat)

  /** Category(name, description=""): the slug is slugify(name), fixed from then on. */
  function NewCategory(slugify: Slugifier, name: string, description: string := ""): (c: Category)
    ensures c.id == Transient && c.slug == slugify(name)
    ensures c.name == name && c.description == description
  {
    Category(Transient, name, slugify(name), description)
  }

  /**
   * Product(name, description, ..., category, is_featured=False): the initial
   * slug is the base slug slugify(name); uniqueness is resolved later.
   */
  function NewProduct(slugify: Slugifier, name: string, description: string, imageUrl: string,
                      affiliateUrl: string, categoryId: nat, isFeatured: bool := false): (p: Product)
    ensures p.id == Transient && p.slug == slugify(name)
    ensures p.name == name && p.description == description && p.imageUrl == imageUrl
    ensures p.affiliateUrl == affiliateUrl && p.categoryId == categoryId && p.isFeatured == isFeatured
  {
    Product(Transient, name, slugify(name), description, imageUrl, affiliateUrl, isFeatured, categoryId)
  }

  /** A product built without an is_featured argument is not featured. */
  lemma NotFeaturedByDefault(slugify: Slugifier, name: string, description: string, imageUrl: string,
                             affiliateUrl: string, categoryId: nat)
    ensures !NewProduct(slugify, name, description, imageUrl, affiliateUrl, categoryId).isFeatured
  {
  }
}
