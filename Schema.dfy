/** The record shapes of the opportunity backend's tables and of the UI's
  * view of an opportunity, and the JavaScript values the code branches on
  * (a number that may be NaN, a date that may not parse, a value that may
  * be missing). */
module Schema {

  datatype Option<T> = None | Some(value: T)

  datatype Result<T> = Ok(value: T) | Err(error: string)

  /** A JavaScript number where the code tests it with `isNaN`. */
  datatype JsNumber = NaN | Num(value: real)

  /** `new Date(x).getTime()`: whole milliseconds since the epoch, or NaN
    * when `x` does not denote a date. */
  datatype Timestamp = Invalid | Ms(ms: int)

  /** Milliseconds in a minute, an hour and a day, as the code writes
    * `1000 * 60`, `1000 * 60 * 60` and `1000 * 60 * 60 * 24`. */
  const MsPerMinute: int := 60000
  const MsPerHour: int := 3600000
  const MsPerDay: int := 86400000

  /** A document id. Ids are handed out fresh by the store. */
  type Id = nat

  /** The id of a user document. */
  type UserId = string

  /** The four search-term categories the `searchQueries` validator accepts. */
  datatype Category = Industry | Values | Products | Competitors

  /** The literal that stands for a category in the documents. */
  function CategoryName(c: Category): string
  {
    match c
    case Industry => "industry"
    case Values => "values"
    case Products => "products"
    case Competitors => "competitors"
  }

  /** The validator's `v.union` of four literals: a string is a category
    * exactly when it is one of the four names. */
  function ParseCategory(s: string): (r: Option<Category>)
    ensures r.Some? ==> CategoryName(r.value) == s
  {
    if s == "industry" then Some(Industry)
    else if s == "values" then Some(Values)
    else if s == "products" then Some(Products)
    else if s == "competitors" then Some(Competitors)
    else None
  }

  /** Parsing inverts naming, so the four names are distinct. */
  lemma ParseCategoryName(c: Category)
    ensures ParseCategory(CategoryName(c)) == Some(c)
  {
  }

  /** An AI brief attached to an opportunity. */
  datatype Brief = Brief(title: string, brief: string, emotion: string, generatedAt: int)

  /** A document of the `opportunities` table. */
  datatype Opportunity = Opportunity(
    userId: UserId,
    title: string,
    summary: string,
    content: string,
    source: string,
    url: string,
    publishedAt: Timestamp,
    similarityScore: real,
    finalScore: real,
    isTrending: bool,
    isDismissed: bool,
    aiBrief: Option<Brief>,
    createdAt: int,
    updatedAt: int)

  /** One weighted search term of a term set. */
  datatype Query = Query(term: string, weight: real, category: Category)

  /** A document of the `searchQueries` table: the terms extracted from a
    * brand guide, with the guide's embedding. */
  datatype SearchQuerySet = SearchQuerySet(
    userId: UserId,
    brandGuideId: Id,
    queries: seq<Query>,
    brandEmbedding: seq<real>,
    isActive: bool,
    createdAt: int,
    updatedAt: int)

  /** A document of the `brandGuides` table. */
  datatype BrandGuide = BrandGuide(
    userId: UserId,
    fileId: string,
    fileName: string,
    fileSize: int,
    fileContent: Option<string>,
    uploadedAt: int,
    processed: bool)

  /** A news search result after normalisation: every field present. */
  datatype SearchResult = SearchResult(
    title: string,
    url: string,
    content: string,
    publishedDate: string,
    source: string)

  /** The UI's view of an opportunity (`ArticleOpportunity`). */
  datatype ArticleOpportunity = ArticleOpportunity(
    id: string,
    title: string,
    summary: string,
    source: string,
    url: string,
    publishedAt: JsNumber,
    keywords: seq<string>,
    baseScore: real,
    dynamicScore: real,
    trendingScore: real,
    isTrending: bool,
    aiBrief: Option<Brief>)

  /** A brand keyword as the keyword manager edits it. The category is the
    * string the keyword carries, which need not be one of the four. */
  datatype Keyword = Keyword(
    term: string,
    weight: real,
    category: string,
    userPreference: real,
    isActive: bool)
}
