/**
 * The records of the DuckDB warehouse and the catalog that holds them: the sitemap url
 * table and its `tmp_sitemap_url` staging table, the bronze article tables and their
 * `tmp_table` staging table, the silver tables, the `uuid()` generator, and the
 * connection-level httpfs/S3 configuration.
 */
module Warehouse {
  import opened Wrappers
  import opened Timestamps

  /** A row of a url table: `url text, last_modified timestamp`. */
  datatype UrlRow = UrlRow(url: string, lastModified: Option<Timestamp>)

  /** `struct(text text, link text)`. */
  datatype Link = Link(text: string, link: string)

  /** A bronze row: one parsed article page. */
  datatype Article = Article(
    url: string,
    title: string,
    datePublished: Option<Timestamp>,
    dateModified: Option<Timestamp>,
    author: string,
    tags: seq<string>,
    contentLinks: seq<Link>,
    content: seq<string>)

  /** A silver row: an article with the columns derived from its url, dates and content. */
  datatype SilverRow = SilverRow(
    rowId: nat,
    url: string,
    domain: string,
    category: string,
    urlTitle: string,
    datePublished: Option<Timestamp>,
    dateModified: Option<Timestamp>,
    daysBetween: Option<int>,
    title: string,
    author: string,
    tags: seq<string>,
    contentLinks: seq<Link>,
    content: seq<string>,
    contentParagraphs: nat,
    totalContentWords: nat,
    year: Option<int>,
    month: Option<int>)

  /**
   * Everything one DuckDB database holds. `tmpSitemapUrl` and `tmpTable` are the
   * temporary tables (`None` when they do not exist); `loaded` and `settings` are the
   * connection's extensions and `SET` variables; `installed` lists extensions
   * installed on this machine.
   */
  datatype Catalog = Catalog(
    urlTables: map<string, seq<UrlRow>>,
    tmpSitemapUrl: Option<seq<UrlRow>>,
    bronzeTables: map<string, seq<Article>>,
    tmpTable: Option<seq<Article>>,
    silverTables: map<string, seq<SilverRow>>,
    nextUuid: nat,
    installed: set<string>,
    loaded: set<string>,
    settings: map<string, string>)

  function EmptyCatalog(): (c: Catalog)
    ensures c.urlTables == map[] && c.bronzeTables == map[] && c.silverTables == map[]
    ensures c.tmpSitemapUrl.None? && c.tmpTable.None?
  {
    Catalog(map[], None, map[], None, map[], 0, {}, {}, map[])
  }

  /**
   * What survives closing the connection: temporary tables, loaded extensions and
   * settings go; a `:memory:` database loses its tables too; installed extensions stay.
   */
  function AfterClose(c: Catalog, inMemory: bool): (r: Catalog)
    ensures r.tmpSitemapUrl.None? && r.tmpTable.None? && r.loaded == {} && r.settings == map[]
    ensures r.installed == c.installed
    ensures !inMemory ==> r.urlTables == c.urlTables && r.bronzeTables == c.bronzeTables && r.silverTables == c.silverTables
    ensures inMemory ==> r.urlTables == map[] && r.bronzeTables == map[] && r.silverTables == map[]
  {
    if inMemory then EmptyCatalog().(installed := c.installed)
    else c.(tmpSitemapUrl := None, tmpTable := None, loaded := {}, settings := map[])
  }

  /** A SQL statement: it changes the catalog and returns a value, or fails with a message. */
  type Stmt<+T> = Catalog -> Result<(Catalog, T)>

  /** A parameterised statement as `executemany` runs it, once per parameter tuple. */
  type RowStmt<-P> = (Catalog, P) -> Result<Catalog>

  /**
   * Running `stmt` once per parameter tuple in order, stopping at the first failure:
   * the catalog after the tuples that succeeded, and the failure if there was one.
   */
  function ApplyEach<P>(stmt: RowStmt<P>, c: Catalog, params: seq<P>): (r: (Catalog, Outcome))
    ensures |params| == 0 ==> r == (c, Done)
    decreases |params|
  {
    if |params| == 0 then (c, Done)
    else match stmt(c, params[0])
      case Err(msg) => (c, Raised(msg))
      case Ok(c1) => ApplyEach(stmt, c1, params[1..])
  }

  /** "Catalog Error: Table with name X does not exist!" */
  function MissingTable(name: string): string
  {
    "Catalog Error: Table with name " + name + " does not exist!"
  }
}
