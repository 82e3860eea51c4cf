/**
 * Backfilling blog pages: the sitemap url table, the staged upsert of sitemap urls,
 * the per-month url query, and the per-month parse-and-write step with its url
 * exclusions. Page fetching/parsing and the S3 write are parameters.
 */
module BackfillBlogs {
  import opened Wrappers
  import opened Text
  import opened Timestamps
  import opened Warehouse
  import opened AntiJoin
  import opened DuckDBClient

  const SitemapUrlsTable: string := "sitemap_urls"

  /** The blog's index page, which is not an article. */
  const BaseUrl: string := "https://pybit.es/articles/"

  /** Suffixes of image links listed in the sitemap (compared without a dot). */
  const Exclusion: seq<string> := ["png", "jpeg", "jpg"]

  function UrlKey(r: UrlRow): string { r.url }
  function UrlStamp(r: UrlRow): Option<Timestamp> { r.lastModified }

  // ---------------------------------------------------------------------------
  // Statements
  // ---------------------------------------------------------------------------

  /** `create sequence if not exists ...; create table if not exists name (...)`. */
  function CreateUrlTableStmt(name: string): Stmt<()>
  {
    (c: Catalog) =>
      if name in c.urlTables then Ok((c, ()))
      else Ok((c.(urlTables := c.urlTables[name := []]), ()))
  }

  /** `create or replace temporary table tmp_sitemap_url (url text, last_modified timestamp)`. */
  const CreateTmpSitemapUrl: Stmt<()> := (c: Catalog) => Ok((c.(tmpSitemapUrl := Some([])), ()))

  /**
   * A cell of a parsed sitemap row: the `href` of a cell holding a link, or the date
   * parsed from a cell whose text holds a '-'. A row is a tuple of its cells, in order.
   */
  datatype SitemapCell = Href(link: string) | Stamp(time: Timestamp)

  function ParamCountError(n: nat): string
  {
    "Invalid Input Error: Prepared statement needs 2 parameters, " + NatToString(n) + " given"
  }

  function TimestampCastError(text: string): string
  {
    "Conversion Error: invalid timestamp field format: \"" + text
      + "\", expected format is (YYYY-MM-DD HH:MM:SS[.US][±HH:MM| ZONE])"
  }

  /** `n` in decimal, padded on the left with zeros to at least `width` digits. */
  function Padded(n: nat, width: nat): (s: string)
    ensures |s| >= width
    ensures forall i :: 0 <= i < |s| ==> IsDigit(s[i])
  {
    var digits := NatToString(n);
    if |digits| >= width then digits else Zeros(width - |digits|) + digits
  }

  function Zeros(n: nat): (s: string)
    ensures |s| == n
    ensures forall i :: 0 <= i < n ==> s[i] == '0'
  {
    if n == 0 then "" else "0" + Zeros(n - 1)
  }

  /** A timestamp cast to text: `YYYY-MM-DD HH:MM:SS`, with ` (BC)` after years before 1. */
  function TimestampText(t: Timestamp): (s: string)
    ensures |s| >= 19
  {
    var y := if t.year >= 1 then t.year else 1 - t.year;
    var ys := Padded(y, 4);
    var text := ys + "-" + Padded(t.month, 2) + "-" + Padded(t.day, 2) + " "
      + Padded(t.hour, 2) + ":" + Padded(t.minute, 2) + ":" + Padded(t.second, 2)
      + (if t.year >= 1 then "" else " (BC)");
    text
  }

  /**
   * Binding one tuple to `values (?, ?)`: it must have exactly two cells, and the second
   * must cast to `timestamp`; a date in the first cell is cast to its text.
   */
  function BindUrlRow(row: seq<SitemapCell>): (r: Result<UrlRow>)
    ensures r.Ok? <==> |row| == 2 && row[1].Stamp?
    ensures r.Ok? ==> r.value.lastModified == Some(row[1].time)
    ensures r.Ok? && row[0].Href? ==> r.value.url == row[0].link
    ensures |row| != 2 ==> r == Err(ParamCountError(|row|))
  {
    if |row| != 2 then Err(ParamCountError(|row|))
    else if row[1].Href? then Err(TimestampCastError(row[1].link))
    else Ok(UrlRow(CellText(row[0]), Some(row[1].time)))
  }

  /** A cell bound to a `text` column: a link as it is, a date cast to its text. */
  function CellText(cell: SitemapCell): (s: string)
    ensures cell.Href? ==> s == cell.link
  {
    match cell
    case Href(link) => link
    case Stamp(t) => TimestampText(t)
  }

  /**
   * Binding each tuple in order with `bind`, as `executemany` does; the first tuple that
   * does not bind is the error.
   */
  function BindEach<P>(bind: P -> Result<UrlRow>, params: seq<P>): (r: Result<seq<UrlRow>>)
    ensures r.Ok? ==> |r.value| == |params|
    decreases |params|
  {
    if |params| == 0 then Ok([])
    else match bind(params[0])
      case Err(msg) => Err(msg)
      case Ok(u) =>
        var rest := BindEach(bind, params[1..]);
        if rest.Err? then Err(rest.msg) else Ok([u] + rest.value)
  }

  /** The sitemap batch bound to `values (?, ?)`. */
  function BindAll(params: seq<seq<SitemapCell>>): Result<seq<UrlRow>>
  {
    BindEach(BindUrlRow, params)
  }

  /** Binding succeeds exactly when every tuple binds, and then yields each tuple's row in place. */
  lemma {:induction false} BindEachRows<P>(bind: P -> Result<UrlRow>, params: seq<P>)
    ensures BindEach(bind, params).Ok? <==> forall i :: 0 <= i < |params| ==> bind(params[i]).Ok?
    ensures BindEach(bind, params).Ok? ==>
      forall i :: 0 <= i < |params| ==> BindEach(bind, params).value[i] == bind(params[i]).value
    decreases |params|
  {
    if |params| > 0 {
      BindEachRows(bind, params[1..]);
      assert forall i :: 1 <= i < |params| ==> params[i] == params[1..][i - 1];
    }
  }

  /** A failed binding raises the error of the first tuple that does not bind. */
  lemma {:induction false} BindEachFirstError<P>(bind: P -> Result<UrlRow>, params: seq<P>)
    requires BindEach(bind, params).Err?
    ensures exists i :: 0 <= i < |params| && bind(params[i]) == Err(BindEach(bind, params).msg)
                        && forall j :: 0 <= j < i ==> bind(params[j]).Ok?
    decreases |params|
  {
    if bind(params[0]).Ok? {
      BindEachFirstError(bind, params[1..]);
      var i :| 0 <= i < |params[1..]| && bind(params[1..][i]) == Err(BindEach(bind, params[1..]).msg)
               && forall j :: 0 <= j < i ==> bind(params[1..][j]).Ok?;
      assert bind(params[i + 1]) == Err(BindEach(bind, params).msg);
      forall j | 0 <= j < i + 1
        ensures bind(params[j]).Ok?
      {
        if j > 0 {
          assert params[j] == params[1..][j - 1];
        }
      }
    }
  }

  /** `insert into tmp_sitemap_url (url, last_modified) values (?, ?)`, for one tuple bound by `bind`. */
  function InsertBound<P>(bind: P -> Result<UrlRow>): RowStmt<P>
  {
    (c: Catalog, row: P) =>
      match c.tmpSitemapUrl
      case None => Err(MissingTable("tmp_sitemap_url"))
      case Some(rows) =>
        match bind(row)
        case Err(msg) => Err(msg)
        case Ok(u) => Ok(c.(tmpSitemapUrl := Some(rows + [u])))
  }

  /** The staging insert for sitemap tuples. */
  function InsertTmpSitemapUrl(): RowStmt<seq<SitemapCell>>
  {
    InsertBound(BindUrlRow)
  }

  /** The left-anti-join merge of `tmp_sitemap_url` into the named url table. */
  function MergeUrlsStmt(name: string): Stmt<()>
  {
    (c: Catalog) =>
      if name !in c.urlTables then Err(MissingTable(name))
      else if c.tmpSitemapUrl.None? then Err(MissingTable("tmp_sitemap_url"))
      else
        var target := c.urlTables[name];
        Ok((c.(urlTables := c.urlTables[name := target + MergeAppend(UrlKey, UrlStamp, c.tmpSitemapUrl.value, target)]), ()))
  }

  /** What a successful `upsert_urls` leaves in the database. */
  function UpsertEffect(c: Catalog, name: string, params: seq<seq<SitemapCell>>): (r: Result<Catalog>)
    ensures |params| == 0 ==> r == Ok(c)
    ensures |params| > 0 ==> (r.Ok? <==> BindAll(params).Ok? && name in c.urlTables)
    ensures |params| > 0 && BindAll(params).Err? ==> r == Err(BindAll(params).msg)
    ensures r.Err? && BindAll(params).Ok? ==> r.msg == MissingTable(name)
  {
    if |params| == 0 then Ok(c)
    else match BindAll(params)
      case Err(msg) => Err(msg)
      case Ok(rows) => StagedMerge(c, name, rows)
  }

  /** The bound rows staged, then merged into the named table. */
  function StagedMerge(c: Catalog, name: string, rows: seq<UrlRow>): (r: Result<Catalog>)
    ensures r.Ok? <==> name in c.urlTables
    ensures r.Err? ==> r.msg == MissingTable(name)
  {
    if name !in c.urlTables then Err(MissingTable(name))
    else
      var staged := c.(tmpSitemapUrl := Some(rows));
      Ok(staged.(urlTables := c.urlTables[name := c.urlTables[name] + MergeAppend(UrlKey, UrlStamp, rows, c.urlTables[name])]))
  }

  /**
   * An upsert only appends to its target: the old rows stay, in place and unchanged,
   * every appended row is one of the bound batch, other url tables are untouched, and
   * the staging table holds the whole bound batch, duplicates included.
   */
  lemma UpsertOnlyAppends(c: Catalog, name: string, params: seq<seq<SitemapCell>>)
    requires UpsertEffect(c, name, params).Ok? && |params| > 0
    ensures BindAll(params).Ok?
    ensures var after, rows := UpsertEffect(c, name, params).value, BindAll(params).value;
      && name in after.urlTables
      && |after.urlTables[name]| >= |c.urlTables[name]|
      && after.urlTables[name][..|c.urlTables[name]|] == c.urlTables[name]
      && (forall i :: |c.urlTables[name]| <= i < |after.urlTables[name]| ==> after.urlTables[name][i] in rows)
      && (forall other :: other in c.urlTables && other != name ==> other in after.urlTables && after.urlTables[other] == c.urlTables[other])
      && after.tmpSitemapUrl == Some(rows)
  {
    StagedMergeOnlyAppends(c, name, BindAll(params).value);
  }

  lemma StagedMergeOnlyAppends(c: Catalog, name: string, rows: seq<UrlRow>)
    requires name in c.urlTables
    ensures var after := StagedMerge(c, name, rows).value;
      && name in after.urlTables
      && |after.urlTables[name]| >= |c.urlTables[name]|
      && after.urlTables[name][..|c.urlTables[name]|] == c.urlTables[name]
      && (forall i :: |c.urlTables[name]| <= i < |after.urlTables[name]| ==> after.urlTables[name][i] in rows)
      && (forall other :: other in c.urlTables && other != name ==> other in after.urlTables && after.urlTables[other] == c.urlTables[other])
      && after.tmpSitemapUrl == Some(rows)
  {
    var old_ := c.urlTables[name];
    var added := MergeAppend(UrlKey, UrlStamp, rows, old_);
    AppendedAreStaged(UrlKey, UrlStamp, rows, old_);
    var after := StagedMerge(c, name, rows).value;
    assert after.urlTables[name] == old_ + added;
    forall i | |old_| <= i < |after.urlTables[name]|
      ensures after.urlTables[name][i] in rows
    {
      assert after.urlTables[name][i] == added[i - |old_|];
    }
  }

  /**
   * Loading tuple after tuple into an existing staging table appends every bound tuple,
   * in order, or raises the error of the first tuple that does not bind.
   */
  lemma {:induction false} LoadStaging<P>(bind: P -> Result<UrlRow>, c: Catalog, rows: seq<UrlRow>, params: seq<P>)
    requires c.tmpSitemapUrl == Some(rows)
    ensures BindEach(bind, params).Ok? ==>
      ApplyEach(InsertBound(bind), c, params) == (c.(tmpSitemapUrl := Some(rows + BindEach(bind, params).value)), Done)
    ensures BindEach(bind, params).Err? ==> ApplyEach(InsertBound(bind), c, params).1 == Raised(BindEach(bind, params).msg)
    decreases |params|
  {
    if |params| == 0 {
      assert rows + [] == rows;
    } else if bind(params[0]).Ok? {
      var u, rest := bind(params[0]).value, BindEach(bind, params[1..]);
      var c1 := c.(tmpSitemapUrl := Some(rows + [u]));
      assert InsertBound(bind)(c, params[0]) == Ok(c1);
      LoadStaging(bind, c1, rows + [u], params[1..]);
      if rest.Ok? {
        assert rows + [u] + rest.value == rows + ([u] + rest.value);
      }
    }
  }

  // ---------------------------------------------------------------------------
  // Operations
  // ---------------------------------------------------------------------------

  /** `create_url_table`: creates the table unless it exists; existing rows are kept. */
  method CreateUrlTable(db: DuckDBConnector, name: string) returns (r: Outcome)
    requires db.Valid()
    modifies db
    ensures db.Valid() && r == Done && db.inTxn == old(db.inTxn)
    ensures db.pending == old(db.pending).(urlTables := if name in old(db.pending.urlTables) then old(db.pending.urlTables)
                                                       else old(db.pending.urlTables)[name := []])
    ensures db.committed == if db.inTxn then old(db.committed) else db.pending
  {
    var res := db.Execute(CreateUrlTableStmt(name));
    r := Done;
  }

  /**
   * `upsert_urls`: inside one transaction, recreate the staging table, load every
   * tuple with a single `executemany`, and merge. An empty batch returns before any
   * statement; any failure rolls back staging and merge together and is re-raised.
   */
  method UpsertUrls(db: DuckDBConnector, name: string, params: seq<seq<SitemapCell>>) returns (r: Outcome)
    requires db.Valid()
    modifies db
    ensures db.Valid() && !db.inTxn && db.pending == db.committed
    ensures old(db.inTxn) ==> r == Raised(NestedBeginError) && db.committed == old(db.committed)
    ensures old(db.inTxn) ==> db.executeCalls == old(db.executeCalls) && db.executemanyCalls == old(db.executemanyCalls)
    ensures !old(db.inTxn) ==> (r.Done? <==> UpsertEffect(old(db.committed), name, params).Ok?)
    ensures !old(db.inTxn) && r.Done? ==> db.committed == UpsertEffect(old(db.committed), name, params).value
    ensures !old(db.inTxn) && r.Raised? ==> UpsertEffect(old(db.committed), name, params) == Err(r.msg) && db.committed == old(db.committed)
    ensures |params| == 0 ==> db.executeCalls == old(db.executeCalls) && db.executemanyCalls == old(db.executemanyCalls)
    ensures |params| > 0 && !old(db.inTxn) ==> db.executemanyCalls == old(db.executemanyCalls) + 1
  {
    r := db.TransactionEnter();
    if r.Raised? {
      return;
    }
    if |params| == 0 {
      // "No data to upsert": leaving the block normally commits the empty transaction.
      r := db.TransactionExit(None);
      return;
    }
    var start := db.pending;
    var created := db.Execute(CreateTmpSitemapUrl);
    LoadStaging(BindUrlRow, db.pending, [], params);
    var loaded := db.Executemany(InsertTmpSitemapUrl(), params);
    if loaded.Raised? {
      r := db.TransactionExit(Some(loaded.msg));
      return;
    }
    assert [] + BindAll(params).value == BindAll(params).value;
    assert db.pending == start.(tmpSitemapUrl := Some(BindAll(params).value));
    var merged := db.Execute(MergeUrlsStmt(name));
    if merged.Err? {
      r := db.TransactionExit(Some(merged.msg));
      return;
    }
    r := db.TransactionExit(None);
  }

  // ---------------------------------------------------------------------------
  // Monthly parse and write
  // ---------------------------------------------------------------------------

  /** `extract(year/month from last_modified) = year/month`; false for a NULL timestamp. */
  predicate ModifiedIn(row: UrlRow, year: int, month: int)
  {
    row.lastModified.Some? && row.lastModified.value.year == year && row.lastModified.value.month == month
  }

  /** The urls of the rows last modified in the given month, in table order. */
  function UrlsForMonth(rows: seq<UrlRow>, year: int, month: int): (urls: seq<string>)
    ensures |urls| <= |rows|
  {
    if |rows| == 0 then []
    else (if ModifiedIn(rows[0], year, month) then [rows[0].url] else []) + UrlsForMonth(rows[1..], year, month)
  }

  /** A url is listed for the month exactly when some row of that month carries it. */
  lemma {:induction false} UrlsForMonthMembers(rows: seq<UrlRow>, year: int, month: int, u: string)
    ensures u in UrlsForMonth(rows, year, month) <==> exists i :: 0 <= i < |rows| && rows[i].url == u && ModifiedIn(rows[i], year, month)
  {
    if |rows| > 0 {
      UrlsForMonthMembers(rows[1..], year, month, u);
      if exists i :: 0 <= i < |rows| && rows[i].url == u && ModifiedIn(rows[i], year, month) {
        var i :| 0 <= i < |rows| && rows[i].url == u && ModifiedIn(rows[i], year, month);
        if i > 0 {
          assert rows[1..][i - 1] == rows[i];
        }
      }
      if u in UrlsForMonth(rows[1..], year, month) {
        var i :| 0 <= i < |rows[1..]| && rows[1..][i].url == u && ModifiedIn(rows[1..][i], year, month);
        assert rows[i + 1] == rows[1..][i];
      }
    }
  }

  /** `query_sitemap_url`: the month's urls from the sitemap table. */
  function QuerySitemapUrl(year: int, month: int): Stmt<seq<string>>
  {
    (c: Catalog) =>
      if SitemapUrlsTable !in c.urlTables then Err(MissingTable(SitemapUrlsTable))
      else Ok((c, UrlsForMonth(c.urlTables[SitemapUrlsTable], year, month)))
  }

  /** The index page, or a link ending in one of the image suffixes. */
  predicate IsExcluded(url: string)
  {
    url == BaseUrl || EndsWith(url, Exclusion[0]) || EndsWith(url, Exclusion[1]) || EndsWith(url, Exclusion[2])
  }

  /** The urls that are parsed as articles, in order. */
  function Pages(urls: seq<string>): (pages: seq<string>)
    ensures |pages| <= |urls|
  {
    if |urls| == 0 then []
    else (if IsExcluded(urls[0]) then [] else [urls[0]]) + Pages(urls[1..])
  }

  /** Exactly the urls that are not excluded are parsed. */
  lemma {:induction false} PagesMembers(urls: seq<string>, u: string)
    ensures u in Pages(urls) <==> u in urls && !IsExcluded(u)
  {
    if |urls| > 0 {
      PagesMembers(urls[1..], u);
      assert urls == [urls[0]] + urls[1..];
    }
  }

  lemma {:induction false} PagesAppend(a: seq<string>, b: seq<string>)
    ensures Pages(a + b) == Pages(a) + Pages(b)
  {
    if |a| == 0 {
      assert a + b == b;
    } else {
      var h := if IsExcluded(a[0]) then [] else [a[0]];
      PagesAppend(a[1..], b);
      assert (a + b)[0] == a[0];
      assert (a + b)[1..] == a[1..] + b;
      assert Pages(a + b) == h + Pages(a[1..] + b);
      assert Pages(a) == h + Pages(a[1..]);
    }
  }

  /** Parsing each url in turn; the first page that fails to parse raises. */
  function ParseAll(parse: string -> Result<Article>, urls: seq<string>): (r: Result<seq<Article>>)
    ensures r.Ok? ==> |r.value| == |urls|
  {
    if |urls| == 0 then Ok([])
    else match parse(urls[0])
      case Err(msg) => Err(msg)
      case Ok(a) =>
        match ParseAll(parse, urls[1..])
        case Err(msg) => Err(msg)
        case Ok(rest) => Ok([a] + rest)
  }

  /** Parsing succeeds exactly when every page parses, and then yields each page's article in order. */
  lemma {:induction false} ParseAllOk(parse: string -> Result<Article>, urls: seq<string>)
    ensures ParseAll(parse, urls).Ok? <==> forall i :: 0 <= i < |urls| ==> parse(urls[i]).Ok?
    ensures ParseAll(parse, urls).Ok? ==> forall i :: 0 <= i < |urls| ==> parse(urls[i]) == Ok(ParseAll(parse, urls).value[i])
  {
    if |urls| > 0 {
      ParseAllOk(parse, urls[1..]);
      assert forall i :: 1 <= i < |urls| ==> urls[i] == urls[1..][i - 1];
    }
  }

  lemma {:induction false} ParseAllAppend(parse: string -> Result<Article>, a: seq<string>, b: seq<string>)
    requires ParseAll(parse, a).Ok?
    ensures ParseAll(parse, a + b) == match ParseAll(parse, b)
      case Err(m) => Err(m)
      case Ok(rest) => Ok(ParseAll(parse, a).value + rest)
  {
    if |a| == 0 {
      assert a + b == b;
      assert ParseAll(parse, a).value == [];
      match ParseAll(parse, b)
      case Err(m) =>
      case Ok(rest) => assert [] + rest == rest;
    } else {
      var first := parse(a[0]).value;
      var x := ParseAll(parse, a).value;
      ParseAllAppend(parse, a[1..], b);
      assert (a + b)[0] == a[0];
      assert (a + b)[1..] == a[1..] + b;
      assert x == [first] + ParseAll(parse, a[1..]).value;
      match ParseAll(parse, b)
      case Err(m) =>
      case Ok(rest) =>
        assert ParseAll(parse, a + b) == Ok([first] + (ParseAll(parse, a[1..]).value + rest));
        assert [first] + (ParseAll(parse, a[1..]).value + rest) == x + rest;
    }
  }

  /** One more url: skipped when excluded, otherwise its article is appended. */
  lemma ParseStep(parse: string -> Result<Article>, done: seq<string>, u: string)
    requires ParseAll(parse, Pages(done)).Ok?
    ensures IsExcluded(u) ==> ParseAll(parse, Pages(done + [u])) == ParseAll(parse, Pages(done))
    ensures !IsExcluded(u) && parse(u).Ok? ==>
      ParseAll(parse, Pages(done + [u])) == Ok(ParseAll(parse, Pages(done)).value + [parse(u).value])
  {
    PagesAppend(done, [u]);
    ParseAllAppend(parse, Pages(done), Pages([u]));
    if IsExcluded(u) {
      assert Pages([u]) == [];
      assert Pages(done) + [] == Pages(done);
    } else {
      assert Pages([u]) == [u];
      assert [u][0] == u && [u][1..] == [];
      assert ParseAll(parse, []) == Ok([]);
      if parse(u).Ok? {
        assert ParseAll(parse, [u]) == Ok([parse(u).value] + []);
        assert [parse(u).value] + [] == [parse(u).value];
      }
    }
  }

  lemma SplitAround(s: seq<string>, i: nat)
    requires i < |s|
    ensures s == s[..i] + ([s[i]] + s[i + 1..])
  {
  }

  /** The first page that fails to parse decides the error of the whole month. */
  lemma FirstFailure(parse: string -> Result<Article>, urls: seq<string>, i: nat)
    requires i < |urls| && ParseAll(parse, Pages(urls[..i])).Ok?
    requires !IsExcluded(urls[i]) && parse(urls[i]).Err?
    ensures ParseAll(parse, Pages(urls)) == Err(parse(urls[i]).msg)
  {
    var u, before, rest := urls[i], urls[..i], urls[i + 1..];
    var tail := [u] + rest;
    SplitAround(urls, i);
    PagesAppend(before, tail);
    assert tail[0] == u && tail[1..] == rest;
    var pagesTail := [u] + Pages(rest);
    assert Pages(tail) == pagesTail;
    assert pagesTail[0] == u;
    assert ParseAll(parse, pagesTail) == Err(parse(u).msg);
    ParseAllAppend(parse, Pages(before), pagesTail);
  }

  /** The loop of `parse_and_write_blog_month`: parse every url that is not excluded, in order. */
  method ParsePages(urls: seq<string>, parse: string -> Result<Article>) returns (r: Result<seq<Article>>)
    ensures r == ParseAll(parse, Pages(urls))
  {
    var blogs: seq<Article> := [];
    var i := 0;
    while i < |urls|
      invariant 0 <= i <= |urls|
      invariant ParseAll(parse, Pages(urls[..i])) == Ok(blogs)
    {
      assert urls[..i + 1] == urls[..i] + [urls[i]];
      ParseStep(parse, urls[..i], urls[i]);
      if !IsExcluded(urls[i]) {
        var page := parse(urls[i]);
        if page.Err? {
          FirstFailure(parse, urls, i);
          return Err(page.msg);
        }
        blogs := blogs + [page.value];
      }
      i := i + 1;
    }
    assert urls[..i] == urls;
    r := Ok(blogs);
  }

  /**
   * `parse_and_write_blog_month`: with no urls for the month it returns 0 and writes
   * nothing; otherwise it parses the pages that are not excluded, writes them, and
   * returns how many there were.
   */
  method ParseAndWriteBlogMonth(db: DuckDBConnector, year: int, month: int,
                                parse: string -> Result<Article>, write: seq<Article> -> Outcome)
    returns (r: Result<nat>, written: Option<seq<Article>>)
    requires db.Valid()
    modifies db
    ensures db.Valid() && db.inTxn == old(db.inTxn)
    ensures db.pending == old(db.pending) && db.committed == old(db.committed)
    ensures SitemapUrlsTable !in old(db.pending).urlTables ==> r == Err(MissingTable(SitemapUrlsTable)) && written.None?
    ensures SitemapUrlsTable in old(db.pending).urlTables ==>
      var urls := UrlsForMonth(old(db.pending).urlTables[SitemapUrlsTable], year, month);
      && (|urls| == 0 ==> r == Ok(0) && written.None?)
      && (r.Ok? ==> r.value == |Pages(urls)|)
      && (|urls| > 0 ==> match ParseAll(parse, Pages(urls))
            case Err(m) => r == Err(m) && written.None?
            case Ok(blogs) =>
              && written == Some(blogs)
              && r == (if write(blogs).Done? then Ok(|blogs|) else Err(write(blogs).msg)))
  {
    written := None;
    var res := db.Execute(QuerySitemapUrl(year, month));
    if res.Err? {
      return Err(res.msg), None;
    }
    var urls := res.value;
    if |urls| == 0 {
      return Ok(0), None;
    }
    var parsed := ParsePages(urls, parse);
    if parsed.Err? {
      return Err(parsed.msg), None;
    }
    var blogs := parsed.value;
    written := Some(blogs);
    var w := write(blogs);
    if w.Raised? {
      return Err(w.msg), written;
    }
    r := Ok(|blogs|);
  }

  // ---------------------------------------------------------------------------
  // Sitemap rows
  // ---------------------------------------------------------------------------

  /** A sitemap table cell: a link, or a date text parsed to a timestamp. */
  /** `[url for url in urllist if len(url) > 1]`: rows with at least two cells, in order. */
  function MultiCellRows(rows: seq<seq<SitemapCell>>): (kept: seq<seq<SitemapCell>>)
    ensures |kept| <= |rows|
    ensures forall row :: row in kept <==> row in rows && |row| > 1
    decreases |rows|
  {
    if |rows| == 0 then []
    else (if |rows[0]| > 1 then [rows[0]] else []) + MultiCellRows(rows[1..])
  }

  /** A single row is kept, once, exactly when it has more than one cell. */
  lemma MultiCellRowsSingle(row: seq<SitemapCell>)
    ensures MultiCellRows([row]) == if |row| > 1 then [row] else []
  {
    assert [row][1..] == [];
  }

  /** The filter keeps order: filtering two lists one after the other is filtering both. */
  lemma {:induction false} MultiCellRowsAppend(a: seq<seq<SitemapCell>>, b: seq<seq<SitemapCell>>)
    ensures MultiCellRows(a + b) == MultiCellRows(a) + MultiCellRows(b)
    decreases |a|
  {
    if |a| > 0 {
      assert (a + b)[1..] == a[1..] + b;
      MultiCellRowsAppend(a[1..], b);
    } else {
      assert a + b == b;
    }
  }

  /**
   * The script's sitemap step: keep the parsed rows with more than one cell, make sure
   * the url table exists, then upsert the kept rows into it.
   */
  method LoadSitemapUrls(db: DuckDBConnector, urllist: seq<seq<SitemapCell>>) returns (r: Outcome)
    requires db.Valid()
    modifies db
    ensures db.Valid() && !db.inTxn
    ensures old(db.inTxn) ==> r == Raised(NestedBeginError) && db.committed == old(db.committed)
    ensures var created := CreateUrlTableStmt(SitemapUrlsTable)(old(db.committed)).value.0;
      var effect := UpsertEffect(created, SitemapUrlsTable, MultiCellRows(urllist));
      && (!old(db.inTxn) ==> (r.Done? <==> effect.Ok?))
      && (!old(db.inTxn) && r.Done? ==> db.committed == effect.value)
      && (!old(db.inTxn) && r.Raised? ==> effect == Err(r.msg) && db.committed == created)
  {
    var filtered := MultiCellRows(urllist);
    var _ := CreateUrlTable(db, SitemapUrlsTable);
    r := UpsertUrls(db, SitemapUrlsTable, filtered);
  }
}
