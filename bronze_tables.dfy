/**
 * The bronze layer: parsed articles loaded from the S3 Parquet files into
 * `bronze_pybites_blogs` through the `tmp_table` staging table and an anti-join merge
 * on url and `date_modified`, all inside one transaction. Reading the Parquet files
 * is a parameter: the rows it yields, or the error it raises.
 */
module BronzeTables {
  import opened Wrappers
  import opened Timestamps
  import opened Warehouse
  import opened AntiJoin
  import opened DuckDBClient

  const BronzeTable: string := "bronze_pybites_blogs"
  const TmpTable: string := "tmp_table"

  function ArticleKey(a: Article): string { a.url }
  function ArticleStamp(a: Article): Option<Timestamp> { a.dateModified }

  /** The text logged before the error is re-raised. */
  function BronzeError(msg: string): string
  {
    "Error creating bronze table: " + msg
  }

  // ---------------------------------------------------------------------------
  // Statements
  // ---------------------------------------------------------------------------

  /** `create table if not exists name (...)`: an existing table keeps its rows. */
  function CreateBronzeIfAbsent(name: string): Stmt<()>
  {
    (c: Catalog) =>
      if name in c.bronzeTables then Ok((c, ()))
      else Ok((c.(bronzeTables := c.bronzeTables[name := []]), ()))
  }

  /** `create or replace temporary table tmp_table as select * from name where 1=0`. */
  function CreateTmpTable(name: string): Stmt<()>
  {
    (c: Catalog) =>
      if name !in c.bronzeTables then Err(MissingTable(name))
      else Ok((c.(tmpTable := Some([])), ()))
  }

  /** `insert into tmp_table select * from read_parquet(...)`. */
  function LoadTmpTable(source: Result<seq<Article>>): Stmt<()>
  {
    (c: Catalog) =>
      if c.tmpTable.None? then Err(MissingTable(TmpTable))
      else match source
        case Err(msg) => Err(msg)
        case Ok(rows) => Ok((c.(tmpTable := Some(c.tmpTable.value + rows)), ()))
  }

  /** The left-anti-join insert of `tmp_table` into the named bronze table. */
  function MergeBronze(name: string): Stmt<()>
  {
    (c: Catalog) =>
      if name !in c.bronzeTables then Err(MissingTable(name))
      else if c.tmpTable.None? then Err(MissingTable(TmpTable))
      else
        var target := c.bronzeTables[name];
        Ok((c.(bronzeTables := c.bronzeTables[name := target + MergeAppend(ArticleKey, ArticleStamp, c.tmpTable.value, target)]), ()))
  }

  /** `SELECT COUNT(*) FROM name`. */
  function CountRows(name: string): Stmt<nat>
  {
    (c: Catalog) =>
      if name !in c.bronzeTables then Err(MissingTable(name))
      else Ok((c, |c.bronzeTables[name]|))
  }

  // ---------------------------------------------------------------------------
  // Specification
  // ---------------------------------------------------------------------------

  /**
   * What one successful run of the block leaves behind: the create statement, then a
   * staging table holding exactly the source rows, then the merge; or the first error.
   */
  function BronzeEffect(c: Catalog, create: Stmt<()>, name: string, source: Result<seq<Article>>): (r: Result<Catalog>)
    ensures r.Ok? ==> create(c).Ok? && source.Ok? && name in r.value.bronzeTables
    ensures r.Ok? ==> r.value.tmpTable == Some(source.value)
    ensures create(c).Ok? && name in create(c).value.0.bronzeTables && source.Err? ==> r == Err(source.msg)
  {
    match create(c)
    case Err(msg) => Err(msg)
    case Ok((c1, _)) =>
      if name !in c1.bronzeTables then Err(MissingTable(name))
      else match source
        case Err(msg) => Err(msg)
        case Ok(rows) =>
          var target := c1.bronzeTables[name];
          Ok(c1.(tmpTable := Some(rows),
                 bronzeTables := c1.bronzeTables[name := target + MergeAppend(ArticleKey, ArticleStamp, rows, target)]))
  }

  /** The bronze table as the pipeline's own create statement leaves it. */
  function TableOrEmpty(c: Catalog, name: string): seq<Article>
  {
    if name in c.bronzeTables then c.bronzeTables[name] else []
  }

  // ---------------------------------------------------------------------------
  // Operations
  // ---------------------------------------------------------------------------

  /**
   * `create_bronze_table`: one transaction runs the create statement, recreates the
   * empty staging table, loads the source into it, merges, and reads the row count for
   * the log. Any error rolls everything back, is logged and is re-raised.
   */
  method CreateBronzeTable(db: DuckDBConnector, create: Stmt<()>, name: string, source: Result<seq<Article>>)
    returns (r: Outcome, count: Option<nat>, errorLog: Option<string>)
    requires db.Valid()
    modifies db
    ensures db.Valid() && !db.inTxn && db.pending == db.committed
    ensures r.Raised? <==> errorLog.Some?
    ensures r.Raised? ==> errorLog == Some(BronzeError(r.msg)) && count.None?
    ensures old(db.inTxn) ==> r == Raised(NestedBeginError) && db.committed == old(db.committed)
    ensures !old(db.inTxn) ==> match BronzeEffect(old(db.committed), create, name, source)
      case Err(msg) => r == Raised(msg) && db.committed == old(db.committed)
      case Ok(after) => r == Done && db.committed == after && count == Some(|after.bronzeTables[name]|)
  {
    count, errorLog := None, None;
    r := db.TransactionEnter();
    if r.Raised? {
      errorLog := Some(BronzeError(r.msg));
      return;
    }
    var start := db.pending;
    var created := db.Execute(create);
    if created.Err? {
      r := db.TransactionExit(Some(created.msg));
      errorLog := Some(BronzeError(r.msg));
      return;
    }
    ghost var c1 := db.pending;
    var tmp := db.Execute(CreateTmpTable(name));
    if tmp.Err? {
      r := db.TransactionExit(Some(tmp.msg));
      errorLog := Some(BronzeError(r.msg));
      return;
    }
    assert name in c1.bronzeTables && db.pending == c1.(tmpTable := Some([]));
    var loaded := db.Execute(LoadTmpTable(source));
    if loaded.Err? {
      r := db.TransactionExit(Some(loaded.msg));
      errorLog := Some(BronzeError(r.msg));
      return;
    }
    assert [] + source.value == source.value;
    assert db.pending == c1.(tmpTable := Some(source.value));
    var merged := db.Execute(MergeBronze(name));
    assert db.pending == BronzeEffect(start, create, name, source).value;
    var n := db.Execute(CountRows(name));
    r := db.TransactionExit(None);
    count := Some(n.value);
  }

  /** `run_bronze_pipeline`: the create-if-absent statement for `bronze_pybites_blogs`. */
  method RunBronzePipeline(db: DuckDBConnector, source: Result<seq<Article>>)
    returns (r: Outcome, count: Option<nat>, errorLog: Option<string>)
    requires db.Valid()
    modifies db
    ensures db.Valid() && !db.inTxn && db.pending == db.committed
    ensures r.Raised? <==> errorLog.Some?
    ensures !old(db.inTxn) && source.Ok? ==>
      && r == Done
      && BronzeTable in db.committed.bronzeTables
      && db.committed.bronzeTables[BronzeTable] == TableOrEmpty(old(db.committed), BronzeTable)
           + MergeAppend(ArticleKey, ArticleStamp, source.value, TableOrEmpty(old(db.committed), BronzeTable))
      && count == Some(|db.committed.bronzeTables[BronzeTable]|)
    ensures !old(db.inTxn) && source.Err? ==> r == Raised(source.msg) && db.committed == old(db.committed)
  {
    r, count, errorLog := CreateBronzeTable(db, CreateBronzeIfAbsent(BronzeTable), BronzeTable, source);
  }

  // ---------------------------------------------------------------------------
  // Properties
  // ---------------------------------------------------------------------------

  /**
   * A load only appends: the table's old rows stay in place, every appended row is a
   * source row, and the url, silver and other bronze tables are untouched.
   */
  lemma BronzeOnlyAppends(c: Catalog, name: string, rows: seq<Article>)
    ensures var r := BronzeEffect(c, CreateBronzeIfAbsent(name), name, Ok(rows));
      && r.Ok?
      && var before := TableOrEmpty(c, name);
      && var after := r.value.bronzeTables[name];
      && |after| >= |before| && after[..|before|] == before
      && (forall i :: |before| <= i < |after| ==> after[i] in rows)
      && (forall other :: other in c.bronzeTables && other != name ==>
            other in r.value.bronzeTables && r.value.bronzeTables[other] == c.bronzeTables[other])
      && r.value.urlTables == c.urlTables && r.value.silverTables == c.silverTables
  {
    var before := TableOrEmpty(c, name);
    var added := MergeAppend(ArticleKey, ArticleStamp, rows, before);
    AppendedAreStaged(ArticleKey, ArticleStamp, rows, before);
    LoadResult(c, name, rows);
    var tables := c.bronzeTables[name := before + added];
    assert BronzeEffect(c, CreateBronzeIfAbsent(name), name, Ok(rows)).value.bronzeTables == tables;
    var after := tables[name];
    assert after == before + added;
    forall i | |before| <= i < |after|
      ensures after[i] in rows
    {
      assert after[i] == added[i - |before|];
    }
  }

  /** A source row whose url the table does not hold yet is appended once per occurrence. */
  lemma NewUrlArrives(c: Catalog, name: string, rows: seq<Article>, x: Article)
    requires x in rows
    requires forall j :: 0 <= j < |TableOrEmpty(c, name)| ==> TableOrEmpty(c, name)[j].url != x.url
    ensures var r := BronzeEffect(c, CreateBronzeIfAbsent(name), name, Ok(rows));
      r.Ok? && multiset(r.value.bronzeTables[name])[x] == multiset(TableOrEmpty(c, name))[x] + multiset(rows)[x]
      && x in r.value.bronzeTables[name]
  {
    var before := TableOrEmpty(c, name);
    AbsentKeyAppendedPerOccurrence(ArticleKey, ArticleStamp, rows, before, x);
    var after := BronzeEffect(c, CreateBronzeIfAbsent(name), name, Ok(rows)).value.bronzeTables[name];
    assert after == before + MergeAppend(ArticleKey, ArticleStamp, rows, before);
    assert multiset(rows)[x] > 0;
  }

  /** The table is left as it was exactly when every source row is settled in it. */
  lemma BronzeUnchangedIffSettled(c: Catalog, name: string, rows: seq<Article>)
    ensures var r := BronzeEffect(c, CreateBronzeIfAbsent(name), name, Ok(rows));
      r.Ok? && (r.value.bronzeTables[name] == TableOrEmpty(c, name) <==> Settled(ArticleKey, ArticleStamp, rows, TableOrEmpty(c, name)))
  {
    var before := TableOrEmpty(c, name);
    var added := MergeAppend(ArticleKey, ArticleStamp, rows, before);
    AppendsNothingIffSettled(ArticleKey, ArticleStamp, rows, before);
    var after := BronzeEffect(c, CreateBronzeIfAbsent(name), name, Ok(rows)).value.bronzeTables[name];
    assert after == before + added;
    if after == before {
      assert |added| == 0;
    }
    if added == [] {
      assert before + added == before;
    }
  }

  /**
   * Loading the same source twice changes nothing the second time, provided the source
   * holds one `date_modified` per url and none of its urls already has a row with a
   * different one.
   */
  lemma BronzeRerunAppendsNothing(c: Catalog, name: string, rows: seq<Article>)
    requires ConsistentBatch(ArticleKey, ArticleStamp, rows)
    requires var t := TableOrEmpty(c, name);
      forall i, j :: 0 <= i < |rows| && 0 <= j < |t| && ArticleKey(t[j]) == ArticleKey(rows[i]) ==>
        !SqlDiffers(ArticleStamp(rows[i]), ArticleStamp(t[j]))
    ensures var once := BronzeEffect(c, CreateBronzeIfAbsent(name), name, Ok(rows));
      && once.Ok?
      && var twice := BronzeEffect(once.value, CreateBronzeIfAbsent(name), name, Ok(rows));
      && twice.Ok? && twice.value.bronzeTables == once.value.bronzeTables
  {
    var before := TableOrEmpty(c, name);
    MergeIdempotentWhenNoStaleVersion(ArticleKey, ArticleStamp, rows, before);
    var merged := before + MergeAppend(ArticleKey, ArticleStamp, rows, before);
    LoadResult(c, name, rows);
    var once := BronzeEffect(c, CreateBronzeIfAbsent(name), name, Ok(rows)).value;
    assert once.bronzeTables == c.bronzeTables[name := merged];
    assert TableOrEmpty(once, name) == merged;
    assert MergeAppend(ArticleKey, ArticleStamp, rows, merged) == [];
    LoadResult(once, name, rows);
    assert merged + [] == merged;
    assert once.bronzeTables[name := merged] == once.bronzeTables;
  }

  /** The pipeline's own create statement never fails, so a loaded source always merges. */
  lemma LoadResult(c: Catalog, name: string, rows: seq<Article>)
    ensures var t := TableOrEmpty(c, name);
      BronzeEffect(c, CreateBronzeIfAbsent(name), name, Ok(rows))
        == Ok(c.(tmpTable := Some(rows), bronzeTables := c.bronzeTables[name := t + MergeAppend(ArticleKey, ArticleStamp, rows, t)]))
  {
    var t := TableOrEmpty(c, name);
    var m := MergeAppend(ArticleKey, ArticleStamp, rows, t);
    if name !in c.bronzeTables {
      assert c.bronzeTables[name := []][name := t + m] == c.bronzeTables[name := t + m];
    }
  }
}
