/**
 * The silver layer: the silver table's creation, and the monthly backfill that deletes
 * the silver rows of a window of months and re-inserts, for every url, the latest
 * bronze version in that window with the columns derived from its url, dates and
 * content. The clock is a parameter.
 */
module SilverTables {
  import opened Wrappers
  import opened Text
  import opened Timestamps
  import opened Warehouse
  import opened DuckDBClient

  const SilverTable: string := "silver_pybites_blogs"

  function CreateError(msg: string): string
  {
    "Error in creating silver table: " + msg
  }

  function BackfillError(msg: string): string
  {
    "Error in incremental silver table update: " + msg
  }

  // ---------------------------------------------------------------------------
  // Derived columns
  // ---------------------------------------------------------------------------

  /** `split_part(url, '/', 1) || '//' || split_part(url, '/', 3)`. */
  function Domain(url: string): string
  {
    SplitPart(url, '/', 1) + "//" + SplitPart(url, '/', 3)
  }

  /** `split_part(url, '/', 4)`. */
  function Category(url: string): string
  {
    SplitPart(url, '/', 4)
  }

  /** `split_part(url, '/', -2)`: the slug of a url that ends in a slash. */
  function UrlTitle(url: string): string
  {
    SplitPart(url, '/', -2)
  }

  /** `date_diff('day', date_published, date_modified)`; NULL when either date is NULL. */
  function DaysBetween(published: Option<Timestamp>, modified: Option<Timestamp>): (r: Option<int>)
    ensures r.Some? <==> published.Some? && modified.Some?
    ensures r.Some? ==> (r.value < 0 <==> DateBefore(modified.value, published.value))
  {
    if published.Some? && modified.Some? then
      DayDiffSign(published.value, modified.value);
      Some(DayDiff(published.value, modified.value))
    else None
  }

  /** The word count of one paragraph: the pieces of `regexp_split_to_array(p, '\s+')`. */
  function ParagraphWords(p: string): (n: nat)
    ensures n >= 1
  {
    |SpacePieces(p)|
  }

  /** `coalesce(sum(...) over the paragraphs, 0)`. */
  function TotalContentWords(content: seq<string>): (n: nat)
    ensures n >= |content|
  {
    if |content| == 0 then 0 else ParagraphWords(content[0]) + TotalContentWords(content[1..])
  }

  /** The silver row inserted for a bronze row, with the `uuid()` it draws. */
  function DeriveRow(a: Article, id: nat): (s: SilverRow)
  {
    SilverRow(
      id, a.url, Domain(a.url), Category(a.url), UrlTitle(a.url),
      a.datePublished, a.dateModified, DaysBetween(a.datePublished, a.dateModified),
      a.title, a.author, a.tags, a.contentLinks, a.content,
      |a.content|, TotalContentWords(a.content),
      if a.dateModified.Some? then Some(a.dateModified.value.year) else None,
      if a.dateModified.Some? then Some(a.dateModified.value.month) else None)
  }

  /**
   * The inserted rows, one per picked article and in its order, each derived from its
   * article and carrying an id drawn in increasing order from `first` on.
   */
  function DeriveAll(picked: seq<Article>, first: nat): (rows: seq<SilverRow>)
    ensures |rows| == |picked|
    ensures forall i :: 0 <= i < |rows| ==> rows[i] == DeriveRow(picked[i], rows[i].rowId)
    ensures forall i :: 0 <= i < |rows| ==> first <= rows[i].rowId < first + |rows|
    ensures forall i, j :: 0 <= i < j < |rows| ==> rows[i].rowId < rows[j].rowId
    ensures forall i :: 0 <= i < |rows| ==> rows[i].url == picked[i].url && rows[i].dateModified == picked[i].dateModified
  {
    seq(|picked|, i requires 0 <= i < |picked| => DeriveRow(picked[i], first + i))
  }

  // ---------------------------------------------------------------------------
  // row_number() over (partition by url order by date_modified desc) = 1
  // ---------------------------------------------------------------------------

  /** `a` sorts before `b` in `order by date_modified desc` (NULLs last). */
  predicate Later(a: Article, b: Article)
  {
    a.dateModified.Some? && (b.dateModified.None? || Ordinal(a.dateModified.value) > Ordinal(b.dateModified.value))
  }

  /** The first row with the latest `date_modified` among `a` and the rows of `rest` that share its url. */
  function Best(a: Article, rest: seq<Article>): (b: Article)
    ensures b.url == a.url && (b == a || b in rest)
    ensures !Later(a, b)
    ensures forall r :: r in rest && r.url == a.url ==> !Later(r, b)
    decreases |rest|
  {
    if |rest| == 0 then a
    else if rest[0].url == a.url && Later(rest[0], a) then Best(rest[0], rest[1..])
    else Best(a, rest[1..])
  }

  /** The rows whose url is not `u`, in order. */
  function Without(rows: seq<Article>, u: string): (r: seq<Article>)
    ensures |r| <= |rows|
    ensures forall x :: x in r <==> x in rows && x.url != u
  {
    if |rows| == 0 then []
    else (if rows[0].url == u then [] else [rows[0]]) + Without(rows[1..], u)
  }

  /** One row per url, in the order the urls first appear: the first of its latest versions. */
  function Latest(rows: seq<Article>): (picked: seq<Article>)
    ensures forall x :: x in picked ==> x in rows
    decreases |rows|
  {
    if |rows| == 0 then []
    else [Best(rows[0], rows[1..])] + Latest(Without(rows[1..], rows[0].url))
  }

  /** No url is picked twice. */
  lemma {:induction false} LatestDistinct(rows: seq<Article>)
    ensures var p := Latest(rows); forall i, j :: 0 <= i < j < |p| ==> p[i].url != p[j].url
    decreases |rows|
  {
    if |rows| > 0 {
      var w := Without(rows[1..], rows[0].url);
      LatestDistinct(w);
      var p := Latest(rows);
      forall i, j | 0 <= i < j < |p|
        ensures p[i].url != p[j].url
      {
        assert p[j] == Latest(w)[j - 1];
        if i > 0 {
          assert p[i] == Latest(w)[i - 1];
        } else {
          assert p[j] in w;
        }
      }
    }
  }

  /** Every url of the input is picked. */
  lemma {:induction false} LatestCovers(rows: seq<Article>, r: Article)
    requires r in rows
    ensures exists x :: x in Latest(rows) && x.url == r.url
    decreases |rows|
  {
    var b := Best(rows[0], rows[1..]);
    assert b in Latest(rows);
    if r.url != rows[0].url {
      var w := Without(rows[1..], rows[0].url);
      assert r in w;
      LatestCovers(w, r);
      var x :| x in Latest(w) && x.url == r.url;
      assert x in Latest(rows);
    }
  }

  /** No input row with the same url sorts before the picked one. */
  lemma {:induction false} LatestIsLatest(rows: seq<Article>, x: Article, r: Article)
    requires x in Latest(rows) && r in rows && r.url == x.url
    ensures !Later(r, x)
    decreases |rows|
  {
    var b := Best(rows[0], rows[1..]);
    var w := Without(rows[1..], rows[0].url);
    if x == b {
      if r != rows[0] {
        assert r in rows[1..];
      }
    } else {
      assert x in Latest(w);
      assert x in w;
      assert r in w;
      LatestIsLatest(w, x, r);
    }
  }

  // ---------------------------------------------------------------------------
  // Windows
  // ---------------------------------------------------------------------------

  /** The bronze rows whose `date_modified` lies in the window, in order. */
  function BronzeInWindow(rows: seq<Article>, lo: Timestamp, hi: Timestamp): (r: seq<Article>)
  {
    if |rows| == 0 then []
    else (if InWindow(rows[0].dateModified, lo, hi) then [rows[0]] else []) + BronzeInWindow(rows[1..], lo, hi)
  }

  /** The window holds exactly the bronze rows whose `date_modified` lies in it. */
  lemma {:induction false} BronzeInWindowMembers(rows: seq<Article>, lo: Timestamp, hi: Timestamp, x: Article)
    ensures x in BronzeInWindow(rows, lo, hi) <==> x in rows && InWindow(x.dateModified, lo, hi)
  {
    if |rows| > 0 {
      BronzeInWindowMembers(rows[1..], lo, hi, x);
      assert rows == [rows[0]] + rows[1..];
    }
  }

  /** The silver rows the delete keeps: those outside the window, NULL dates included. */
  function KeepOutside(rows: seq<SilverRow>, lo: Timestamp, hi: Timestamp): (r: seq<SilverRow>)
    ensures |r| <= |rows|
  {
    if |rows| == 0 then []
    else (if InWindow(rows[0].dateModified, lo, hi) then [] else [rows[0]]) + KeepOutside(rows[1..], lo, hi)
  }

  /** The delete keeps exactly the rows outside the window. */
  lemma {:induction false} KeepOutsideMembers(rows: seq<SilverRow>, lo: Timestamp, hi: Timestamp, x: SilverRow)
    ensures x in KeepOutside(rows, lo, hi) <==> x in rows && !InWindow(x.dateModified, lo, hi)
  {
    if |rows| > 0 {
      KeepOutsideMembers(rows[1..], lo, hi, x);
      assert rows == [rows[0]] + rows[1..];
    }
  }

  /** How many silver rows lie in the window. */
  function CountInWindow(rows: seq<SilverRow>, lo: Timestamp, hi: Timestamp): nat
  {
    if |rows| == 0 then 0
    else (if InWindow(rows[0].dateModified, lo, hi) then 1 else 0) + CountInWindow(rows[1..], lo, hi)
  }

  lemma {:induction false} DeletedAreThoseInWindow(rows: seq<SilverRow>, lo: Timestamp, hi: Timestamp)
    ensures |rows| - |KeepOutside(rows, lo, hi)| == CountInWindow(rows, lo, hi)
  {
    if |rows| > 0 {
      DeletedAreThoseInWindow(rows[1..], lo, hi);
    }
  }

  lemma {:induction false} KeepOutsideAppend(a: seq<SilverRow>, b: seq<SilverRow>, lo: Timestamp, hi: Timestamp)
    ensures KeepOutside(a + b, lo, hi) == KeepOutside(a, lo, hi) + KeepOutside(b, lo, hi)
  {
    if |a| == 0 {
      assert a + b == b;
    } else {
      var ab := a + b;
      assert ab[0] == a[0];
      assert ab[1..] == a[1..] + b;
      KeepOutsideAppend(a[1..], b, lo, hi);
      var head := KeepOutside(a[..1], lo, hi);
      KeepOutsideHead(a, lo, hi);
      KeepOutsideHead(ab, lo, hi);
      assert head + (KeepOutside(a[1..], lo, hi) + KeepOutside(b, lo, hi))
          == (head + KeepOutside(a[1..], lo, hi)) + KeepOutside(b, lo, hi);
    }
  }

  /** A non-empty list splits into its first row and the rest. */
  lemma KeepOutsideHead(rows: seq<SilverRow>, lo: Timestamp, hi: Timestamp)
    requires |rows| > 0
    ensures KeepOutside(rows, lo, hi) == KeepOutside(rows[..1], lo, hi) + KeepOutside(rows[1..], lo, hi)
  {
    assert rows[..1][1..] == [];
  }

  lemma {:induction false} KeepOutsideAll(rows: seq<SilverRow>, lo: Timestamp, hi: Timestamp)
    requires forall i :: 0 <= i < |rows| ==> !InWindow(rows[i].dateModified, lo, hi)
    ensures KeepOutside(rows, lo, hi) == rows
  {
    if |rows| > 0 {
      KeepOutsideAll(rows[1..], lo, hi);
      assert rows == [rows[0]] + rows[1..];
    }
  }

  lemma {:induction false} KeepOutsideNone(rows: seq<SilverRow>, lo: Timestamp, hi: Timestamp)
    requires forall i :: 0 <= i < |rows| ==> InWindow(rows[i].dateModified, lo, hi)
    ensures KeepOutside(rows, lo, hi) == []
  {
    if |rows| > 0 {
      KeepOutsideNone(rows[1..], lo, hi);
    }
  }

  // ---------------------------------------------------------------------------
  // Statements
  // ---------------------------------------------------------------------------

  /** `create table if not exists name (row_id uuid default uuid(), ...)`. */
  function CreateSilverIfAbsent(name: string): Stmt<()>
  {
    (c: Catalog) =>
      if name in c.silverTables then Ok((c, ()))
      else Ok((c.(silverTables := c.silverTables[name := []]), ()))
  }

  /**
   * `delete from silver where date_modified between start and end`, returning the
   * number of deleted rows. The start text is cast to a timestamp here.
   */
  function DeleteWindow(silver: string, start: DateTime, hi: Timestamp): Stmt<nat>
  {
    (c: Catalog) =>
      if silver !in c.silverTables then Err(MissingTable(silver))
      else match CastTimestamp(start)
        case Err(msg) => Err(msg)
        case Ok(lo) =>
          var rows := c.silverTables[silver];
          var kept := KeepOutside(rows, lo, hi);
          Ok((c.(silverTables := c.silverTables[silver := kept]), |rows| - |kept|))
  }

  /** The insert of the latest window version of every url, with fresh ids. */
  function InsertLatest(bronze: string, silver: string, lo: Timestamp, hi: Timestamp): Stmt<()>
  {
    (c: Catalog) =>
      if bronze !in c.bronzeTables then Err(MissingTable(bronze))
      else if silver !in c.silverTables then Err(MissingTable(silver))
      else
        var picked := Latest(BronzeInWindow(c.bronzeTables[bronze], lo, hi));
        Ok((c.(silverTables := c.silverTables[silver := c.silverTables[silver] + DeriveAll(picked, c.nextUuid)],
               nextUuid := c.nextUuid + |picked|), ()))
  }

  /** `select count(*) from silver`. */
  function CountSilver(silver: string): Stmt<nat>
  {
    (c: Catalog) =>
      if silver !in c.silverTables then Err(MissingTable(silver))
      else Ok((c, |c.silverTables[silver]|))
  }

  // ---------------------------------------------------------------------------
  // Specification
  // ---------------------------------------------------------------------------

  /** What one backfill transaction does: the catalog after it, the deleted count and the final row count. */
  datatype Backfilled = Backfilled(after: Catalog, deleted: nat, count: nat)

  function BackfillEffect(c: Catalog, bronze: string, silver: string, start: DateTime, hi: Timestamp): (r: Result<Backfilled>)
    ensures r.Ok? <==> silver in c.silverTables && ValidDateTime(start) && bronze in c.bronzeTables
    ensures r.Ok? ==> silver in r.value.after.silverTables
  {
    if silver !in c.silverTables then Err(MissingTable(silver))
    else match CastTimestamp(start)
      case Err(msg) => Err(msg)
      case Ok(lo) =>
        if bronze !in c.bronzeTables then Err(MissingTable(bronze))
        else
          var kept := KeepOutside(c.silverTables[silver], lo, hi);
          var picked := Latest(BronzeInWindow(c.bronzeTables[bronze], lo, hi));
          var table := kept + DeriveAll(picked, c.nextUuid);
          Ok(Backfilled(
            c.(silverTables := c.silverTables[silver := table], nextUuid := c.nextUuid + |picked|),
            |c.silverTables[silver]| - |kept|,
            |table|))
  }

  // ---------------------------------------------------------------------------
  // Operations
  // ---------------------------------------------------------------------------

  /** `create_silver_table`: creates the table in a transaction unless it exists. */
  method CreateSilverTable(db: DuckDBConnector, silver: string) returns (r: Outcome, errorLog: Option<string>)
    requires db.Valid()
    modifies db
    ensures db.Valid() && !db.inTxn && db.pending == db.committed
    ensures old(db.inTxn) ==> r == Raised(NestedBeginError) && errorLog == Some(CreateError(NestedBeginError))
    ensures !old(db.inTxn) ==> r == Done && errorLog.None? && db.committed == CreateSilverIfAbsent(silver)(old(db.committed)).value.0
    ensures !old(db.inTxn) ==>
      silver in db.committed.silverTables && (silver in old(db.committed).silverTables ==> db.committed == old(db.committed))
  {
    errorLog := None;
    r := db.TransactionEnter();
    if r.Raised? {
      errorLog := Some(CreateError(r.msg));
      return;
    }
    var created := db.Execute(CreateSilverIfAbsent(silver));
    r := db.TransactionExit(None);
  }

  /**
   * `backfill_silver_table`: the window runs from the first second of (year, month)
   * to the last second of the current month. The current month's last day is computed
   * before the transaction, and that computation raises in December. Inside the
   * transaction the window's silver rows are deleted and the latest bronze version of
   * every url in the window is inserted; the deleted count and the table's final row
   * count are logged. Errors inside roll back, are logged, and are re-raised.
   */
  method BackfillSilverTable(db: DuckDBConnector, bronze: string, silver: string, year: int, month: int, now: Timestamp)
    returns (r: Outcome, deleted: Option<nat>, count: Option<nat>, errorLog: Option<string>)
    requires db.Valid()
    modifies db
    ensures db.Valid()
    ensures LastDayOfMonthAsWritten(now.year, now.month).Ok? ==> !db.inTxn && db.pending == db.committed
    ensures LastDayOfMonthAsWritten(now.year, now.month).Err? ==>
      && r == Raised(LastDayOfMonthAsWritten(now.year, now.month).msg) && errorLog.None?
      && db.inTxn == old(db.inTxn) && db.pending == old(db.pending) && db.committed == old(db.committed)
      && deleted.None? && count.None?
    ensures LastDayOfMonthAsWritten(now.year, now.month).Ok? ==> (r.Raised? <==> errorLog.Some?)
    ensures now.month == 12 ==> r.Raised? && errorLog.None? && db.committed == old(db.committed)
    ensures LastDayOfMonthAsWritten(now.year, now.month).Ok? && old(db.inTxn) ==>
      r == Raised(NestedBeginError) && errorLog == Some(BackfillError(NestedBeginError)) && db.committed == old(db.committed)
    ensures LastDayOfMonthAsWritten(now.year, now.month).Ok? && !old(db.inTxn) ==>
      match BackfillEffect(old(db.committed), bronze, silver, DateTime(year, month, 1, 0, 0, 0), MonthEnd(now.year, now.month))
      case Err(msg) => r == Raised(msg) && errorLog == Some(BackfillError(msg)) && db.committed == old(db.committed)
      case Ok(b) => r == Done && errorLog.None? && db.committed == b.after && deleted == Some(b.deleted) && count == Some(b.count)
  {
    deleted, count, errorLog := None, None, None;
    var days := LastDayOfMonthAsWritten(now.year, now.month);
    if days.Err? {
      r := Raised(days.msg);
      return;
    }
    var hi := MonthEnd(now.year, now.month);
    assert hi == DateTime(now.year, now.month, days.value, 23, 59, 59);
    r := db.TransactionEnter();
    if r.Raised? {
      errorLog := Some(BackfillError(r.msg));
      return;
    }
    r, deleted, count := BackfillInTransaction(db, bronze, silver, DateTime(year, month, 1, 0, 0, 0), hi);
    if r.Raised? {
      errorLog := Some(BackfillError(r.msg));
    }
  }

  /** The body of the backfill's transaction block, from the delete to the commit or rollback. */
  method BackfillInTransaction(db: DuckDBConnector, bronze: string, silver: string, start: DateTime, hi: Timestamp)
    returns (r: Outcome, deleted: Option<nat>, count: Option<nat>)
    requires db.Valid() && db.inTxn && db.conn.Some?
    modifies db
    ensures db.Valid() && !db.inTxn && db.pending == db.committed
    ensures match BackfillEffect(old(db.pending), bronze, silver, start, hi)
      case Err(msg) => r == Raised(msg) && db.committed == old(db.committed) && deleted.None? && count.None?
      case Ok(b) => r == Done && db.committed == b.after && deleted == Some(b.deleted) && count == Some(b.count)
  {
    deleted, count := None, None;
    var c0 := db.pending;
    var del := db.Execute(DeleteWindow(silver, start, hi));
    if del.Err? {
      DeleteStepFails(c0, bronze, silver, start, hi);
      r := db.TransactionExit(Some(del.msg));
      return;
    }
    InsertStep(c0, bronze, silver, start, hi);
    var lo := CastTimestamp(start).value;
    var ins := db.Execute(InsertLatest(bronze, silver, lo, hi));
    if ins.Err? {
      r := db.TransactionExit(Some(ins.msg));
      return;
    }
    var n := db.Execute(CountSilver(silver));
    r := db.TransactionExit(None);
    deleted, count := Some(del.value), Some(n.value);
  }

  /** The backfill's effect fails with the delete's error. */
  lemma DeleteStepFails(c: Catalog, bronze: string, silver: string, start: DateTime, hi: Timestamp)
    requires DeleteWindow(silver, start, hi)(c).Err?
    ensures BackfillEffect(c, bronze, silver, start, hi) == Err(DeleteWindow(silver, start, hi)(c).msg)
  {
  }

  /** After the delete succeeds, the backfill's effect is that of the insert on what the delete left. */
  lemma InsertStep(c: Catalog, bronze: string, silver: string, start: DateTime, hi: Timestamp)
    requires DeleteWindow(silver, start, hi)(c).Ok?
    ensures CastTimestamp(start).Ok?
    ensures var (c1, d) := DeleteWindow(silver, start, hi)(c).value;
      match InsertLatest(bronze, silver, CastTimestamp(start).value, hi)(c1)
      case Err(msg) => BackfillEffect(c, bronze, silver, start, hi) == Err(msg)
      case Ok((c2, _)) =>
        && silver in c2.silverTables
        && BackfillEffect(c, bronze, silver, start, hi) == Ok(Backfilled(c2, d, |c2.silverTables[silver]|))
  {
    if bronze in c.bronzeTables {
      InsertStepPresent(c, bronze, silver, start, hi);
    } else {
      InsertStepMissing(c, bronze, silver, start, hi);
    }
  }

  /** Without the bronze table the insert fails, and so does the whole backfill. */
  lemma InsertStepMissing(c: Catalog, bronze: string, silver: string, start: DateTime, hi: Timestamp)
    requires DeleteWindow(silver, start, hi)(c).Ok? && bronze !in c.bronzeTables
    ensures CastTimestamp(start).Ok?
    ensures InsertLatest(bronze, silver, CastTimestamp(start).value, hi)(DeleteWindow(silver, start, hi)(c).value.0)
      == Err(MissingTable(bronze))
    ensures BackfillEffect(c, bronze, silver, start, hi) == Err(MissingTable(bronze))
  {
  }

  /** With the bronze table the insert succeeds on what the delete left, giving the backfill's effect. */
  lemma InsertStepPresent(c: Catalog, bronze: string, silver: string, start: DateTime, hi: Timestamp)
    requires DeleteWindow(silver, start, hi)(c).Ok? && bronze in c.bronzeTables
    ensures CastTimestamp(start).Ok?
    ensures var (c1, d) := DeleteWindow(silver, start, hi)(c).value;
      var ins := InsertLatest(bronze, silver, CastTimestamp(start).value, hi)(c1);
      && ins.Ok? && silver in ins.value.0.silverTables
      && BackfillEffect(c, bronze, silver, start, hi) == Ok(Backfilled(ins.value.0, d, |ins.value.0.silverTables[silver]|))
  {
    var lo := CastTimestamp(start).value;
    var rows := c.silverTables[silver];
    var kept := KeepOutside(rows, lo, hi);
    var c1 := c.(silverTables := c.silverTables[silver := kept]);
    assert DeleteWindow(silver, start, hi)(c) == Ok((c1, |rows| - |kept|));
    var picked := Latest(BronzeInWindow(c.bronzeTables[bronze], lo, hi));
    var table := kept + DeriveAll(picked, c.nextUuid);
    assert c1.silverTables[silver := table] == c.silverTables[silver := table];
    var c2 := c.(silverTables := c.silverTables[silver := table], nextUuid := c.nextUuid + |picked|);
    assert InsertLatest(bronze, silver, lo, hi)(c1) == Ok((c2, ()));
  }

  // ---------------------------------------------------------------------------
  // Properties
  // ---------------------------------------------------------------------------

  /** The silver table after a backfill, before the fresh ids: the kept rows, then the derived latest versions. */
  lemma BackfillTable(c: Catalog, bronze: string, silver: string, lo: Timestamp, hi: Timestamp)
    requires silver in c.silverTables && bronze in c.bronzeTables
    ensures var r := BackfillEffect(c, bronze, silver, lo, hi);
      && r.Ok?
      && var kept := KeepOutside(c.silverTables[silver], lo, hi);
      && var picked := Latest(BronzeInWindow(c.bronzeTables[bronze], lo, hi));
      && r.value.after.silverTables[silver] == kept + DeriveAll(picked, c.nextUuid)
      && r.value.after.bronzeTables == c.bronzeTables
      && r.value.deleted == CountInWindow(c.silverTables[silver], lo, hi)
  {
    DeletedAreThoseInWindow(c.silverTables[silver], lo, hi);
  }

  /** Rows outside the window after a backfill are old rows, kept in their order. */
  lemma BackfillKeepsOutside(c: Catalog, bronze: string, silver: string, lo: Timestamp, hi: Timestamp)
    requires silver in c.silverTables && bronze in c.bronzeTables
    ensures var after := BackfillEffect(c, bronze, silver, lo, hi).value.after.silverTables[silver];
      && KeepOutside(after, lo, hi) == KeepOutside(c.silverTables[silver], lo, hi)
      && forall s :: s in after && !InWindow(s.dateModified, lo, hi) ==> s in c.silverTables[silver]
  {
    BackfillTable(c, bronze, silver, lo, hi);
    WindowSplit(c, bronze, silver, lo, hi);
    var kept := KeepOutside(c.silverTables[silver], lo, hi);
    var added := DeriveAll(Latest(BronzeInWindow(c.bronzeTables[bronze], lo, hi)), c.nextUuid);
    forall s: SilverRow | s in kept + added && !InWindow(s.dateModified, lo, hi)
      ensures s in c.silverTables[silver]
    {
      KeepOutsideMembers(c.silverTables[silver], lo, hi, s);
    }
  }

  /** The kept rows lie outside the window and the inserted rows inside it. */
  lemma WindowSplit(c: Catalog, bronze: string, silver: string, lo: Timestamp, hi: Timestamp)
    requires silver in c.silverTables && bronze in c.bronzeTables
    ensures var kept := KeepOutside(c.silverTables[silver], lo, hi);
      var added := DeriveAll(Latest(BronzeInWindow(c.bronzeTables[bronze], lo, hi)), c.nextUuid);
      && (forall i :: 0 <= i < |kept| ==> !InWindow(kept[i].dateModified, lo, hi))
      && (forall i :: 0 <= i < |added| ==> InWindow(added[i].dateModified, lo, hi))
      && KeepOutside(kept + added, lo, hi) == kept
  {
    var kept := KeepOutside(c.silverTables[silver], lo, hi);
    var picked := Latest(BronzeInWindow(c.bronzeTables[bronze], lo, hi));
    var added := DeriveAll(picked, c.nextUuid);
    forall i | 0 <= i < |kept|
      ensures !InWindow(kept[i].dateModified, lo, hi)
    {
      assert kept[i] in kept;
      KeepOutsideMembers(c.silverTables[silver], lo, hi, kept[i]);
    }
    forall i | 0 <= i < |added|
      ensures InWindow(added[i].dateModified, lo, hi)
    {
      assert picked[i] in picked;
      BronzeInWindowMembers(c.bronzeTables[bronze], lo, hi, picked[i]);
    }
    KeepOutsideAppend(kept, added, lo, hi);
    KeepOutsideAll(kept, lo, hi);
    KeepOutsideNone(added, lo, hi);
    assert kept + [] == kept;
  }

  /** After a backfill no url has two rows in the window. */
  lemma BackfillOneRowPerUrl(c: Catalog, bronze: string, silver: string, lo: Timestamp, hi: Timestamp)
    requires silver in c.silverTables && bronze in c.bronzeTables
    ensures var after := BackfillEffect(c, bronze, silver, lo, hi).value.after.silverTables[silver];
      forall i, j :: 0 <= i < j < |after| && InWindow(after[i].dateModified, lo, hi) && InWindow(after[j].dateModified, lo, hi) ==>
        after[i].url != after[j].url
  {
    BackfillTable(c, bronze, silver, lo, hi);
    WindowSplit(c, bronze, silver, lo, hi);
    var kept := KeepOutside(c.silverTables[silver], lo, hi);
    var picked := Latest(BronzeInWindow(c.bronzeTables[bronze], lo, hi));
    var added := DeriveAll(picked, c.nextUuid);
    LatestDistinct(BronzeInWindow(c.bronzeTables[bronze], lo, hi));
    InWindowUrlsDistinct(kept, added, lo, hi);
  }

  lemma InWindowUrlsDistinct(kept: seq<SilverRow>, added: seq<SilverRow>, lo: Timestamp, hi: Timestamp)
    requires forall i :: 0 <= i < |kept| ==> !InWindow(kept[i].dateModified, lo, hi)
    requires forall i, j :: 0 <= i < j < |added| ==> added[i].url != added[j].url
    ensures var t := kept + added;
      forall i, j :: 0 <= i < j < |t| && InWindow(t[i].dateModified, lo, hi) && InWindow(t[j].dateModified, lo, hi) ==>
        t[i].url != t[j].url
  {
    var t := kept + added;
    forall i, j | 0 <= i < j < |t| && InWindow(t[i].dateModified, lo, hi) && InWindow(t[j].dateModified, lo, hi)
      ensures t[i].url != t[j].url
    {
      if i < |kept| {
        assert false;
      }
      assert t[i] == added[i - |kept|] && t[j] == added[j - |kept|];
    }
  }

  /** Every url with a bronze version in the window has a silver row in the window afterwards. */
  lemma BackfillCoversWindow(c: Catalog, bronze: string, silver: string, lo: Timestamp, hi: Timestamp, a: Article)
    requires silver in c.silverTables && bronze in c.bronzeTables
    requires a in c.bronzeTables[bronze] && InWindow(a.dateModified, lo, hi)
    ensures var after := BackfillEffect(c, bronze, silver, lo, hi).value.after.silverTables[silver];
      exists s :: s in after && s.url == a.url && InWindow(s.dateModified, lo, hi)
  {
    BackfillTable(c, bronze, silver, lo, hi);
    var window := BronzeInWindow(c.bronzeTables[bronze], lo, hi);
    var kept := KeepOutside(c.silverTables[silver], lo, hi);
    var picked := Latest(window);
    var added := DeriveAll(picked, c.nextUuid);
    BronzeInWindowMembers(c.bronzeTables[bronze], lo, hi, a);
    LatestCovers(window, a);
    var x :| x in picked && x.url == a.url;
    var k :| 0 <= k < |picked| && picked[k] == x;
    WindowSplit(c, bronze, silver, lo, hi);
    var s := added[k];
    assert s.url == a.url && InWindow(s.dateModified, lo, hi);
    assert s in kept + added;
  }

  /**
   * The window row of a url carries the url's latest `date_modified` among its bronze
   * versions in the window, and is derived from that version.
   */
  lemma BackfillPicksLatest(c: Catalog, bronze: string, silver: string, lo: Timestamp, hi: Timestamp, s: SilverRow, a: Article)
    requires silver in c.silverTables && bronze in c.bronzeTables
    requires s in BackfillEffect(c, bronze, silver, lo, hi).value.after.silverTables[silver] && InWindow(s.dateModified, lo, hi)
    requires a in c.bronzeTables[bronze] && a.url == s.url && InWindow(a.dateModified, lo, hi)
    ensures !LaterStamp(a.dateModified, s.dateModified)
    ensures exists b :: b in c.bronzeTables[bronze] && b.url == s.url && s == DeriveRow(b, s.rowId)
  {
    BackfillTable(c, bronze, silver, lo, hi);
    WindowSplit(c, bronze, silver, lo, hi);
    var window := BronzeInWindow(c.bronzeTables[bronze], lo, hi);
    var kept := KeepOutside(c.silverTables[silver], lo, hi);
    var picked := Latest(window);
    var added := DeriveAll(picked, c.nextUuid);
    assert s !in kept;
    var k :| 0 <= k < |added| && added[k] == s;
    assert picked[k] in picked;
    BronzeInWindowMembers(c.bronzeTables[bronze], lo, hi, a);
    BronzeInWindowMembers(c.bronzeTables[bronze], lo, hi, picked[k]);
    LatestIsLatest(window, picked[k], a);
  }

  /** `Later` on the stamps alone. */
  predicate LaterStamp(a: Option<Timestamp>, b: Option<Timestamp>)
  {
    a.Some? && (b.None? || Ordinal(a.value) > Ordinal(b.value))
  }

  /** A silver table with every row id blanked. */
  function WithoutIds(rows: seq<SilverRow>): (r: seq<SilverRow>)
    ensures |r| == |rows|
  {
    seq(|rows|, i requires 0 <= i < |rows| => rows[i].(rowId := 0))
  }

  /**
   * The backfill is idempotent up to row ids: running it twice over the same bronze
   * table leaves the same silver rows as running it once, only with new ids.
   */
  lemma BackfillRerun(c: Catalog, bronze: string, silver: string, lo: Timestamp, hi: Timestamp)
    requires silver in c.silverTables && bronze in c.bronzeTables
    ensures var once := BackfillEffect(c, bronze, silver, lo, hi).value.after;
      && var twice := BackfillEffect(once, bronze, silver, lo, hi);
      && twice.Ok?
      && WithoutIds(twice.value.after.silverTables[silver]) == WithoutIds(once.silverTables[silver])
  {
    BackfillTable(c, bronze, silver, lo, hi);
    WindowSplit(c, bronze, silver, lo, hi);
    var once := BackfillEffect(c, bronze, silver, lo, hi).value.after;
    BackfillTable(once, bronze, silver, lo, hi);
    var kept := KeepOutside(c.silverTables[silver], lo, hi);
    var picked := Latest(BronzeInWindow(c.bronzeTables[bronze], lo, hi));
    var t1, t2 := kept + DeriveAll(picked, c.nextUuid), kept + DeriveAll(picked, once.nextUuid);
    assert once.silverTables[silver] == t1;
    assert once.bronzeTables == c.bronzeTables;
    SameRowsModuloIds(kept, picked, c.nextUuid, once.nextUuid);
  }

  lemma SameRowsModuloIds(kept: seq<SilverRow>, picked: seq<Article>, id1: nat, id2: nat)
    ensures WithoutIds(kept + DeriveAll(picked, id1)) == WithoutIds(kept + DeriveAll(picked, id2))
  {
    var t1, t2 := kept + DeriveAll(picked, id1), kept + DeriveAll(picked, id2);
    forall i | 0 <= i < |t1|
      ensures WithoutIds(t2)[i] == WithoutIds(t1)[i]
    {
      if i >= |kept| {
        assert t1[i] == DeriveAll(picked, id1)[i - |kept|] && t2[i] == DeriveAll(picked, id2)[i - |kept|];
      }
    }
  }

  /**
   * The window from (year, month) to the current month, as the backfill builds it,
   * takes a timestamp exactly when its month lies between the two months.
   */
  lemma BackfillWindowMonths(year: int, month: int, now: Timestamp, t: Timestamp)
    requires 1 <= month <= 12
    ensures InWindow(Some(t), CastTimestamp(DateTime(year, month, 1, 0, 0, 0)).value, MonthEnd(now.year, now.month))
        <==> MonthIndex(year, month) <= MonthIndex(t.year, t.month) <= MonthIndex(now.year, now.month)
  {
    assert CastTimestamp(DateTime(year, month, 1, 0, 0, 0)).value == MonthStart(year, month);
    WindowIsWholeMonths(year, month, now.year, now.month, t);
  }

  /**
   * The url-derived columns of an article url `scheme://host/category/slug/`: the
   * domain is `scheme://host`, the category and the title are the two path segments.
   */
  lemma UrlColumns(scheme: string, host: string, category: string, slug: string)
    requires '/' !in scheme && '/' !in host && '/' !in category && '/' !in slug
    ensures var url := scheme + "//" + host + "/" + category + "/" + slug + "/";
      Domain(url) == scheme + "//" + host && Category(url) == category && UrlTitle(url) == slug
  {
    var parts := [scheme, "", host, category, slug, ""];
    var url := scheme + "//" + host + "/" + category + "/" + slug + "/";
    UrlParts(scheme, host, category, slug);
    SplitJoin(parts, '/');
    assert Split(url, '/') == parts;
  }

  /** The url is its six slash-separated parts joined back together. */
  lemma UrlParts(scheme: string, host: string, category: string, slug: string)
    ensures Join([scheme, "", host, category, slug, ""], "/")
      == scheme + "//" + host + "/" + category + "/" + slug + "/"
  {
    var parts := [scheme, "", host, category, slug, ""];
    assert Join(parts[5..], "/") == "";
    assert Join(parts[4..], "/") == slug + "/";
    assert Join(parts[3..], "/") == category + "/" + slug + "/";
    assert Join(parts[2..], "/") == host + "/" + category + "/" + slug + "/";
    assert Join(parts[1..], "/") == "/" + host + "/" + category + "/" + slug + "/";
  }

  /**
   * A paragraph of words separated by single spaces counts its words; an empty
   * paragraph, which the regular expression split turns into one empty piece, counts one.
   */
  lemma ParagraphWordCount(words: seq<string>)
    requires |words| >= 1
    requires forall k :: 0 <= k < |words| ==> |words[k]| > 0
    requires forall k, i :: 0 <= k < |words| && 0 <= i < |words[k]| ==> !IsRegexSpace(words[k][i])
    ensures ParagraphWords(Join(words, " ")) == |words|
    ensures ParagraphWords("") == 1
  {
    SpacePiecesOfWords(words);
  }

  /** The word total is the sum of the paragraphs' counts. */
  lemma {:induction false} TotalContentWordsAppend(a: seq<string>, b: seq<string>)
    ensures TotalContentWords(a + b) == TotalContentWords(a) + TotalContentWords(b)
  {
    if |a| == 0 {
      assert a + b == b;
    } else {
      TotalContentWordsAppend(a[1..], b);
      assert (a + b)[0] == a[0] && (a + b)[1..] == a[1..] + b;
    }
  }
}
