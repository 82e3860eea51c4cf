/**
 * The RAG loading pipeline: ingestion of a blog's documents into the vector store,
 * the command-line window of `run_pipeline` and its loop, and the grouped,
 * per-blog accounting of `run_pipeline_memory_efficient`. The vector store is a map
 * from document id to document; whether an upsert fails is a parameter. The gold
 * table read is the `Result` the read produced.
 */
module RagPipeline {
  import opened Wrappers
  import opened Text
  import opened Timestamps
  import opened RagChunking

  /** The external services: tokenizer, embedding service and the vector store's failure. */
  datatype Services = Services(
    encode: string -> seq<Token>,
    decode: seq<Token> -> string,
    embed: string -> Result<Vector>,
    upsertError: seq<Document> -> Option<string>)

  // ---------------------------------------------------------------------------
  // The vector store
  // ---------------------------------------------------------------------------

  /** Documents keyed by id; an upsert replaces a stored document with the same id. */
  type Store = map<string, Document>

  /** The store after upserting `docs` in order. */
  function Upserted(store: Store, docs: seq<Document>): Store
    decreases |docs|
  {
    if |docs| == 0 then store
    else
      var last := docs[|docs| - 1];
      Upserted(store, docs[..|docs| - 1])[last.id := last]
  }

  /** The last document of `docs` carrying id `k`. */
  function LastWithId(docs: seq<Document>, k: string): (r: Option<Document>)
    ensures r.Some? ==> r.value in docs && r.value.id == k
    ensures r.None? <==> forall i :: 0 <= i < |docs| ==> docs[i].id != k
    decreases |docs|
  {
    if |docs| == 0 then None
    else if docs[|docs| - 1].id == k then Some(docs[|docs| - 1])
    else LastWithId(docs[..|docs| - 1], k)
  }

  /** After an upsert, an id holds the last document with that id, or else what it held before. */
  lemma {:induction false} UpsertLookup(store: Store, docs: seq<Document>, k: string)
    ensures k in Upserted(store, docs) <==> k in store || LastWithId(docs, k).Some?
    ensures k in Upserted(store, docs) ==>
      Upserted(store, docs)[k] == (if LastWithId(docs, k).Some? then LastWithId(docs, k).value else store[k])
    decreases |docs|
  {
    if |docs| > 0 {
      UpsertLookup(store, docs[..|docs| - 1], k);
    }
  }

  /** Upserting the same documents twice leaves the store as upserting them once. */
  lemma UpsertIdempotent(store: Store, docs: seq<Document>)
    ensures Upserted(Upserted(store, docs), docs) == Upserted(store, docs)
  {
    var once := Upserted(store, docs);
    var twice := Upserted(once, docs);
    forall k
      ensures k in twice <==> k in once
      ensures k in twice ==> twice[k] == once[k]
    {
      UpsertLookup(store, docs, k);
      UpsertLookup(once, docs, k);
    }
  }

  /** With distinct ids, every upserted document is stored under its id. */
  lemma UpsertStoresEach(store: Store, docs: seq<Document>, i: int)
    requires forall a, b :: 0 <= a < b < |docs| ==> docs[a].id != docs[b].id
    requires 0 <= i < |docs|
    ensures docs[i].id in Upserted(store, docs) && Upserted(store, docs)[docs[i].id] == docs[i]
  {
    UpsertLookup(store, docs, docs[i].id);
    LastWithIdDistinct(docs, i);
  }

  lemma {:induction false} LastWithIdDistinct(docs: seq<Document>, i: int)
    requires forall a, b :: 0 <= a < b < |docs| ==> docs[a].id != docs[b].id
    requires 0 <= i < |docs|
    ensures LastWithId(docs, docs[i].id) == Some(docs[i])
    decreases |docs|
  {
    if i < |docs| - 1 {
      LastWithIdDistinct(docs[..|docs| - 1], i);
    }
  }

  // ---------------------------------------------------------------------------
  // ingest_documents_to_milvus / ingest_documents_batch_to_milvus
  // ---------------------------------------------------------------------------

  /** The three results of `ingest_documents_to_milvus`: None, False, True. */
  datatype IngestStatus = NoDocument | IngestFailed | Ingested

  /**
   * `ingest_documents_to_milvus`: nothing to ingest gives None without touching the
   * store; a failing upsert gives False; otherwise the documents are upserted.
   */
  function IngestDocuments(store: Store, docs: seq<Document>, upsertError: seq<Document> -> Option<string>)
    : (r: (IngestStatus, Store))
    ensures r.0 == NoDocument <==> docs == []
    ensures r.0 == Ingested <==> docs != [] && upsertError(docs).None?
    ensures r.1 == (if r.0 == Ingested then Upserted(store, docs) else store)
  {
    if docs == [] then (NoDocument, store)
    else if upsertError(docs).Some? then (IngestFailed, store)
    else (Ingested, Upserted(store, docs))
  }

  /**
   * `ingest_documents_batch_to_milvus`: the same upsert, but an empty batch reports
   * False, like a failure.
   */
  function IngestDocumentsBatch(store: Store, docs: seq<Document>, upsertError: seq<Document> -> Option<string>)
    : (r: (bool, Store))
    ensures r.0 <==> docs != [] && upsertError(docs).None?
    ensures r.1 == (if r.0 then Upserted(store, docs) else store)
  {
    var (status, after) := IngestDocuments(store, docs, upsertError);
    (status == Ingested, after)
  }

  /**
   * Loading a blog twice gives the store it had after loading it once: its documents
   * and their ids are the same on the rerun.
   */
  lemma BlogIngestIsIdempotent(store: Store, blog: GoldRow, svc: Services)
    requires DocumentsFor(blog, svc.encode, svc.decode, svc.embed).Ok?
    ensures var docs := DocumentsFor(blog, svc.encode, svc.decode, svc.embed).value;
      var once := IngestDocuments(store, docs, svc.upsertError).1;
      IngestDocuments(once, docs, svc.upsertError).1 == once
  {
    var docs := DocumentsFor(blog, svc.encode, svc.decode, svc.embed).value;
    UpsertIdempotent(store, docs);
  }

  /** After a successful ingestion every chunk of the blog is stored under `row_id_i`. */
  lemma BlogDocumentsStored(store: Store, blog: GoldRow, svc: Services, i: int)
    requires DocumentsFor(blog, svc.encode, svc.decode, svc.embed).Ok?
    requires var docs := DocumentsFor(blog, svc.encode, svc.decode, svc.embed).value;
      IngestDocuments(store, docs, svc.upsertError).0 == Ingested && 0 <= i < |docs|
    ensures var docs := DocumentsFor(blog, svc.encode, svc.decode, svc.embed).value;
      var after := IngestDocuments(store, docs, svc.upsertError).1;
      DocId(blog.rowId, i) in after && after[DocId(blog.rowId, i)] == docs[i]
  {
    var docs := DocumentsFor(blog, svc.encode, svc.decode, svc.embed).value;
    forall a, b | 0 <= a < b < |docs|
      ensures docs[a].id != docs[b].id
    {
      DocIdsDistinct(blog.rowId, a, b);
    }
    UpsertStoresEach(store, docs, i);
  }

  // ---------------------------------------------------------------------------
  // run_pipeline: arguments and window
  // ---------------------------------------------------------------------------

  /** The command line; the end year and month default to the clock's. */
  datatype RunArgs = RunArgs(startYear: int, startMonth: int, endYear: Option<int>, endMonth: Option<int>)

  /** The reasons `run_pipeline` logs an error and returns before reading anything. */
  datatype Rejection =
    | StartYearTooEarly
    | MonthOutOfRange
    | EndYearInFuture
    | StartYearAfterEndYear
    | StartMonthAfterEndMonth
    | EndMonthInFuture

  /** The oldest last-modified year in the data. */
  const EarliestYear: int := 2021

  function EndYearOf(args: RunArgs, now: Timestamp): int
  {
    if args.endYear.Some? then args.endYear.value else now.year
  }

  function EndMonthOf(args: RunArgs, now: Timestamp): int
  {
    if args.endMonth.Some? then args.endMonth.value else now.month
  }

  /**
   * The checks in their order. An end year of 0 skips the future-year check, as a
   * falsy value does; the future-month check compares the end month with the
   * clock's month whatever the end year.
   */
  function Validate(sy: int, sm: int, ey: int, em: int, now: Timestamp): (r: Option<Rejection>)
    ensures r.None? <==>
      && EarliestYear <= sy
      && 1 <= sm <= 12 && 1 <= em <= 12
      && (ey == 0 || ey <= now.year)
      && sy <= ey
      && (sy == ey ==> sm <= em)
      && em <= now.month
    ensures sy < EarliestYear ==> r == Some(StartYearTooEarly)
  {
    if sy < EarliestYear then Some(StartYearTooEarly)
    else if !(0 < sm < 13 && 0 < em < 13) then Some(MonthOutOfRange)
    else if ey != 0 && ey > now.year then Some(EndYearInFuture)
    else if sy > ey then Some(StartYearAfterEndYear)
    else if sy == ey && sm > em then Some(StartMonthAfterEndMonth)
    else if em > now.month then Some(EndMonthInFuture)
    else None
  }

  /** An accepted run covers months from the start month up to at most the current month. */
  lemma AcceptedRunIsOrdered(sy: int, sm: int, ey: int, em: int, now: Timestamp)
    requires Validate(sy, sm, ey, em, now).None?
    ensures EarliestYear <= sy <= ey <= now.year
    ensures MonthIndex(sy, sm) <= MonthIndex(ey, em) <= MonthIndex(now.year, now.month)
  {
  }

  /**
   * A whole past year is refused when its end month lies after the current month:
   * in March 2024, January to December 2023 is rejected as a future month.
   */
  lemma PastYearLateMonthRejected()
    ensures Validate(2023, 1, 2023, 12, DateTime(2024, 3, 15, 12, 0, 0)) == Some(EndMonthInFuture)
  {
  }

  /** With the defaults, any start month from 2021 up to the current month is accepted. */
  lemma DefaultEndAccepted(sy: int, sm: int, now: Timestamp)
    requires EarliestYear <= sy && 1 <= sm <= 12
    requires MonthIndex(sy, sm) <= MonthIndex(now.year, now.month)
    ensures var args := RunArgs(sy, sm, None, None);
      Validate(sy, sm, EndYearOf(args, now), EndMonthOf(args, now), now).None?
  {
  }

  /**
   * The query window: the first second of the start month to the last second of the
   * end month, the last day coming from `date(end_year, end_month + 1, 1)`.
   */
  function RunWindow(sy: int, sm: int, ey: int, em: int): (r: Result<(Timestamp, Timestamp)>)
    requires 1 <= sm <= 12 && 1 <= em <= 12
    ensures r.Ok? <==> em < 12 && 1 <= ey <= 9999
    ensures r.Ok? ==> r.value == (MonthStart(sy, sm), MonthEnd(ey, em))
  {
    match LastDayOfMonthAsWritten(ey, em)
    case Err(msg) => Err(msg)
    case Ok(days) =>
      var end: Timestamp := DateTime(ey, em, days, 23, 59, 59);
      Ok((MonthStart(sy, sm), end))
  }

  /** The window holds exactly the timestamps whose month lies between start and end month. */
  lemma RunWindowIsWholeMonths(sy: int, sm: int, ey: int, em: int, t: Timestamp)
    requires 1 <= sm <= 12 && 1 <= em <= 12
    requires RunWindow(sy, sm, ey, em).Ok?
    ensures var w := RunWindow(sy, sm, ey, em).value;
      InWindow(Some(t), w.0, w.1) <==> MonthIndex(sy, sm) <= MonthIndex(t.year, t.month) <= MonthIndex(ey, em)
  {
    WindowIsWholeMonths(sy, sm, ey, em, t);
  }

  /** An accepted run ending in December raises: that is possible only in December. */
  lemma DecemberRunRaises(sy: int, sm: int, ey: int, now: Timestamp)
    requires Validate(sy, sm, ey, 12, now).None?
    ensures now.month == 12
    ensures RunWindow(sy, sm, ey, 12).Err?
  {
  }

  /** `select * ... where date_modified between start and end`: NULL dates never match. */
  function SelectModifiedIn(rows: seq<GoldRow>, lo: Timestamp, hi: Timestamp): seq<GoldRow>
  {
    if |rows| == 0 then []
    else (if InWindow(rows[0].dateModified, lo, hi) then [rows[0]] else []) + SelectModifiedIn(rows[1..], lo, hi)
  }

  lemma {:induction false} SelectModifiedInMembers(rows: seq<GoldRow>, lo: Timestamp, hi: Timestamp, row: GoldRow)
    ensures row in SelectModifiedIn(rows, lo, hi) <==> row in rows && InWindow(row.dateModified, lo, hi)
  {
    if |rows| > 0 {
      SelectModifiedInMembers(rows[1..], lo, hi, row);
      assert rows == [rows[0]] + rows[1..];
    }
  }

  // ---------------------------------------------------------------------------
  // run_pipeline: the loop
  // ---------------------------------------------------------------------------

  /** How the loop over the fetched blogs ends. */
  datatype LoopEnd =
    | Finished(chunks: nat, store: Store)
    | Stopped(chunks: nat, store: Store)
    | LoopRaised(msg: string, store: Store)

  /** One blog of the loop: raise, stop, or go on from a store and a chunk count. */
  datatype Step = StepRaised(msg: string) | StepStopped | Next(store: Store, chunks: nat)

  /**
   * A blog whose documents cannot be built raises; a blog without documents leaves
   * everything as it was; a failed upsert stops the run; an ingested blog adds its
   * document count.
   */
  function BlogStep(blog: GoldRow, store: Store, chunks: nat, svc: Services): (r: Step)
    ensures r.Next? && r.store != store ==> r.chunks > chunks
  {
    match DocumentsFor(blog, svc.encode, svc.decode, svc.embed)
    case Err(msg) => StepRaised(msg)
    case Ok(docs) =>
      var (status, after) := IngestDocuments(store, docs, svc.upsertError);
      if status == NoDocument then Next(store, chunks)
      else if status == IngestFailed then StepStopped
      else Next(after, chunks + |docs|)
  }

  /** The loop from some blog on, with the chunks counted so far. */
  function RunLoop(blogs: seq<GoldRow>, store: Store, chunks: nat, svc: Services): LoopEnd
    decreases |blogs|
  {
    if |blogs| == 0 then Finished(chunks, store)
    else match BlogStep(blogs[0], store, chunks, svc)
      case StepRaised(msg) => LoopRaised(msg, store)
      case StepStopped => Stopped(chunks, store)
      case Next(s, c) => RunLoop(blogs[1..], s, c, svc)
  }

  /** A loop that stops or raises ignores every blog after the ones it consumed. */
  lemma {:induction false} RunLoopEndIsFinal(xs: seq<GoldRow>, ys: seq<GoldRow>, store: Store, chunks: nat, svc: Services)
    requires !RunLoop(xs, store, chunks, svc).Finished?
    ensures RunLoop(xs + ys, store, chunks, svc) == RunLoop(xs, store, chunks, svc)
    decreases |xs|
  {
    assert (xs + ys)[0] == xs[0];
    assert (xs + ys)[1..] == xs[1..] + ys;
    var step := BlogStep(xs[0], store, chunks, svc);
    if step.Next? {
      RunLoopEndIsFinal(xs[1..], ys, step.store, step.chunks, svc);
    }
  }

  /** A loop that finishes a prefix continues with the rest from the state it reached. */
  lemma {:induction false} RunLoopAppend(xs: seq<GoldRow>, ys: seq<GoldRow>, store: Store, chunks: nat, svc: Services)
    requires RunLoop(xs, store, chunks, svc).Finished?
    ensures var mid := RunLoop(xs, store, chunks, svc);
      RunLoop(xs + ys, store, chunks, svc) == RunLoop(ys, mid.store, mid.chunks, svc)
    decreases |xs|
  {
    if |xs| == 0 {
      assert xs + ys == ys;
    } else {
      assert (xs + ys)[0] == xs[0];
      assert (xs + ys)[1..] == xs[1..] + ys;
      var step := BlogStep(xs[0], store, chunks, svc);
      RunLoopAppend(xs[1..], ys, step.store, step.chunks, svc);
    }
  }

  /** The document count of every blog whose documents can be built. */
  function DocumentTotal(blogs: seq<GoldRow>, svc: Services): nat
    decreases |blogs|
  {
    if |blogs| == 0 then 0
    else
      (match DocumentsFor(blogs[0], svc.encode, svc.decode, svc.embed)
       case Ok(docs) => |docs|
       case Err(_) => 0)
      + DocumentTotal(blogs[1..], svc)
  }

  /** A finished loop counted every document of every blog it went through. */
  lemma {:induction false} FinishedCountsEveryDocument(blogs: seq<GoldRow>, store: Store, chunks: nat, svc: Services)
    requires RunLoop(blogs, store, chunks, svc).Finished?
    ensures RunLoop(blogs, store, chunks, svc).chunks == chunks + DocumentTotal(blogs, svc)
    decreases |blogs|
  {
    if |blogs| > 0 {
      var step := BlogStep(blogs[0], store, chunks, svc);
      FinishedCountsEveryDocument(blogs[1..], step.store, step.chunks, svc);
    }
  }

  /** What `run_pipeline` ends with. */
  datatype RunOutcome =
    | Rejected(reason: Rejection)
    | RunRaised(msg: string)
    | StoppedEarly(chunks: nat)
    | Completed(chunks: nat, fetched: nat)

  function RunPipelineSpec(args: RunArgs, now: Timestamp, gold: Result<seq<GoldRow>>, store: Store, svc: Services)
    : (RunOutcome, Store)
  {
    var sy, sm, ey, em := args.startYear, args.startMonth, EndYearOf(args, now), EndMonthOf(args, now);
    match Validate(sy, sm, ey, em, now)
    case Some(reason) => (Rejected(reason), store)
    case None =>
      match RunWindow(sy, sm, ey, em)
      case Err(msg) => (RunRaised(msg), store)
      case Ok(window) =>
        match gold
        case Err(msg) => (RunRaised(msg), store)
        case Ok(rows) =>
          var blogs := SelectModifiedIn(rows, window.0, window.1);
          match RunLoop(blogs, store, 0, svc)
          case Finished(c, s) => (Completed(c, |blogs|), s)
          case Stopped(c, s) => (StoppedEarly(c), s)
          case LoopRaised(msg, s) => (RunRaised(msg), s)
  }

  /**
   * `run_pipeline`: validate, derive the window, read the gold rows modified in it and
   * load them blog by blog. A rejected run leaves the store untouched.
   */
  method RunPipeline(args: RunArgs, now: Timestamp, gold: Result<seq<GoldRow>>, store0: Store, svc: Services)
    returns (outcome: RunOutcome, store: Store)
    ensures (outcome, store) == RunPipelineSpec(args, now, gold, store0, svc)
    ensures outcome.Rejected? ==> store == store0
  {
    store := store0;
    var sy, sm, ey, em := args.startYear, args.startMonth, EndYearOf(args, now), EndMonthOf(args, now);
    var rejection := Validate(sy, sm, ey, em, now);
    if rejection.Some? {
      return Rejected(rejection.value), store;
    }
    var window := RunWindow(sy, sm, ey, em);
    if window.Err? {
      return RunRaised(window.msg), store;
    }
    if gold.Err? {
      return RunRaised(gold.msg), store;
    }
    var blogs := SelectModifiedIn(gold.value, window.value.0, window.value.1);
    var end := LoadBlogs(blogs, store0, svc);
    match end
    case Finished(c, s) => outcome, store := Completed(c, |blogs|), s;
    case Stopped(c, s) => outcome, store := StoppedEarly(c), s;
    case LoopRaised(msg, s) => outcome, store := RunRaised(msg), s;
  }

  /** The loop of `run_pipeline` over the selected blogs, ending as `RunLoop` says. */
  method LoadBlogs(blogs: seq<GoldRow>, store0: Store, svc: Services) returns (end: LoopEnd)
    ensures end == RunLoop(blogs, store0, 0, svc)
  {
    var store := store0;
    var chunksProcessed: nat := 0;
    var i := 0;
    while i < |blogs|
      invariant 0 <= i <= |blogs|
      invariant RunLoop(blogs[i..], store, chunksProcessed, svc) == RunLoop(blogs, store0, 0, svc)
    {
      ghost var step := BlogStep(blogs[i], store, chunksProcessed, svc);
      LoopUnfold(blogs, i, store, chunksProcessed, svc);
      var document := CreateDocumentChunks(blogs[i], svc.encode, svc.decode, svc.embed);
      if document.Err? {
        assert step == StepRaised(document.msg);
        return LoopRaised(document.msg, store);
      }
      var (status, after) := IngestDocuments(store, document.value, svc.upsertError);
      if status == IngestFailed {
        assert step == StepStopped;
        return Stopped(chunksProcessed, store);
      }
      if status == Ingested {
        store := after;
        chunksProcessed := chunksProcessed + |document.value|;
      }
      assert step == Next(store, chunksProcessed);
      i := i + 1;
    }
    assert blogs[i..] == [];
    end := Finished(chunksProcessed, store);
  }

  // ---------------------------------------------------------------------------
  // run_pipeline_memory_efficient
  // ---------------------------------------------------------------------------

  /** Where a blog lands: skipped, failed or processed with its chunk count. */
  datatype Verdict = Skipped | BlogFailed | Processed(chunks: nat)

  /**
   * `process_and_insert_blog`: missing, empty or whitespace-only content and a blog
   * without chunks are skipped; a document error or a failed batch upsert fails the
   * blog; otherwise its documents are upserted.
   */
  function ProcessBlog(blog: GoldRow, store: Store, svc: Services): (r: (Verdict, Store))
    ensures r.0 == Skipped <==>
      || blog.content.None?
      || IsBlank(Join(blog.content.value, " "))
      || DocumentsFor(blog, svc.encode, svc.decode, svc.embed) == Ok([])
    ensures r.0.Processed? ==>
      && DocumentsFor(blog, svc.encode, svc.decode, svc.embed).Ok?
      && var docs := DocumentsFor(blog, svc.encode, svc.decode, svc.embed).value;
      && r.0.chunks == |docs| > 0
      && svc.upsertError(docs).None?
      && r.1 == Upserted(store, docs)
    ensures !r.0.Processed? ==> r.1 == store
  {
    if blog.content.None? || |blog.content.value| == 0 then (Skipped, store)
    else if IsBlank(Join(blog.content.value, " ")) then (Skipped, store)
    else match DocumentsFor(blog, svc.encode, svc.decode, svc.embed)
      case Err(_) => (BlogFailed, store)
      case Ok(docs) =>
        if |docs| == 0 then (Skipped, store)
        else
          var (ok, after) := IngestDocumentsBatch(store, docs, svc.upsertError);
          if ok then (Processed(|docs|), after) else (BlogFailed, store)
  }

  /** The run's counters, the processed ids and the failed (id, title) pairs. */
  datatype Tally = Tally(
    processed: nat,
    failed: nat,
    skipped: nat,
    chunks: nat,
    processedIds: set<string>,
    failedIds: seq<(string, string)>)

  const NoBlogs: Tally := Tally(0, 0, 0, 0, {}, [])

  function Record(t: Tally, blog: GoldRow, v: Verdict): (r: Tally)
  {
    match v
    case Skipped => t.(skipped := t.skipped + 1)
    case BlogFailed => t.(failed := t.failed + 1, failedIds := t.failedIds + [(blog.rowId, blog.title)])
    case Processed(k) =>
      t.(processed := t.processed + 1, chunks := t.chunks + k, processedIds := t.processedIds + {blog.rowId})
  }

  /** Every blog processed in order, from a tally and a store. */
  function ProcessAll(blogs: seq<GoldRow>, t: Tally, store: Store, svc: Services): (Tally, Store)
    decreases |blogs|
  {
    if |blogs| == 0 then (t, store)
    else
      var (v, after) := ProcessBlog(blogs[0], store, svc);
      ProcessAll(blogs[1..], Record(t, blogs[0], v), after, svc)
  }

  /**
   * Each blog adds one to exactly one of the processed, failed and skipped counters,
   * and each failure leaves one (id, title) entry.
   */
  lemma {:induction false} EveryBlogAccounted(blogs: seq<GoldRow>, t: Tally, store: Store, svc: Services)
    requires |t.failedIds| == t.failed
    ensures var r := ProcessAll(blogs, t, store, svc).0;
      && r.processed + r.failed + r.skipped == t.processed + t.failed + t.skipped + |blogs|
      && |r.failedIds| == r.failed
      && t.processedIds <= r.processedIds
    decreases |blogs|
  {
    if |blogs| > 0 {
      var (v, after) := ProcessBlog(blogs[0], store, svc);
      EveryBlogAccounted(blogs[1..], Record(t, blogs[0], v), after, svc);
    }
  }

  /** The consecutive groups `blogs[i:i + batch_size]` for i = 0, batch_size, ... */
  function Groups(blogs: seq<GoldRow>, batchSize: int): seq<seq<GoldRow>>
    requires batchSize > 0
    decreases |blogs|
  {
    if |blogs| == 0 then []
    else
      var k := Min(batchSize, |blogs|);
      [blogs[..k]] + Groups(blogs[k..], batchSize)
  }

  function Flatten(groups: seq<seq<GoldRow>>): seq<GoldRow>
  {
    if |groups| == 0 then [] else groups[0] + Flatten(groups[1..])
  }

  /**
   * The groups cover the blogs once each, in order; each holds between one and
   * `batch_size` blogs; and there are ceil(n / batch_size) of them, the count the
   * progress message announces.
   */
  lemma GroupsPartition(blogs: seq<GoldRow>, batchSize: int)
    requires batchSize > 0
    ensures Flatten(Groups(blogs, batchSize)) == blogs
    ensures forall g :: g in Groups(blogs, batchSize) ==> 0 < |g| <= batchSize
    ensures |Groups(blogs, batchSize)| == (|blogs| + batchSize - 1) / batchSize
  {
    GroupsFlatten(blogs, batchSize);
    GroupsSizes(blogs, batchSize);
    GroupsCount(blogs, batchSize);
  }

  lemma {:induction false} GroupsFlatten(blogs: seq<GoldRow>, batchSize: int)
    requires batchSize > 0
    ensures Flatten(Groups(blogs, batchSize)) == blogs
    decreases |blogs|
  {
    if |blogs| > 0 {
      var k := Min(batchSize, |blogs|);
      GroupsFlatten(blogs[k..], batchSize);
      var gs := Groups(blogs, batchSize);
      assert gs[0] == blogs[..k] && gs[1..] == Groups(blogs[k..], batchSize);
      assert blogs == blogs[..k] + blogs[k..];
    }
  }

  lemma {:induction false} GroupsSizes(blogs: seq<GoldRow>, batchSize: int)
    requires batchSize > 0
    ensures forall g :: g in Groups(blogs, batchSize) ==> 0 < |g| <= batchSize
    decreases |blogs|
  {
    if |blogs| > 0 {
      var k := Min(batchSize, |blogs|);
      GroupsSizes(blogs[k..], batchSize);
    }
  }

  lemma {:induction false} GroupsCount(blogs: seq<GoldRow>, batchSize: int)
    requires batchSize > 0
    ensures |Groups(blogs, batchSize)| == (|blogs| + batchSize - 1) / batchSize
    decreases |blogs|
  {
    var n := |blogs|;
    if n == 0 {
      DivUnique(batchSize - 1, batchSize, 0, batchSize - 1);
    } else if n <= batchSize {
      assert Groups(blogs[n..], batchSize) == [];
      DivUnique(n + batchSize - 1, batchSize, 1, n - 1);
    } else {
      GroupsCount(blogs[batchSize..], batchSize);
      assert |Groups(blogs, batchSize)| == 1 + |Groups(blogs[batchSize..], batchSize)|;
      CeilStep(n - batchSize, batchSize);
    }
  }

  /** One more full group adds one to the rounded-up quotient. */
  lemma CeilStep(m: int, b: int)
    requires m >= 0 && b > 0
    ensures (m + b + b - 1) / b == (m + b - 1) / b + 1
  {
    var q, r := (m + b - 1) / b, (m + b - 1) % b;
    assert m + b - 1 == q * b + r;
    assert m + b + b - 1 == (q + 1) * b + r;
    DivUnique(m + b + b - 1, b, q + 1, r);
  }

  /** The logged summary: blogs fetched and the tally. */
  datatype Summary = Summary(fetched: nat, tally: Tally)

  /** The "blogs unaccounted for" figure the summary warns about when it is not zero. */
  function Discrepancy(s: Summary): int
  {
    s.fetched - (s.tally.processed + s.tally.failed + s.tally.skipped)
  }

  /** `range(0, n, 0)`. */
  const ZeroStepError: string := "ValueError: range() arg 3 must not be zero"

  function MemoryEfficientSpec(gold: Result<seq<GoldRow>>, batchSize: int, store: Store, svc: Services)
    : (Result<Summary>, Store)
  {
    match gold
    case Err(msg) => (Err(msg), store)
    case Ok(blogs) =>
      if batchSize == 0 then (Err(ZeroStepError), store)
      else if batchSize < 0 then (Ok(Summary(|blogs|, NoBlogs)), store)
      else
        var (t, after) := ProcessAll(blogs, NoBlogs, store, svc);
        (Ok(Summary(|blogs|, t)), after)
  }

  /** With a positive batch size every fetched blog is accounted for. */
  lemma NoDiscrepancy(gold: Result<seq<GoldRow>>, batchSize: int, store: Store, svc: Services)
    requires batchSize > 0
    requires MemoryEfficientSpec(gold, batchSize, store, svc).0.Ok?
    ensures Discrepancy(MemoryEfficientSpec(gold, batchSize, store, svc).0.value) == 0
  {
    EveryBlogAccounted(gold.value, NoBlogs, store, svc);
  }

  /** A negative batch size makes the range empty: nothing is processed and every blog is unaccounted for. */
  lemma NegativeBatchLosesEveryBlog(gold: Result<seq<GoldRow>>, batchSize: int, store: Store, svc: Services)
    requires batchSize < 0 && gold.Ok?
    ensures MemoryEfficientSpec(gold, batchSize, store, svc).1 == store
    ensures Discrepancy(MemoryEfficientSpec(gold, batchSize, store, svc).0.value) == |gold.value|
  {
  }

  /**
   * `run_pipeline_memory_efficient`, with the blogs of a group handled one after
   * another. `groups` records the groups in the order they are processed.
   */
  method RunPipelineMemoryEfficient(gold: Result<seq<GoldRow>>, batchSize: int, store0: Store, svc: Services)
    returns (r: Result<Summary>, store: Store, ghost groups: seq<seq<GoldRow>>)
    ensures (r, store) == MemoryEfficientSpec(gold, batchSize, store0, svc)
    ensures gold.Ok? && batchSize > 0 ==> groups == Groups(gold.value, batchSize)
  {
    store := store0;
    groups := [];
    if gold.Err? {
      return Err(gold.msg), store, groups;
    }
    if batchSize == 0 {
      return Err(ZeroStepError), store, groups;
    }
    var blogs := gold.value;
    var n := |blogs|;
    if batchSize < 0 {
      return Ok(Summary(n, NoBlogs)), store, groups;
    }
    var tally;
    tally, store, groups := ProcessInGroups(blogs, batchSize, store0, svc);
    r := Ok(Summary(n, tally));
  }

  /** The loop of `run_pipeline_memory_efficient` over the groups of `batchSize` blogs. */
  method ProcessInGroups(blogs: seq<GoldRow>, batchSize: int, store0: Store, svc: Services)
    returns (tally: Tally, store: Store, ghost groups: seq<seq<GoldRow>>)
    requires batchSize > 0
    ensures (tally, store) == ProcessAll(blogs, NoBlogs, store0, svc)
    ensures groups == Groups(blogs, batchSize)
  {
    var n := |blogs|;
    tally, store, groups := NoBlogs, store0, [];
    var i := 0;
    while i < n
      invariant 0 <= i <= n
      invariant (tally, store) == ProcessAll(blogs[..i], NoBlogs, store0, svc)
      invariant groups + Groups(blogs[i..], batchSize) == Groups(blogs, batchSize)
    {
      var hi := Min(i + batchSize, n);
      var group := blogs[i..hi];
      AdvanceGroup(blogs, i, batchSize, groups, store0, svc);
      tally, store := ProcessGroup(group, tally, store, svc);
      groups := groups + [group];
      i := hi;
    }
    assert blogs[..n] == blogs;
    assert blogs[n..] == [];
  }

  /** What one turn of the group loop needs: the next group, and the work done so far extended by it. */
  lemma AdvanceGroup(blogs: seq<GoldRow>, i: int, batchSize: int, groups: seq<seq<GoldRow>>, store0: Store, svc: Services)
    requires 0 <= i < |blogs| && batchSize > 0
    requires groups + Groups(blogs[i..], batchSize) == Groups(blogs, batchSize)
    ensures var hi := Min(i + batchSize, |blogs|);
      && (groups + [blogs[i..hi]]) + Groups(blogs[hi..], batchSize) == Groups(blogs, batchSize)
      && ProcessAll(blogs[..hi], NoBlogs, store0, svc)
         == ProcessAll(blogs[i..hi], ProcessAll(blogs[..i], NoBlogs, store0, svc).0, ProcessAll(blogs[..i], NoBlogs, store0, svc).1, svc)
  {
    var hi := Min(i + batchSize, |blogs|);
    var group := blogs[i..hi];
    GroupStep(blogs, i, batchSize);
    assert blogs[..hi] == blogs[..i] + group;
    ProcessAllAppend(blogs[..i], group, NoBlogs, store0, svc);
    assert (groups + [group]) + Groups(blogs[hi..], batchSize) == groups + ([group] + Groups(blogs[hi..], batchSize));
  }

  /** The blogs of one group, one after another, each adding to the tally. */
  method ProcessGroup(group: seq<GoldRow>, t0: Tally, store0: Store, svc: Services) returns (tally: Tally, store: Store)
    ensures (tally, store) == ProcessAll(group, t0, store0, svc)
  {
    tally, store := t0, store0;
    var j := 0;
    while j < |group|
      invariant 0 <= j <= |group|
      invariant ProcessAll(group[j..], tally, store, svc) == ProcessAll(group, t0, store0, svc)
    {
      assert group[j..][0] == group[j] && group[j..][1..] == group[j + 1..];
      var (verdict, after) := ProcessBlog(group[j], store, svc);
      tally := Record(tally, group[j], verdict);
      store := after;
      j := j + 1;
    }
    assert group[j..] == [];
  }

  /** Processing two runs of blogs one after the other is processing them together. */
  lemma {:induction false} ProcessAllAppend(xs: seq<GoldRow>, ys: seq<GoldRow>, t: Tally, store: Store, svc: Services)
    ensures var mid := ProcessAll(xs, t, store, svc);
      ProcessAll(xs + ys, t, store, svc) == ProcessAll(ys, mid.0, mid.1, svc)
    decreases |xs|
  {
    if |xs| == 0 {
      assert xs + ys == ys;
    } else {
      assert (xs + ys)[0] == xs[0];
      assert (xs + ys)[1..] == xs[1..] + ys;
      var (v, after) := ProcessBlog(xs[0], store, svc);
      ProcessAllAppend(xs[1..], ys, Record(t, xs[0], v), after, svc);
    }
  }

  lemma LoopUnfold(blogs: seq<GoldRow>, i: int, store: Store, chunks: nat, svc: Services)
    requires 0 <= i < |blogs|
    ensures RunLoop(blogs[i..], store, chunks, svc) ==
      match BlogStep(blogs[i], store, chunks, svc)
      case StepRaised(msg) => LoopRaised(msg, store)
      case StepStopped => Stopped(chunks, store)
      case Next(s, c) => RunLoop(blogs[i + 1..], s, c, svc)
  {
    assert blogs[i..][0] == blogs[i] && blogs[i..][1..] == blogs[i + 1..];
  }

  lemma GroupStep(blogs: seq<GoldRow>, i: int, batchSize: int)
    requires 0 <= i < |blogs| && batchSize > 0
    ensures Groups(blogs[i..], batchSize)
      == [blogs[i..Min(i + batchSize, |blogs|)]] + Groups(blogs[Min(i + batchSize, |blogs|)..], batchSize)
  {
    var k := Min(batchSize, |blogs| - i);
    assert blogs[i..][..k] == blogs[i..Min(i + batchSize, |blogs|)];
    assert blogs[i..][k..] == blogs[Min(i + batchSize, |blogs|)..];
  }
}
