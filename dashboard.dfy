/**
 * The two pieces of dashboard logic that are not drawing: the query behind the
 * "recent articles" table, assembled from the sidebar selection, and the source
 * table under a search answer, one row per distinct url in first-seen order. Reading
 * the database is the `fetch` parameter.
 */
module Dashboard {
  import opened Wrappers
  import opened Text

  const GoldTable: string := "gold_pybites_blogs"

  /** The sidebar selection: "author" and "tag" map to the chosen values. */
  type Selection = map<string, seq<string>>

  // ---------------------------------------------------------------------------
  // Text pieces of the query
  // ---------------------------------------------------------------------------

  /** The length of the leading run of whitespace. */
  function LeadingSpaces(s: string): (n: nat)
    ensures n <= |s|
    ensures IsBlank(s[..n])
    ensures n < |s| ==> !IsPySpace(s[n])
  {
    if |s| > 0 && IsPySpace(s[0]) then
      var n := 1 + LeadingSpaces(s[1..]);
      assert s[..n] == [s[0]] + s[1..][..n - 1];
      n
    else 0
  }

  /** Python `str.lstrip()`. */
  function LStrip(s: string): (r: string)
    ensures |r| <= |s| && r == s[|s| - |r|..]
    ensures |r| > 0 ==> !IsPySpace(r[0])
    ensures IsBlank(s[..|s| - |r|])
  {
    s[LeadingSpaces(s)..]
  }

  /** Stripping a blank prefix in front of text that starts with a non-space yields that text. */
  lemma {:induction false} LStripBlankPrefix(ws: string, t: string)
    requires IsBlank(ws)
    requires |t| > 0 && !IsPySpace(t[0])
    ensures LStrip(ws + t) == t
    decreases |ws|
  {
    if |ws| > 0 {
      assert (ws + t)[1..] == ws[1..] + t;
      LStripBlankPrefix(ws[1..], t);
    } else {
      assert ws + t == t;
    }
  }

  /** Python `str(n)`. */
  function IntToString(n: int): (s: string)
    ensures |s| > 0
  {
    if n < 0 then "-" + NatToString(-n) else NatToString(n)
  }

  /** The two line breaks and indentations the f-strings carry. */
  const Margin: string := "\n            "
  const Tail: string := "\n        "

  const BaseQuery: string :=
    "\n        select title, author, tags, date_published, date_modified\n        from " + GoldTable + "\n        where 1=1\n    "

  function AuthorFilter(authors: seq<string>): string
  {
    Margin + "and author in (" + QuotedList(authors) + ")" + Tail
  }

  function AndTagFilter(tags: seq<string>): string
  {
    Margin + "and tags @> array[" + QuotedList(tags) + "]" + Tail
  }

  function OrTagFilter(tags: seq<string>): string
  {
    Margin + "or tags @> array[" + QuotedList(tags) + "]" + Tail
  }

  function OrderClause(limit: int): string
  {
    Tail + "order by date_published desc" + Tail + "limit " + IntToString(limit) + "\n    "
  }

  /** Stripping the margin in front of a clause that starts at a keyword leaves the clause. */
  lemma StripMargin(ws: string, t: string)
    requires ws == Margin || ws == Tail
    requires |t| > 0 && (t[0] == 'a' || t[0] == 'o')
    ensures LStrip(ws + t) == t
  {
    assert IsBlank(ws);
    LStripBlankPrefix(ws, t);
  }

  /** The stripped clauses: each starts at its keyword and keeps its trailing newline. */
  lemma StrippedClauses(values: seq<string>, limit: int)
    ensures LStrip(AuthorFilter(values)) == "and author in (" + QuotedList(values) + ")" + Tail
    ensures LStrip(AndTagFilter(values)) == "and tags @> array[" + QuotedList(values) + "]" + Tail
    ensures LStrip(OrTagFilter(values)) == "or tags @> array[" + QuotedList(values) + "]" + Tail
    ensures LStrip(OrderClause(limit)) == "order by date_published desc" + Tail + "limit " + IntToString(limit) + "\n    "
  {
    StrippedAuthor(values);
    StrippedAndTag(values);
    StrippedOrTag(values);
    StrippedOrder(limit);
  }

  lemma StrippedAuthor(values: seq<string>)
    ensures LStrip(AuthorFilter(values)) == "and author in (" + QuotedList(values) + ")" + Tail
  {
    var a := "and author in (" + QuotedList(values) + ")" + Tail;
    assert AuthorFilter(values) == Margin + a;
    StripMargin(Margin, a);
  }

  lemma StrippedAndTag(values: seq<string>)
    ensures LStrip(AndTagFilter(values)) == "and tags @> array[" + QuotedList(values) + "]" + Tail
  {
    var t := "and tags @> array[" + QuotedList(values) + "]" + Tail;
    assert AndTagFilter(values) == Margin + t;
    StripMargin(Margin, t);
  }

  lemma StrippedOrTag(values: seq<string>)
    ensures LStrip(OrTagFilter(values)) == "or tags @> array[" + QuotedList(values) + "]" + Tail
  {
    var o := "or tags @> array[" + QuotedList(values) + "]" + Tail;
    assert OrTagFilter(values) == Margin + o;
    StripMargin(Margin, o);
  }

  lemma StrippedOrder(limit: int)
    ensures LStrip(OrderClause(limit)) == "order by date_published desc" + Tail + "limit " + IntToString(limit) + "\n    "
  {
    var ord := "order by date_published desc" + Tail + "limit " + IntToString(limit) + "\n    ";
    assert OrderClause(limit) == Tail + ord;
    StripMargin(Tail, ord);
  }

  // ---------------------------------------------------------------------------
  // get_recent_articles
  // ---------------------------------------------------------------------------

  /** An author condition applies when authors are selected and "All" is not among them. */
  predicate AuthorActive(sel: Selection)
  {
    "author" in sel && "All" !in sel["author"]
  }

  predicate TagActive(sel: Selection)
  {
    "tag" in sel && "All" !in sel["tag"]
  }

  /**
   * The conditions after `where 1=1`: the author condition, then the tag condition,
   * which is joined by `or` only when the choice is not "And" and an author
   * condition precedes it.
   */
  function Conditions(sel: Selection, choice: string): string
  {
    var author := if AuthorActive(sel) then LStrip(AuthorFilter(sel["author"])) else "";
    var tag :=
      if !TagActive(sel) then ""
      else if choice != "And" && AuthorActive(sel) then LStrip(OrTagFilter(sel["tag"]))
      else LStrip(AndTagFilter(sel["tag"]));
    author + tag
  }

  function RecentArticlesQuery(sel: Selection, limit: int, choice: string): string
  {
    BaseQuery + Conditions(sel, choice) + LStrip(OrderClause(limit))
  }

  /** The unfiltered query read first, its result thrown away, for an empty selection. */
  function EmptySelectionRead(sel: Selection): seq<string>
  {
    if |sel| == 0 then [BaseQuery] else []
  }

  /** The same read for an author list holding "All". */
  function AllAuthorsRead(sel: Selection): seq<string>
  {
    if "author" in sel && "All" in sel["author"] then [BaseQuery] else []
  }

  /** The same read for a tag list holding "All". */
  function AllTagsRead(sel: Selection): seq<string>
  {
    if "tag" in sel && "All" in sel["tag"] then [BaseQuery] else []
  }

  /**
   * With authors and tags both chosen (neither holding "All") the query filters on
   * the authors and then on the tags, joined by `and` for the "And" choice and by
   * `or` for any other.
   */
  lemma AuthorAndTagQuery(sel: Selection, limit: int, choice: string)
    requires AuthorActive(sel) && TagActive(sel)
    ensures RecentArticlesQuery(sel, limit, choice) ==
      BaseQuery
      + ("and author in (" + QuotedList(sel["author"]) + ")" + Tail)
      + ((if choice == "And" then "and tags @> array[" else "or tags @> array[") + QuotedList(sel["tag"]) + "]" + Tail)
      + ("order by date_published desc" + Tail + "limit " + IntToString(limit) + "\n    ")
  {
    StrippedAuthor(sel["author"]);
    if choice == "And" {
      StrippedAndTag(sel["tag"]);
    } else {
      StrippedOrTag(sel["tag"]);
    }
    StrippedOrder(limit);
    var author := "and author in (" + QuotedList(sel["author"]) + ")" + Tail;
    var tag := (if choice == "And" then "and tags @> array[" else "or tags @> array[") + QuotedList(sel["tag"]) + "]" + Tail;
    var order := "order by date_published desc" + Tail + "limit " + IntToString(limit) + "\n    ";
    assert Conditions(sel, choice) == author + tag;
    assert LStrip(OrderClause(limit)) == order;
    assert BaseQuery + (author + tag) == BaseQuery + author + tag;
  }

  /** Without an author condition the choice makes no difference. */
  lemma ChoiceNeedsAuthor(sel: Selection, limit: int, choice: string)
    requires !AuthorActive(sel)
    ensures RecentArticlesQuery(sel, limit, choice) == RecentArticlesQuery(sel, limit, "And")
  {
  }

  /** The reads made before the final query. */
  function ExtraReads(sel: Selection): seq<string>
  {
    EmptySelectionRead(sel) + AllAuthorsRead(sel) + AllTagsRead(sel)
  }

  /** Every read `get_recent_articles` issues, in order; only the last one's result is used. */
  function QueriesIssued(sel: Selection, limit: int, choice: string): seq<string>
  {
    ExtraReads(sel) + [RecentArticlesQuery(sel, limit, choice)]
  }

  /** Reading each query in turn: the last result, or the first failure. */
  function FetchEach<R>(fetch: string -> Result<seq<R>>, queries: seq<string>): (r: Result<seq<R>>)
    requires |queries| > 0
    ensures r.Ok? ==> r == fetch(queries[|queries| - 1])
    ensures (forall i :: 0 <= i < |queries| ==> fetch(queries[i]).Ok?) ==> r.Ok?
  {
    match fetch(queries[0])
    case Err(msg) => Err(msg)
    case Ok(rows) => if |queries| == 1 then Ok(rows) else FetchEach(fetch, queries[1..])
  }

  /** The table is returned only when the last query gave rows. */
  function RecentArticlesSpec<R>(sel: Selection, limit: int, choice: string, fetch: string -> Result<seq<R>>)
    : Result<Option<seq<R>>>
  {
    match FetchEach(fetch, QueriesIssued(sel, limit, choice))
    case Err(msg) => Err(msg)
    case Ok(rows) => Ok(if |rows| > 0 then Some(rows) else None)
  }

  /** `get_recent_articles`, building the query with `+=` as the dashboard does. */
  method GetRecentArticles<R>(sel: Selection, limit: int, choice: string, fetch: string -> Result<seq<R>>)
    returns (r: Result<Option<seq<R>>>, ghost issued: seq<string>)
    ensures issued <= QueriesIssued(sel, limit, choice)
    ensures r.Ok? ==> issued == QueriesIssued(sel, limit, choice)
    ensures r == RecentArticlesSpec(sel, limit, choice, fetch)
  {
    var failure, andAuthor, andTag, orTag;
    failure, andAuthor, andTag, orTag, issued := ReadsAndFilters(sel, fetch);
    ghost var all := QueriesIssued(sel, limit, choice);
    assert all == ExtraReads(sel) + [RecentArticlesQuery(sel, limit, choice)];
    if failure.Some? {
      r := Err(failure.value);
      FetchFirstFails(fetch, sel, limit, choice, issued);
      return;
    }
    var qry := FinalQuery(sel, limit, choice, andAuthor, andTag, orTag);
    var result := fetch(qry);
    ghost var before := issued;
    issued := issued + [qry];
    assert issued == all;
    assert forall i :: 0 <= i < |issued| - 1 ==> issued[i] == before[i];
    FetchAllSucceed(fetch, issued);
    if result.Err? {
      r := Err(result.msg);
    } else if |result.value| > 0 {
      r := Ok(Some(result.value));
    } else {
      r := Ok(None);
    }
  }

  /**
   * The part of `get_recent_articles` before the order clause: the reads of the
   * unfiltered query, stopping at the first that fails, and the three filter texts.
   */
  method ReadsAndFilters<R>(sel: Selection, fetch: string -> Result<seq<R>>)
    returns (failure: Option<string>, andAuthor: string, andTag: string, orTag: string, ghost issued: seq<string>)
    ensures issued <= ExtraReads(sel)
    ensures failure.Some? ==>
      && |issued| > 0 && fetch(issued[|issued| - 1]) == Err(failure.value)
      && forall i :: 0 <= i < |issued| - 1 ==> fetch(issued[i]).Ok?
    ensures failure.None? ==>
      && issued == ExtraReads(sel)
      && (forall i :: 0 <= i < |issued| ==> fetch(issued[i]).Ok?)
      && andAuthor == (if AuthorActive(sel) then AuthorFilter(sel["author"]) else "")
      && andTag == (if TagActive(sel) then AndTagFilter(sel["tag"]) else "")
      && (AuthorActive(sel) && TagActive(sel) ==> orTag == OrTagFilter(sel["tag"]))
  {
    var qry := BaseQuery;
    andAuthor, andTag, orTag := "", "", "";
    failure := None;
    issued := [];
    var result: Result<seq<R>>;
    if |sel| == 0 {
      result := fetch(qry);
      issued := issued + [qry];
      if result.Err? {
        failure := Some(result.msg);
        return;
      }
    }
    assert issued == EmptySelectionRead(sel);
    if "author" in sel {
      if "All" in sel["author"] {
        result := fetch(qry);
        issued := issued + [qry];
        if result.Err? {
          failure := Some(result.msg);
          return;
        }
      } else {
        andAuthor := AuthorFilter(sel["author"]);
      }
    }
    assert issued == EmptySelectionRead(sel) + AllAuthorsRead(sel);
    FiltersNonEmpty(sel);
    if "tag" in sel {
      if "All" in sel["tag"] {
        result := fetch(qry);
        issued := issued + [qry];
        if result.Err? {
          failure := Some(result.msg);
          return;
        }
      } else if |andAuthor| > 0 {
        andTag := AndTagFilter(sel["tag"]);
        orTag := OrTagFilter(sel["tag"]);
      } else {
        andTag := AndTagFilter(sel["tag"]);
      }
    }
  }

  /** The query `get_recent_articles` runs last, assembled from the filter texts. */
  method FinalQuery(ghost sel: Selection, limit: int, choice: string, andAuthor: string, andTag: string, orTag: string)
    returns (qry: string)
    requires andAuthor == (if AuthorActive(sel) then AuthorFilter(sel["author"]) else "")
    requires andTag == (if TagActive(sel) then AndTagFilter(sel["tag"]) else "")
    requires AuthorActive(sel) && TagActive(sel) ==> orTag == OrTagFilter(sel["tag"])
    ensures qry == RecentArticlesQuery(sel, limit, choice)
  {
    FiltersNonEmpty(sel);
    qry := BaseQuery;
    var filters := FilterText(andAuthor, andTag, orTag, choice);
    qry := qry + filters;
    assert qry == BaseQuery + Conditions(sel, choice);
    var orderClause := OrderClause(limit);
    qry := qry + LStrip(orderClause);
  }

  /** The `choice` branches of `get_recent_articles`, appending the stripped clauses. */
  method FilterText(andAuthor: string, andTag: string, orTag: string, choice: string) returns (text: string)
    ensures text == LStrip(andAuthor) + (if choice != "And" && andAuthor != "" && andTag != "" then LStrip(orTag) else LStrip(andTag))
  {
    ghost var author, tag := LStrip(andAuthor), LStrip(andTag);
    assert andAuthor == "" ==> author == "";
    assert andTag == "" ==> tag == "";
    text := "";
    if choice == "And" {
      if andAuthor != "" {
        text := text + LStrip(andAuthor);
      }
      if andTag != "" {
        text := text + LStrip(andTag);
      }
    } else {
      if andAuthor != "" {
        text := text + LStrip(andAuthor);
      }
      if andAuthor != "" && andTag != "" {
        text := text + LStrip(orTag);
      } else {
        text := text + LStrip(andTag);
      }
    }
  }

  lemma FiltersNonEmpty(sel: Selection)
    ensures "author" in sel ==> AuthorFilter(sel["author"]) != ""
    ensures "tag" in sel ==> AndTagFilter(sel["tag"]) != "" && OrTagFilter(sel["tag"]) != ""
  {
    if "author" in sel {
      assert AuthorFilter(sel["author"])[0] == '\n';
    }
    if "tag" in sel {
      assert AndTagFilter(sel["tag"])[0] == '\n';
      assert OrTagFilter(sel["tag"])[0] == '\n';
    }
  }

  /** When the queries before the last all succeed, `FetchEach` is the last query's result. */
  lemma {:induction false} FetchAllSucceed<R>(fetch: string -> Result<seq<R>>, queries: seq<string>)
    requires |queries| > 0
    requires forall i :: 0 <= i < |queries| - 1 ==> fetch(queries[i]).Ok?
    ensures FetchEach(fetch, queries) == fetch(queries[|queries| - 1])
    decreases |queries|
  {
    if |queries| > 1 {
      FetchAllSucceed(fetch, queries[1..]);
    }
  }

  /** A failing early read, after successful ones, is what the whole call raises. */
  lemma FetchFirstFails<R>(fetch: string -> Result<seq<R>>, sel: Selection, limit: int, choice: string, done: seq<string>)
    requires |done| > 0 && fetch(done[|done| - 1]).Err?
    requires forall i :: 0 <= i < |done| - 1 ==> fetch(done[i]).Ok?
    requires done <= QueriesIssued(sel, limit, choice)
    ensures RecentArticlesSpec(sel, limit, choice, fetch) == Err(fetch(done[|done| - 1]).msg)
  {
    var all := QueriesIssued(sel, limit, choice);
    assert all == done + all[|done|..];
    FetchPrefixFails(fetch, done, all[|done|..]);
  }

  lemma {:induction false} FetchPrefixFails<R>(fetch: string -> Result<seq<R>>, done: seq<string>, rest: seq<string>)
    requires |done| > 0 && fetch(done[|done| - 1]).Err?
    requires forall i :: 0 <= i < |done| - 1 ==> fetch(done[i]).Ok?
    ensures FetchEach(fetch, done + rest) == Err(fetch(done[|done| - 1]).msg)
    decreases |done|
  {
    assert (done + rest)[0] == done[0];
    if |done| > 1 {
      assert (done + rest)[1..] == done[1..] + rest;
      FetchPrefixFails(fetch, done[1..], rest);
    }
  }

  // ---------------------------------------------------------------------------
  // format_metadata
  // ---------------------------------------------------------------------------

  /** The metadata of one search hit. */
  datatype Hit = Hit(url: string, author: string, datePublished: string, tags: seq<string>)

  /** The four columns of the source table shown under an answer. */
  datatype MetadataTable = MetadataTable(
    urls: seq<string>, authors: seq<string>, published: seq<string>, tags: seq<seq<string>>)

  function Urls(hits: seq<Hit>): (r: seq<string>)
    ensures |r| == |hits| && forall i :: 0 <= i < |hits| ==> r[i] == hits[i].url
  {
    seq(|hits|, i requires 0 <= i < |hits| => hits[i].url)
  }

  /** The hits kept, in order: each one whose url no earlier hit carried. */
  function FirstSeen(hits: seq<Hit>): seq<Hit>
  {
    if |hits| == 0 then []
    else
      var kept := FirstSeen(hits[..|hits| - 1]);
      var h := hits[|hits| - 1];
      if h.url in Urls(kept) then kept else kept + [h]
  }

  /** The columns of a list of kept hits. */
  function Table(kept: seq<Hit>): (t: MetadataTable)
    ensures |t.urls| == |t.authors| == |t.published| == |t.tags| == |kept|
    ensures forall i :: 0 <= i < |kept| ==>
      kept[i] == Hit(t.urls[i], t.authors[i], t.published[i], t.tags[i])
  {
    MetadataTable(
      Urls(kept),
      seq(|kept|, i requires 0 <= i < |kept| => kept[i].author),
      seq(|kept|, i requires 0 <= i < |kept| => kept[i].datePublished),
      seq(|kept|, i requires 0 <= i < |kept| => kept[i].tags))
  }

  /**
   * `format_metadata`: the table handed to the data frame, or `None` when there
   * were no hits and the collection stayed empty.
   */
  method FormatMetadata(hits: seq<Hit>) returns (table: Option<MetadataTable>)
    ensures table.None? <==> |hits| == 0
    ensures table.Some? ==> table.value == Table(FirstSeen(hits))
  {
    var started := false;
    var urls: seq<string> := [];
    var authors: seq<string> := [];
    var published: seq<string> := [];
    var tags: seq<seq<string>> := [];
    var i := 0;
    while i < |hits|
      invariant 0 <= i <= |hits|
      invariant started <==> i > 0
      invariant MetadataTable(urls, authors, published, tags) == Table(FirstSeen(hits[..i]))
    {
      var hit := hits[i];
      assert hits[..i + 1][..i] == hits[..i];
      assert hits[..i + 1][i] == hit;
      if !started {
        started := true;
      }
      if hit.url !in urls {
        urls := urls + [hit.url];
        authors := authors + [hit.author];
        published := published + [hit.datePublished];
        tags := tags + [hit.tags];
      }
      i := i + 1;
    }
    assert hits[..i] == hits;
    if started {
      table := Some(MetadataTable(urls, authors, published, tags));
    } else {
      table := None;
    }
  }

  /** The index of the first hit carrying `url`, or the number of hits when none does. */
  function FirstIndex(hits: seq<Hit>, url: string): (r: nat)
    ensures r <= |hits|
    ensures r < |hits| ==> hits[r].url == url
    ensures forall i :: 0 <= i < r ==> hits[i].url != url
  {
    if |hits| == 0 then 0
    else if hits[0].url == url then 0
    else 1 + FirstIndex(hits[1..], url)
  }

  /** No url appears twice in the table. */
  lemma {:induction false} FirstSeenUrlsDistinct(hits: seq<Hit>)
    ensures forall i, j :: 0 <= i < j < |FirstSeen(hits)| ==> FirstSeen(hits)[i].url != FirstSeen(hits)[j].url
  {
    if |hits| > 0 {
      FirstSeenUrlsDistinct(hits[..|hits| - 1]);
      var kept := FirstSeen(hits[..|hits| - 1]);
      var h := hits[|hits| - 1];
      if h.url !in Urls(kept) {
        forall i | 0 <= i < |kept|
          ensures kept[i].url != h.url
        {
          assert Urls(kept)[i] == kept[i].url;
        }
      }
    }
  }

  /** Every hit's url is in the table. */
  lemma {:induction false} FirstSeenCoversEvery(hits: seq<Hit>)
    ensures forall i :: 0 <= i < |hits| ==> hits[i].url in Urls(FirstSeen(hits))
  {
    if |hits| > 0 {
      var init := hits[..|hits| - 1];
      FirstSeenCoversEvery(init);
      var kept := FirstSeen(init);
      forall i | 0 <= i < |hits|
        ensures hits[i].url in Urls(FirstSeen(hits))
      {
        if i < |hits| - 1 {
          assert hits[i] == init[i];
          var k :| 0 <= k < |kept| && Urls(kept)[k] == hits[i].url;
          assert Urls(FirstSeen(hits))[k] == hits[i].url;
        } else if hits[i].url !in Urls(kept) {
          assert Urls(FirstSeen(hits))[|kept|] == hits[i].url;
        }
      }
    }
  }

  /** The row kept for a url is the first hit with that url. */
  lemma {:induction false} FirstSeenIsFirst(hits: seq<Hit>)
    ensures forall j :: 0 <= j < |FirstSeen(hits)| ==>
      FirstIndex(hits, FirstSeen(hits)[j].url) < |hits| &&
      FirstSeen(hits)[j] == hits[FirstIndex(hits, FirstSeen(hits)[j].url)]
  {
    if |hits| > 0 {
      var init := hits[..|hits| - 1];
      var h := hits[|hits| - 1];
      FirstSeenIsFirst(init);
      var kept := FirstSeen(init);
      forall j | 0 <= j < |kept|
        ensures FirstIndex(hits, kept[j].url) < |hits| && kept[j] == hits[FirstIndex(hits, kept[j].url)]
      {
        KeptIndexUnchanged(hits, kept[j].url);
      }
      if h.url !in Urls(kept) {
        assert hits == init + [h];
        NewUrlIndex(init, h);
      }
    }
  }

  /** The rows follow the order in which their urls first appear. */
  lemma {:induction false} FirstSeenInOrder(hits: seq<Hit>)
    ensures forall j, k :: 0 <= j < k < |FirstSeen(hits)| ==>
      FirstIndex(hits, FirstSeen(hits)[j].url) < FirstIndex(hits, FirstSeen(hits)[k].url)
  {
    if |hits| > 0 {
      var init := hits[..|hits| - 1];
      var h := hits[|hits| - 1];
      FirstSeenInOrder(init);
      FirstSeenIsFirst(init);
      var kept := FirstSeen(init);
      forall j | 0 <= j < |kept|
        ensures FirstIndex(hits, kept[j].url) == FirstIndex(init, kept[j].url) < |init|
      {
        KeptIndexUnchanged(hits, kept[j].url);
      }
      if h.url !in Urls(kept) {
        assert hits == init + [h];
        NewUrlIndex(init, h);
      }
    }
  }

  /** A url already kept before the last hit keeps its first index. */
  lemma KeptIndexUnchanged(hits: seq<Hit>, url: string)
    requires |hits| > 0
    requires url in Urls(FirstSeen(hits[..|hits| - 1]))
    requires FirstIndex(hits[..|hits| - 1], url) < |hits| - 1
    ensures FirstIndex(hits, url) == FirstIndex(hits[..|hits| - 1], url)
  {
    var init := hits[..|hits| - 1];
    assert hits == init + [hits[|hits| - 1]];
    FirstIndexExtend(init, hits[|hits| - 1], url);
  }

  /** A last hit whose url was not kept before first appears at the end. */
  lemma NewUrlIndex(init: seq<Hit>, h: Hit)
    requires h.url !in Urls(FirstSeen(init))
    ensures FirstIndex(init + [h], h.url) == |init|
  {
    var p := FirstIndex(init, h.url);
    assert p == |init| by {
      FirstSeenCoversEvery(init);
    }
    FirstIndexExtend(init, h, h.url);
  }

  /** Adding a hit at the end leaves the first index of a url already present unchanged. */
  lemma FirstIndexExtend(init: seq<Hit>, h: Hit, url: string)
    ensures FirstIndex(init + [h], url) ==
      if FirstIndex(init, url) < |init| then FirstIndex(init, url)
      else if h.url == url then |init|
      else |init| + 1
  {
    var p := FirstIndex(init, url);
    var q := FirstIndex(init + [h], url);
    assert forall i :: 0 <= i < |init| ==> (init + [h])[i] == init[i];
    if p < |init| {
      assert (init + [h])[p].url == url;
    } else if h.url == url {
      assert (init + [h])[|init|].url == url;
    }
  }

  /** Formatting the kept hits again keeps them all. */
  lemma {:induction false} FirstSeenIdempotent(hits: seq<Hit>)
    ensures FirstSeen(FirstSeen(hits)) == FirstSeen(hits)
  {
    FirstSeenUrlsDistinct(hits);
    DistinctUrlsKept(FirstSeen(hits));
  }

  /** Hits whose urls are all different are all kept. */
  lemma {:induction false} DistinctUrlsKept(hits: seq<Hit>)
    requires forall i, j :: 0 <= i < j < |hits| ==> hits[i].url != hits[j].url
    ensures FirstSeen(hits) == hits
  {
    if |hits| > 0 {
      var init := hits[..|hits| - 1];
      DistinctUrlsKept(init);
    }
  }
}
