/**
 * Chunking a blog for the vector store: the paragraphs are joined with single spaces,
 * tokenised, and cut into windows of `chunkSize` tokens that start every
 * `chunkSize - overlapSize` tokens while the start is below the joined text's
 * CHARACTER length. Each non-empty decoded window is a chunk; each chunk becomes one
 * document with a deterministic id. The tokenizer and the embedding service are
 * parameters.
 */
module RagChunking {
  import opened Wrappers
  import opened Text
  import opened Timestamps

  type Token = int

  // ---------------------------------------------------------------------------
  // Python slicing
  // ---------------------------------------------------------------------------

  /** A slice bound as Python normalises it against a length `n`. */
  function SliceBound(i: int, n: nat): (b: nat)
    ensures b <= n
    ensures 0 <= i <= n ==> b == i
  {
    if i < 0 then (if i + n < 0 then 0 else i + n)
    else if i > n then n
    else i
  }

  /** Python `xs[a:b]`, negative bounds counting from the end. */
  function PySlice<T>(xs: seq<T>, a: int, b: int): (r: seq<T>)
    ensures |r| <= |xs|
    ensures 0 <= a <= b <= |xs| ==> r == xs[a..b]
    ensures |xs| <= a ==> r == []
  {
    var lo, hi := SliceBound(a, |xs|), SliceBound(b, |xs|);
    if lo < hi then xs[lo..hi] else []
  }

  /** `tokens[start: start + chunkSize]`. */
  function Window(tokens: seq<Token>, start: int, size: int): seq<Token>
  {
    PySlice(tokens, start, start + size)
  }

  // ---------------------------------------------------------------------------
  // chunk_blogs
  // ---------------------------------------------------------------------------

  /**
   * The chunks from start `s` on: the decoded window at `s` when it is not empty, then
   * the chunks from `s + stride`, until the start reaches the character length.
   */
  function ChunkSpec(tokens: seq<Token>, decode: seq<Token> -> string, size: int, stride: int, charLen: nat, s: int)
    : (chunks: seq<string>)
    requires stride > 0 || s >= charLen
    ensures forall i :: 0 <= i < |chunks| ==> |chunks[i]| > 0
    decreases charLen - s
  {
    if s >= charLen then []
    else
      var text := decode(Window(tokens, s, size));
      (if |text| > 0 then [text] else []) + ChunkSpec(tokens, decode, size, stride, charLen, s + stride)
  }

  /** What `chunk_blogs(blog, size, overlap)` returns. */
  function Chunks(blog: seq<string>, size: int, overlap: int, encode: string -> seq<Token>, decode: seq<Token> -> string)
    : seq<string>
    requires size - overlap > 0 || |Join(blog, " ")| == 0
  {
    var merged := Join(blog, " ");
    ChunkSpec(encode(merged), decode, size, size - overlap, |merged|, 0)
  }

  /**
   * `chunk_blogs`. The loop terminates only when the stride is positive or the joined
   * text is empty, so that is what callers must ensure.
   */
  method ChunkBlogs(blog: seq<string>, size: int, overlap: int, encode: string -> seq<Token>, decode: seq<Token> -> string)
    returns (chunks: seq<string>)
    requires size - overlap > 0 || |Join(blog, " ")| == 0
    ensures chunks == Chunks(blog, size, overlap, encode, decode)
    ensures forall i :: 0 <= i < |chunks| ==> |chunks[i]| > 0
  {
    var merged := Join(blog, " ");
    var start, end := 0, |merged|;
    var tokens := encode(merged);
    var stride := size - overlap;
    chunks := [];
    while start < end
      invariant stride > 0 || start >= end
      invariant chunks + ChunkSpec(tokens, decode, size, stride, end, start) == ChunkSpec(tokens, decode, size, stride, end, 0)
      decreases end - start
    {
      var chunkToken := PySlice(tokens, start, start + size);
      var chunkText := decode(chunkToken);
      ChunkLoopStep(chunks, tokens, decode, size, stride, end, start);
      if |chunkText| > 0 {
        chunks := chunks + [chunkText];
      } else {
        assert chunks + [] == chunks;
      }
      start := start + stride;
    }
    assert ChunkSpec(tokens, decode, size, stride, end, start) == [];
    assert chunks + [] == chunks;
  }

  /** One turn of the chunking loop keeps `chunks` followed by the chunks still to come equal to all chunks. */
  lemma ChunkLoopStep(done: seq<string>, tokens: seq<Token>, decode: seq<Token> -> string, size: int, stride: int, charLen: nat, s: int)
    requires stride > 0 && s < charLen
    requires done + ChunkSpec(tokens, decode, size, stride, charLen, s) == ChunkSpec(tokens, decode, size, stride, charLen, 0)
    ensures var text := decode(PySlice(tokens, s, s + size));
      (done + (if |text| > 0 then [text] else [])) + ChunkSpec(tokens, decode, size, stride, charLen, s + stride)
        == ChunkSpec(tokens, decode, size, stride, charLen, 0)
  {
    var text := decode(PySlice(tokens, s, s + size));
    ChunkSpecUnfold(tokens, decode, size, stride, charLen, s);
    ConcatAssoc(done, if |text| > 0 then [text] else [], ChunkSpec(tokens, decode, size, stride, charLen, s + stride));
  }

  lemma ConcatAssoc<T>(a: seq<T>, b: seq<T>, c: seq<T>)
    ensures a + (b + c) == (a + b) + c
  {
  }

  /** One step of `ChunkSpec`: the chunk at `s`, if any, then the rest. */
  lemma ChunkSpecUnfold(tokens: seq<Token>, decode: seq<Token> -> string, size: int, stride: int, charLen: nat, s: int)
    requires stride > 0 && s < charLen
    ensures var text := decode(PySlice(tokens, s, s + size));
      ChunkSpec(tokens, decode, size, stride, charLen, s)
        == (if |text| > 0 then [text] else []) + ChunkSpec(tokens, decode, size, stride, charLen, s + stride)
  {
  }

  // ---------------------------------------------------------------------------
  // Properties of the windows
  // ---------------------------------------------------------------------------

  /** The number of starts `s, s + stride, ...` below `limit`. */
  function StartsBelow(s: int, stride: int, limit: int): nat
    requires stride > 0
  {
    if s >= limit then 0 else (limit - 1 - s) / stride + 1
  }

  /** Euclidean division is determined by quotient and remainder. */
  lemma DivUnique(x: int, d: int, q: int, r: int)
    requires d > 0 && 0 <= r < d && x == q * d + r
    ensures x / d == q
  {
    var q', r' := x / d, x % d;
    assert x == q' * d + r';
    if q' > q {
      assert (q' - q) * d == r - r';
      MulAtLeast(q' - q, d);
      assert false;
    } else if q' < q {
      assert (q - q') * d == r' - r;
      MulAtLeast(q - q', d);
      assert false;
    }
  }

  lemma MulAtLeast(k: int, d: int)
    requires k >= 1 && d > 0
    ensures k * d >= d
  {
  }

  lemma StartsStep(s: int, stride: int, limit: int)
    requires stride > 0 && s < limit
    ensures StartsBelow(s, stride, limit) == 1 + StartsBelow(s + stride, stride, limit)
  {
    var x := limit - 1 - s;
    var q, r := x / stride, x % stride;
    assert x == q * stride + r;
    if x >= stride {
      assert x - stride == (q - 1) * stride + r;
      DivUnique(x - stride, stride, q - 1, r);
    } else {
      DivUnique(x, stride, 0, x);
    }
  }

  /** With a positive size, the window at a start inside the token list is non-empty and one past it is empty. */
  lemma WindowNonEmpty(tokens: seq<Token>, s: int, size: int)
    requires s >= 0 && size > 0
    ensures |Window(tokens, s, size)| > 0 <==> s < |tokens|
  {
  }

  /**
   * How many chunks come out, for a tokenizer whose decoding is empty exactly for the
   * empty window: one per start below both the character length and the token count.
   */
  lemma {:induction false} ChunkCount(tokens: seq<Token>, decode: seq<Token> -> string, size: int, stride: int, charLen: nat, s: int)
    requires size > 0 && stride > 0 && s >= 0
    requires forall w :: |decode(w)| > 0 <==> |w| > 0
    ensures |ChunkSpec(tokens, decode, size, stride, charLen, s)| == StartsBelow(s, stride, Min(charLen, |tokens|))
    decreases charLen - s
  {
    var limit := Min(charLen, |tokens|);
    if s < charLen {
      ChunkCount(tokens, decode, size, stride, charLen, s + stride);
      WindowNonEmpty(tokens, s, size);
      if s < limit {
        StartsStep(s, stride, limit);
      }
    }
  }

  function Min(a: int, b: int): int
  {
    if a <= b then a else b
  }

  /**
   * The windows are cut every `stride` tokens and a window of 380 tokens at size 400 and
   * overlap 50 gives two chunks: the whole list, then its last 30 tokens again.
   */
  lemma ShortBlogGivesTwoChunks(tokens: seq<Token>, decode: seq<Token> -> string, charLen: nat)
    requires |tokens| == 380 && charLen >= 380
    requires forall w :: |decode(w)| > 0 <==> |w| > 0
    ensures |ChunkSpec(tokens, decode, 400, 350, charLen, 0)| == 2
    ensures Window(tokens, 0, 400) == tokens && Window(tokens, 350, 400) == tokens[350..]
  {
    ChunkCount(tokens, decode, 400, 350, charLen, 0);
    assert Min(charLen, 380) == 380;
  }

  /**
   * Consecutive full windows share `size - stride` (the overlap) tokens: the tail of
   * one window after the stride is the head of the next.
   */
  lemma WindowsOverlap(tokens: seq<Token>, s: int, size: int, stride: int)
    requires s >= 0 && 0 < stride <= size && s + stride + size <= |tokens|
    ensures Window(tokens, s, size)[stride..] == Window(tokens, s + stride, size)[..size - stride]
  {
    var w1, w2 := Window(tokens, s, size), Window(tokens, s + stride, size);
    assert w1 == tokens[s..s + size];
    assert w2 == tokens[s + stride..s + stride + size];
    assert w1[stride..] == tokens[s + stride..s + size];
    assert w2[..size - stride] == tokens[s + stride..s + size];
  }

  /**
   * When the text has at least as many characters as tokens and the stride does not
   * exceed the size, every token lies in the window of some start the loop visits.
   */
  lemma EveryTokenCovered(tokens: seq<Token>, size: int, stride: int, charLen: nat, i: int)
    requires 0 < stride <= size && |tokens| <= charLen && 0 <= i < |tokens|
    ensures var s := (i / stride) * stride;
      && 0 <= s <= i < s + size && s < charLen
      && Window(tokens, s, size)[i - s] == tokens[i]
  {
    var q, r := i / stride, i % stride;
    assert i == q * stride + r;
    var s := q * stride;
    assert 0 <= s;
    assert s <= i < s + size;
    WindowAt(tokens, s, size, i);
  }

  /**
   * The loop starts windows only at multiples of the stride below the character length,
   * so the tokens from `((charLen - 1) / stride) * stride + size` on lie in no window it
   * reads. A text with more tokens than characters can reach them, and they never
   * become part of a chunk.
   */
  lemma TailTokensNeverRead(size: int, stride: int, charLen: nat, k: int, i: int)
    requires stride > 0 && k >= 0 && k * stride < charLen
    requires i >= ((charLen - 1) / stride) * stride + size
    ensures !(k * stride <= i < k * stride + size)
  {
    var last := (charLen - 1) / stride;
    assert charLen - 1 == last * stride + (charLen - 1) % stride;
    if k > last {
      MulAtLeast(k - last, stride);
      assert false;
    } else if k < last {
      MulAtLeast(last - k, stride);
      assert last * stride == (last - k) * stride + k * stride;
    }
  }

  lemma WindowAt(tokens: seq<Token>, s: int, size: int, i: int)
    requires 0 <= s <= i < s + size && i < |tokens|
    ensures Window(tokens, s, size)[i - s] == tokens[i]
  {
  }

  // ---------------------------------------------------------------------------
  // create_document_chunks_from_blog
  // ---------------------------------------------------------------------------

  /** The gold-table columns the documents use: row_id, url, the two dates, title, author, tags, content. */
  datatype GoldRow = GoldRow(
    rowId: string,
    url: string,
    datePublished: Option<Timestamp>,
    dateModified: Option<Timestamp>,
    title: string,
    author: string,
    tags: seq<string>,
    content: Option<seq<string>>)

  datatype Metadata = Metadata(
    rowId: string,
    url: string,
    datePublished: Option<Timestamp>,
    dateModified: Option<Timestamp>,
    title: string,
    author: string,
    tags: seq<string>)

  type Vector = seq<real>

  datatype Document = Document(id: string, content: string, denseVector: Vector, metadata: Metadata)

  const ChunkSize: int := 400
  const OverlapSize: int := 50

  /** `" ".join(line for line in None)`: the generator over a NULL content column. */
  const NoContentError: string := "TypeError: 'NoneType' object is not iterable"

  /** `f"{row_id}_{i}"`. */
  function DocId(rowId: string, i: nat): string
  {
    rowId + "_" + NatToString(i)
  }

  function MetadataOf(blog: GoldRow): Metadata
  {
    Metadata(blog.rowId, blog.url, blog.datePublished, blog.dateModified, blog.title, blog.author, blog.tags)
  }

  /** One embedding per chunk, in order; the first failure is raised. */
  function EmbedAll(embed: string -> Result<Vector>, chunks: seq<string>): (r: Result<seq<Vector>>)
    ensures r.Ok? ==> |r.value| == |chunks|
    ensures r.Ok? ==> forall i :: 0 <= i < |chunks| ==> embed(chunks[i]) == Ok(r.value[i])
  {
    if |chunks| == 0 then Ok([])
    else match embed(chunks[0])
      case Err(msg) => Err(msg)
      case Ok(v) =>
        match EmbedAll(embed, chunks[1..])
        case Err(msg) => Err(msg)
        case Ok(vs) => Ok([v] + vs)
  }

  /** The chunks of a blog at the default sizes. */
  function BlogChunks(blog: GoldRow, encode: string -> seq<Token>, decode: seq<Token> -> string): seq<string>
    requires blog.content.Some?
  {
    Chunks(blog.content.value, ChunkSize, OverlapSize, encode, decode)
  }

  /** The documents of a blog: chunk i with embedding i under id `row_id_i`. */
  function DocumentsFor(blog: GoldRow, encode: string -> seq<Token>, decode: seq<Token> -> string, embed: string -> Result<Vector>)
    : (r: Result<seq<Document>>)
    ensures blog.content.None? ==> r == Err(NoContentError)
  {
    if blog.content.None? then Err(NoContentError)
    else
      var chunks := BlogChunks(blog, encode, decode);
      match EmbedAll(embed, chunks)
      case Err(msg) => Err(msg)
      case Ok(vectors) =>
        Ok(seq(|chunks|, i requires 0 <= i < |chunks| => Document(DocId(blog.rowId, i), chunks[i], vectors[i], MetadataOf(blog))))
  }

  /**
   * A blog with content gives one document per chunk, in order: document i has id
   * `row_id_i`, chunk i as content, that chunk's embedding and the blog's metadata.
   * It fails only when some chunk's embedding fails.
   */
  lemma DocumentsForShape(blog: GoldRow, encode: string -> seq<Token>, decode: seq<Token> -> string, embed: string -> Result<Vector>)
    requires blog.content.Some?
    ensures var r := DocumentsFor(blog, encode, decode, embed);
      var chunks := BlogChunks(blog, encode, decode);
      && (r.Err? <==> exists i :: 0 <= i < |chunks| && embed(chunks[i]).Err?)
      && (r.Ok? ==> |r.value| == |chunks| && forall i :: 0 <= i < |r.value| ==>
        && r.value[i].id == DocId(blog.rowId, i)
        && r.value[i].content == chunks[i]
        && embed(chunks[i]) == Ok(r.value[i].denseVector)
        && r.value[i].metadata == MetadataOf(blog))
  {
    EmbedAllFails(embed, BlogChunks(blog, encode, decode));
  }

  /** Embedding fails exactly when some chunk's embedding fails. */
  lemma {:induction false} EmbedAllFails(embed: string -> Result<Vector>, chunks: seq<string>)
    ensures EmbedAll(embed, chunks).Err? <==> exists i :: 0 <= i < |chunks| && embed(chunks[i]).Err?
  {
    if |chunks| > 0 {
      EmbedAllFails(embed, chunks[1..]);
      if embed(chunks[0]).Ok? && EmbedAll(embed, chunks[1..]).Ok? {
        forall i | 0 <= i < |chunks|
          ensures embed(chunks[i]).Ok?
        {
          if i > 0 {
            assert chunks[i] == chunks[1..][i - 1];
          }
        }
      } else if embed(chunks[0]).Ok? {
        var k :| 0 <= k < |chunks[1..]| && embed(chunks[1..][k]).Err?;
        assert embed(chunks[k + 1]).Err?;
      } else {
        assert embed(chunks[0]).Err?;
      }
    }
  }

  /** `create_document_chunks_from_blog` with its default chunk and overlap sizes. */
  method CreateDocumentChunks(blog: GoldRow, encode: string -> seq<Token>, decode: seq<Token> -> string, embed: string -> Result<Vector>)
    returns (r: Result<seq<Document>>)
    ensures r == DocumentsFor(blog, encode, decode, embed)
  {
    if blog.content.None? {
      return Err(NoContentError);
    }
    var chunks := ChunkBlogs(blog.content.value, ChunkSize, OverlapSize, encode, decode);
    var embeddings := EmbedAll(embed, chunks);
    if embeddings.Err? {
      return Err(embeddings.msg);
    }
    r := Ok(seq(|chunks|, i requires 0 <= i < |chunks| => Document(DocId(blog.rowId, i), chunks[i], embeddings.value[i], MetadataOf(blog))));
  }

  /** Document ids of one blog are distinct. */
  lemma DocIdsDistinct(rowId: string, i: nat, j: nat)
    requires i != j
    ensures DocId(rowId, i) != DocId(rowId, j)
  {
    if DocId(rowId, i) == DocId(rowId, j) {
      var a, b := NatToString(i), NatToString(j);
      assert (rowId + "_" + a)[|rowId| + 1..] == a;
      assert (rowId + "_" + b)[|rowId| + 1..] == b;
      NatToStringInjective(i, j);
    }
  }

  /**
   * Row ids without an underscore (such as UUIDs) give documents of different blogs
   * different ids: an id determines its row id and chunk number.
   */
  lemma DocIdDeterminesRowAndChunk(a: string, i: nat, b: string, j: nat)
    requires '_' !in a && '_' !in b
    requires DocId(a, i) == DocId(b, j)
    ensures a == b && i == j
  {
    var x, y := DocId(a, i), DocId(b, j);
    if |a| < |b| {
      SeparatorAt(a, i);
      assert false;
    } else if |b| < |a| {
      SeparatorAt(b, j);
      assert false;
    }
    assert a == x[..|a|] && b == y[..|b|];
    DocIdsDistinctTail(a, i, j);
  }

  lemma SeparatorAt(rowId: string, i: nat)
    ensures DocId(rowId, i)[|rowId|] == '_'
  {
  }

  lemma DocIdsDistinctTail(a: string, i: nat, j: nat)
    requires DocId(a, i) == DocId(a, j)
    ensures i == j
  {
    if i != j {
      DocIdsDistinct(a, i, j);
    }
  }
}
