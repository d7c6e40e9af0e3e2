/**
 * The retrieval store: a flat vector index with a parallel metadata list,
 * persisted as two files, filled batch by batch from a book's chunks and
 * queried by mapping the search's positions back to passage text.
 *
 * The sentence embedder, the text splitter and the nearest-neighbour search
 * are parameters of the operations (`embed`, `split`, `search`): they are
 * library code whose internals the store does not depend on, beyond `embed`
 * returning one vector per input string.
 */
module RagStore {
  import opened Wrappers
  import opened Batching

  /** An embedding vector; its components are never inspected here. */
  type Vec = seq<real>

  /** One metadata entry, the pair `(book_name, chunk)`. */
  datatype Passage = Passage(book: string, text: string)

  /** The in-memory pair `(index, metadata)`. */
  datatype Store = Store(index: seq<Vec>, metadata: seq<Passage>)

  /** The store's invariant: metadata entry `i` belongs to vector `i`. */
  predicate Aligned(s: Store) {
    |s.index| == |s.metadata|
  }

  /** The two persisted files, each possibly absent. */
  datatype Disk = Disk(indexFile: Option<seq<Vec>>, metaFile: Option<seq<Passage>>)

  const EmptyStore := Store([], [])

  /** The sentinel `query_store` returns on an empty index. */
  const EmptySentinel := "Knowledge base is empty. Please upload a book."

  /** The `top_k` the chat handler asks for. */
  const DefaultTopK := 5

  /** The embedder's only promise: one vector per input string, in order. */
  ghost predicate OneVectorPerInput(embed: seq<string> -> seq<Vec>) {
    forall batch :: |embed(batch)| == |batch|
  }

  // ---------------------------------------------------------------------
  // Persistence
  // ---------------------------------------------------------------------

  /**
   * `load_index`: the stored pair when both files exist; otherwise, even if
   * exactly one of them exists, a fresh empty index with empty metadata.
   */
  function LoadIndex(disk: Disk): (s: Store)
    ensures disk.indexFile.Some? && disk.metaFile.Some? ==>
              s.index == disk.indexFile.value && s.metadata == disk.metaFile.value
    ensures disk.indexFile.None? || disk.metaFile.None? ==> s == EmptyStore
  {
    match (disk.indexFile, disk.metaFile)
    case (Some(index), Some(metadata)) => Store(index, metadata)
    case _ => EmptyStore
  }

  /** `save_index`: both files are (over)written from the store. */
  function SaveIndex(s: Store): (disk: Disk)
    ensures disk.indexFile == Some(s.index) && disk.metaFile == Some(s.metadata)
  {
    Disk(Some(s.index), Some(s.metadata))
  }

  /** What was saved is what is loaded. */
  lemma SaveLoadRoundTrip(s: Store)
    ensures LoadIndex(SaveIndex(s)) == s
  {
  }

  /** A disk holding only one of the two files loads as a fresh store. */
  lemma LoadHalfSnapshotIsFresh(disk: Disk)
    requires disk.indexFile.Some? != disk.metaFile.Some?
    ensures LoadIndex(disk) == EmptyStore
  {
  }

  // ---------------------------------------------------------------------
  // Ingestion
  // ---------------------------------------------------------------------

  /** `[(book_name, c) for c in chunks]`. */
  function Tag(book: string, chunks: seq<string>): (r: seq<Passage>)
    ensures |r| == |chunks|
    ensures forall j :: 0 <= j < |r| ==> r[j].book == book && r[j].text == chunks[j]
  {
    seq(|chunks|, j requires 0 <= j < |chunks| => Passage(book, chunks[j]))
  }

  lemma TagAppend(book: string, a: seq<string>, b: seq<string>)
    ensures Tag(book, a + b) == Tag(book, a) + Tag(book, b)
  {
  }

  /** The vectors the embedder produces for a list of batches, in order. */
  function EmbedBatches(embed: seq<string> -> seq<Vec>, bs: seq<seq<string>>): (vs: seq<Vec>)
    ensures bs == [] ==> vs == []
    ensures bs != [] ==> embed(bs[0]) <= vs
  {
    if bs == [] then [] else embed(bs[0]) + EmbedBatches(embed, bs[1..])
  }

  lemma {:induction false} EmbedBatchesAppend(embed: seq<string> -> seq<Vec>, bs: seq<seq<string>>, b: seq<string>)
    ensures EmbedBatches(embed, bs + [b]) == EmbedBatches(embed, bs) + embed(b)
    decreases |bs|
  {
    if bs == [] {
      assert [b][1..] == [];
    } else {
      assert (bs + [b])[1..] == bs[1..] + [b];
      EmbedBatchesAppend(embed, bs[1..], b);
    }
  }

  /** Embedding every batch yields exactly one vector per chunk. */
  lemma {:induction false} EmbedBatchesLength(embed: seq<string> -> seq<Vec>, bs: seq<seq<string>>)
    requires OneVectorPerInput(embed)
    ensures |EmbedBatches(embed, bs)| == |Flatten(bs)|
    decreases |bs|
  {
    if bs != [] {
      EmbedBatchesLength(embed, bs[1..]);
    }
  }

  /**
   * One iteration of the batch loop: `index.add(embeddings)` and
   * `metadata.extend(...)` for the same batch. Both grow by `|batch|` and
   * keep every earlier entry, so alignment is preserved.
   */
  function AddBatch(s: Store, book: string, batch: seq<string>, embed: seq<string> -> seq<Vec>): (r: Store)
    requires OneVectorPerInput(embed)
    ensures |r.index| == |s.index| + |batch|
    ensures |r.metadata| == |s.metadata| + |batch|
    ensures s.index <= r.index && s.metadata <= r.metadata
    ensures Aligned(s) <==> Aligned(r)
  {
    Store(s.index + embed(batch), s.metadata + Tag(book, batch))
  }

  /**
   * The batch loop's invariant at loop index `i`: `batches` are the batches
   * visited so far, and `store` is the loaded store extended, in lock-step,
   * by their vectors and by their tagged chunks.
   */
  ghost predicate IngestedUpTo(loaded: Store, book: string, chunks: seq<string>,
                               embed: seq<string> -> seq<Vec>, i: nat,
                               batches: seq<seq<string>>, store: Store) {
    && batches + BatchesFrom(chunks, i) == Batches(chunks)
    && store.index == loaded.index + EmbedBatches(embed, batches)
    && store.metadata == loaded.metadata + Tag(book, chunks[..Min(i, |chunks|)])
  }

  lemma IngestStep(loaded: Store, book: string, chunks: seq<string>,
                   embed: seq<string> -> seq<Vec>, i: nat,
                   batches: seq<seq<string>>, store: Store)
    requires OneVectorPerInput(embed)
    requires i < |chunks|
    requires IngestedUpTo(loaded, book, chunks, embed, i, batches, store)
    ensures var batch := chunks[i..Min(i + BatchSize, |chunks|)];
            IngestedUpTo(loaded, book, chunks, embed, i + BatchSize, batches + [batch],
                         AddBatch(store, book, batch, embed))
  {
    var hi := Min(i + BatchSize, |chunks|);
    var batch := chunks[i..hi];
    var next := AddBatch(store, book, batch, embed);
    assert next == Store(store.index + embed(batch), store.metadata + Tag(book, batch));
    BatchesStep(chunks, i, batches);
    IndexStep(loaded.index, embed, batches, batch, store.index);
    MetadataStep(loaded.metadata, book, chunks, i, store.metadata);
  }

  /** The index conjunct of the loop invariant survives one batch. */
  lemma IndexStep(loaded: seq<Vec>, embed: seq<string> -> seq<Vec>, batches: seq<seq<string>>,
                  batch: seq<string>, index: seq<Vec>)
    requires index == loaded + EmbedBatches(embed, batches)
    ensures index + embed(batch) == loaded + EmbedBatches(embed, batches + [batch])
  {
    EmbedBatchesAppend(embed, batches, batch);
  }

  /** The metadata conjunct of the loop invariant survives one batch. */
  lemma MetadataStep(loaded: seq<Passage>, book: string, chunks: seq<string>, i: nat, metadata: seq<Passage>)
    requires i < |chunks|
    requires metadata == loaded + Tag(book, chunks[..Min(i, |chunks|)])
    ensures metadata + Tag(book, chunks[i..Min(i + BatchSize, |chunks|)])
         == loaded + Tag(book, chunks[..Min(i + BatchSize, |chunks|)])
  {
    var hi := Min(i + BatchSize, |chunks|);
    var before := Tag(book, chunks[..Min(i, |chunks|)]);
    var batch := Tag(book, chunks[i..hi]);
    var after := Tag(book, chunks[..hi]);
    TagStep(book, chunks, i);
    AppendRegroup(loaded, before, batch, after);
  }

  /** Appending `a` then `b` to `l` is appending their concatenation `c`. */
  lemma AppendRegroup<T>(l: seq<T>, a: seq<T>, b: seq<T>, c: seq<T>)
    requires c == a + b
    ensures (l + a) + b == l + c
  {
  }

  /** The batch list advances by exactly the batch just visited. */
  lemma BatchesStep<T>(xs: seq<T>, i: nat, done: seq<seq<T>>)
    requires i < |xs|
    ensures done + BatchesFrom(xs, i) == (done + [xs[i..Min(i + BatchSize, |xs|)]]) + BatchesFrom(xs, i + BatchSize)
  {
    assert BatchesFrom(xs, i) == [xs[i..Min(i + BatchSize, |xs|)]] + BatchesFrom(xs, i + BatchSize);
  }

  /** The tagged prefix advances by exactly the tagged batch. */
  lemma TagStep(book: string, chunks: seq<string>, i: nat)
    requires i < |chunks|
    ensures Tag(book, chunks[..Min(i + BatchSize, |chunks|)])
         == Tag(book, chunks[..Min(i, |chunks|)]) + Tag(book, chunks[i..Min(i + BatchSize, |chunks|)])
  {
    var hi := Min(i + BatchSize, |chunks|);
    assert chunks[..Min(i, |chunks|)] == chunks[..i];
    TagAppend(book, chunks[..i], chunks[i..hi]);
    assert chunks[..i] + chunks[i..hi] == chunks[..hi];
  }

  lemma IngestDone(loaded: Store, book: string, chunks: seq<string>,
                   embed: seq<string> -> seq<Vec>, i: nat,
                   batches: seq<seq<string>>, store: Store)
    requires OneVectorPerInput(embed)
    requires i >= |chunks|
    requires IngestedUpTo(loaded, book, chunks, embed, i, batches, store)
    ensures batches == Batches(chunks)
    ensures store.index == loaded.index + EmbedBatches(embed, batches)
    ensures store.metadata == loaded.metadata + Tag(book, chunks)
    ensures |store.index| == |loaded.index| + |chunks|
  {
    assert chunks[..|chunks|] == chunks;
    BatchesPartition(chunks);
    EmbedBatchesLength(embed, batches);
  }

  /**
   * `add_to_store`. `saves` lists the snapshots written (in order) and
   * `batches` the arguments passed to the embedder (in order); `ok` is the
   * returned boolean and `disk'` the files afterwards.
   */
  method AddToStore(disk: Disk, rawText: string, book: string,
                    split: string -> seq<string>, embed: seq<string> -> seq<Vec>)
    returns (ok: bool, disk': Disk, saves: seq<Store>, batches: seq<seq<string>>)
    requires OneVectorPerInput(embed)
    ensures ok <==> |split(rawText)| > 0
    ensures !ok ==> disk' == disk && saves == [] && batches == []
    ensures ok ==> |saves| == 1 && disk' == SaveIndex(saves[0])
    ensures ok ==> batches == Batches(split(rawText))
    ensures ok ==> saves[0].index == LoadIndex(disk).index + EmbedBatches(embed, batches)
    ensures ok ==> saves[0].metadata == LoadIndex(disk).metadata + Tag(book, split(rawText))
    ensures ok ==> |saves[0].index| == |LoadIndex(disk).index| + |split(rawText)|
    ensures Aligned(LoadIndex(disk)) ==> Aligned(LoadIndex(disk'))
  {
    var loaded := LoadIndex(disk);
    var chunks := split(rawText);
    if |chunks| == 0 {
      return false, disk, [], [];
    }
    var store := loaded;
    var i := 0;
    batches := [];
    while i < |chunks|
      invariant IngestedUpTo(loaded, book, chunks, embed, i, batches, store)
      decreases |chunks| - i
    {
      var hi := Min(i + BatchSize, |chunks|);
      var batch := chunks[i..hi];
      IngestStep(loaded, book, chunks, embed, i, batches, store);
      store := AddBatch(store, book, batch, embed);
      batches := batches + [batch];
      i := i + BatchSize;
    }
    IngestDone(loaded, book, chunks, embed, i, batches, store);
    saves := [store];
    disk' := SaveIndex(store);
    ok := true;
  }

  // ---------------------------------------------------------------------
  // Query
  // ---------------------------------------------------------------------

  /** Why `query_store` can raise: a position Python cannot index with. */
  datatype QueryError = IndexError(position: int)

  /** Python's `xs[i]`, which counts from the end for negative `i`. */
  function PyIndex<T>(xs: seq<T>, i: int): (r: Option<T>)
    ensures r.Some? <==> -|xs| <= i < |xs|
    ensures 0 <= i < |xs| ==> r == Some(xs[i])
    ensures -|xs| <= i < 0 ==> r == Some(xs[|xs| + i])
  {
    if 0 <= i < |xs| then Some(xs[i])
    else if -|xs| <= i < 0 then Some(xs[|xs| + i])
    else None
  }

  /**
   * The result loop of `query_store` as written: every position passing
   * `idx < len(metadata)` is looked up with Python indexing, so a negative
   * position (faiss pads a short result with -1) reads from the end of the
   * list, and one below `-len(metadata)` raises.
   */
  function MapPositionsAsWritten(meta: seq<Passage>, positions: seq<int>): (r: Result<seq<string>, QueryError>)
    ensures r.Ok? ==> |r.value| <= |positions|
    ensures r.Ok? <==> forall j :: 0 <= j < |positions| && positions[j] < |meta| ==> -|meta| <= positions[j]
    ensures r.Err? ==> r.error.position < -|meta| && r.error.position in positions
  {
    if positions == [] then Ok([])
    else
      var idx := positions[0];
      var rest := MapPositionsAsWritten(meta, positions[1..]);
      if idx >= |meta| then rest
      else if idx < -|meta| then Err(IndexError(idx))
      else if rest.Err? then rest
      else Ok([PyIndex(meta, idx).value.text] + rest.value)
  }

  /**
   * The result loop of `query_store` as intended: positions outside
   * `0 <= idx < len(metadata)` are skipped, the others mapped to their
   * passage text in search order.
   */
  function MapPositions(meta: seq<Passage>, positions: seq<int>): (r: seq<string>)
    ensures |r| <= |positions|
    ensures forall k :: 0 <= k < |r| ==> exists j :: 0 <= j < |meta| && meta[j].text == r[k]
    ensures (forall j :: 0 <= j < |positions| ==> 0 <= positions[j] < |meta|) ==>
              |r| == |positions| && forall j :: 0 <= j < |positions| ==> r[j] == meta[positions[j]].text
  {
    if positions == [] then []
    else
      var idx := positions[0];
      (if 0 <= idx < |meta| then [meta[idx].text] else []) + MapPositions(meta, positions[1..])
  }

  /** Results come out in the order the search returned their positions. */
  lemma {:induction false} MapPositionsAppend(meta: seq<Passage>, a: seq<int>, b: seq<int>)
    ensures MapPositions(meta, a + b) == MapPositions(meta, a) + MapPositions(meta, b)
    decreases |a|
  {
    if a == [] {
      assert a + b == b;
    } else {
      var h := if 0 <= a[0] < |meta| then [meta[a[0]].text] else [];
      assert (a + b)[0] == a[0];
      assert (a + b)[1..] == a[1..] + b;
      MapPositionsAppend(meta, a[1..], b);
      MapPositionsStep(meta, a + b);
      MapPositionsStep(meta, a);
      AppendRegroup(h, MapPositions(meta, a[1..]), MapPositions(meta, b), MapPositions(meta, a[1..] + b));
    }
  }

  /** Without negative positions the code as written does what was intended. */
  lemma {:induction false} AsWrittenAgreesOnNonNegative(meta: seq<Passage>, positions: seq<int>)
    requires forall j :: 0 <= j < |positions| ==> 0 <= positions[j]
    ensures MapPositionsAsWritten(meta, positions) == Ok(MapPositions(meta, positions))
    decreases |positions|
  {
    if positions != [] {
      AsWrittenAgreesOnNonNegative(meta, positions[1..]);
      var idx := positions[0];
      var rest := MapPositions(meta, positions[1..]);
      if idx < |meta| {
        assert PyIndex(meta, idx) == Some(meta[idx]);
        assert MapPositions(meta, positions) == [meta[idx].text] + rest;
      } else {
        assert MapPositions(meta, positions) == [] + rest;
        assert [] + rest == rest;
      }
    }
  }

  /**
   * The discrepancy: one stored passage, a top-2 search padded with -1.
   * The code as written returns the passage twice; the intended result
   * holds it once.
   */
  lemma PaddedSearchDuplicatesLastPassage()
    ensures MapPositionsAsWritten([Passage("b", "x")], [0, -1]) == Ok(["x", "x"])
    ensures MapPositions([Passage("b", "x")], [0, -1]) == ["x"]
  {
    var meta := [Passage("b", "x")];
    var pad: seq<int> := [-1];
    var none := MapPositionsAsWritten(meta, pad[1..]);
    assert pad[1..] == [] && none == Ok([]);
    assert -|meta| <= pad[0] < |meta|;
    var one := [PyIndex(meta, pad[0]).value.text] + none.value;
    assert MapPositionsAsWritten(meta, pad) == Ok(one);
    assert one == ["x"];
    var both: seq<int> := [0, -1];
    assert both[1..] == pad;
    assert -|meta| <= both[0] < |meta|;
    var two := [PyIndex(meta, both[0]).value.text] + one;
    assert MapPositionsAsWritten(meta, both) == Ok(two);
    assert two == ["x", "x"];
  }

  /** The positions `MapPositions` keeps: those in `0..len(metadata)-1`, in order. */
  function ValidPositions(meta: seq<Passage>, positions: seq<int>): (vs: seq<int>)
    ensures |vs| <= |positions|
    ensures forall j :: 0 <= j < |vs| ==> 0 <= vs[j] < |meta|
    ensures forall p :: p in vs <==> p in positions && 0 <= p < |meta|
  {
    if positions == [] then []
    else
      var idx := positions[0];
      (if 0 <= idx < |meta| then [idx] else []) + ValidPositions(meta, positions[1..])
  }

  /** Padding positions alone select nothing. */
  lemma {:induction false} NegativePositionsSelectNothing(meta: seq<Passage>, positions: seq<int>)
    requires forall j :: 0 <= j < |positions| ==> positions[j] < 0
    ensures ValidPositions(meta, positions) == []
    decreases |positions|
  {
    if positions != [] {
      NegativePositionsSelectNothing(meta, positions[1..]);
    }
  }

  /** The texts of the passages at valid positions `vs`, in order. */
  function TextsAt(meta: seq<Passage>, vs: seq<int>): (r: seq<string>)
    requires forall j :: 0 <= j < |vs| ==> 0 <= vs[j] < |meta|
    ensures |r| == |vs|
  {
    seq(|vs|, j requires 0 <= j < |vs| => meta[vs[j]].text)
  }

  /**
   * The intended loop filters, then maps: invalid positions contribute
   * nothing and every valid one contributes `metadata[idx][1]`, in order.
   */
  lemma {:induction false} MapPositionsFiltersThenMaps(meta: seq<Passage>, positions: seq<int>)
    ensures MapPositions(meta, positions) == TextsAt(meta, ValidPositions(meta, positions))
    decreases |positions|
  {
    if positions != [] {
      MapPositionsFiltersThenMaps(meta, positions[1..]);
      var idx := positions[0];
      var head := if 0 <= idx < |meta| then [idx] else [];
      var rest := ValidPositions(meta, positions[1..]);
      MapPositionsStep(meta, positions);
      ValidPositionsStep(meta, positions);
      TextsAtAppend(meta, head, rest);
      assert TextsAt(meta, head) == if 0 <= idx < |meta| then [meta[idx].text] else [];
    }
  }

  /** One unfolding of `MapPositions`. */
  lemma MapPositionsStep(meta: seq<Passage>, positions: seq<int>)
    requires positions != []
    ensures MapPositions(meta, positions)
         == (if 0 <= positions[0] < |meta| then [meta[positions[0]].text] else []) + MapPositions(meta, positions[1..])
  {
  }

  /** One unfolding of `ValidPositions`. */
  lemma ValidPositionsStep(meta: seq<Passage>, positions: seq<int>)
    requires positions != []
    ensures ValidPositions(meta, positions)
         == (if 0 <= positions[0] < |meta| then [positions[0]] else []) + ValidPositions(meta, positions[1..])
  {
  }

  /** `TextsAt` distributes over concatenation. */
  lemma TextsAtAppend(meta: seq<Passage>, a: seq<int>, b: seq<int>)
    requires forall j :: 0 <= j < |a| ==> 0 <= a[j] < |meta|
    requires forall j :: 0 <= j < |b| ==> 0 <= b[j] < |meta|
    ensures TextsAt(meta, a + b) == TextsAt(meta, a) + TextsAt(meta, b)
  {
    var l := TextsAt(meta, a + b);
    var r := TextsAt(meta, a) + TextsAt(meta, b);
    assert |l| == |r|;
    forall k | 0 <= k < |l|
      ensures l[k] == r[k]
    {
      if k < |a| {
        assert (a + b)[k] == a[k];
      } else {
        assert (a + b)[k] == b[k - |a|];
      }
    }
  }

  /** Python's reading of each position: a negative one counts from the end. */
  function WrapNegative(n: nat, positions: seq<int>): (ws: seq<int>)
    ensures |ws| == |positions|
  {
    seq(|positions|, j requires 0 <= j < |positions| => if positions[j] < 0 then n + positions[j] else positions[j])
  }

  /**
   * When nothing raises, the code as written is the intended loop applied
   * to the positions as Python reads them: `-1` is the last passage, `-2`
   * the one before, and so on.
   */
  lemma {:induction false} AsWrittenWrapsNegative(meta: seq<Passage>, positions: seq<int>)
    requires forall j :: 0 <= j < |positions| ==> -|meta| <= positions[j]
    ensures MapPositionsAsWritten(meta, positions) == Ok(MapPositions(meta, WrapNegative(|meta|, positions)))
    decreases |positions|
  {
    if positions != [] {
      var ws := WrapNegative(|meta|, positions);
      WrapNegativeTail(|meta|, positions);
      AsWrittenWrapsNegative(meta, positions[1..]);
      MapPositionsStep(meta, ws);
      var rest := MapPositions(meta, ws[1..]);
      var idx := positions[0];
      if idx < |meta| {
        assert 0 <= ws[0] < |meta|;
        assert PyIndex(meta, idx) == Some(meta[ws[0]]);
      } else {
        assert [] + rest == rest;
      }
    }
  }

  /** Wrapping commutes with dropping the first position. */
  lemma WrapNegativeTail(n: nat, positions: seq<int>)
    requires positions != []
    ensures WrapNegative(n, positions)[0] == if positions[0] < 0 then n + positions[0] else positions[0]
    ensures WrapNegative(n, positions)[1..] == WrapNegative(n, positions[1..])
  {
  }

  /** `m` copies of `x`; faiss pads a short answer with `Repeat(m, -1)`. */
  function Repeat<T>(m: nat, x: T): (xs: seq<T>)
    ensures |xs| == m
    ensures forall j :: 0 <= j < m ==> xs[j] == x
  {
    seq(m, _ => x)
  }

  /**
   * faiss pads a result of fewer than `top_k` neighbours with `-1`. After
   * the genuine positions, the code as written then returns the last
   * stored passage once per padding slot.
   */
  lemma PaddingRepeatsLastPassage(meta: seq<Passage>, positions: seq<int>, m: nat)
    requires |meta| > 0
    requires forall j :: 0 <= j < |positions| ==> 0 <= positions[j] < |meta|
    ensures MapPositionsAsWritten(meta, positions + Repeat<int>(m, -1))
         == Ok(MapPositions(meta, positions) + Repeat(m, meta[|meta| - 1].text))
  {
    WrapPadding(|meta|, positions, m);
    AsWrittenOnWrapped(meta, positions + Repeat<int>(m, -1), positions + Repeat<int>(m, |meta| - 1));
    WrappedPaddingRepeatsLast(meta, positions, m);
  }

  /** `AsWrittenWrapsNegative` with the wrapped positions named. */
  lemma AsWrittenOnWrapped(meta: seq<Passage>, positions: seq<int>, wrapped: seq<int>)
    requires forall j :: 0 <= j < |positions| ==> -|meta| <= positions[j]
    requires WrapNegative(|meta|, positions) == wrapped
    ensures MapPositionsAsWritten(meta, positions) == Ok(MapPositions(meta, wrapped))
  {
    AsWrittenWrapsNegative(meta, positions);
  }

  /** The last position, repeated after valid ones, repeats the last passage. */
  lemma WrappedPaddingRepeatsLast(meta: seq<Passage>, positions: seq<int>, m: nat)
    requires |meta| > 0
    ensures MapPositions(meta, positions + Repeat<int>(m, |meta| - 1))
         == MapPositions(meta, positions) + Repeat(m, meta[|meta| - 1].text)
  {
    MapPositionsAppend(meta, positions, Repeat<int>(m, |meta| - 1));
    MapPositionsRepeated(meta, |meta| - 1, m);
  }

  /** A position repeated `m` times maps to its passage's text `m` times. */
  lemma {:induction false} MapPositionsRepeated(meta: seq<Passage>, k: int, m: nat)
    requires 0 <= k < |meta|
    ensures MapPositions(meta, Repeat<int>(m, k)) == Repeat(m, meta[k].text)
  {
    if m > 0 {
      var ks := Repeat<int>(m, k);
      assert ks[1..] == Repeat<int>(m - 1, k);
      MapPositionsRepeated(meta, k, m - 1);
      MapPositionsStep(meta, ks);
      assert Repeat(m, meta[k].text) == [meta[k].text] + Repeat(m - 1, meta[k].text);
    }
  }

  /** Python reads each padding `-1` as the last position. */
  lemma WrapPadding(n: nat, positions: seq<int>, m: nat)
    requires n > 0
    requires forall j :: 0 <= j < |positions| ==> 0 <= positions[j]
    ensures forall j :: 0 <= j < |positions + Repeat<int>(m, -1)| ==> -(n as int) <= (positions + Repeat<int>(m, -1))[j]
    ensures WrapNegative(n, positions + Repeat<int>(m, -1)) == positions + Repeat<int>(m, n - 1)
  {
    var padded := positions + Repeat<int>(m, -1);
    var l := WrapNegative(n, padded);
    var r := positions + Repeat<int>(m, n - 1);
    assert |l| == |r|;
    forall k | 0 <= k < |l|
      ensures -(n as int) <= padded[k] && l[k] == r[k]
    {
      if k < |positions| {
        assert padded[k] == positions[k];
      } else {
        assert padded[k] == -1;
      }
    }
  }

  /**
   * `query_store`: the fixed sentinel on an empty index, whatever `topK`;
   * otherwise the passages at the positions `search` returns for the
   * embedded query, in that order.
   */
  function QueryStore(disk: Disk, query: string, topK: int,
                      embed: seq<string> -> seq<Vec>,
                      search: (seq<Vec>, Vec, int) -> seq<int>): (r: seq<string>)
    requires OneVectorPerInput(embed)
    ensures |LoadIndex(disk).index| == 0 ==> r == [EmptySentinel]
    ensures |LoadIndex(disk).index| > 0 ==>
              r == MapPositions(LoadIndex(disk).metadata, search(LoadIndex(disk).index, embed([query])[0], topK))
    ensures |LoadIndex(disk).index| > 0 ==>
              |r| <= |search(LoadIndex(disk).index, embed([query])[0], topK)|
    ensures |LoadIndex(disk).index| > 0 ==>
              forall k :: 0 <= k < |r| ==> exists j :: 0 <= j < |LoadIndex(disk).metadata| && LoadIndex(disk).metadata[j].text == r[k]
  {
    var s := LoadIndex(disk);
    if |s.index| == 0 then [EmptySentinel]
    else
      var q := embed([query]);
      MapPositions(s.metadata, search(s.index, q[0], topK))
  }

  /**
   * `query_store` as written: the same as `QueryStore` except that the
   * result loop is `MapPositionsAsWritten`, so it raises on a position below
   * `-len(metadata)` and reads negative positions from the end.
   */
  function QueryStoreAsWritten(disk: Disk, query: string, topK: int,
                               embed: seq<string> -> seq<Vec>,
                               search: (seq<Vec>, Vec, int) -> seq<int>): (r: Result<seq<string>, QueryError>)
    requires OneVectorPerInput(embed)
    ensures |LoadIndex(disk).index| == 0 ==> r == Ok([EmptySentinel])
    ensures |LoadIndex(disk).index| > 0 ==>
              r == MapPositionsAsWritten(LoadIndex(disk).metadata, search(LoadIndex(disk).index, embed([query])[0], topK))
  {
    var s := LoadIndex(disk);
    if |s.index| == 0 then Ok([EmptySentinel])
    else
      MapPositionsAsWritten(s.metadata, search(s.index, embed([query])[0], topK))
  }

  /** With no negative position from the search, both versions of the query agree. */
  lemma QueryAsWrittenAgreesOnNonNegative(disk: Disk, query: string, topK: int,
                                          embed: seq<string> -> seq<Vec>,
                                          search: (seq<Vec>, Vec, int) -> seq<int>)
    requires OneVectorPerInput(embed)
    requires forall p :: p in search(LoadIndex(disk).index, embed([query])[0], topK) ==> p >= 0
    ensures QueryStoreAsWritten(disk, query, topK, embed, search) == Ok(QueryStore(disk, query, topK, embed, search))
  {
    var s := LoadIndex(disk);
    var positions := search(s.index, embed([query])[0], topK);
    assert forall j :: 0 <= j < |positions| ==> positions[j] in positions;
    AsWrittenAgreesOnNonNegative(s.metadata, positions);
  }

  /**
   * One stored passage and the chat handler's `top_k=5`: faiss answers
   * `[0, -1, -1, -1, -1]`, and the code as written returns the passage five
   * times where the intended loop returns it once.
   */
  lemma SinglePassageQueryRepeatsIt(v: Vec, p: Passage, query: string,
                                    embed: seq<string> -> seq<Vec>,
                                    search: (seq<Vec>, Vec, int) -> seq<int>)
    requires OneVectorPerInput(embed)
    requires forall q :: search([v], q, DefaultTopK) == [0, -1, -1, -1, -1]
    ensures QueryStoreAsWritten(Disk(Some([v]), Some([p])), query, DefaultTopK, embed, search)
         == Ok([p.text, p.text, p.text, p.text, p.text])
    ensures QueryStore(Disk(Some([v]), Some([p])), query, DefaultTopK, embed, search) == [p.text]
  {
    var positions := search([v], embed([query])[0], DefaultTopK);
    assert positions == [0, -1, -1, -1, -1];
    OnePassagePaddedAsWritten(p);
    OnePassagePaddedIntended(p);
  }

  /** The result loop as written on one passage and a padded top-5 answer. */
  lemma OnePassagePaddedAsWritten(p: Passage)
    ensures MapPositionsAsWritten([p], [0, -1, -1, -1, -1]) == Ok([p.text, p.text, p.text, p.text, p.text])
  {
    assert [0, -1, -1, -1, -1] == [0] + Repeat<int>(4, -1);
    PaddingRepeatsLastPassage([p], [0], 4);
    assert MapPositions([p], [0]) == [p.text];
    assert [p.text] + Repeat(4, [p][0].text) == [p.text, p.text, p.text, p.text, p.text];
  }

  /** The intended result loop on the same answer keeps the passage once. */
  lemma OnePassagePaddedIntended(p: Passage)
    ensures MapPositions([p], [0, -1, -1, -1, -1]) == [p.text]
  {
    var positions: seq<int> := [0, -1, -1, -1, -1];
    MapPositionsStep([p], positions);
    NegativePositionsMapToNothing([p], positions[1..]);
  }

  /** The intended loop drops every negative position: it filters first, and the filter keeps none. */
  lemma NegativePositionsMapToNothing(meta: seq<Passage>, positions: seq<int>)
    requires forall j :: 0 <= j < |positions| ==> positions[j] < 0
    ensures MapPositions(meta, positions) == []
  {
    NegativePositionsSelectNothing(meta, positions);
    MapPositionsFiltersThenMaps(meta, positions);
  }
}
