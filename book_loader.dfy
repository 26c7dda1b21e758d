// The loader: the price gate on one record, the per-chunk filter, the chunking of
// the raw data and the in-order concatenation of the chunk results.

module BookLoader {
  import opened Wrappers
  import opened Seqs
  import opened BookItems

  /** The accepted price range, in cents: $0.50 to $999.49 inclusive. */
  const MIN_PRICE := 50
  const MAX_PRICE := 99949
  const CHUNK_SIZE := 1000

  // ================================================================ one record

  /**
   * What `from_datapoint` yields for one record: nothing when the price does not
   * convert or is out of range, otherwise the built item if it is included.
   */
  function Accept(tok: Tokenizer, dp: Record): Option<Item>
  {
    match dp.price
    case Unconvertible => None
    case Numeric(price) =>
      if MIN_PRICE <= price <= MAX_PRICE then
        var item := Build(tok, dp, price);
        if item.included then Some(item) else None
      else None
  }

  /**
   * A record is accepted exactly when its price converts, lies in the range and the
   * item built from it passes both gates; what is accepted is that item.
   */
  lemma AcceptSpec(tok: Tokenizer, dp: Record)
    ensures Accept(tok, dp).Some? <==>
      dp.price.Numeric? && MIN_PRICE <= dp.price.cents <= MAX_PRICE && Build(tok, dp, dp.price.cents).included
    ensures Accept(tok, dp).Some? ==>
      var item := Accept(tok, dp).value;
      item == Build(tok, dp, dp.price.cents) && item.included && item.prompt.Some? &&
      MIN_PRICE <= item.price <= MAX_PRICE && item.title == dp.title
  {
    if Accept(tok, dp).Some? {
      GatesDecideInclusion(tok, dp, dp.price.cents);
    }
  }

  /** `from_datapoint`: a new `BookItem` for an accepted record, `None` otherwise. */
  method FromDatapoint(tok: Tokenizer, dp: Record) returns (book: BookItem?)
    ensures book == null <==> Accept(tok, dp).None?
    ensures book != null ==> fresh(book) && book.tok == tok && book.State() == Accept(tok, dp).value
  {
    match dp.price
    case Unconvertible =>
      book := null;
    case Numeric(price) =>
      if MIN_PRICE <= price <= MAX_PRICE {
        var item := new BookItem(tok, dp, price);
        book := if item.included then item else null;
      } else {
        book := null;
      }
  }

  // ================================================================ one chunk

  /** `Accept` as a function value, for the generic filtering lemmas. */
  function AcceptWith(tok: Tokenizer): Record -> Option<Item>
  {
    dp => Accept(tok, dp)
  }

  /** The accepted items of a sequence of records, in record order. */
  function Accepted(tok: Tokenizer, recs: seq<Record>): seq<Item>
  {
    FilterMap(AcceptWith(tok), recs)
  }

  /** Accepting records one at a time: the last record adds its item, if any. */
  lemma AcceptedSnoc(tok: Tokenizer, recs: seq<Record>, dp: Record)
    ensures Accepted(tok, recs + [dp]) ==
      Accepted(tok, recs) + match Accept(tok, dp) case None => [] case Some(item) => [item]
  {
    FilterMapAppend(AcceptWith(tok), recs, [dp]);
    assert [dp][1..] == [];
  }

  /**
   * Nothing is invented and nothing accepted is lost: every record's accepted item
   * is kept, every kept item is the accepted item of some record, and each kept
   * item is included and priced within range.
   */
  lemma AcceptedExactly(tok: Tokenizer, recs: seq<Record>)
    ensures |Accepted(tok, recs)| <= |recs|
    ensures forall i :: 0 <= i < |recs| && Accept(tok, recs[i]).Some? ==> Accept(tok, recs[i]).value in Accepted(tok, recs)
    ensures forall item :: item in Accepted(tok, recs) ==> exists i :: 0 <= i < |recs| && Accept(tok, recs[i]) == Some(item)
    ensures forall item :: item in Accepted(tok, recs) ==> item.included && MIN_PRICE <= item.price <= MAX_PRICE
  {
    var f := AcceptWith(tok);
    FilterMapExactly(f, recs);
    assert forall i :: 0 <= i < |recs| ==> f(recs[i]) == Accept(tok, recs[i]);
    forall item | item in Accepted(tok, recs)
      ensures item.included && MIN_PRICE <= item.price <= MAX_PRICE
    {
      var i :| 0 <= i < |recs| && f(recs[i]) == Some(item);
      AcceptSpec(tok, recs[i]);
    }
  }

  /** The states of a sequence of items, in order. */
  function States(books: seq<BookItem>): seq<Item>
    reads books
  {
    if books == [] then [] else States(books[..|books| - 1]) + [books[|books| - 1].State()]
  }

  /** Appending one item appends its state. */
  lemma StatesSnoc(books: seq<BookItem>, book: BookItem)
    ensures States(books + [book]) == States(books) + [book.State()]
  {
    assert (books + [book])[..|books|] == books;
  }

  /** One pass of `from_chunk`'s loop: the item accepted from `dp`, if any, joins the end. */
  method KeepAccepted(tok: Tokenizer, books: seq<BookItem>, seen: seq<Record>, dp: Record)
    returns (grown: seq<BookItem>)
    requires States(books) == Accepted(tok, seen)
    ensures States(grown) == Accepted(tok, seen + [dp])
    ensures forall b | b in grown :: b in books || fresh(b)
  {
    var book := FromDatapoint(tok, dp);
    AcceptedSnoc(tok, seen, dp);
    if book == null {
      assert Accepted(tok, seen + [dp]) == Accepted(tok, seen) + [];
      grown := books;
    } else {
      assert Accepted(tok, seen + [dp]) == Accepted(tok, seen) + [book.State()];
      StatesSnoc(books, book);
      grown := books + [book];
    }
  }

  /** `from_chunk`: the items accepted from a chunk, in the chunk's order. */
  method FromChunk(tok: Tokenizer, chunk: seq<Record>) returns (books: seq<BookItem>)
    ensures forall b | b in books :: fresh(b)
    ensures States(books) == Accepted(tok, chunk)
  {
    books := [];
    for i := 0 to |chunk|
      invariant forall b | b in books :: fresh(b)
      invariant States(books) == Accepted(tok, chunk[..i])
    {
      books := KeepAccepted(tok, books, chunk[..i], chunk[i]);
      TakeSnoc(chunk, i);
    }
    assert chunk[..|chunk|] == chunk;
  }

  // ================================================================ chunking

  function Min(a: int, b: int): int
  {
    if a <= b then a else b
  }

  /**
   * The chunks from position `lo` on: `data[lo..min(lo + c, |data|)]`, then the
   * chunks from where that one ends.
   */
  function ChunksFrom<T>(data: seq<T>, lo: nat, c: nat): seq<seq<T>>
    requires c > 0 && lo <= |data|
    decreases |data| - lo
  {
    if lo == |data| then []
    else
      var hi := Min(lo + c, |data|);
      [data[lo..hi]] + ChunksFrom(data, hi, c)
  }

  /** What `chunk_generator` yields for a positive chunk size: the slices for `range(0, size, c)`. */
  function Chunks<T>(data: seq<T>, c: nat): seq<seq<T>>
    requires c > 0
  {
    ChunksFrom(data, 0, c)
  }

  /** `chunk_generator`: the chunks in order; a negative size yields none, as `range` does. */
  method ChunkGenerator<T>(rawdata: seq<T>, chunkSize: int) returns (chunks: seq<seq<T>>)
    requires chunkSize != 0
    ensures chunkSize < 0 ==> chunks == []
    ensures chunkSize > 0 ==> chunks == Chunks(rawdata, chunkSize)
  {
    chunks := [];
    if chunkSize < 0 {
      return;
    }
    var size := |rawdata|;
    var i := 0;
    while i < size
      invariant chunks + ChunksFrom(rawdata, Min(i, size), chunkSize) == Chunks(rawdata, chunkSize)
      decreases size - i
    {
      var hi := Min(i + chunkSize, size);
      var chunk := rawdata[i..hi];
      AppendAssoc(chunks, [chunk], ChunksFrom(rawdata, hi, chunkSize));
      chunks := chunks + [chunk];
      i := i + chunkSize;
    }
  }

  /** The chunks from `lo` on, concatenated, are the data from `lo` on: no gap, no overlap. */
  lemma {:induction false} ChunksCoverFrom<T>(data: seq<T>, lo: nat, c: nat)
    requires c > 0 && lo <= |data|
    ensures Flatten(ChunksFrom(data, lo, c)) == data[lo..]
    decreases |data| - lo
  {
    if lo < |data| {
      var hi := Min(lo + c, |data|);
      ChunksCoverFrom(data, hi, c);
      assert data[lo..] == data[lo..hi] + data[hi..];
    }
  }

  /** Concatenating the chunks in order gives back the whole data. */
  lemma ChunksCover<T>(data: seq<T>, c: nat)
    requires c > 0
    ensures Flatten(Chunks(data, c)) == data
  {
    ChunksCoverFrom(data, 0, c);
  }

  /**
   * The chunk lengths add up to the size of the data, and read as positions the
   * chunks run through `0, 1, ..., size - 1` with no gap and no overlap.
   */
  lemma ChunkLengths<T>(data: seq<T>, c: nat)
    requires c > 0
    ensures TotalLength(Chunks(data, c)) == |data|
    ensures var positions := seq(|data|, i => i);
      Flatten(Chunks(positions, c)) == positions
  {
    ChunksCover(data, c);
    FlattenLength(Chunks(data, c));
    ChunksCover(seq(|data|, i => i), c);
  }

  /** Chunk `k` from `lo` on is the slice starting `k * c` positions later, `c` long or cut at the end. */
  lemma {:induction false} ChunkAtFrom<T>(data: seq<T>, lo: nat, c: nat, k: nat)
    requires c > 0 && lo <= |data| && k < |ChunksFrom(data, lo, c)|
    ensures lo + k * c < |data|
    ensures ChunksFrom(data, lo, c)[k] == data[lo + k * c..Min(lo + k * c + c, |data|)]
    decreases k
  {
    if k > 0 {
      var hi := Min(lo + c, |data|);
      ChunkAtFrom(data, hi, c, k - 1);
      assert hi == lo + c;
      MulSucc(k - 1, c);
    }
  }

  lemma MulSucc(k: int, c: int)
    ensures (k + 1) * c == k * c + c
  {
  }

  /**
   * Chunk `k` is `data[k * c..min(k * c + c, |data|)]`: every chunk is non-empty and
   * at most `c` long, and every chunk but the last is exactly `c` long.
   */
  lemma ChunkAt<T>(data: seq<T>, c: nat, k: nat)
    requires c > 0 && k < |Chunks(data, c)|
    ensures k * c < |data|
    ensures Chunks(data, c)[k] == data[k * c..Min(k * c + c, |data|)]
    ensures 0 < |Chunks(data, c)[k]| <= c
    ensures k < |Chunks(data, c)| - 1 ==> |Chunks(data, c)[k]| == c
  {
    ChunkAtFrom(data, 0, c, k);
    if k < |Chunks(data, c)| - 1 {
      ChunkAtFrom(data, 0, c, k + 1);
      MulSucc(k, c);
    }
  }

  /** From `lo` on there are just enough chunks of length `c` to cover `|data| - lo` positions. */
  lemma {:induction false} ChunkCountFrom<T>(data: seq<T>, lo: nat, c: nat)
    requires c > 0 && lo <= |data|
    ensures var k := |ChunksFrom(data, lo, c)|;
      |data| - lo <= k * c < |data| - lo + c
    decreases |data| - lo
  {
    if lo < |data| {
      var hi := Min(lo + c, |data|);
      ChunkCountFrom(data, hi, c);
      MulSucc(|ChunksFrom(data, hi, c)|, c);
    }
  }

  /** Division is determined by quotient and remainder. */
  lemma DivUnique(x: int, c: int, q: int)
    requires c > 0 && q * c <= x < q * c + c
    ensures x / c == q
  {
    var q' := x / c;
    assert q' * c <= x < q' * c + c;
    if q' < q {
      MulMonotone(q' + 1, q, c);
      assert false;
    } else if q' > q {
      MulMonotone(q + 1, q', c);
      assert false;
    }
  }

  lemma MulMonotone(a: int, b: int, c: int)
    requires a <= b && c > 0
    ensures a * c <= b * c
  {
    assert b * c - a * c == (b - a) * c;
  }

  /** There are `ceil(size / c)` chunks: none exactly when the data is empty. */
  lemma ChunkCount<T>(data: seq<T>, c: nat)
    requires c > 0
    ensures |Chunks(data, c)| == (|data| + c - 1) / c
    ensures data == [] <==> Chunks(data, c) == []
  {
    ChunkCountFrom(data, 0, c);
    DivUnique(|data| + c - 1, c, |Chunks(data, c)|);
  }

  // ================================================================ the whole data

  /** The items accepted chunk by chunk, concatenated in chunk order. */
  function AcceptedChunks(tok: Tokenizer, chunks: seq<seq<Record>>): seq<Item>
  {
    FilterMapEach(AcceptWith(tok), chunks)
  }

  /** Filtering chunk by chunk and concatenating is filtering the concatenated records. */
  lemma AcceptedFlatten(tok: Tokenizer, chunks: seq<seq<Record>>)
    ensures AcceptedChunks(tok, chunks) == Accepted(tok, Flatten(chunks))
  {
    FilterMapFlatten(AcceptWith(tok), chunks);
  }

  /** `States` distributes over concatenation. */
  lemma {:induction false} StatesAppend(a: seq<BookItem>, b: seq<BookItem>)
    ensures States(a + b) == States(a) + States(b)
    decreases |b|
  {
    if b == [] {
      assert a + b == a;
    } else {
      var b' := b[..|b| - 1];
      var last := b[|b| - 1];
      assert a + b == (a + b') + [last];
      StatesSnoc(a + b', last);
      StatesAppend(a, b');
      StatesSnoc(b', last);
      assert b' + [last] == b;
      AppendAssoc(States(a), States(b'), [last.State()]);
    }
  }

  /** One pass of `load_books_from_rawdata`'s loop: a chunk's items join the end. */
  method AppendChunk(tok: Tokenizer, results: seq<BookItem>, done: seq<seq<Record>>, chunk: seq<Record>)
    returns (grown: seq<BookItem>)
    requires States(results) == AcceptedChunks(tok, done)
    ensures States(grown) == AcceptedChunks(tok, done + [chunk])
    ensures forall b | b in grown :: b in results || fresh(b)
  {
    var batch := FromChunk(tok, chunk);
    StatesAppend(results, batch);
    FilterMapEachAppend(AcceptWith(tok), done, [chunk]);
    assert [chunk][1..] == [];
    grown := results + batch;
  }

  /**
   * `load_books_from_rawdata`: every chunk's items, concatenated in chunk order; this
   * is the same as filtering the whole data record by record.
   */
  method LoadBooks(tok: Tokenizer, rawdata: seq<Record>) returns (results: seq<BookItem>)
    ensures forall b | b in results :: fresh(b)
    ensures States(results) == AcceptedChunks(tok, Chunks(rawdata, CHUNK_SIZE))
    ensures States(results) == Accepted(tok, rawdata)
  {
    var chunks := ChunkGenerator(rawdata, CHUNK_SIZE);
    results := [];
    for k := 0 to |chunks|
      invariant forall b | b in results :: fresh(b)
      invariant States(results) == AcceptedChunks(tok, chunks[..k])
    {
      results := AppendChunk(tok, results, chunks[..k], chunks[k]);
      TakeSnoc(chunks, k);
    }
    assert chunks[..|chunks|] == chunks;
    AcceptedFlatten(tok, chunks);
    ChunksCover(rawdata, CHUNK_SIZE);
  }
}
