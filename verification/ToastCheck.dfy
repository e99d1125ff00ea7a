/** Check of the chunks that hold one toasted attribute. */
module ToastCheck {
  import opened Wrappers

  const TOAST_MAX_CHUNK_SIZE: nat := 1996

  datatype ChunkData = NullData | Plain(size: int) | Short(size: int) | Other

  /** A row of the toast table; None is a null sequence number. */
  datatype Chunk = Chunk(seqNo: Option<int>, data: ChunkData)

  datatype Report =
    | NullSequence | UnexpectedChunk | DataIsNull | InvalidHeader
    | FollowsLast | WrongSize | NotFound | EndedEarly

  function LastChunk(extsize: nat): nat
    requires extsize > 0
  {
    (extsize - 1) / TOAST_MAX_CHUNK_SIZE
  }

  function ExpectedSize(extsize: nat, k: int): int
    requires extsize > 0
  {
    if k < LastChunk(extsize) then TOAST_MAX_CHUNK_SIZE else extsize - LastChunk(extsize) * TOAST_MAX_CHUNK_SIZE
  }

  /** A value is cut into pieces from its start: piece k exists if some of the value is left behind k
      full pieces, and holds as much of it as a piece can. */
  lemma PieceOfValue(extsize: nat, k: nat)
    requires extsize > 0
    ensures k <= LastChunk(extsize) <==> k * TOAST_MAX_CHUNK_SIZE < extsize
    ensures k <= LastChunk(extsize) ==>
      var left := extsize - k * TOAST_MAX_CHUNK_SIZE;
      ExpectedSize(extsize, k) == if left > TOAST_MAX_CHUNK_SIZE then TOAST_MAX_CHUNK_SIZE else left
  {
  }

  /** Chunk k as it should be. */
  predicate ChunkOk(c: Chunk, extsize: nat, k: int)
    requires extsize > 0
  {
    c.seqNo == Some(k) && k <= LastChunk(extsize) && (c.data.Plain? || c.data.Short?) &&
        c.data.size == ExpectedSize(extsize, k)
  }

  /** check_toast_tuple: what it reports, and the number it expects next. */
  method CheckTuple(c: Chunk, expected: int, extsize: nat) returns (reports: seq<Report>, next: int)
    requires extsize > 0
    ensures reports == [] <==> ChunkOk(c, extsize, expected)
    ensures next == if c.seqNo.None? then expected else c.seqNo.value + 1
  {
    reports, next := [], expected;
    var last := LastChunk(extsize);
    if c.seqNo.None? { return [NullSequence], next; }
    var chunkSeq := c.seqNo.value;
    if chunkSeq != expected { reports := reports + [UnexpectedChunk]; }
    next := chunkSeq + 1;
    if c.data.NullData? { return reports + [DataIsNull], next; }
    if c.data.Other? { return reports + [InvalidHeader], next; }
    if chunkSeq > last { return reports + [FollowsLast], next; }
    var expectedSize := if chunkSeq < last then TOAST_MAX_CHUNK_SIZE else extsize - last * TOAST_MAX_CHUNK_SIZE;
    if c.data.size != expectedSize { reports := reports + [WrongSize]; }
  }

  ghost predicate AllOk(chunks: seq<Chunk>, extsize: nat)
    requires extsize > 0
  {
    |chunks| == LastChunk(extsize) + 1 && forall k :: 0 <= k < |chunks| ==> ChunkOk(chunks[k], extsize, k)
  }

  /** check_toasted_attribute reports nothing if and only if the chunks are numbered from 0 to the
      last one in order, each with plain data of the expected size. */
  method CheckAttribute(chunks: seq<Chunk>, extsize: nat) returns (reports: seq<Report>)
    requires extsize > 0
    ensures reports == [] <==> AllOk(chunks, extsize)
  {
    reports := [];
    var expected := 0;
    for i := 0 to |chunks|
      invariant reports == [] <==> forall k :: 0 <= k < i ==> ChunkOk(chunks[k], extsize, k)
      invariant reports == [] ==> expected == i
    {
      var found;
      found, expected := CheckTuple(chunks[i], expected, extsize);
      reports := reports + found;
    }
    assert |chunks| > 0 && reports == [] ==> ChunkOk(chunks[|chunks| - 1], extsize, |chunks| - 1);
    if |chunks| == 0 { reports := reports + [NotFound]; }
    else if expected <= LastChunk(extsize) { reports := reports + [EndedEarly]; }
  }

  function Total(chunks: seq<Chunk>): int {
    if chunks == [] then 0 else
    var d := chunks[|chunks| - 1].data;
    Total(chunks[..|chunks| - 1]) + if d.Plain? || d.Short? then d.size else 0
  }

  lemma {:induction false} TotalBefore(chunks: seq<Chunk>, extsize: nat, n: nat)
    requires extsize > 0 && AllOk(chunks, extsize) && n < |chunks|
    ensures Total(chunks[..n]) == n * TOAST_MAX_CHUNK_SIZE
    decreases n
  {
    if n > 0 {
      TotalBefore(chunks, extsize, n - 1);
      assert chunks[..n][..n - 1] == chunks[..n - 1];
      assert ChunkOk(chunks[n - 1], extsize, n - 1);
    }
  }

  /** Then the data adds up to exactly the recorded size, in chunks that are all non-empty. */
  lemma SizesAddUp(chunks: seq<Chunk>, extsize: nat)
    requires extsize > 0 && AllOk(chunks, extsize)
    ensures Total(chunks) == extsize
    ensures forall k :: 0 <= k < |chunks| ==> 0 < ExpectedSize(extsize, k) <= TOAST_MAX_CHUNK_SIZE
  {
    var n := LastChunk(extsize);
    TotalBefore(chunks, extsize, n);
    assert ChunkOk(chunks[n], extsize, n);
  }
}
