/**
  * The chunk generator (scripts/generatebin.js): split the dataset into
  * consecutive slices of at most 500 records, compress each slice, and write
  * slice number k to `./src/airports_chunk_<k>.bin`. Reading the input file,
  * `JSON.stringify` and `pako.deflate` are not modelled; the compression is
  * the parameter `deflate`, and the written files are returned as values.
  */
module Chunking {
  import opened Text

  /** `CHUNK_SIZE`: the number of records per chunk. */
  const ChunkSize: nat := 500
  const OutputDir := "./src"
  const DoneMessage := "Chunk files generated successfully."

  /** One `fs.writeFileSync(path, compressedData)`. */
  datatype ChunkFile<B> = ChunkFile(path: string, contents: B)

  const ChunkPrefix := OutputDir + "/airports_chunk_"

  /** `${OUTPUT_DIR}/airports_chunk_${k}.bin`. */
  function ChunkPath(k: nat): string {
    ChunkPrefix + NatToString(k) + ".bin"
  }

  /**
    * The name of file k is the prefix, the decimal digits of k, and ".bin";
    * the digits read back as k.
    */
  lemma ChunkPathShape(k: nat)
    ensures var path := ChunkPath(k);
      && |ChunkPrefix| < |path| - 4 && path[..|ChunkPrefix|] == ChunkPrefix && path[|path| - 4..] == ".bin"
      && (forall i :: |ChunkPrefix| <= i < |path| - 4 ==> IsDigit(path[i]))
      && DecimalValue(path[|ChunkPrefix|..|path| - 4]) == k
  {
    var digits, path := NatToString(k), ChunkPath(k);
    assert path[|ChunkPrefix|..|path| - 4] == digits;
    NatToStringRoundTrip(k);
  }

  /** Distinct chunk indices name distinct files. */
  lemma ChunkPathsDistinct(k: nat, k': nat)
    requires k != k'
    ensures ChunkPath(k) != ChunkPath(k')
  {
    ChunkPathShape(k);
    ChunkPathShape(k');
  }

  /** The file written for each chunk: chunk k, compressed, under the name with index k. */
  function Files<T, B>(chunks: seq<seq<T>>, deflate: seq<T> -> B): (files: seq<ChunkFile<B>>)
    ensures |files| == |chunks|
  {
    seq(|chunks|, k requires 0 <= k < |chunks| => ChunkFile(ChunkPath(k), deflate(chunks[k])))
  }

  /** Writing the file for one more chunk appends it with the next index. */
  lemma FilesSnoc<T, B>(chunks: seq<seq<T>>, c: seq<T>, deflate: seq<T> -> B)
    ensures Files(chunks + [c], deflate) == Files(chunks, deflate) + [ChunkFile(ChunkPath(|chunks|), deflate(c))]
  {
  }

  /** The chunks laid end to end, in index order. */
  function Flatten<T>(chunks: seq<seq<T>>): seq<T> {
    if chunks == [] then [] else Flatten(chunks[..|chunks| - 1]) + chunks[|chunks| - 1]
  }

  /** `jsonData.slice(500 * k, 500 * k + 500)`: the records of chunk k. */
  function ChunkAt<T>(records: seq<T>, k: nat): seq<T>
    requires ChunkSize * k <= |records|
  {
    records[ChunkSize * k..Min(|records|, ChunkSize * k + ChunkSize)]
  }

  /** Chunk k holds the next (at most) 500 records from index 500k, in order. */
  lemma ChunkAtContents<T>(records: seq<T>, k: nat)
    requires ChunkSize * k <= |records|
    ensures |ChunkAt(records, k)| == Min(ChunkSize, |records| - ChunkSize * k)
    ensures forall i :: 0 <= i < |ChunkAt(records, k)| ==> ChunkAt(records, k)[i] == records[ChunkSize * k + i]
  {
  }

  /** Appending the next chunk extends the flattened prefix to the end of that chunk. */
  lemma FlattenSnoc<T>(chunks: seq<seq<T>>, c: seq<T>)
    ensures Flatten(chunks + [c]) == Flatten(chunks) + c
  {
    assert (chunks + [c])[..|chunks|] == chunks;
  }

  /**
    * The `for` loop: chunk k holds records [500k, min(n, 500k + 500)), the
    * chunks together are the input in order, there are ceil(n / 500) of them,
    * each non-empty and none larger than 500, all but the last exactly 500,
    * and file k holds the compressed chunk k under the name with index k.
    */
  method GenerateChunks<T, B>(jsonData: seq<T>, deflate: seq<T> -> B)
    returns (chunks: seq<seq<T>>, files: seq<ChunkFile<B>>, log: seq<Line>)
    ensures Flatten(chunks) == jsonData
    ensures |chunks| == (|jsonData| + ChunkSize - 1) / ChunkSize
    ensures forall k :: 0 <= k < |chunks| ==> ChunkSize * k < |jsonData| && chunks[k] == ChunkAt(jsonData, k)
    ensures |files| == |chunks|
    ensures forall k :: 0 <= k < |files| ==> files[k] == ChunkFile(ChunkPath(k), deflate(chunks[k]))
    ensures log == [Out(DoneMessage)]
  {
    chunks, files := [], [];
    var i, j := 0, |jsonData|;
    while i < j
      invariant i == ChunkSize * |chunks|
      invariant |chunks| == 0 || ChunkSize * (|chunks| - 1) < j
      invariant Flatten(chunks) == jsonData[..Min(i, j)]
      invariant forall k :: 0 <= k < |chunks| ==> ChunkSize * k < j && chunks[k] == ChunkAt(jsonData, k)
      invariant files == Files(chunks, deflate)
    {
      var chunk := jsonData[i..Min(j, i + ChunkSize)];
      var compressedData := deflate(chunk);
      assert chunk == ChunkAt(jsonData, |chunks|);
      assert i / ChunkSize == |chunks|;
      FlattenSnoc(chunks, chunk);
      FilesSnoc(chunks, chunk, deflate);
      assert jsonData[..Min(i + ChunkSize, j)] == jsonData[..i] + chunk;
      files := files + [ChunkFile(ChunkPath(i / ChunkSize), compressedData)];
      chunks := chunks + [chunk];
      i := i + ChunkSize;
    }
    assert jsonData[..Min(i, j)] == jsonData;
    log := [Out(DoneMessage)];
  }

  /**
    * The slicing of the loop gives chunks of 1 to 500 records, all but the
    * last exactly 500, and no chunk at all for an empty dataset.
    */
  lemma ChunkSizes<T>(records: seq<T>, chunks: seq<seq<T>>)
    requires |chunks| == (|records| + ChunkSize - 1) / ChunkSize
    requires forall k :: 0 <= k < |chunks| ==> ChunkSize * k < |records| && chunks[k] == ChunkAt(records, k)
    ensures forall k :: 0 <= k < |chunks| ==> 0 < |chunks[k]| <= ChunkSize
    ensures forall k :: 0 <= k < |chunks| - 1 ==> |chunks[k]| == ChunkSize
    ensures records == [] <==> chunks == []
  {
  }
}
