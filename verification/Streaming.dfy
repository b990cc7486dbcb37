/** Plain and chunked query results (`query` and `stream_query_chunks` in
    src/gateway/engine.rs), over an abstract sequence of result rows. */
module Streaming {
  import opened Basics

  /** The rows a query with this limit returns; 0 means no limit. */
  function Limited<R>(rows: seq<R>, maxRows: nat): seq<R> {
    if maxRows > 0 then rows[..Min(maxRows, |rows|)] else rows
  }

  method Query<R>(rows: seq<R>, maxRows: nat) returns (out: seq<R>, totalRows: nat)
    ensures out == Limited(rows, maxRows) && totalRows == |out|
    ensures out <= rows && |out| == if maxRows == 0 then |rows| else Min(maxRows, |rows|)
  {
    out, totalRows := [], 0;
    while totalRows < |rows|
      invariant totalRows <= |rows| && out == rows[..totalRows]
      invariant maxRows > 0 && totalRows > 0 ==> totalRows < maxRows
    {
      out := out + [rows[totalRows]];
      totalRows := totalRows + 1;
      if maxRows > 0 && totalRows >= maxRows {
        break;
      }
    }
  }

  datatype Chunk<R, C> = Chunk(columns: seq<C>, rows: seq<R>, isLast: bool, totalRows: nat)

  /** The rows of all chunks, concatenated. */
  function RowsOf<R, C>(chunks: seq<Chunk<R, C>>): seq<R> {
    if chunks == [] then [] else RowsOf(chunks[..|chunks| - 1]) + chunks[|chunks| - 1].rows
  }

  /** The shape of every chunk but the last. */
  ghost predicate Full<R(!new), C(!new)>(chunks: seq<Chunk<R, C>>, columns: seq<C>, size: nat) {
    forall i :: 0 <= i < |chunks| ==>
      && |chunks[i].rows| == size
      && !chunks[i].isLast
      && chunks[i].columns == (if i == 0 then columns else [])
      && chunks[i].totalRows == |RowsOf(chunks[..i + 1])|
  }

  lemma RowsOfAppend<R, C>(chunks: seq<Chunk<R, C>>, c: Chunk<R, C>)
    ensures RowsOf(chunks + [c]) == RowsOf(chunks) + c.rows
  {
    assert (chunks + [c])[..|chunks|] == chunks;
  }

  lemma FullAppend<R(!new), C(!new)>(chunks: seq<Chunk<R, C>>, c: Chunk<R, C>, columns: seq<C>, size: nat)
    requires Full(chunks, columns, size) && |c.rows| == size && !c.isLast
    requires c.columns == (if chunks == [] then columns else []) && c.totalRows == |RowsOf(chunks)| + size
    ensures Full(chunks + [c], columns, size)
  {
    var all := chunks + [c];
    RowsOfAppend(chunks, c);
    forall i | 0 <= i < |all| ensures all[i].totalRows == |RowsOf(all[..i + 1])| {
      if i < |chunks| {
        assert all[..i + 1] == chunks[..i + 1];
      } else {
        assert all[..i + 1] == all;
      }
    }
  }

  /** The stream after `n` rows: full chunks and a chunk being filled. */
  ghost predicate Streamed<R(!new), C(!new)>(chunks: seq<Chunk<R, C>>, current: seq<R>, rows: seq<R>, n: nat,
                                             columns: seq<C>, size: nat)
    requires n <= |rows|
  {
    RowsOf(chunks) + current == rows[..n] && Full(chunks, columns, size)
  }

  /** A full chunk is closed. */
  lemma ChunkClosed<R(!new), C(!new)>(chunks: seq<Chunk<R, C>>, c: Chunk<R, C>, rows: seq<R>, n: nat,
                                      columns: seq<C>, size: nat)
    requires n <= |rows| && Streamed(chunks, c.rows, rows, n, columns, size) && |c.rows| == size
    requires !c.isLast && c.totalRows == n && c.columns == (if chunks == [] then columns else [])
    ensures Streamed(chunks + [c], [], rows, n, columns, size)
  {
    RowsOfAppend(chunks, c);
    assert n == |RowsOf(chunks) + c.rows|;
    FullAppend(chunks, c, columns, size);
    assert RowsOf(chunks + [c]) + [] == RowsOf(chunks + [c]);
  }

  /** A row joins the chunk being filled. */
  lemma RowAdded<R(!new), C(!new)>(chunks: seq<Chunk<R, C>>, current: seq<R>, rows: seq<R>, n: nat,
                                   columns: seq<C>, size: nat)
    requires n < |rows| && Streamed(chunks, current, rows, n, columns, size)
    ensures Streamed(chunks, current + [rows[n]], rows, n + 1, columns, size)
  {
    assert RowsOf(chunks) + (current + [rows[n]]) == RowsOf(chunks) + current + [rows[n]];
    assert rows[..n + 1] == rows[..n] + [rows[n]];
  }

  /** The row loop: everything up to the final, unfinished chunk. */
  method FillChunks<R(!new), C(!new)>(columns: seq<C>, rows: seq<R>, maxRows: nat, chunkSize: nat)
    returns (chunks: seq<Chunk<R, C>>, current: seq<R>, totalRows: nat)
    ensures totalRows <= |rows| && rows[..totalRows] == Limited(rows, maxRows)
    ensures Streamed(chunks, current, rows, totalRows, columns, Max(chunkSize, 1)) && |current| < Max(chunkSize, 1)
  {
    chunks, current, totalRows := [], [], 0;
    var isFirst := true;
    while totalRows < |rows|
      invariant totalRows <= |rows| && Streamed(chunks, current, rows, totalRows, columns, Max(chunkSize, 1))
      invariant maxRows > 0 && totalRows > 0 ==> totalRows < maxRows
      invariant |current| < Max(chunkSize, 1) && isFirst == (chunks == [])
    {
      RowAdded(chunks, current, rows, totalRows, columns, Max(chunkSize, 1));
      current := current + [rows[totalRows]];
      totalRows := totalRows + 1;
      if |current| >= chunkSize {
        var chunk := Chunk(if isFirst then columns else [], current, false, totalRows);
        isFirst := false;
        ChunkClosed(chunks, chunk, rows, totalRows, columns, Max(chunkSize, 1));
        chunks := chunks + [chunk];
        current := [];
      }
      if maxRows > 0 && totalRows >= maxRows {
        break;
      }
    }
  }

  /** Chunked streaming refines the plain query: concatenated, the chunks are its rows;
      every chunk but the last is full; the last one is not, and is the only one marked so;
      the columns travel in the first; totals are running prefix lengths.  A chunk size of
      0 acts as 1. */
  method StreamQueryChunks<R(!new), C(!new)>(columns: seq<C>, rows: seq<R>, maxRows: nat, chunkSize: nat)
    returns (chunks: seq<Chunk<R, C>>)
    ensures RowsOf(chunks) == Limited(rows, maxRows)
    ensures |chunks| > 0 && Full(chunks[..|chunks| - 1], columns, Max(chunkSize, 1))
    ensures var last := chunks[|chunks| - 1];
            && |last.rows| < Max(chunkSize, 1) && last.isLast && last.totalRows == |Limited(rows, maxRows)|
            && last.columns == (if |chunks| == 1 then columns else [])
  {
    var full, current, totalRows := FillChunks(columns, rows, maxRows, chunkSize);
    var last := Chunk(if full == [] then columns else [], current, true, totalRows);
    RowsOfAppend(full, last);
    chunks := full + [last];
    assert chunks[..|chunks| - 1] == full;
  }
}
