/** `gcf_splicer`: reads the expression matrix line by line, gathers gene
    rows into a dictionary, and after lines 1001, 2001, 3001, ... (and once
    more at the end) melts the dictionary, tags it with tissues and appends each tissue's
    records to that tissue's file. */
module Splitter {
  import opened Strings
  import opened Matrix
  import opened LongForm
  import opened TissueFiles
  import opened SpliceSpec

  /** One flush: melt, tag, group and append every group. */
  method Flush(dir0: Dir, dr: string, meta: map<string, string>, columns: seq<string>, gexMat: Chunk)
    returns (dir: Dir)
    requires gexMat.Valid() && gexMat.Fits(|columns|)
    ensures dir == Flushed(dir0, dr, Tag(Melt(gexMat, columns), meta))
  {
    var frame := Tag(Melt(gexMat, columns), meta);
    dir := AppendGroups(dir0, dr, frame, TissueOrder(frame));
  }

  /** The flush of chunk `k`, ending at line `c`, takes the directory left
      by the first `k` flushes to the one left by the first `k + 1`. */
  method FlushChunk(lines: seq<string>, dr: string, meta: map<string, string>, ghost dir0: Dir,
                    k: nat, ghost start: nat, ghost c: nat, columns: Option<seq<string>>, gexMat: Chunk, dir: Dir)
    returns (k': nat, dir': Dir)
    requires |lines| >= 3 && k < AllFlushes(|lines|)
    requires start == ChunkStart(k) <= c == ChunkEnd(k, |lines|)
    requires ChunkAt(lines, c, start, gexMat) && ColumnsAt(lines, c, columns)
    requires DirAt(lines, dr, meta, dir0, k, dir)
    ensures k' == k + 1 && DirAt(lines, dr, meta, dir0, k', dir')
  {
    ChunkReady(lines, k, start, c, columns, gexMat);
    dir' := Flush(dir, dr, meta, columns.value, gexMat);
    k' := k + 1;
    FlushStep(lines, dr, meta, dir0, k, k', start, c, columns, gexMat, dir, dir');
  }

  /** The first half of an iteration: count line `c + 1`; the third line
      binds `columns`, every later line is stored into `gex_mat`. */
  method ReadLine(lines: seq<string>, ghost cc: nat, ghost start: nat, c: nat, columns: Option<seq<string>>, gexMat: Chunk)
    returns (c': nat, columns': Option<seq<string>>, gexMat': Chunk)
    requires c < |lines| && CountersAt(c, cc, start)
    requires ChunkAt(lines, c, start, gexMat) && ColumnsAt(lines, c, columns)
    ensures c' == c + 1
    ensures ChunkAt(lines, c', start, gexMat') && ColumnsAt(lines, c', columns')
  {
    var line := lines[c];
    c' := c + 1;
    ReadStep(lines, c, c', cc, start, columns, gexMat);
    columns' := if c' == 3 then Some(Values(line)) else columns;
    gexMat' := if c' > 3 then Put(gexMat, Gene(line), Values(line)) else gexMat;
  }

  /** The second half: when line `c` closes a chunk, flush it, count the
      flush and start an empty dictionary. */
  method TestFlush(lines: seq<string>, dr: string, meta: map<string, string>, ghost dir0: Dir, c: nat, cc: nat,
                   ghost start: nat, columns: Option<seq<string>>, gexMat: Chunk, dir: Dir)
    returns (cc': nat, ghost start': nat, gexMat': Chunk, dir': Dir)
    requires 1 <= c <= |lines| && CountersAt(c - 1, cc, start)
    requires ChunkAt(lines, c, start, gexMat) && ColumnsAt(lines, c, columns)
    requires DirAt(lines, dr, meta, dir0, cc, dir)
    ensures CountersAt(c, cc', start') && ChunkAt(lines, c, start', gexMat')
    ensures DirAt(lines, dr, meta, dir0, cc', dir')
  {
    TestStep(lines, c, cc, start);
    if c - cc * 1000 > 1000 {
      cc', dir' := FlushChunk(lines, dr, meta, dir0, cc, start, c, columns, gexMat, dir);
      start', gexMat' := c, EmptyChunk;
      ChunkAtStart(lines, c);
    } else {
      cc', start', gexMat', dir' := cc, start, gexMat, dir;
    }
  }

  /** After the loop: the final flush of what is left, which raises the
      `NameError` when the file had fewer than three lines. */
  method FinalFlush(lines: seq<string>, dr: string, meta: map<string, string>, ghost dir0: Dir,
                    cc: nat, ghost start: nat, c: nat, columns: Option<seq<string>>, gexMat: Chunk, dir: Dir)
    returns (result: Outcome)
    requires c == |lines| && CountersAt(c, cc, start)
    requires ChunkAt(lines, c, start, gexMat) && ColumnsAt(lines, c, columns)
    requires DirAt(lines, dr, meta, dir0, cc, dir)
    ensures result == Splice(lines, dr, meta, dir0)
  {
    if columns.None? {
      SpliceEnd(lines, dr, meta, dir0, cc, dir);
      return ColumnsUnbound;
    }
    FinalIndex(c, cc);
    var flushes, last := FlushChunk(lines, dr, meta, dir0, cc, start, c, columns, gexMat, dir);
    SpliceEnd(lines, dr, meta, dir0, flushes, last);
    return Written(last);
  }

  /** `gcf_splicer(fn, dr, sample_meta_d)` on a file read as `lines`, with
      the output directory's files as `dir0`. */
  method GcfSplicer(lines: seq<string>, dr: string, meta: map<string, string>, dir0: Dir)
    returns (result: Outcome)
    requires RowsFit(lines)
    ensures result == Splice(lines, dr, meta, dir0)
  {
    var dir := dir0;
    var gexMat := EmptyChunk;
    var columns: Option<seq<string>> := None;
    var c, cc := 0, 0;
    ghost var start: nat := 3;
    for i := 0 to |lines|
      invariant c == i
      invariant CountersAt(c, cc, start)
      invariant ChunkAt(lines, c, start, gexMat) && ColumnsAt(lines, c, columns)
      invariant DirAt(lines, dr, meta, dir0, cc, dir)
    {
      c, columns, gexMat := ReadLine(lines, cc, start, c, columns, gexMat);
      cc, start, gexMat, dir := TestFlush(lines, dr, meta, dir0, c, cc, start, columns, gexMat, dir);
    }
    result := FinalFlush(lines, dr, meta, dir0, cc, start, c, columns, gexMat, dir);
  }
}
