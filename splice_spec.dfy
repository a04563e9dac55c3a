/** What `gcf_splicer` computes, stated over the whole file: the flush
    schedule, the chunks of gene lines it cuts the file into, the directory
    after each flush, and the facts each step of the loop relies on. */
module SpliceSpec {
  import opened Strings
  import opened Matrix
  import opened LongForm
  import opened TissueFiles

  /** The flush counter `cc` once `c` lines have been read, each followed by
      the flush test. */
  function InLoopFlushes(c: nat): nat
  {
    if c == 0 then 0 else (c - 1) / 1000
  }

  /** The counters before line `c` keep `0 <= (c - 1) - 1000 * cc <= 1000`,
      and the test `c - cc*1000 > 1000` after line `c` fires exactly on
      lines 1001, 2001, 3001, ..., advancing `cc` by one. */
  lemma {:induction false} FlushTest(c: nat)
    requires c >= 1
    ensures 0 <= (c - 1) - 1000 * InLoopFlushes(c - 1) <= 1000
    ensures (c - 1000 * InLoopFlushes(c - 1) > 1000) <==> (c > 1000 && c % 1000 == 1)
    ensures InLoopFlushes(c)
         == InLoopFlushes(c - 1) + (if c - 1000 * InLoopFlushes(c - 1) > 1000 then 1 else 0)
  {
    var q := (c - 1) / 1000;
    assert c - 1 == 1000 * q + (c - 1) % 1000;
    if c >= 2 {
      var p := (c - 2) / 1000;
      assert c - 2 == 1000 * p + (c - 2) % 1000;
    }
  }

  /** After line `c` = 1000 * cc + 1001 triggered a flush, chunk `cc` ends
      there and `cc + 1` flushes have run, no more than the file makes. */
  lemma {:induction false} FlushIndex(c: nat, cc: nat, n: nat)
    requires c == 1000 * cc + 1001 <= n
    ensures InLoopFlushes(c) == cc + 1 <= InLoopFlushes(n)
    ensures ChunkEnd(cc, n) == c
  {
    assert (n - 1) / 1000 >= (c - 1) / 1000;
  }

  /** Once all `n` lines are read, `cc` is the number of in-loop flushes and
      what is left is the last chunk, up to the end of the file. */
  lemma {:induction false} FinalIndex(n: nat, cc: nat)
    requires n <= 1000 * cc + 1000
    requires cc >= 1 ==> n >= 1000 * cc + 1
    ensures InLoopFlushes(n) == cc
    ensures n >= 3 ==> AllFlushes(n) == cc + 1
    ensures ChunkEnd(cc, n) == n
  {
  }

  /** Index of the first line of chunk `k`: the fourth line for the first
      chunk, the line after line 1000 * k + 1 (counting from 1) for later
      ones. */
  function ChunkStart(k: nat): nat
  {
    if k == 0 then 3 else 1000 * k + 1
  }

  /** One past the last line of chunk `k` in a file of `n` lines: the line
      that triggers the flush, or the end of the file. */
  function ChunkEnd(k: nat, n: nat): nat
  {
    if 1000 * k + 1001 <= n then 1000 * k + 1001 else n
  }

  /** The gene lines of chunk `k`; chunks `0 .. InLoopFlushes(|lines|) - 1`
      are flushed in the loop, chunk `InLoopFlushes(|lines|)` by the final
      flush. */
  function ChunkRows(lines: seq<string>, k: nat): seq<string>
    requires |lines| >= 3 && k <= InLoopFlushes(|lines|)
  {
    ChunkBounds(|lines|, k);
    lines[ChunkStart(k) .. ChunkEnd(k, |lines|)]
  }

  /** Every chunk, the final one included, lies within the data lines of
      the file. */
  lemma {:induction false} ChunkBounds(n: nat, k: nat)
    requires n >= 3 && k <= InLoopFlushes(n)
    ensures 3 <= ChunkStart(k) <= ChunkEnd(k, n) <= n
  {
    FlushTest(n);
  }

  /** The tagged long-form frame one flush of chunk `k` builds. */
  function ChunkFrame(lines: seq<string>, meta: map<string, string>, k: nat): seq<TaggedRow>
    requires |lines| >= 3 && RowsFit(lines) && k <= InLoopFlushes(|lines|)
  {
    var rows := ChunkRows(lines, k);
    SliceFits(lines, ChunkStart(k), ChunkEnd(k, |lines|));
    Tag(Melt(ChunkOf(rows), Columns(lines)), meta)
  }

  /** The number of flushes a run makes: the in-loop ones and the final one;
      a file of fewer than three lines fails before its final flush. */
  function AllFlushes(n: nat): nat
  {
    if n >= 3 then InLoopFlushes(n) + 1 else 0
  }

  /** The frames of all flushes of a run, in order; none when the file is
      too short to reach the final flush. */
  function Frames(lines: seq<string>, meta: map<string, string>): (r: seq<seq<TaggedRow>>)
    requires RowsFit(lines)
    ensures |r| == AllFlushes(|lines|)
  {
    seq(AllFlushes(|lines|), k requires 0 <= k < AllFlushes(|lines|) => ChunkFrame(lines, meta, k))
  }

  /** The result of a run: the directory it leaves, or the `NameError` a
      file of fewer than three lines raises at the final flush, where
      `columns` was never bound (nothing has been written by then). */
  datatype Outcome = Written(dir: Dir) | ColumnsUnbound

  function Splice(lines: seq<string>, dr: string, meta: map<string, string>, dir0: Dir): Outcome
    requires RowsFit(lines)
  {
    if |lines| < 3 then ColumnsUnbound
    else Written(AfterFrames(dir0, dr, Frames(lines, meta), AllFlushes(|lines|)))
  }

  /** Gene lines from the fourth line on carry one value per sample column,
      so any run of them makes a chunk of the columns' width. */
  lemma {:induction false} SliceFits(lines: seq<string>, a: nat, b: nat)
    requires 3 <= a <= b <= |lines| && RowsFit(lines)
    ensures ChunkOf(lines[a..b]).Fits(|Columns(lines)|)
  {
    var w := lines[a..b];
    assert forall j :: 0 <= j < |w| ==> w[j] == lines[a + j];
    ChunkFits(w, |Columns(lines)|);
  }

  /** The counters after the flush test of line `c`: `cc` flushes have run
      and the current chunk starts at line `start`. */
  ghost predicate CountersAt(c: nat, cc: nat, start: nat)
  {
    && 0 <= c - 1000 * cc <= 1000
    && (cc >= 1 ==> c >= 1000 * cc + 1)
    && start == ChunkStart(cc)
  }

  /** `gex_mat` after `c` lines: the dictionary of the gene lines read since
      the current chunk started. */
  ghost predicate ChunkAt(lines: seq<string>, c: nat, start: nat, gexMat: Chunk)
    requires c <= |lines|
  {
    if c < start then c < 3 && gexMat == EmptyChunk else gexMat == ChunkOf(lines[start..c])
  }

  /** A chunk that starts at line `c` is empty after `c` lines. */
  lemma {:induction false} ChunkAtStart(lines: seq<string>, c: nat)
    requires c <= |lines|
    ensures ChunkAt(lines, c, c, EmptyChunk)
  {
    assert lines[c..c] == [];
  }

  /** `columns` after `c` lines: bound from the third line on. */
  ghost predicate ColumnsAt(lines: seq<string>, c: nat, columns: Option<seq<string>>)
    requires c <= |lines|
  {
    columns == if c >= 3 then Some(Columns(lines)) else None
  }

  /** The output directory after `k` flushes. */
  ghost predicate DirAt(lines: seq<string>, dr: string, meta: map<string, string>, dir0: Dir, k: nat, dir: Dir)
  {
    RowsFit(lines) && k <= AllFlushes(|lines|) && dir == AfterFrames(dir0, dr, Frames(lines, meta), k)
  }

  /** Reading line `c + 1` (1-based): the third line binds `columns`, every
      later line is stored into `gex_mat`. */
  lemma {:induction false} ReadStep(lines: seq<string>, c: nat, c': nat, cc: nat, start: nat, columns: Option<seq<string>>, gexMat: Chunk)
    requires c' == c + 1 && c < |lines| && CountersAt(c, cc, start)
    requires ChunkAt(lines, c, start, gexMat) && ColumnsAt(lines, c, columns)
    ensures ColumnsAt(lines, c', if c' == 3 then Some(Values(lines[c])) else columns)
    ensures c' > 3 ==> start <= c && gexMat.Valid()
    ensures ChunkAt(lines, c', start,
                    if c' > 3 then Put(gexMat, Gene(lines[c]), Values(lines[c])) else gexMat)
  {
    if c' > 3 {
      ChunkSlice(lines, start, c);
    } else if c' == 3 {
      assert lines[3..3] == [];
    }
  }

  /** The flush test after line `c`: when it fires, chunk `cc` ends at line
      `c` and its flush is the next one; otherwise the counters stay. */
  lemma {:induction false} TestStep(lines: seq<string>, c: nat, cc: nat, start: nat)
    requires 1 <= c <= |lines| && CountersAt(c - 1, cc, start)
    ensures c - cc * 1000 > 1000 ==>
      |lines| >= 3 && cc < AllFlushes(|lines|) && c == ChunkEnd(cc, |lines|) && CountersAt(c, cc + 1, c)
    ensures c - cc * 1000 <= 1000 ==> CountersAt(c, cc, start)
  {
    if c - cc * 1000 > 1000 {
      FlushIndex(c, cc, |lines|);
    }
  }

  /** When line `c` closes chunk `k`, the dictionary holds that chunk's
      gene lines, `columns` is bound, and the frame can be built. */
  lemma {:induction false} ChunkReady(lines: seq<string>, k: nat, start: nat, c: nat, columns: Option<seq<string>>, gexMat: Chunk)
    requires RowsFit(lines) && |lines| >= 3 && k < AllFlushes(|lines|)
    requires start == ChunkStart(k) <= c == ChunkEnd(k, |lines|)
    requires ChunkAt(lines, c, start, gexMat) && ColumnsAt(lines, c, columns)
    ensures columns == Some(Columns(lines)) && gexMat == ChunkOf(lines[start..c])
    ensures gexMat.Valid() && gexMat.Fits(|columns.value|)
  {
    SliceFits(lines, start, c);
  }

  /** Flush number `k + 1` appends the frame built from chunk `k`, which
      ends at line `c`. */
  lemma {:induction false} FlushStep(lines: seq<string>, dr: string, meta: map<string, string>, dir0: Dir, k: nat, k': nat,
                  start: nat, c: nat, columns: Option<seq<string>>, gexMat: Chunk, dir: Dir, dir': Dir)
    requires |lines| >= 3 && k < AllFlushes(|lines|) && k' == k + 1
    requires start == ChunkStart(k) <= c == ChunkEnd(k, |lines|)
    requires DirAt(lines, dr, meta, dir0, k, dir)
    requires columns == Some(Columns(lines)) && gexMat == ChunkOf(lines[start..c])
    requires gexMat.Fits(|columns.value|)
    requires dir' == Flushed(dir, dr, Tag(Melt(gexMat, columns.value), meta))
    ensures DirAt(lines, dr, meta, dir0, k', dir')
  {
    var frames := Frames(lines, meta);
    FrameOfChunk(lines, meta, k, start, c, columns, gexMat);
    AfterNextFrame(dir0, dr, frames, k, k', dir, dir');
  }

  /** The frame of flush `k + 1` is the one built from chunk `k`'s dictionary. */
  lemma {:induction false} FrameOfChunk(lines: seq<string>, meta: map<string, string>, k: nat,
                                        start: nat, c: nat, columns: Option<seq<string>>, gexMat: Chunk)
    requires RowsFit(lines) && |lines| >= 3 && k < AllFlushes(|lines|)
    requires start == ChunkStart(k) <= c == ChunkEnd(k, |lines|)
    requires columns == Some(Columns(lines)) && gexMat == ChunkOf(lines[start..c])
    requires gexMat.Fits(|columns.value|)
    ensures Frames(lines, meta)[k] == Tag(Melt(gexMat, columns.value), meta)
  {
    assert ChunkRows(lines, k) == lines[start..c];
  }

  /** A run ends with the `NameError` on a short file, and otherwise with
      the directory left by its last flush. */
  lemma {:induction false} SpliceEnd(lines: seq<string>, dr: string, meta: map<string, string>, dir0: Dir, k: nat, dir: Dir)
    requires RowsFit(lines)
    requires |lines| >= 3 ==> k == AllFlushes(|lines|) && DirAt(lines, dr, meta, dir0, k, dir)
    ensures Splice(lines, dr, meta, dir0) == if |lines| < 3 then ColumnsUnbound else Written(dir)
  {
  }

  /** Chunk sizes: the first chunk flushed in the loop holds the 998 gene
      lines 4 .. 1001, every later one the 1000 lines after the previous
      flush, and the chunk left for the final flush fewer than 1000. */
  lemma {:induction false} ChunkSizes(n: nat, k: nat)
    requires n >= 3 && k <= InLoopFlushes(n)
    ensures k < InLoopFlushes(n) ==> ChunkEnd(k, n) - ChunkStart(k) == if k == 0 then 998 else 1000
    ensures k == InLoopFlushes(n) ==> ChunkEnd(k, n) == n && n - ChunkStart(k) < 1000
  {
    var q := (n - 1) / 1000;
    assert n - 1 == 1000 * q + (n - 1) % 1000;
  }

  /** Each chunk starts where the one before it ended. */
  lemma {:induction false} ChunksAdjoin(n: nat, k: nat)
    requires n >= 3 && k < InLoopFlushes(n)
    ensures ChunkStart(k + 1) == ChunkEnd(k, n)
  {
    var q := (n - 1) / 1000;
    assert n - 1 == 1000 * q + (n - 1) % 1000;
  }

  /** The gene lines of the first `m` chunks, one chunk after another. */
  function ChunkedRows(lines: seq<string>, m: nat): seq<string>
    requires |lines| >= 3 && m <= InLoopFlushes(|lines|) + 1
  {
    if m == 0 then [] else ChunkedRows(lines, m - 1) + ChunkRows(lines, m - 1)
  }

  /** The first `m` = `k + 1` chunks are the data lines up to the end of
      chunk `k`, nothing lost, repeated or reordered. */
  lemma {:induction false} ChunksPrefix(lines: seq<string>, k: nat, m: nat)
    requires |lines| >= 3 && k <= InLoopFlushes(|lines|) && m == k + 1
    ensures ChunkEnd(k, |lines|) <= |lines|
    ensures ChunkedRows(lines, m) == lines[3..ChunkEnd(k, |lines|)]
  {
    var n := |lines|;
    var end := ChunkEnd(k, n);
    var rows := ChunkRows(lines, k);
    assert ChunkedRows(lines, m) == ChunkedRows(lines, k) + rows;
    assert rows == lines[ChunkStart(k)..end];
    if k == 0 {
      assert ChunkedRows(lines, 0) == [];
    } else {
      ChunksPrefix(lines, k - 1, k);
      ChunksAdjoin(n, k - 1);
      var mid := ChunkEnd(k - 1, n);
      assert lines[3..mid] + lines[mid..end] == lines[3..end];
    }
  }

  /** The chunks of all flushes partition the data lines: together, in
      order, they are exactly the lines from the fourth on. */
  lemma {:induction false} DataRowsPartitioned(lines: seq<string>)
    requires |lines| >= 3
    ensures ChunkedRows(lines, AllFlushes(|lines|)) == lines[3..]
  {
    var n := |lines|;
    var k := InLoopFlushes(n);
    ChunksPrefix(lines, k, AllFlushes(n));
    ChunkSizes(n, k);
    assert lines[3..n] == lines[3..];
  }

  /** A chunk without gene lines makes a frame without tissues. */
  lemma {:induction false} EmptyChunkFrame(lines: seq<string>, meta: map<string, string>, k: nat)
    requires |lines| >= 3 && RowsFit(lines) && k <= InLoopFlushes(|lines|)
    requires ChunkRows(lines, k) == []
    ensures ChunkFrame(lines, meta, k) == []
  {
    assert ChunkOf(ChunkRows(lines, k)) == EmptyChunk;
  }

  /** In a file of 1000 * j + 1 lines (j >= 1) the last line triggers the
      last in-loop flush, so the chunk left for the final flush is empty. */
  lemma {:induction false} LastChunkEmpty(n: nat)
    requires n > 1000 && n % 1000 == 1
    ensures ChunkStart(InLoopFlushes(n)) == n && ChunkEnd(InLoopFlushes(n), n) == n
  {
    var q := n / 1000;
    assert n == 1000 * q + 1;
    assert InLoopFlushes(n) == q;
  }

  /** When the last line itself triggered a flush (a file of 1000 * j + 1
      lines, j >= 1), the final flush finds an empty dictionary and leaves
      the directory as the last in-loop flush left it. */
  lemma {:induction false} FinalFlushEmpty(lines: seq<string>, dr: string, meta: map<string, string>, dir0: Dir)
    requires RowsFit(lines) && |lines| > 1000 && |lines| % 1000 == 1
    ensures ChunkRows(lines, InLoopFlushes(|lines|)) == []
    ensures Splice(lines, dr, meta, dir0) == Written(AfterFrames(dir0, dr, Frames(lines, meta), InLoopFlushes(|lines|)))
  {
    var n := |lines|;
    var k := InLoopFlushes(n);
    var frames := Frames(lines, meta);
    FinalFrameEmpty(lines, meta);
    AfterEmptyFrame(dir0, dr, frames, k, AllFlushes(n));
  }

  /** The frame of the final flush of such a file is empty. */
  lemma {:induction false} FinalFrameEmpty(lines: seq<string>, meta: map<string, string>)
    requires RowsFit(lines) && |lines| > 1000 && |lines| % 1000 == 1
    ensures ChunkRows(lines, InLoopFlushes(|lines|)) == []
    ensures AllFlushes(|lines|) == InLoopFlushes(|lines|) + 1
    ensures Frames(lines, meta)[InLoopFlushes(|lines|)] == []
  {
    var n := |lines|;
    var k := InLoopFlushes(n);
    LastChunkEmpty(n);
    assert ChunkRows(lines, k) == lines[n..n];
    EmptyChunkFrame(lines, meta, k);
  }

  /** A file with the three header lines and no gene line: the one flush
      writes nothing. */
  lemma {:induction false} NoGeneLines(lines: seq<string>, dr: string, meta: map<string, string>, dir0: Dir)
    requires |lines| == 3
    ensures RowsFit(lines) && Splice(lines, dr, meta, dir0) == Written(dir0)
  {
    assert AllFlushes(3) == 1 && ChunkRows(lines, 0) == lines[3..3];
    EmptyChunkFrame(lines, meta, 0);
    var frames := Frames(lines, meta);
    assert frames[0] == [];
    assert AfterFrames(dir0, dr, frames, 1) == Flushed(AfterFrames(dir0, dr, frames, 0), dr, frames[0]);
    FlushNothing(dir0, dr, []);
  }

  /** Two files that agree from the third line on give the same chunks. */
  lemma {:induction false} SameChunkFrame(lines: seq<string>, other: seq<string>, meta: map<string, string>, k: nat)
    requires |lines| == |other| >= 3 && RowsFit(lines) && RowsFit(other) && k <= InLoopFlushes(|lines|)
    requires forall i :: 2 <= i < |lines| ==> lines[i] == other[i]
    ensures ChunkFrame(lines, meta, k) == ChunkFrame(other, meta, k)
  {
    SameChunkRows(lines, other, k);
  }

  /** Such files have the same columns and the same gene lines in chunk `k`. */
  lemma {:induction false} SameChunkRows(lines: seq<string>, other: seq<string>, k: nat)
    requires |lines| == |other| >= 3 && k <= InLoopFlushes(|lines|)
    requires forall i :: 2 <= i < |lines| ==> lines[i] == other[i]
    ensures Columns(lines) == Columns(other)
    ensures ChunkRows(lines, k) == ChunkRows(other, k)
  {
    var a, b := ChunkStart(k), ChunkEnd(k, |lines|);
    assert lines[2] == other[2];
    assert ChunkRows(lines, k) == lines[a..b];
    assert lines[a..b] == other[a..b];
  }

  /** The first two lines are read and dropped: a file that differs from
      another only there splits the same way. */
  lemma {:induction false} HeaderLinesIgnored(lines: seq<string>, other: seq<string>, dr: string, meta: map<string, string>, dir0: Dir)
    requires |lines| == |other| && RowsFit(lines)
    requires forall i :: 2 <= i < |lines| ==> lines[i] == other[i]
    ensures RowsFit(other) && Frames(lines, meta) == Frames(other, meta)
    ensures Splice(lines, dr, meta, dir0) == Splice(other, dr, meta, dir0)
  {
    if |lines| >= 3 {
      assert lines[2] == other[2];
      forall k | 0 <= k < AllFlushes(|lines|)
        ensures Frames(lines, meta)[k] == Frames(other, meta)[k]
      {
        SameChunkFrame(lines, other, meta, k);
      }
    }
  }

  /** Every frame of a run is tagged from the sample-to-tissue map. */
  lemma {:induction false} FramesTagged(lines: seq<string>, meta: map<string, string>)
    requires RowsFit(lines)
    ensures forall k :: 0 <= k < |Frames(lines, meta)| ==> TaggedBy(Frames(lines, meta)[k], meta)
  {
  }

  /** The whole run on a file with the header lines: each tissue's file
      gains that tissue's group of every flush, in flush order, and only
      records of samples the map sends to that tissue; a path that is no
      tissue's file is neither created nor changed; and no file loses what
      it held. */
  lemma {:induction false} SpliceEffect(lines: seq<string>, dr: string, meta: map<string, string>, dir0: Dir, t: string, p: string)
    requires |lines| >= 3 && RowsFit(lines)
    ensures Splice(lines, dr, meta, dir0).Written?
    ensures var dir := Splice(lines, dr, meta, dir0).dir;
      var added := GroupsOf(Frames(lines, meta), t, AllFlushes(|lines|));
      && Existing(dir, Path(dr, t)) == Existing(dir0, Path(dr, t)) + added
      && (forall i :: 0 <= i < |added| ==>
            added[i].tissue == t && added[i].sample in meta && meta[added[i].sample] == t)
      && (p !in Paths(dr, meta.Values) ==> (p in dir <==> p in dir0) && (p in dir0 ==> dir[p] == dir0[p]))
      && (p in dir0 ==> p in dir && dir0[p] <= dir[p])
  {
    var frames := Frames(lines, meta);
    var m := AllFlushes(|lines|);
    FramesTagged(lines, meta);
    TissueFileAfter(dir0, dr, frames, t, m);
    GroupsMapped(frames, meta, t, m);
    if p !in Paths(dr, meta.Values) {
      forall i | 0 <= i < |frames| ensures TissueSet(frames[i]) <= meta.Values {
        TaggedTissues(frames[i], meta);
      }
      OtherFilesAfter(dir0, dr, frames, meta.Values, p, m);
    }
    if p in dir0 {
      FilesOnlyGrow(dir0, dr, frames, p, m);
    }
  }

  /** Each value of chunk `k`'s dictionary, in a column whose sample the map
      sends to `t`, is a record of flush `k + 1`'s group `t`. */
  lemma {:induction false} ChunkRecordGrouped(lines: seq<string>, meta: map<string, string>, k: nat,
                                              ch: Chunk, g: string, j: nat, t: string)
    requires |lines| >= 3 && RowsFit(lines) && k < AllFlushes(|lines|)
    requires ch == ChunkOf(ChunkRows(lines, k)) && g in ch.values
    requires j < |Columns(lines)| && Columns(lines)[j] in meta && meta[Columns(lines)[j]] == t
    ensures j < |ch.values[g]|
    ensures Row(g, Columns(lines)[j], ch.values[g][j], t) in Group(Frames(lines, meta)[k], t)
  {
    var start, end := ChunkStart(k), ChunkEnd(k, |lines|);
    assert ChunkRows(lines, k) == lines[start..end];
    SliceFits(lines, start, end);
    FrameOfChunk(lines, meta, k, start, end, Some(Columns(lines)), ch);
    MeltRecordGrouped(ch, Columns(lines), meta, g, j, t);
  }

  /** No record is lost: every value of every chunk, in a column whose
      sample the map sends to `t`, ends up in tissue `t`'s file. */
  lemma {:induction false} SpliceWritesEveryRecord(lines: seq<string>, dr: string, meta: map<string, string>, dir0: Dir,
                                                   k: nat, ch: Chunk, g: string, j: nat, t: string)
    requires |lines| >= 3 && RowsFit(lines) && k < AllFlushes(|lines|)
    requires ch == ChunkOf(ChunkRows(lines, k)) && g in ch.values
    requires j < |Columns(lines)| && Columns(lines)[j] in meta && meta[Columns(lines)[j]] == t
    ensures j < |ch.values[g]|
    ensures Splice(lines, dr, meta, dir0).Written?
    ensures Row(g, Columns(lines)[j], ch.values[g][j], t) in Existing(Splice(lines, dr, meta, dir0).dir, Path(dr, t))
  {
    ChunkRecordGrouped(lines, meta, k, ch, g, j, t);
    FrameRecordWritten(dir0, dr, Frames(lines, meta), t, k, AllFlushes(|lines|),
                       Row(g, Columns(lines)[j], ch.values[g][j], t));
  }
}
