/** The expression matrix as the splitter reads it: one tab-separated line
    per `readlines` entry, and the dictionary `gex_mat` that collects the
    gene rows of one chunk. */
module Matrix {
  import opened Strings

  /** The fields of one line: its last character (the newline) is cut off,
      then the rest is split on tabs. */
  function Fields(line: string): (r: seq<string>)
    ensures |r| >= 1
  {
    Split(DropLast(line), '\t')
  }

  /** A gene line's identifier: its first field. */
  function Gene(line: string): (g: string)
    ensures '\t' !in g
    ensures '\t' !in line ==> g == DropLast(line)
  {
    SplitPieces(DropLast(line), '\t');
    Fields(line)[0]
  }

  /** A gene line's expression values, or the header's sample names: the
      fields from the third on. */
  function Values(line: string): (r: seq<string>)
    ensures |Fields(line)| >= 2 ==> Fields(line)[..2] + r == Fields(line)
    ensures |Fields(line)| < 2 ==> r == []
  {
    DropTwo(Fields(line))
  }

  /** The sample columns, taken from the third line of the file. */
  function Columns(lines: seq<string>): seq<string>
    requires |lines| >= 3
  {
    Values(lines[2])
  }

  /** What the source needs of its input for `DataFrame.from_dict` to
      accept every chunk: each gene line has one value per sample column. */
  ghost predicate RowsFit(lines: seq<string>)
  {
    forall i :: 3 <= i < |lines| ==> |Values(lines[i])| == |Values(lines[2])|
  }

  /** The dictionary `gex_mat`: its keys in insertion order, and the map
      itself. Assigning to a key already present keeps that key's position. */
  datatype Chunk = Chunk(genes: seq<string>, values: map<string, seq<string>>)
  {
    ghost predicate Valid()
    {
      && (forall i, j :: 0 <= i < j < |genes| ==> genes[i] != genes[j])
      && (forall g :: g in values <==> g in genes)
    }

    /** Every gene has exactly `width` values. */
    ghost predicate Fits(width: nat)
    {
      forall g :: g in values ==> |values[g]| == width
    }
  }

  const EmptyChunk: Chunk := Chunk([], map[])

  /** `gex_mat[gene] = vals`. */
  function Put(ch: Chunk, gene: string, vals: seq<string>): (r: Chunk)
    requires ch.Valid()
    ensures r.Valid()
    ensures r.values == ch.values[gene := vals]
    ensures ch.genes <= r.genes
    ensures |r.genes| == if gene in ch.values then |ch.genes| else |ch.genes| + 1
  {
    if gene in ch.values then Chunk(ch.genes, ch.values[gene := vals])
    else Chunk(ch.genes + [gene], ch.values[gene := vals])
  }

  /** The dictionary after the given gene lines were stored, in order, into
      an empty one. Its keys are exactly the lines' gene identifiers. */
  function ChunkOf(rows: seq<string>): (r: Chunk)
    ensures r.Valid()
    ensures |r.genes| <= |rows|
  {
    if rows == [] then EmptyChunk
    else
      var prev := rows[..|rows| - 1];
      var r := Put(ChunkOf(prev), Gene(rows[|rows| - 1]), Values(rows[|rows| - 1]));
      r
  }

  /** Storing one more gene line into the dictionary of the lines before it. */
  lemma {:induction false} ChunkSnoc(rows: seq<string>, prev: seq<string>, line: string)
    requires rows == prev + [line]
    ensures ChunkOf(rows) == Put(ChunkOf(prev), Gene(line), Values(line))
  {
    assert rows[..|rows| - 1] == prev;
  }

  /** The same for a run of lines `a .. i` of a file. */
  lemma {:induction false} ChunkSlice(lines: seq<string>, a: nat, i: nat)
    requires a <= i < |lines|
    ensures ChunkOf(lines[a..i + 1]) == Put(ChunkOf(lines[a..i]), Gene(lines[i]), Values(lines[i]))
  {
    ChunkSnoc(lines[a..i + 1], lines[a..i], lines[i]);
  }

  /** The dictionary's keys are exactly the lines' gene identifiers. */
  lemma {:induction false} ChunkKeys(rows: seq<string>)
    ensures ChunkOf(rows).values.Keys == GenesOf(rows)
  {
    if rows != [] {
      ChunkKeys(rows[..|rows| - 1]);
    }
  }

  /** The gene identifiers of some gene lines. */
  function GenesOf(rows: seq<string>): set<string>
  {
    if rows == [] then {} else GenesOf(rows[..|rows| - 1]) + {Gene(rows[|rows| - 1])}
  }

  /** A repeated gene keeps only the values of its last line. */
  lemma {:induction false} ChunkLastWins(rows: seq<string>, i: nat)
    requires i < |rows|
    requires forall j :: i < j < |rows| ==> Gene(rows[j]) != Gene(rows[i])
    ensures Gene(rows[i]) in ChunkOf(rows).values
    ensures ChunkOf(rows).values[Gene(rows[i])] == Values(rows[i])
  {
    if i < |rows| - 1 {
      var prev := rows[..|rows| - 1];
      assert forall j :: 0 <= j < |prev| ==> prev[j] == rows[j];
      ChunkLastWins(prev, i);
    }
  }

  /** Lines that each carry `width` values make a chunk of that width. */
  lemma {:induction false} ChunkFits(rows: seq<string>, width: nat)
    requires forall i :: 0 <= i < |rows| ==> |Values(rows[i])| == width
    ensures ChunkOf(rows).Fits(width)
  {
    if rows != [] {
      ChunkFits(rows[..|rows| - 1], width);
    }
  }
}
