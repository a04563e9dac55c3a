/** One flush's reshaping: `melt` turns the chunk into one record per
    (gene, sample) pair, the sample-to-tissue map tags each record, and
    `groupby("Tissue")` splits the tagged records per tissue. */
module LongForm {
  import opened Strings
  import opened Matrix

  /** A melted record: the gene (the frame's index), the sample (`variable`)
      and the expression value (`value`), kept as text. */
  datatype LongRow = LongRow(gene: string, sample: string, value: string)

  /** A melted record with its `Tissue` column; `None` is the NaN that
      `Series.map` gives a sample missing from the map. */
  datatype TaggedRow = TaggedRow(gene: string, sample: string, value: string, tissue: Option<string>)

  /** A record as `to_csv` writes it into a tissue file: index, `variable`,
      `value`, `Tissue`. */
  datatype Row = Row(gene: string, sample: string, value: string, tissue: string)

  /** The records melt emits for the sample in column `j`: one per gene, in
      the dictionary's key order. */
  function MeltColumn(ch: Chunk, columns: seq<string>, j: nat): (r: seq<LongRow>)
    requires ch.Valid() && ch.Fits(|columns|) && j < |columns|
    ensures |r| == |ch.genes|
  {
    seq(|ch.genes|, i requires 0 <= i < |ch.genes| =>
      assert ch.genes[i] in ch.genes;
      LongRow(ch.genes[i], columns[j], ch.values[ch.genes[i]][j]))
  }

  /** The records of the first `m` columns, sample-major as `melt` emits them. */
  function MeltFirst(ch: Chunk, columns: seq<string>, m: nat): (r: seq<LongRow>)
    requires ch.Valid() && ch.Fits(|columns|) && m <= |columns|
    ensures |r| == m * |ch.genes|
  {
    if m == 0 then []
    else MeltFirst(ch, columns, m - 1) + MeltColumn(ch, columns, m - 1)
  }

  /** `DataFrame.from_dict(gex_mat, orient="index", columns=columns).melt(ignore_index=False)`. */
  function Melt(ch: Chunk, columns: seq<string>): (r: seq<LongRow>)
    requires ch.Valid() && ch.Fits(|columns|)
    ensures |r| == |columns| * |ch.genes|
  {
    MeltFirst(ch, columns, |columns|)
  }

  /** The record of gene `i` and column `j` sits at position `j * |genes| + i`:
      melt is the full cross product genes x columns, sample-major, and each
      record carries that gene's value at that column's position. */
  lemma {:induction false} MeltAt(ch: Chunk, columns: seq<string>, m: nat, j: nat, i: nat)
    requires ch.Valid() && ch.Fits(|columns|) && m <= |columns|
    requires j < m && i < |ch.genes|
    ensures j * |ch.genes| + i < |MeltFirst(ch, columns, m)|
    ensures ch.genes[i] in ch.values
    ensures MeltFirst(ch, columns, m)[j * |ch.genes| + i]
         == LongRow(ch.genes[i], columns[j], ch.values[ch.genes[i]][j])
  {
    var n := |ch.genes|;
    assert ch.genes[i] in ch.genes;
    assert (m - 1) * n + n == m * n;
    if j < m - 1 {
      MeltAt(ch, columns, m - 1, j, i);
      assert j * n + i < (m - 1) * n by {
        assert (j + 1) * n <= (m - 1) * n;
        assert (j + 1) * n == j * n + n;
      }
    } else {
      assert j * n == (m - 1) * n;
    }
  }

  /** Melt emits nothing but such pairs: every record is some gene of the
      chunk with some column's sample and that gene's value in that column. */
  lemma {:induction false} MeltOnlyPairs(ch: Chunk, columns: seq<string>, m: nat, k: nat)
    requires ch.Valid() && ch.Fits(|columns|) && m <= |columns|
    requires k < |MeltFirst(ch, columns, m)|
    ensures exists i, j ::
      (0 <= i < |ch.genes| && 0 <= j < m && ch.genes[i] in ch.values
       && MeltFirst(ch, columns, m)[k] == LongRow(ch.genes[i], columns[j], ch.values[ch.genes[i]][j]))
  {
    var prev := MeltFirst(ch, columns, m - 1);
    if k < |prev| {
      MeltOnlyPairs(ch, columns, m - 1, k);
    } else {
      var i := k - |prev|;
      assert ch.genes[i] in ch.genes;
      assert MeltFirst(ch, columns, m)[k] == LongRow(ch.genes[i], columns[m - 1], ch.values[ch.genes[i]][m - 1]);
    }
  }

  /** How many records of `rows` belong to `gene`. */
  function CountGene(rows: seq<LongRow>, gene: string): nat
  {
    if rows == [] then 0
    else CountGene(rows[..|rows| - 1], gene) + (if rows[|rows| - 1].gene == gene then 1 else 0)
  }

  lemma {:induction false} CountGeneAppend(a: seq<LongRow>, b: seq<LongRow>, gene: string)
    ensures CountGene(a + b, gene) == CountGene(a, gene) + CountGene(b, gene)
  {
    if b != [] {
      assert (a + b)[..|a + b| - 1] == a + b[..|b| - 1];
      CountGeneAppend(a, b[..|b| - 1], gene);
    } else {
      assert a + b == a;
    }
  }

  /** In one column's records a gene of the chunk occurs once, any other
      gene not at all (the dictionary holds each key once). */
  lemma {:induction false} CountGeneColumn(ch: Chunk, columns: seq<string>, j: nat, n: nat, gene: string)
    requires ch.Valid() && ch.Fits(|columns|) && j < |columns| && n <= |ch.genes|
    ensures CountGene(MeltColumn(ch, columns, j)[..n], gene) == if gene in ch.genes[..n] then 1 else 0
  {
    var col := MeltColumn(ch, columns, j);
    if n > 0 {
      assert col[..n][..n - 1] == col[..n - 1];
      CountGeneColumn(ch, columns, j, n - 1, gene);
      assert ch.genes[..n] == ch.genes[..n - 1] + [ch.genes[n - 1]];
      if ch.genes[n - 1] == gene {
        assert gene !in ch.genes[..n - 1];
      }
    }
  }

  /** One column's records hold a gene of the chunk once, any other gene
      not at all. */
  lemma {:induction false} ColumnGeneCount(ch: Chunk, columns: seq<string>, j: nat, gene: string)
    requires ch.Valid() && ch.Fits(|columns|) && j < |columns|
    ensures CountGene(MeltColumn(ch, columns, j), gene) == if gene in ch.values then 1 else 0
  {
    var col := MeltColumn(ch, columns, j);
    CountGeneColumn(ch, columns, j, |ch.genes|, gene);
    assert col[..|ch.genes|] == col;
    assert ch.genes[..|ch.genes|] == ch.genes;
  }

  /** After dictionary overwrites, a gene contributes exactly one record per
      sample column to a flush, and a gene not in the chunk none. */
  lemma {:induction false} MeltGeneCount(ch: Chunk, columns: seq<string>, m: nat, gene: string)
    requires ch.Valid() && ch.Fits(|columns|) && m <= |columns|
    ensures CountGene(MeltFirst(ch, columns, m), gene) == if gene in ch.values then m else 0
  {
    if m > 0 {
      MeltGeneCount(ch, columns, m - 1, gene);
      MeltGeneStep(ch, columns, m - 1, m, gene);
    }
  }

  /** Adding column `j` adds the gene's one record, or none. */
  lemma {:induction false} MeltGeneStep(ch: Chunk, columns: seq<string>, j: nat, m: nat, gene: string)
    requires ch.Valid() && ch.Fits(|columns|) && m == j + 1 && m <= |columns|
    ensures CountGene(MeltFirst(ch, columns, m), gene)
         == CountGene(MeltFirst(ch, columns, j), gene) + (if gene in ch.values then 1 else 0)
  {
    var prev := MeltFirst(ch, columns, j);
    var col := MeltColumn(ch, columns, j);
    assert MeltFirst(ch, columns, m) == prev + col;
    CountGeneAppend(prev, col, gene);
    ColumnGeneCount(ch, columns, j, gene);
  }

  /** Every record carries the tissue the map gives its sample, and NaN
      when the map has no entry for it. */
  ghost predicate TaggedBy(frame: seq<TaggedRow>, meta: map<string, string>)
  {
    forall k :: 0 <= k < |frame| ==>
      frame[k].tissue == if frame[k].sample in meta then Some(meta[frame[k].sample]) else None
  }

  /** `gex_mat["variable"].map(sample_meta_d)`: each record gets its sample's
      tissue, or NaN when the sample is not in the map. */
  function Tag(rows: seq<LongRow>, meta: map<string, string>): (r: seq<TaggedRow>)
    ensures |r| == |rows| && TaggedBy(r, meta)
    ensures forall k :: 0 <= k < |rows| ==>
      LongRow(r[k].gene, r[k].sample, r[k].value) == rows[k]
  {
    seq(|rows|, k requires 0 <= k < |rows| =>
      TaggedRow(rows[k].gene, rows[k].sample, rows[k].value,
                if rows[k].sample in meta then Some(meta[rows[k].sample]) else None))
  }

  /** The tissues that form groups: NaN is not among them. */
  function TissueSet(frame: seq<TaggedRow>): set<string>
  {
    if frame == [] then {}
    else
      var last := frame[|frame| - 1];
      TissueSet(frame[..|frame| - 1]) + (if last.tissue.Some? then {last.tissue.value} else {})
  }

  /** `grouped_df.get_group(t)`: the records tagged `t`, in frame order. */
  function Group(frame: seq<TaggedRow>, t: string): (r: seq<Row>)
    ensures |r| <= |frame|
  {
    if frame == [] then []
    else
      var last := frame[|frame| - 1];
      Group(frame[..|frame| - 1], t)
        + (if last.tissue == Some(t) then [Row(last.gene, last.sample, last.value, t)] else [])
  }

  /** Every record of group `t` is tagged `t`, and the group is empty
      exactly when no record of the frame is tagged `t`. */
  lemma {:induction false} GroupSpec(frame: seq<TaggedRow>, t: string)
    ensures forall k :: 0 <= k < |Group(frame, t)| ==> Group(frame, t)[k].tissue == t
    ensures Group(frame, t) != [] <==> t in TissueSet(frame)
  {
    if frame != [] {
      GroupSpec(frame[..|frame| - 1], t);
    }
  }

  /** No record is lost: every record of the frame tagged `t` is in group
      `t`. */
  lemma {:induction false} GroupComplete(frame: seq<TaggedRow>, t: string, k: nat)
    requires k < |frame| && frame[k].tissue == Some(t)
    ensures Row(frame[k].gene, frame[k].sample, frame[k].value, t) in Group(frame, t)
  {
    var prev := frame[..|frame| - 1];
    if k < |prev| {
      assert prev[k] == frame[k];
      GroupComplete(prev, t, k);
    }
  }

  /** A one-record frame gives that record to its tissue's group and to no
      other. */
  lemma {:induction false} GroupOne(x: TaggedRow, t: string)
    ensures Group([x], t) == if x.tissue == Some(t) then [Row(x.gene, x.sample, x.value, t)] else []
  {
    assert [x][..0] == [];
  }

  /** Grouping keeps frame order: the group of two frames one after the
      other is the group of the first followed by the group of the second.
      With `GroupOne` this fixes `Group` as the order-preserving filter. */
  lemma {:induction false} GroupAppend(a: seq<TaggedRow>, b: seq<TaggedRow>, t: string)
    ensures Group(a + b, t) == Group(a, t) + Group(b, t)
  {
    if b == [] {
      assert a + b == a;
    } else {
      assert (a + b)[..|a + b| - 1] == a + b[..|b| - 1];
      GroupAppend(a, b[..|b| - 1], t);
    }
  }

  /** Each value of the chunk, in a column whose sample the map sends to
      `t`, reaches group `t` of the tagged melt. */
  lemma {:induction false} MeltRecordGrouped(ch: Chunk, columns: seq<string>, meta: map<string, string>,
                                             g: string, j: nat, t: string)
    requires ch.Valid() && ch.Fits(|columns|) && g in ch.values
    requires j < |columns| && columns[j] in meta && meta[columns[j]] == t
    ensures j < |ch.values[g]|
    ensures Row(g, columns[j], ch.values[g][j], t) in Group(Tag(Melt(ch, columns), meta), t)
  {
    assert g in ch.genes;
    var i :| 0 <= i < |ch.genes| && ch.genes[i] == g;
    MeltAt(ch, columns, |columns|, j, i);
    var melted := Melt(ch, columns);
    var frame := Tag(melted, meta);
    var idx := j * |ch.genes| + i;
    assert melted[idx] == LongRow(g, columns[j], ch.values[g][j]);
    assert frame[idx].tissue == Some(t);
    GroupComplete(frame, t, idx);
  }

  /** The rows of group `t` are records of the frame tagged `t`; in a
      tagged frame their samples are those the map sends to `t`, so a
      sample missing from the map is in no group. */
  lemma {:induction false} GroupRowsMapped(frame: seq<TaggedRow>, meta: map<string, string>, t: string)
    requires TaggedBy(frame, meta)
    ensures forall k :: 0 <= k < |Group(frame, t)| ==>
      var row := Group(frame, t)[k];
      row.sample in meta && meta[row.sample] == t
        && TaggedRow(row.gene, row.sample, row.value, Some(t)) in frame
  {
    if frame != [] {
      var prev := frame[..|frame| - 1];
      assert forall k :: 0 <= k < |prev| ==> prev[k] == frame[k];
      GroupRowsMapped(prev, meta, t);
    }
  }

  /** In a tagged frame every group's tissue is a value of the map. */
  lemma {:induction false} TaggedTissues(frame: seq<TaggedRow>, meta: map<string, string>)
    requires TaggedBy(frame, meta)
    ensures TissueSet(frame) <= meta.Values
  {
    if frame != [] {
      var prev := frame[..|frame| - 1];
      assert forall k :: 0 <= k < |prev| ==> prev[k] == frame[k];
      TaggedTissues(prev, meta);
    }
  }

  /** The group keys, each once, in order of first appearance. */
  function TissueOrder(frame: seq<TaggedRow>): (r: seq<string>)
    ensures forall i, j :: 0 <= i < j < |r| ==> r[i] != r[j]
    ensures forall t :: t in r <==> t in TissueSet(frame)
  {
    if frame == [] then []
    else
      var prev := TissueOrder(frame[..|frame| - 1]);
      var last := frame[|frame| - 1];
      if last.tissue.Some? && last.tissue.value !in prev then prev + [last.tissue.value] else prev
  }
}
