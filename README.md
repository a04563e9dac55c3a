# GTEx splitter and NetOGlyc row picker, in Dafny

This project models two small Python scripts.

**`gcf_splicer`** (in `gtex_splitter.py`) splits a GTEx expression matrix into
one CSV file per tissue. It works as follows:

- It reads the matrix line by line.
- The third line gives the sample columns.
- Every later line is stored into a dictionary keyed by gene, so a repeated
  gene overwrites the earlier line and keeps its place.
- After lines 1001, 2001, 3001, … counted from the top of the file (the
  test `c - cc*1000 > 1000` first holds at `c = 1001`), and once more after
  the last line, the dictionary is flushed. An in-loop flush then clears
  it; the final flush does not. A flush does four things:
  - it melts the dictionary into (gene, sample, value) records, sample by
    sample;
  - it tags each record with its sample's tissue from a sample-to-tissue map,
    which gives NaN for an unmapped sample;
  - it groups the records by tissue, and records tagged NaN fall out;
  - it appends each group to `dr + "/" + tissue + ".csv"`.

**`parse_netoglyc`** (in `netoglyc_parser.py`) picks the data rows out of a
NetOGlyc report. It runs `re.findall` with
`(?<=\n)[A-Za-z0-9]+\s+[ST]\s+.*(?=\n)` and puts a fixed header line above the
rows, joined with newlines.

The modules are:

- `Strings` (`strings.dfy`): Python's `s[:-1]`, `xs[2:]`, `split` and `join`.
- `Matrix` (`matrix.dfy`): the fields of a line. It also holds the dictionary
  `gex_mat` as a `Chunk`: the keys in insertion order plus the map.
- `LongForm` (`long_form.dfy`): `melt`, the tissue tagging with
  `Series.map`, and `groupby`/`get_group`.
- `TissueFiles` (`tissue_files.dfy`): the output directory as a map from path
  to the records written there. `mode='a'` appends. `AppendGroups` is the
  loop over the groups.
- `SpliceSpec` (`splice_spec.dfy`): the whole run stated over the whole file.
  It gives the flush schedule, the chunks, the frame of each flush and the
  directory after each flush (`Splice`). It also holds the lemmas about the
  run and the facts one loop step needs.
- `Splitter` (`splitter.dfy`): `gcf_splicer` itself, as a method. Its `for`
  loop keeps the counters `c` and `cc`, `columns`, the dictionary and the
  directory. The loop body is split into `ReadLine` (`gtex_splitter.py:19-24`) and
  `TestFlush` (`gtex_splitter.py:25-33`). `FinalFlush` is the flush after the loop. The
  method is proved to give `Splice` of its input.
- `NetOGlyc` (`netoglyc.dfy`): the regular expression as Python's `re` runs
  it, the `findall` scan, the header, and the joined text.

Inputs are parameters, and the model has no I/O:

- the file's lines as `readlines` returns them;
- the sample-to-tissue map;
- the directory name;
- the files already in the directory.

A file is the sequence of records written into it.

### Behaviour worth knowing

- **When flushes happen.** The flush test `c - cc*1000 > 1000` counts lines
  from the top of the file, header lines included, not gene rows.
  - The first chunk holds the 998 gene lines 4 to 1001. Each later chunk
    holds 1000 lines (`SpliceSpec.ChunkSizes`).
  - The final flush finds an empty dictionary when the file has 1000·j + 1
    lines (`SpliceSpec.FinalFlushEmpty`). That is not the case when the gene
    row count is a multiple of 1000.
- **Order of records.** `melt` emits records sample by sample, not gene by
  gene (`LongForm.MeltAt`). For two genes A, B and samples S1, S2, a tissue
  file gets (A,S1), (B,S1), (A,S2), (B,S2).
- **Values are not numbers.** Expression values stay the strings cut from
  the line. Nothing converts them.
- **Rows can span lines.** The row picker does not select whole lines. `\s`
  also matches a newline, so a row can run over a line break
  (`NetOGlyc.RowAcrossLines`). The lookbehind keeps the first line out
  (`NetOGlyc.FirstLineNeverSelected`). The lookahead keeps out a last line
  that has no newline after it (`NetOGlyc.LastLineNeverSelected`).

## Model

| member | source | states |
|---|---|---|
| Strings.DropLast | scripts/py/gtex_splitter.py:19 | `line[:-1]` removes exactly the last character: putting it back gives the line. An empty line stays empty. |
| Strings.DropTwo | scripts/py/gtex_splitter.py:22 | `xs[2:]` is what follows the first two fields. It is empty when there are fewer than two. |
| Strings.SplitPieces | scripts/py/gtex_splitter.py:19 | No piece of `split("\t")` holds a tab. |
| Strings.JoinSplit | scripts/py/gtex_splitter.py:19 | Joining the pieces of a split with the separator gives the string back, so splitting loses no character. |
| Strings.Split | scripts/py/gtex_splitter.py:19 | `str.split` always gives at least one piece. With `Strings.SplitPieces` and `Strings.JoinSplit` this fixes the pieces: tab-free strings that join back to the line. |
| Strings.Join | scripts/py/netoglyc_parser.py:19 | `sep.join(parts)` starts with the first part. When there is a second part, the separator follows the first. |
| Strings.SplitJoin | scripts/py/netoglyc_parser.py:19 | Splitting a newline join of parts without newlines gives the parts back. |
| Matrix.Fields | scripts/py/gtex_splitter.py:19 | A line always gives at least one field, so `line[0]` exists. |
| Matrix.Gene | scripts/py/gtex_splitter.py:24 | `line[0]` holds no tab. A line without tabs is its own gene identifier, minus the last character. |
| Matrix.Values | scripts/py/gtex_splitter.py:22-24 | `line[2:]` is what follows the first two fields: the first two fields followed by it give the fields back. It is empty when there are fewer than two fields. |
| Matrix.Columns | scripts/py/gtex_splitter.py:21-22 | `columns` is `Values` of the third line. It has no contract of its own; see `Matrix.Values`. |
| Matrix.Put | scripts/py/gtex_splitter.py:24 | `gex_mat[gene] = vals` sets that key in the map. Existing keys keep their order, and a new key goes last. Keys stay distinct. |
| Matrix.ChunkOf | scripts/py/gtex_splitter.py:23-24 | The dictionary built from gene lines stored in order has distinct keys. Its key list and its map agree. It has no more keys than lines. |
| Matrix.ChunkSnoc | scripts/py/gtex_splitter.py:24 | The dictionary of one more line is the previous dictionary with that line stored. |
| Matrix.ChunkSlice | scripts/py/gtex_splitter.py:23-24 | The same fact for a run of lines of the file. |
| Matrix.ChunkKeys | scripts/py/gtex_splitter.py:24 | The dictionary's keys are exactly the gene identifiers of the lines. |
| Matrix.ChunkLastWins | scripts/py/gtex_splitter.py:24 | A gene that occurs more than once keeps the values of its last line. |
| Matrix.ChunkFits | scripts/py/gtex_splitter.py:22-24 | When every line has `width` values, every gene in the dictionary has `width` values. |
| LongForm.MeltColumn | scripts/py/gtex_splitter.py:27 | One sample column gives one record per gene of the dictionary. |
| LongForm.MeltFirst | scripts/py/gtex_splitter.py:27 | The first `m` columns give `m` times the number of genes records. |
| LongForm.Melt | scripts/py/gtex_splitter.py:27 | `melt` gives columns × genes records. |
| LongForm.MeltAt | scripts/py/gtex_splitter.py:27 | Record `j·|genes| + i` is gene `i`, sample `j` and that gene's value in column `j`, so melt runs sample by sample. |
| LongForm.MeltOnlyPairs | scripts/py/gtex_splitter.py:27 | Every melted record is some (gene, column) pair with that gene's value there. |
| LongForm.CountGeneColumn | scripts/py/gtex_splitter.py:27 | Among the first `n` records of a column, a gene occurs once if it is among the first `n` genes, and otherwise never. |
| LongForm.ColumnGeneCount | scripts/py/gtex_splitter.py:27 | One column holds each gene of the dictionary once and any other gene never. |
| LongForm.MeltGeneCount | scripts/py/gtex_splitter.py:24-27 | After overwrites, a gene gives exactly one record per sample column, and a gene not in the chunk gives none. |
| LongForm.Tag | scripts/py/gtex_splitter.py:28 | `map(sample_meta_d)` tags every record with its sample's tissue, or NaN (`None`) when the sample is not mapped. Gene, sample and value are unchanged. |
| LongForm.Group | scripts/py/gtex_splitter.py:29-31 | A group has no more records than the frame. Its contents are fixed by `LongForm.GroupSpec`, `LongForm.GroupComplete`, `LongForm.GroupOne` and `LongForm.GroupAppend`. |
| LongForm.GroupComplete | scripts/py/gtex_splitter.py:29-31 | `get_group(t)` keeps every record of the frame tagged `t`. |
| LongForm.GroupOne | scripts/py/gtex_splitter.py:29-31 | A one-record frame puts that record in its tissue's group and in no other. |
| LongForm.GroupAppend | scripts/py/gtex_splitter.py:29-31 | The group of two frames one after the other is the first frame's group followed by the second's. With `LongForm.GroupOne` this makes `Group` the order-preserving filter on tissue `t`. |
| LongForm.MeltRecordGrouped | scripts/py/gtex_splitter.py:27-31 | Every value of the dictionary whose column's sample maps to `t` becomes a record of group `t`. |
| LongForm.GroupSpec | scripts/py/gtex_splitter.py:29-31 | Every record of group `t` is tagged `t`. The group is non-empty exactly when some record of the frame is tagged `t`. |
| LongForm.TissueSet | scripts/py/gtex_splitter.py:29-30 | The keys of `groupby("Tissue")`: the tissues some record carries, NaN excluded. It has no contract of its own; `LongForm.GroupSpec` shows a tissue is in it exactly when its group is non-empty, and `LongForm.TaggedTissues` that every one is a value of the sample map. |
| LongForm.GroupRowsMapped | scripts/py/gtex_splitter.py:28-31 | Every record of group `t` comes from the frame, and its sample is one the map sends to `t`. So an unmapped sample is in no group. |
| LongForm.TaggedTissues | scripts/py/gtex_splitter.py:28-30 | Every group key of a tagged frame is a tissue of the map. |
| LongForm.TissueOrder | scripts/py/gtex_splitter.py:30 | `grouped_df.groups` lists each present tissue exactly once, and nothing else. |
| TissueFiles.Path | scripts/py/gtex_splitter.py:31 | The file name adds exactly the five characters of `/` and `.csv` to the directory and the tissue. `TissueFiles.PathRoundTrip` reads the tissue back from it. |
| TissueFiles.PathRoundTrip | scripts/py/gtex_splitter.py:31 | The tissue can be read back from its file name. |
| TissueFiles.PathInjective | scripts/py/gtex_splitter.py:31 | Two tissues never share a path string. Distinct labels can still name one file on disk; see `TissueFiles.Path` under Left out. |
| TissueFiles.Flushed | scripts/py/gtex_splitter.py:29-31 | The directory after one flush. It has no contract of its own; `TissueFiles.FlushEffect` states what it is. |
| TissueFiles.FlushEffect | scripts/py/gtex_splitter.py:29-31 | After a flush, each present tissue's file holds its old records followed by that tissue's group. Every other path is unchanged, created or not as before. Every old file keeps its records as a prefix. |
| TissueFiles.FlushTissue | scripts/py/gtex_splitter.py:29-31 | Any tissue's file after a flush is its old records followed by its group, which is empty for an absent tissue. |
| TissueFiles.FlushOther | scripts/py/gtex_splitter.py:29-31 | A path that is no file of the frame's tissues is neither created nor changed. |
| TissueFiles.FlushNothing | scripts/py/gtex_splitter.py:34-38 | A flush of a frame with no tissue leaves the directory exactly as it was, with no new file. |
| TissueFiles.AppendOne | scripts/py/gtex_splitter.py:31 | Appending one more tissue's group changes that tissue's file only. |
| TissueFiles.AppendGroups | scripts/py/gtex_splitter.py:30-31 | The loop over the groups, in any order that lists each present tissue once, leaves the directory `Flushed` describes. |
| TissueFiles.AfterEmptyFrame | scripts/py/gtex_splitter.py:34-38 | A flush of an empty frame changes nothing. |
| TissueFiles.TissueFileStep | scripts/py/gtex_splitter.py:31 | Flush `k` appends tissue `t`'s group of frame `k - 1` (frames counted from 0) to `t`'s file. |
| TissueFiles.TissueFileAfter | scripts/py/gtex_splitter.py:25-38 | After `k` flushes, a tissue's file is its old records followed by that tissue's group from each flush, in flush order. |
| TissueFiles.OtherFilesAfter | scripts/py/gtex_splitter.py:31 | Over many flushes, a path that is no tissue's file is neither created nor changed. |
| TissueFiles.FilesOnlyGrow | scripts/py/gtex_splitter.py:31 | With `mode='a'`, a file that existed keeps its records as a prefix. |
| TissueFiles.GroupsOfContains | scripts/py/gtex_splitter.py:31 | A record of tissue `t`'s group in any of the first `m` flushes is among what those flushes append to `t`'s file. |
| TissueFiles.FrameRecordWritten | scripts/py/gtex_splitter.py:31 | A record of group `t` of frame `k` is in `t`'s file after flush `k + 1` and every later flush. |
| TissueFiles.GroupsMapped | scripts/py/gtex_splitter.py:28-31 | Every record appended to tissue `t`'s file is tagged `t` and comes from a sample the map sends to `t`. |
| SpliceSpec.FlushTest | scripts/py/gtex_splitter.py:20-26 | The test `c - cc*1000 > 1000` fires exactly on lines 1001, 2001, … and keeps `0 <= c - 1 - 1000·cc <= 1000`. |
| SpliceSpec.InLoopFlushes | scripts/py/gtex_splitter.py:25-26 | The value of `cc` after `c` lines, each followed by the flush test. It has no contract of its own; `SpliceSpec.FlushTest`, `SpliceSpec.FlushIndex` and `SpliceSpec.FinalIndex` show it is what the loop's counter holds. |
| SpliceSpec.AllFlushes | scripts/py/gtex_splitter.py:25-38 | The number of flushes of a run: the in-loop ones plus the final one at :34-38, none for a file too short to bind `columns`. It has no contract of its own; `SpliceSpec.FinalIndex` ties it to `cc + 1` after the loop and `SpliceSpec.Frames` gives one frame per flush. |
| SpliceSpec.FlushIndex | scripts/py/gtex_splitter.py:25-26 | The flush on line 1000·cc + 1001 ends chunk `cc` and is flush `cc + 1`. |
| SpliceSpec.FinalIndex | scripts/py/gtex_splitter.py:34 | After the loop, `cc` is the number of in-loop flushes and the last chunk runs to the end of the file. |
| TissueFiles.AfterFrames | scripts/py/gtex_splitter.py:25-38 | The directory after the first `k` flushes. It has no contract of its own; see `TissueFiles.TissueFileAfter`, `TissueFiles.OtherFilesAfter` and `TissueFiles.FilesOnlyGrow`. |
| SpliceSpec.ChunkBounds | scripts/py/gtex_splitter.py:25-34 | Every chunk, the final one included, lies between the fourth line and the end of the file. |
| SpliceSpec.ChunkStart | scripts/py/gtex_splitter.py:23-26 | The first gene line of chunk `k`: the fourth line, or the line after the one that triggered flush `k`. It has no contract of its own; `SpliceSpec.ChunkBounds`, `SpliceSpec.ChunkSizes` and `SpliceSpec.ChunksAdjoin` state the schedule. |
| SpliceSpec.ChunkEnd | scripts/py/gtex_splitter.py:23-26 | One past the last gene line of chunk `k`: the line that triggers its flush, or the end of the file. It has no contract of its own; `SpliceSpec.ChunkBounds`, `SpliceSpec.ChunkSizes` and `SpliceSpec.ChunksAdjoin` state the schedule. |
| SpliceSpec.ChunkRows | scripts/py/gtex_splitter.py:23-26 | The gene lines stored into the dictionary between two flushes. It has no contract of its own; `SpliceSpec.ChunkBounds` keeps it inside the data lines and `SpliceSpec.DataRowsPartitioned` shows all chunks in order are exactly `lines[3..]`. |
| SpliceSpec.ChunkFrame | scripts/py/gtex_splitter.py:27-28 | The melted, tagged frame one flush builds from chunk `k`. It has no contract of its own; `SpliceSpec.FrameOfChunk` ties it to the loop's dictionary and `SpliceSpec.ChunkRecordGrouped` shows every mapped value of the chunk in its group. |
| SpliceSpec.Frames | scripts/py/gtex_splitter.py:25-38 | A run makes one frame per flush: the in-loop flushes and the final one. |
| SpliceSpec.ChunkAtStart | scripts/py/gtex_splitter.py:33 | After a flush the dictionary is empty. |
| SpliceSpec.ReadStep | scripts/py/gtex_splitter.py:19-24 | Reading a line binds `columns` on the third line and stores every later line into the chunk. |
| SpliceSpec.TestStep | scripts/py/gtex_splitter.py:25-26 | When the test fires, the current chunk ends at this line and the flush count goes up by one. Otherwise the counters stay. |
| SpliceSpec.ChunkReady | scripts/py/gtex_splitter.py:25-27 | When a chunk closes, `columns` is bound to the third line's samples and the dictionary is that chunk's, of matching width. |
| SpliceSpec.FlushStep | scripts/py/gtex_splitter.py:25-33 | A flush of chunk `k` takes the directory after `k` flushes to the one after `k + 1`. |
| SpliceSpec.FrameOfChunk | scripts/py/gtex_splitter.py:27-28 | The frame of flush `k + 1` is the melted, tagged dictionary of chunk `k`. |
| SpliceSpec.SpliceEnd | scripts/py/gtex_splitter.py:34-38 | A file of fewer than three lines ends in the `NameError`. Otherwise the run ends with the directory after its last flush. |
| SpliceSpec.ChunkSizes | scripts/py/gtex_splitter.py:25 | The first in-loop chunk holds 998 gene lines and every later in-loop chunk 1000. The chunk left for the final flush holds fewer than 1000. |
| SpliceSpec.ChunksAdjoin | scripts/py/gtex_splitter.py:25-33 | Each chunk starts where the one before it ended. |
| SpliceSpec.ChunksPrefix | scripts/py/gtex_splitter.py:18-33 | The first `k + 1` chunks, in order, are the gene lines up to the end of chunk `k`. |
| SpliceSpec.DataRowsPartitioned | scripts/py/gtex_splitter.py:18-38 | All chunks together, in order, are exactly the lines from the fourth on. No line is lost or repeated. |
| SpliceSpec.EmptyChunkFrame | scripts/py/gtex_splitter.py:34-38 | A chunk without gene lines makes an empty frame. |
| SpliceSpec.LastChunkEmpty | scripts/py/gtex_splitter.py:25-26 | In a file of 1000·j + 1 lines, the last chunk starts and ends at the end of the file. |
| SpliceSpec.FinalFrameEmpty | scripts/py/gtex_splitter.py:34-35 | The final flush of such a file has an empty frame. |
| SpliceSpec.FinalFlushEmpty | scripts/py/gtex_splitter.py:34-38 | When the last line triggered a flush, the final flush neither fails nor writes anything. |
| SpliceSpec.NoGeneLines | scripts/py/gtex_splitter.py:34-38 | A file with only the three header lines writes nothing. |
| SpliceSpec.SameChunkRows | scripts/py/gtex_splitter.py:19-24 | Files that agree from the third line on have the same columns and chunks. |
| SpliceSpec.SameChunkFrame | scripts/py/gtex_splitter.py:19-28 | Such files give the same frame for each flush. |
| SpliceSpec.HeaderLinesIgnored | scripts/py/gtex_splitter.py:19-24 | The first two lines are read and dropped: changing them changes nothing. |
| SpliceSpec.Splice | scripts/py/gtex_splitter.py:13-39 | The outcome of a run. It has no contract of its own; `Splitter.GcfSplicer` is proved to compute it, and `SpliceSpec.SpliceEffect` and `SpliceSpec.SpliceWritesEveryRecord` state what it writes. |
| SpliceSpec.ChunkRecordGrouped | scripts/py/gtex_splitter.py:24-31 | Every value of chunk `k`'s dictionary whose column's sample maps to `t` is a record of flush `k + 1`'s group `t`. |
| SpliceSpec.SpliceWritesEveryRecord | scripts/py/gtex_splitter.py:13-39 | No record is lost. For every chunk, every gene in its dictionary and every column whose sample the map sends to `t`, the record (gene, sample, that value, `t`) is in `t`'s file at the end of the run. |
| SpliceSpec.SpliceEffect | scripts/py/gtex_splitter.py:13-39 | For a file with the header lines, each tissue's file ends as its old records followed by that tissue's group from every flush, in flush order. Those records come only from samples mapped to it. A path that is no tissue's file is untouched. No file loses records. |
| Splitter.Flush | scripts/py/gtex_splitter.py:27-31 | One flush (melt, tag, group, append) leaves the directory `Flushed` describes. |
| Splitter.FlushChunk | scripts/py/gtex_splitter.py:25-33 | The in-loop flush takes the directory after `k` flushes to the one after `k + 1`. |
| Splitter.ReadLine | scripts/py/gtex_splitter.py:19-24 | Counting and storing one line keeps `columns` and the dictionary as the file determines them. |
| Splitter.TestFlush | scripts/py/gtex_splitter.py:25-33 | The flush test keeps the counters, the dictionary and the directory in step with the schedule. |
| Splitter.FinalFlush | scripts/py/gtex_splitter.py:34-38 | The final flush gives the run's outcome: `Splice` of the file. |
| Splitter.GcfSplicer | scripts/py/gtex_splitter.py:13-39 | `gcf_splicer` returns exactly `Splice` of its input, so every `SpliceSpec` lemma holds of it. |
| NetOGlyc.RunEnd | scripts/py/netoglyc_parser.py:18 | A greedy character class takes the longest run. |
| NetOGlyc.LastNewline | scripts/py/netoglyc_parser.py:18 | Finds the last newline in a range, or reports that there is none. |
| NetOGlyc.FrontOf | scripts/py/netoglyc_parser.py:18 | The engine's parts before `.*` match, and the second `\s+` is as long as it can be. |
| NetOGlyc.MatchEnd | scripts/py/netoglyc_parser.py:18 | A match the engine reports ends inside the text, after its start. |
| NetOGlyc.SpaceIsNotWord | scripts/py/netoglyc_parser.py:18 | `\s` shares no character with `[A-Za-z0-9]` or `[ST]`. |
| NetOGlyc.IsAlnum | scripts/py/netoglyc_parser.py:18 | `[A-Za-z0-9]`, ASCII letters and digits. It has no contract of its own; `NetOGlyc.MatchEndMatches` and `NetOGlyc.ShapeOfMatch` state the match in its terms. |
| NetOGlyc.IsSpace | scripts/py/netoglyc_parser.py:18 | `\s` in a `str` pattern: the characters `str.isspace` accepts, tab to carriage return, the four separators 0x1C-0x1F, space, 0x85, no-break space and the Unicode spaces and line and paragraph separators. It has no contract of its own; `NetOGlyc.SpaceIsNotWord` shows it shares nothing with `[A-Za-z0-9]` or `[ST]`, and `NetOGlyc.RowAcrossLines` that it holds the newline. |
| NetOGlyc.IsSorT | scripts/py/netoglyc_parser.py:18 | `[ST]`. It has no contract of its own; `NetOGlyc.MatchEndMatches` and `NetOGlyc.ShapeOfMatch` state the match in its terms. |
| NetOGlyc.NotNewline | scripts/py/netoglyc_parser.py:18 | `.` without DOTALL: anything but a newline. It has no contract of its own; `NetOGlyc.ShapeOfMatch` shows a match's tail holds no newline. |
| NetOGlyc.FrontUnique | scripts/py/netoglyc_parser.py:18 | Any way of matching the parts before `.*` has the engine's first two parts and a second `\s+` no longer than the engine's. |
| NetOGlyc.MatchEndIsLongest | scripts/py/netoglyc_parser.py:18 | Wherever the pattern matches, the engine reports a match, and no match at that start is longer. |
| NetOGlyc.MatchEndMatches | scripts/py/netoglyc_parser.py:18 | What the engine reports is a match of the pattern, lookbehind and lookahead included. |
| NetOGlyc.ScanFound | scripts/py/netoglyc_parser.py:18 | Each span `findall` returns is the engine's match at its start. |
| NetOGlyc.ScanInOrder | scripts/py/netoglyc_parser.py:18 | The spans are in order and do not overlap. |
| NetOGlyc.ScanComplete | scripts/py/netoglyc_parser.py:18 | At a position no span covers, the engine finds no match. |
| NetOGlyc.FindAllSpec | scripts/py/netoglyc_parser.py:18 | Stated by the pattern alone: each span is the longest match at its start, the spans are ordered and disjoint, and every match starts inside some span. |
| NetOGlyc.Matches | scripts/py/netoglyc_parser.py:18 | The pattern matches `text[s..e]`, lookarounds included. A match starts right after a newline and ends right before one. |
| NetOGlyc.Scan | scripts/py/netoglyc_parser.py:18 | The `findall` scan finds at most one match per position it tries, and nothing past the end. |
| NetOGlyc.FindAll | scripts/py/netoglyc_parser.py:18 | Every span `re.findall` returns is non-empty and ends inside the text. `NetOGlyc.FindAllSpec` characterises the spans completely. |
| NetOGlyc.Rows | scripts/py/netoglyc_parser.py:18 | One row per match. |
| NetOGlyc.FirstLineNeverSelected | scripts/py/netoglyc_parser.py:18 | Because of the lookbehind, no row starts on the first line. |
| NetOGlyc.LastLineNeverSelected | scripts/py/netoglyc_parser.py:18 | Because of the lookahead, every row ends just before a newline. A last line without a newline is never selected. |
| NetOGlyc.ShapeOfMatch | scripts/py/netoglyc_parser.py:18 | A match's text has the shape name, whitespace, S or T, whitespace, rest of line. |
| NetOGlyc.RowShape | scripts/py/netoglyc_parser.py:18 | Every selected row has that shape. |
| NetOGlyc.RowAcrossLines | scripts/py/netoglyc_parser.py:18 | Example: in `"\nP1 S \n x\n"` the one row is `"P1 S \n x"`, which runs over a line break. |
| NetOGlyc.Header | scripts/py/netoglyc_parser.py:17 | The header line, written as its seven column labels with their padding. It has no contract of its own; `NetOGlyc.HeaderOneLine` shows it is one line. |
| NetOGlyc.TableText | scripts/py/netoglyc_parser.py:19 | The text handed to the table reader always starts with the header. |
| NetOGlyc.HeaderOneLine | scripts/py/netoglyc_parser.py:17 | The header has no newline. |
| NetOGlyc.TableTextShape | scripts/py/netoglyc_parser.py:19 | The joined text is the header alone when there are no rows. Otherwise it is the header, a newline, and the rows joined by newlines. |
| NetOGlyc.HeaderFirstLine | scripts/py/netoglyc_parser.py:17-19 | The header is always the joined text's first line. |
| NetOGlyc.TableLines | scripts/py/netoglyc_parser.py:17-19 | When no row spans a line break, the lines of the joined text are exactly the header followed by the rows, in order. |

## Left out

- Command-line parsing (`gtex_splitter.py:7-11`, `netoglyc_parser.py:8-11`)
  is not modelled. The file name, output directory and map are parameters.
- The `__main__` block of `gtex_splitter.py` (`:42-48`) is left out. It builds
  the sample-to-tissue map from the phenotype table, which is pandas I/O.
  Line 46 as written has an unclosed `[`. The model takes the map as a
  parameter instead.
- File I/O is left out:
  - `open`, `readlines` and `f.read()` become the `lines` / `text`
    parameters;
  - `to_csv` becomes appending records to a sequence, so CSV text and quoting
    are not modelled;
  - a missing output directory or a failing write is not modelled.
- `pd.read_fwf` (`netoglyc_parser.py:20`) and its column inference are left
  out. The model stops at the text handed to it.
- Splitter.GcfSplicer: requires `RowsFit`, meaning every gene line has one value per
  sample column. This is stronger than the program needs, and two cases it
  excludes are not modelled:
  - pandas builds the frame from the dictionary's value lists and pads
    short rows with NaN. It raises only when the widest row of a chunk has
    a width other than the number of columns.
  - A gene line overwritten later in the same chunk never reaches
    `from_dict`, so its width does not matter.
- TissueFiles.AppendGroups: takes the group order as a parameter. pandas
  iterates the groups sorted. The result is proved the same for every order,
  so the sorting is not modelled.
- TissueFiles.Path: the directory is one flat map of path strings. A tissue
  name holding `/` or `..` names a path elsewhere on disk, and that is not
  modelled. Distinct labels can also name the same file on disk: `x`, `./x`,
  `/x` and `a/../x` give `dr/x.csv`, `dr/./x.csv`, `dr//x.csv` and
  `dr/a/../x.csv`. The model treats them as different files. When two such
  labels both occur, their groups are interleaved in one file on disk. The
  per-tissue file contents stated by `TissueFiles.FlushEffect`,
  `TissueFiles.TissueFileAfter` and `SpliceSpec.SpliceEffect` then hold per
  path string, not per file on disk.
- Expression values stay strings. pandas' dtype handling is not modelled.
- The regular expression is modelled for this pattern only, not as a general
  engine. `\s` is the set of characters `str.isspace` accepts. `[A-Za-z0-9]`
  is ASCII only.
