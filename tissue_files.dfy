/** The output directory and one flush's writes into it: for each group,
    `to_csv(dr + "/" + tissue + ".csv", mode='a', header=False)`. A file is
    the sequence of records written to it, so appending is concatenation. */
module TissueFiles {
  import opened LongForm

  /** File path to the records it holds; a path not in the map is a file
      that does not exist. */
  type Dir = map<string, seq<Row>>

  /** `dr + "/" + tissue + ".csv"`, concatenated without any sanitising. */
  function Path(dr: string, tissue: string): (p: string)
    ensures |p| == |dr| + |tissue| + 5
  {
    dr + "/" + tissue + ".csv"
  }

  /** The tissue a path in `dr` names: the text between `dr + "/"` and
      `".csv"`. */
  function TissueOf(dr: string, p: string): string
    requires |dr| + 5 <= |p|
  {
    p[|dr| + 1 .. |p| - 4]
  }

  /** The tissue can be read back from the file name, so two tissues never
      share a file. */
  lemma {:induction false} PathRoundTrip(dr: string, tissue: string)
    ensures TissueOf(dr, Path(dr, tissue)) == tissue
  {
    var p := Path(dr, tissue);
    assert p == dr + "/" + tissue + ".csv";
    assert p[|dr| + 1 .. |p| - 4] == tissue;
  }

  lemma {:induction false} PathInjective(dr: string, t1: string, t2: string)
    requires Path(dr, t1) == Path(dr, t2)
    ensures t1 == t2
  {
    PathRoundTrip(dr, t1);
    PathRoundTrip(dr, t2);
  }

  /** The contents of file `p`: empty when it does not exist. */
  function Existing(dir: Dir, p: string): seq<Row>
  {
    if p in dir then dir[p] else []
  }

  function Paths(dr: string, tissues: set<string>): set<string>
  {
    set t | t in tissues :: Path(dr, t)
  }

  /** The directory after the groups of `tissues` were appended, in any
      order: the file of each such tissue gains that group at its end (and is
      created if missing), every other file is as it was. */
  function AppendedFor(dir: Dir, dr: string, frame: seq<TaggedRow>, tissues: set<string>): Dir
  {
    map p | p in dir.Keys + Paths(dr, tissues) ::
      if p in Paths(dr, tissues) then Existing(dir, p) + Group(frame, TissueOf(dr, p)) else dir[p]
  }

  /** One flush: the groups of every tissue present in the frame appended. */
  function Flushed(dir: Dir, dr: string, frame: seq<TaggedRow>): Dir
  {
    AppendedFor(dir, dr, frame, TissueSet(frame))
  }

  /** What a flush does to the directory: each present tissue's file is its
      old contents followed by that tissue's group; nothing else is created
      or changed; and so every existing file keeps its contents as a prefix. */
  lemma {:induction false} FlushEffect(dir: Dir, dr: string, frame: seq<TaggedRow>)
    ensures forall t :: t in TissueSet(frame) ==>
      Path(dr, t) in Flushed(dir, dr, frame)
        && Flushed(dir, dr, frame)[Path(dr, t)] == Existing(dir, Path(dr, t)) + Group(frame, t)
    ensures forall p :: p !in Paths(dr, TissueSet(frame)) ==>
      (p in Flushed(dir, dr, frame) <==> p in dir)
        && (p in dir ==> Flushed(dir, dr, frame)[p] == dir[p])
    ensures forall p :: p in dir ==> p in Flushed(dir, dr, frame) && dir[p] <= Flushed(dir, dr, frame)[p]
  {
    forall t | t in TissueSet(frame) {
      PathRoundTrip(dr, t);
    }
  }

  /** One tissue's file after a flush: its old contents followed by its
      group, which is empty when the frame has no record of that tissue. */
  lemma {:induction false} FlushTissue(dir: Dir, dr: string, frame: seq<TaggedRow>, t: string)
    ensures Existing(Flushed(dir, dr, frame), Path(dr, t)) == Existing(dir, Path(dr, t)) + Group(frame, t)
  {
    FlushEffect(dir, dr, frame);
    if t !in TissueSet(frame) {
      PathOutside(dr, TissueSet(frame), t);
      GroupSpec(frame, t);
    }
  }

  /** A path outside the files of the tissues `tissues`, which include every
      tissue of the frame, is not touched by the flush. */
  lemma {:induction false} FlushOther(dir: Dir, dr: string, frame: seq<TaggedRow>, tissues: set<string>, p: string)
    requires TissueSet(frame) <= tissues && p !in Paths(dr, tissues)
    ensures p in Flushed(dir, dr, frame) <==> p in dir
    ensures p in dir ==> Flushed(dir, dr, frame)[p] == dir[p]
  {
    assert Paths(dr, TissueSet(frame)) <= Paths(dr, tissues);
    FlushEffect(dir, dr, frame);
  }

  /** A flush whose frame has no tissue (an empty chunk, or only unmapped
      samples) leaves the directory exactly as it was. */
  lemma {:induction false} FlushNothing(dir: Dir, dr: string, frame: seq<TaggedRow>)
    requires TissueSet(frame) == {}
    ensures Flushed(dir, dr, frame) == dir
  {
    assert Paths(dr, {}) == {};
  }

  /** A tissue outside `tissues` has a file outside their files. */
  lemma {:induction false} PathOutside(dr: string, tissues: set<string>, t: string)
    requires t !in tissues
    ensures Path(dr, t) !in Paths(dr, tissues)
  {
    forall u | u in tissues ensures Path(dr, u) != Path(dr, t) {
      if Path(dr, u) == Path(dr, t) {
        PathInjective(dr, u, t);
      }
    }
  }

  /** Appending one more tissue's group to the directory already holding the
      groups of `tissues`. */
  lemma {:induction false} AppendOne(dir: Dir, dr: string, frame: seq<TaggedRow>, tissues: set<string>, t: string)
    requires t !in tissues
    ensures var before := AppendedFor(dir, dr, frame, tissues);
      AppendedFor(dir, dr, frame, tissues + {t})
        == before[Path(dr, t) := Existing(before, Path(dr, t)) + Group(frame, t)]
  {
    var p := Path(dr, t);
    var before := AppendedFor(dir, dr, frame, tissues);
    var after := AppendedFor(dir, dr, frame, tissues + {t});
    var expected := before[p := Existing(before, p) + Group(frame, t)];
    PathRoundTrip(dr, t);
    PathOutside(dr, tissues, t);
    assert Paths(dr, tissues + {t}) == Paths(dr, tissues) + {p};
    assert Existing(before, p) == Existing(dir, p);
    assert after.Keys == expected.Keys;
    forall q | q in after.Keys ensures after[q] == expected[q] {
      if q != p {
        assert q in Paths(dr, tissues + {t}) <==> q in Paths(dr, tissues);
      }
    }
  }

  /** The loop over `grouped_df.groups`: each group appended to its tissue's
      file. `groups` lists the tissues present, each once, in whichever order
      the caller iterates them; the result is the same for every order. */
  method AppendGroups(dir0: Dir, dr: string, frame: seq<TaggedRow>, groups: seq<string>)
    returns (dir: Dir)
    requires forall i, j :: 0 <= i < j < |groups| ==> groups[i] != groups[j]
    requires forall t :: t in groups <==> t in TissueSet(frame)
    ensures dir == Flushed(dir0, dr, frame)
  {
    dir := dir0;
    assert Paths(dr, {}) == {};
    assert AppendedFor(dir0, dr, frame, {}) == dir0;
    for i := 0 to |groups|
      invariant dir == AppendedFor(dir0, dr, frame, Members(groups[..i]))
    {
      var t := groups[i];
      var p := Path(dr, t);
      assert groups[..i + 1] == groups[..i] + [t];
      assert Members(groups[..i + 1]) == Members(groups[..i]) + {t};
      AppendOne(dir0, dr, frame, Members(groups[..i]), t);
      dir := dir[p := Existing(dir, p) + Group(frame, t)];
    }
    assert groups[..|groups|] == groups;
    assert Members(groups) == TissueSet(frame);
  }

  function Members(s: seq<string>): set<string>
  {
    set u | u in s
  }

  /** The directory after the first `k` of a run's flushes, one frame each,
      in order. */
  function AfterFrames(dir0: Dir, dr: string, frames: seq<seq<TaggedRow>>, k: nat): Dir
    requires k <= |frames|
  {
    if k == 0 then dir0 else Flushed(AfterFrames(dir0, dr, frames, k - 1), dr, frames[k - 1])
  }

  /** Tissue `t`'s groups of the first `k` frames, in flush order. */
  function GroupsOf(frames: seq<seq<TaggedRow>>, t: string, k: nat): seq<Row>
    requires k <= |frames|
  {
    if k == 0 then [] else GroupsOf(frames, t, k - 1) + Group(frames[k - 1], t)
  }

  /** Flushing frame `k` into the directory left by the first `k` flushes
      gives the one left by the first `k + 1`. */
  lemma {:induction false} AfterNextFrame(dir0: Dir, dr: string, frames: seq<seq<TaggedRow>>, k: nat, k': nat, dir: Dir, dir': Dir)
    requires k' == k + 1 && k' <= |frames|
    requires dir == AfterFrames(dir0, dr, frames, k) && dir' == Flushed(dir, dr, frames[k])
    ensures dir' == AfterFrames(dir0, dr, frames, k')
  {
  }

  /** A flush of an empty frame changes nothing. */
  lemma {:induction false} AfterEmptyFrame(dir0: Dir, dr: string, frames: seq<seq<TaggedRow>>, k: nat, m: nat)
    requires m == k + 1 && m <= |frames| && frames[k] == []
    ensures AfterFrames(dir0, dr, frames, m) == AfterFrames(dir0, dr, frames, k)
  {
    FlushNothing(AfterFrames(dir0, dr, frames, k), dr, frames[k]);
  }

  /** Flush `k` appends tissue `t`'s group of frame `k - 1` to its file. */
  lemma {:induction false} TissueFileStep(dir0: Dir, dr: string, frames: seq<seq<TaggedRow>>, t: string, k: nat)
    requires 0 < k <= |frames|
    ensures Existing(AfterFrames(dir0, dr, frames, k), Path(dr, t))
         == Existing(AfterFrames(dir0, dr, frames, k - 1), Path(dr, t)) + Group(frames[k - 1], t)
  {
    FlushTissue(AfterFrames(dir0, dr, frames, k - 1), dr, frames[k - 1], t);
  }

  /** After `k` flushes, tissue `t`'s file is what it held before, followed
      by that tissue's group of each flush in turn. */
  lemma {:induction false} TissueFileAfter(dir0: Dir, dr: string, frames: seq<seq<TaggedRow>>, t: string, k: nat)
    requires k <= |frames|
    ensures Existing(AfterFrames(dir0, dr, frames, k), Path(dr, t)) == Existing(dir0, Path(dr, t)) + GroupsOf(frames, t, k)
  {
    if k > 0 {
      var before := Existing(dir0, Path(dr, t));
      var earlier := GroupsOf(frames, t, k - 1);
      var group := Group(frames[k - 1], t);
      calc {
        Existing(AfterFrames(dir0, dr, frames, k), Path(dr, t));
        { TissueFileStep(dir0, dr, frames, t, k); }
        Existing(AfterFrames(dir0, dr, frames, k - 1), Path(dr, t)) + group;
        { TissueFileAfter(dir0, dr, frames, t, k - 1); }
        (before + earlier) + group;
        before + (earlier + group);
      }
    }
  }

  /** A record of tissue `t`'s group in one of the first `m` frames is
      among the groups those frames append to `t`'s file. */
  lemma {:induction false} GroupsOfContains(frames: seq<seq<TaggedRow>>, t: string, k: nat, m: nat, x: Row)
    requires k < m <= |frames| && x in Group(frames[k], t)
    ensures x in GroupsOf(frames, t, m)
  {
    if k < m - 1 {
      GroupsOfContains(frames, t, k, m - 1, x);
    }
  }

  /** A record of group `t` of frame `k` is in `t`'s file once flush `k + 1`
      has run, and stays there. */
  lemma {:induction false} FrameRecordWritten(dir0: Dir, dr: string, frames: seq<seq<TaggedRow>>,
                                              t: string, k: nat, m: nat, x: Row)
    requires k < m <= |frames| && x in Group(frames[k], t)
    ensures x in Existing(AfterFrames(dir0, dr, frames, m), Path(dr, t))
  {
    GroupsOfContains(frames, t, k, m, x);
    TissueFileAfter(dir0, dr, frames, t, m);
  }

  /** A path that is not the file of any tissue the frames can hold is left
      exactly as it was: not created, not changed. */
  lemma {:induction false} OtherFilesAfter(dir0: Dir, dr: string, frames: seq<seq<TaggedRow>>,
                                           tissues: set<string>, p: string, k: nat)
    requires k <= |frames|
    requires forall i :: 0 <= i < |frames| ==> TissueSet(frames[i]) <= tissues
    requires p !in Paths(dr, tissues)
    ensures p in AfterFrames(dir0, dr, frames, k) <==> p in dir0
    ensures p in dir0 ==> AfterFrames(dir0, dr, frames, k)[p] == dir0[p]
  {
    if k > 0 {
      OtherFilesAfter(dir0, dr, frames, tissues, p, k - 1);
      FlushOther(AfterFrames(dir0, dr, frames, k - 1), dr, frames[k - 1], tissues, p);
    }
  }

  /** Flushes only append: a file present before keeps its contents as a
      prefix. */
  lemma {:induction false} FilesOnlyGrow(dir0: Dir, dr: string, frames: seq<seq<TaggedRow>>, p: string, k: nat)
    requires k <= |frames| && p in dir0
    ensures p in AfterFrames(dir0, dr, frames, k)
    ensures dir0[p] <= AfterFrames(dir0, dr, frames, k)[p]
  {
    if k > 0 {
      FilesOnlyGrow(dir0, dr, frames, p, k - 1);
      FlushEffect(AfterFrames(dir0, dr, frames, k - 1), dr, frames[k - 1]);
    }
  }

  /** When every frame was tagged from the map, every record appended to
      tissue `t`'s file is tagged `t` and comes from a sample the map sends
      to `t`. */
  lemma {:induction false} GroupsMapped(frames: seq<seq<TaggedRow>>, meta: map<string, string>, t: string, k: nat)
    requires k <= |frames|
    requires forall i :: 0 <= i < |frames| ==> TaggedBy(frames[i], meta)
    ensures forall i :: 0 <= i < |GroupsOf(frames, t, k)| ==>
      var row := GroupsOf(frames, t, k)[i];
      row.tissue == t && row.sample in meta && meta[row.sample] == t
  {
    if k > 0 {
      GroupsMapped(frames, meta, t, k - 1);
      GroupRowsMapped(frames[k - 1], meta, t);
      GroupSpec(frames[k - 1], t);
    }
  }
}
