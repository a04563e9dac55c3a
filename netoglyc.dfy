/** `parse_netoglyc`: the rows of a NetOGlyc report are picked out of the
    whole text with one regular expression, `re.findall` of
        (?<=\n)[A-Za-z0-9]+\s+[ST]\s+.*(?=\n)
    and handed on, below a fixed header line, as one newline-joined text.
    Positions are indices into the text; a span `[start, end)` is one match. */
module NetOGlyc {
  import opened Strings

  /** The header line put above the rows, column by column. */
  const Header: string :=
    "Name                         " + "S/T   " + "Pos  " + "G-score " + "I-score " + "Y/N  " + "Comment"

  /** `[A-Za-z0-9]`: ASCII letters and digits only. */
  predicate IsAlnum(ch: char)
  {
    ('A' <= ch <= 'Z') || ('a' <= ch <= 'z') || ('0' <= ch <= '9')
  }

  /** `\s` in a `str` pattern: the characters `str.isspace` accepts, the
      newline among them. */
  predicate IsSpace(ch: char)
  {
    || ('\t' <= ch <= '\r')
    || ('\U{1C}' <= ch <= '\U{1F}')
    || ch == ' ' || ch == '\U{85}' || ch == '\U{A0}' || ch == '\U{1680}'
    || ('\U{2000}' <= ch <= '\U{200A}')
    || ch == '\U{2028}' || ch == '\U{2029}' || ch == '\U{202F}' || ch == '\U{205F}' || ch == '\U{3000}'
  }

  /** `[ST]`. */
  predicate IsSorT(ch: char)
  {
    ch == 'S' || ch == 'T'
  }

  /** `.`: anything but a newline. */
  predicate NotNewline(ch: char)
  {
    ch != '\n'
  }

  /** The end of the longest run of characters satisfying `p` from `i` on. */
  function RunEnd(text: string, i: nat, p: char -> bool): (j: nat)
    requires i <= |text|
    ensures i <= j <= |text|
    ensures forall k :: i <= k < j ==> p(text[k])
    ensures j == |text| || !p(text[j])
    decreases |text| - i
  {
    if i == |text| || !p(text[i]) then i else RunEnd(text, i + 1, p)
  }

  /** The last newline in `text[lo..hi]`, if any. */
  function LastNewline(text: string, lo: nat, hi: nat): (r: Option<nat>)
    requires hi <= |text|
    ensures r.Some? ==> lo <= r.value < hi && text[r.value] == '\n'
    ensures r.Some? ==> forall k :: r.value < k < hi ==> text[k] != '\n'
    ensures r.None? ==> forall k :: lo <= k < hi ==> text[k] != '\n'
    decreases hi
  {
    if hi <= lo then None
    else if text[hi - 1] == '\n' then Some(hi - 1)
    else LastNewline(text, lo, hi - 1)
  }

  /** The part of the pattern before `.*`, at start `s`: the lookbehind sees
      a newline, `[s, a)` are letters and digits, `[a, b)` whitespace, `b`
      the S or T and `[b + 1, q)` whitespace. */
  ghost predicate FrontWith(text: string, s: nat, a: nat, b: nat, q: nat)
  {
    && 0 < s < a < b && b + 1 < q <= |text|
    && text[s - 1] == '\n'
    && (forall k :: s <= k < a ==> IsAlnum(text[k]))
    && (forall k :: a <= k < b ==> IsSpace(text[k]))
    && IsSorT(text[b])
    && (forall k :: b + 1 <= k < q ==> IsSpace(text[k]))
  }

  /** `text[s..e]` matches the pattern with those parts, `.*` taking
      `[q, e)`, which holds no newline, and the lookahead seeing one at `e`. */
  ghost predicate MatchesWith(text: string, s: nat, a: nat, b: nat, q: nat, e: nat)
  {
    && FrontWith(text, s, a, b, q)
    && q <= e < |text| && text[e] == '\n'
    && (forall k :: q <= k < e ==> text[k] != '\n')
  }

  /** The pattern, lookbehind and lookahead included, matches `text[s..e]`. */
  ghost predicate Matches(text: string, s: nat, e: nat)
    ensures Matches(text, s, e) ==> 0 < s < e < |text| && text[s - 1] == '\n' && text[e] == '\n'
  {
    exists a, b, q :: MatchesWith(text, s, a, b, q, e)
  }

  /** Where the engine's first three parts end. */
  datatype Front = Front(a: nat, b: nat, q: nat)

  /** The engine at `s` up to `.*`: `[A-Za-z0-9]+` and both `\s+` take their
      longest runs. Backtracking cannot shorten the first two: a shorter run
      would be followed by a letter, digit or whitespace that the next part
      does not accept. */
  function FrontOf(text: string, s: nat): (r: Option<Front>)
    ensures r.Some? ==> FrontWith(text, s, r.value.a, r.value.b, r.value.q)
    ensures r.Some? ==> r.value.q == |text| || !IsSpace(text[r.value.q])
  {
    if s == 0 || s > |text| || text[s - 1] != '\n' then None
    else
      var a := RunEnd(text, s, IsAlnum);
      if a == s || a == |text| then None
      else
        var b := RunEnd(text, a, IsSpace);
        if b == a || b == |text| || !IsSorT(text[b]) then None
        else
          var q := RunEnd(text, b + 1, IsSpace);
          if q == b + 1 then None else Some(Front(a, b, q))
  }

  /** The match the engine reports at `s`: `.*` takes the rest of the line
      and the lookahead needs the newline after it; when no newline follows,
      the engine gives back whitespace of the second `\s+` (keeping at least
      one character) until `.*` can stop at a newline, so the match ends at
      the last newline inside that whitespace. */
  function MatchEnd(text: string, s: nat): (r: Option<nat>)
    ensures r.Some? ==> s < r.value < |text|
  {
    match FrontOf(text, s)
    case None => None
    case Some(f) =>
      var m := RunEnd(text, f.q, NotNewline);
      if m < |text| then Some(m) else LastNewline(text, f.b + 2, f.q)
  }

  /** Whitespace is never a letter or digit, nor `S` or `T`. */
  lemma {:induction false} SpaceIsNotWord(ch: char)
    requires IsSpace(ch)
    ensures !IsAlnum(ch) && !IsSorT(ch)
  {
  }

  /** Any way of matching the parts before `.*` at `s` is the engine's, up
      to a shorter second whitespace run. */
  lemma {:induction false} FrontUnique(text: string, s: nat, a: nat, b: nat, q: nat)
    requires FrontWith(text, s, a, b, q)
    ensures FrontOf(text, s).Some?
    ensures FrontOf(text, s).value.a == a && FrontOf(text, s).value.b == b && q <= FrontOf(text, s).value.q
  {
    var a0 := RunEnd(text, s, IsAlnum);
    SpaceIsNotWord(text[a]);
    assert a0 == a;
    var b0 := RunEnd(text, a, IsSpace);
    if b < b0 {
      SpaceIsNotWord(text[b]);
    }
    assert b0 == b;
    var q0 := RunEnd(text, b + 1, IsSpace);
  }

  /** What the engine reports is a match and no match at `s` is longer; when
      it reports nothing there is no match at `s` at all. */
  lemma {:induction false} MatchEndIsLongest(text: string, s: nat, e: nat)
    requires Matches(text, s, e)
    ensures MatchEnd(text, s).Some? && e <= MatchEnd(text, s).value
  {
    var a, b, q :| MatchesWith(text, s, a, b, q, e);
    FrontUnique(text, s, a, b, q);
    var f := FrontOf(text, s).value;
    var m := RunEnd(text, f.q, NotNewline);
  }

  lemma {:induction false} MatchEndMatches(text: string, s: nat)
    requires MatchEnd(text, s).Some?
    ensures Matches(text, s, MatchEnd(text, s).value)
  {
    var f := FrontOf(text, s).value;
    var m := RunEnd(text, f.q, NotNewline);
    if m < |text| {
      assert MatchesWith(text, s, f.a, f.b, f.q, m);
    } else {
      var l := LastNewline(text, f.b + 2, f.q).value;
      assert MatchesWith(text, s, f.a, f.b, l, l);
    }
  }

  /** One match: where it starts and where it ends (exclusive). */
  datatype Span = Span(start: nat, end: nat)

  /** A matcher never reports an empty match, so a scan always moves on. */
  ghost predicate Advances(m: nat -> Option<nat>)
  {
    forall p: nat :: m(p).Some? ==> p < m(p).value
  }

  /** `re.findall`'s scan over a text of length `n`, from `pos` on, with the
      matcher `m`: try each position in turn and, after a match, go on from
      its end. */
  function Scan(m: nat -> Option<nat>, n: nat, pos: nat): (r: seq<Span>)
    requires Advances(m)
    ensures pos <= n ==> |r| <= n - pos + 1
    ensures pos > n ==> r == []
    decreases n + 1 - pos
  {
    if pos > n then []
    else
      match m(pos)
      case Some(e) => [Span(pos, e)] + Scan(m, n, e)
      case None => Scan(m, n, pos + 1)
  }

  /** The pattern's matcher on `text`. */
  function Engine(text: string): (m: nat -> Option<nat>)
    ensures Advances(m)
    ensures forall p: nat :: m(p) == MatchEnd(text, p)
  {
    (p: nat) => MatchEnd(text, p)
  }

  /** The matches of the whole text. */
  function FindAll(text: string): (r: seq<Span>)
    ensures |r| <= |text| + 1
    ensures forall i :: 0 <= i < |r| ==> r[i].start < r[i].end < |text|
  {
    ScanFound(Engine(text), |text|, 0);
    Scan(Engine(text), |text|, 0)
  }

  /** Spans each of which is the matcher's match at its start. */
  ghost predicate Found(m: nat -> Option<nat>, spans: seq<Span>)
  {
    forall i :: 0 <= i < |spans| ==> m(spans[i].start) == Some(spans[i].end)
  }

  /** Spans from `pos` on, in order, that do not overlap. */
  ghost predicate InOrder(pos: nat, spans: seq<Span>)
  {
    && (forall i :: 0 <= i < |spans| ==> pos <= spans[i].start < spans[i].end)
    && (forall i, j :: 0 <= i < j < |spans| ==> spans[i].end <= spans[j].start)
  }

  /** A match put in front of the spans found after it. */
  lemma {:induction false} FoundCons(m: nat -> Option<nat>, sp: Span, rest: seq<Span>)
    requires m(sp.start) == Some(sp.end) && Found(m, rest)
    ensures Found(m, [sp] + rest)
  {
    var spans := [sp] + rest;
    forall i | 0 <= i < |spans| ensures m(spans[i].start) == Some(spans[i].end) {
      if i > 0 {
        assert spans[i] == rest[i - 1];
      }
    }
  }

  lemma {:induction false} OrderCons(pos: nat, sp: Span, rest: seq<Span>)
    requires pos <= sp.start < sp.end && InOrder(sp.end, rest)
    ensures InOrder(pos, [sp] + rest)
  {
    var spans := [sp] + rest;
    assert forall i :: 1 <= i < |spans| ==> spans[i] == rest[i - 1];
  }

  /** Every span of the scan is the matcher's match at its start. */
  lemma {:induction false} ScanFound(m: nat -> Option<nat>, n: nat, pos: nat)
    requires Advances(m)
    ensures Found(m, Scan(m, n, pos))
    decreases n + 1 - pos
  {
    if pos <= n {
      match m(pos)
      case Some(e) =>
        ScanFound(m, n, e);
        FoundCons(m, Span(pos, e), Scan(m, n, e));
      case None =>
        ScanFound(m, n, pos + 1);
    }
  }

  /** The spans of the scan lie from `pos` on, in order and disjoint. */
  lemma {:induction false} ScanInOrder(m: nat -> Option<nat>, n: nat, pos: nat)
    requires Advances(m)
    ensures InOrder(pos, Scan(m, n, pos))
    decreases n + 1 - pos
  {
    if pos <= n {
      match m(pos)
      case Some(e) =>
        ScanInOrder(m, n, e);
        OrderCons(pos, Span(pos, e), Scan(m, n, e));
      case None =>
        ScanInOrder(m, n, pos + 1);
    }
  }

  /** Some span covers position `p`. */
  ghost predicate Covered(spans: seq<Span>, p: nat)
  {
    exists i :: 0 <= i < |spans| && spans[i].start <= p < spans[i].end
  }

  /** A position no span covers is outside the first and not covered by
      the rest. */
  lemma {:induction false} UncoveredTail(sp: Span, rest: seq<Span>, p: nat)
    requires !Covered([sp] + rest, p)
    ensures !(sp.start <= p < sp.end) && !Covered(rest, p)
  {
    var spans := [sp] + rest;
    assert spans[0] == sp;
    forall i | 0 <= i < |rest| ensures !(rest[i].start <= p < rest[i].end) {
      assert rest[i] == spans[i + 1];
    }
  }

  /** Nothing is missed: a position from `pos` on that no span of the scan
      covers is one where the matcher reports nothing. */
  lemma {:induction false} ScanComplete(m: nat -> Option<nat>, n: nat, pos: nat, p: nat)
    requires Advances(m)
    requires pos <= p <= n && !Covered(Scan(m, n, pos), p)
    ensures m(p).None?
    decreases n + 1 - pos
  {
    match m(pos)
    case Some(e) =>
      UncoveredTail(Span(pos, e), Scan(m, n, e), p);
      ScanComplete(m, n, e, p);
    case None =>
      if p > pos {
        ScanComplete(m, n, pos + 1, p);
      }
  }

  /** The span is a match, and no match at its start is longer. */
  ghost predicate Longest(text: string, sp: Span)
  {
    Matches(text, sp.start, sp.end) && forall e: nat :: Matches(text, sp.start, e) ==> e <= sp.end
  }

  /** What `re.findall` returns, stated by the pattern alone: each span is
      the longest match at its start; the spans are in order and disjoint;
      and every match starts inside some span, so a match is left out only
      when it overlaps one found earlier. */
  lemma {:induction false} FindAllSpec(text: string)
    ensures forall i :: 0 <= i < |FindAll(text)| ==> Longest(text, FindAll(text)[i])
    ensures InOrder(0, FindAll(text))
    ensures forall p: nat, e: nat :: Matches(text, p, e) ==> Covered(FindAll(text), p)
  {
    var spans := FindAll(text);
    ScanFound(Engine(text), |text|, 0);
    ScanInOrder(Engine(text), |text|, 0);
    forall i | 0 <= i < |spans|
      ensures Longest(text, spans[i])
    {
      MatchEndMatches(text, spans[i].start);
      forall e: nat | Matches(text, spans[i].start, e) ensures e <= spans[i].end {
        MatchEndIsLongest(text, spans[i].start, e);
      }
    }
    forall p: nat, e: nat | Matches(text, p, e)
      ensures Covered(spans, p)
    {
      MatchEndIsLongest(text, p, e);
      if !Covered(spans, p) {
        ScanComplete(Engine(text), |text|, 0, p);
      }
    }
  }

  /** The selected rows: the text of each match, in order. */
  function Rows(text: string): (rows: seq<string>)
    ensures |rows| == |FindAll(text)|
  {
    var spans := FindAll(text);
    ScanFound(Engine(text), |text|, 0);
    seq(|spans|, i requires 0 <= i < |spans| => text[spans[i].start..spans[i].end])
  }

  /** Nothing on the first line is selected: every match starts after the
      first newline. */
  lemma {:induction false} FirstLineNeverSelected(text: string, j: nat)
    requires j <= |text| && '\n' !in text[..j]
    ensures forall i :: 0 <= i < |FindAll(text)| ==> j < FindAll(text)[i].start
  {
    FindAllSpec(text);
    forall i | 0 <= i < |FindAll(text)| ensures j < FindAll(text)[i].start {
      var sp := FindAll(text)[i];
      var a, b, q :| MatchesWith(text, sp.start, a, b, q, sp.end);
    }
  }

  /** Nothing after the last newline is selected, so a final line without a
      terminating newline never is: every match ends just before a newline. */
  lemma {:induction false} LastLineNeverSelected(text: string, j: nat)
    requires j <= |text| && '\n' !in text[j..]
    ensures forall i :: 0 <= i < |FindAll(text)| ==>
      FindAll(text)[i].end < j && text[FindAll(text)[i].end] == '\n'
  {
    FindAllSpec(text);
    forall i | 0 <= i < |FindAll(text)|
      ensures FindAll(text)[i].end < j && text[FindAll(text)[i].end] == '\n'
    {
      var sp := FindAll(text)[i];
      var a, b, q :| MatchesWith(text, sp.start, a, b, q, sp.end);
    }
  }

  /** A row of shape `[A-Za-z0-9]+\s+[ST]\s+.*` with the parts ending at
      `a`, `b` (the S or T) and `q`; only the whitespace may hold newlines. */
  ghost predicate ShapeWith(row: string, a: nat, b: nat, q: nat)
  {
    && 0 < a < b && b + 1 < q <= |row|
    && (forall k :: 0 <= k < a ==> IsAlnum(row[k]))
    && (forall k :: a <= k < b ==> IsSpace(row[k]))
    && IsSorT(row[b])
    && (forall k :: b + 1 <= k < q ==> IsSpace(row[k]))
    && (forall k :: q <= k < |row| ==> row[k] != '\n')
  }

  ghost predicate Shaped(row: string)
  {
    exists a, b, q :: ShapeWith(row, a, b, q)
  }

  lemma {:induction false} ShapeOfMatch(text: string, s: nat, a: nat, b: nat, q: nat, e: nat)
    requires MatchesWith(text, s, a, b, q, e)
    ensures ShapeWith(text[s..e], a - s, b - s, q - s)
  {
  }

  /** Every selected row has the pattern's shape. */
  lemma {:induction false} RowShape(text: string, i: nat)
    requires i < |Rows(text)|
    ensures Shaped(Rows(text)[i])
  {
    FindAllSpec(text);
    var sp := FindAll(text)[i];
    var a, b, q :| MatchesWith(text, sp.start, a, b, q, sp.end);
    ShapeOfMatch(text, sp.start, a, b, q, sp.end);
  }

  /** `\s` also takes newlines, so a row can run over a line break: a line
      ending in `S` and a space swallows the line after it. */
  lemma {:induction false} RowAcrossLines()
    ensures FindAll("\nP1 S \n x\n") == [Span(1, 9)]
    ensures Rows("\nP1 S \n x\n") == ["P1 S \n x"]
  {
    var text := "\nP1 S \n x\n";
    AcrossLinesEnds();
    ScanOneMatch(Engine(text));
    OneRow(text, 1, 9);
    AcrossLinesRow();
  }

  /** The matched span of that text, as a string. */
  lemma {:induction false} AcrossLinesRow()
    ensures "\nP1 S \n x\n"[1..9] == "P1 S \n x"
  {
  }

  /** A text with a single match has that match's text as its only row. */
  lemma {:induction false} OneRow(text: string, a: nat, b: nat)
    requires FindAll(text) == [Span(a, b)] && a <= b <= |text|
    ensures Rows(text) == [text[a..b]]
  {
  }

  /** The engine's answers on that text: one match, from the start of the
      first row to the end of the next line. */
  lemma {:induction false} AcrossLinesEnds()
    ensures MatchEnd("\nP1 S \n x\n", 0).None?
    ensures MatchEnd("\nP1 S \n x\n", 1) == Some(9)
    ensures MatchEnd("\nP1 S \n x\n", 9).None?
    ensures MatchEnd("\nP1 S \n x\n", 10).None?
  {
    AcrossLinesMatch();
    var text := "\nP1 S \n x\n";
    assert MatchEnd(text, 0).None?;
    assert MatchEnd(text, 9).None?;
    assert RunEnd(text, 10, IsAlnum) == 10;
  }

  /** The match at the first row's start runs over the line break. */
  lemma {:induction false} AcrossLinesMatch()
    ensures MatchEnd("\nP1 S \n x\n", 1) == Some(9)
  {
    AcrossLinesFront();
    var text := "\nP1 S \n x\n";
    assert RunEnd(text, 8, NotNewline) == 9;
  }

  /** Before `.*`: the name `P1`, one space, `S`, then the space, the
      newline and the space that start the next line. */
  lemma {:induction false} AcrossLinesFront()
    ensures FrontOf("\nP1 S \n x\n", 1) == Some(Front(3, 4, 8))
  {
    var text := "\nP1 S \n x\n";
    assert RunEnd(text, 1, IsAlnum) == 3;
    assert RunEnd(text, 3, IsSpace) == 4;
    assert RunEnd(text, 5, IsSpace) == 8;
  }

  /** A scan of a ten-character text whose matcher answers at position 1 only,
      with a match to position 9, finds exactly that match. */
  lemma {:induction false} ScanOneMatch(m: nat -> Option<nat>)
    requires Advances(m)
    requires m(0).None? && m(1) == Some(9) && m(9).None? && m(10).None?
    ensures Scan(m, 10, 0) == [Span(1, 9)]
  {
    assert Scan(m, 10, 11) == [];
    assert Scan(m, 10, 9) == [];
    assert Scan(m, 10, 1) == [Span(1, 9)];
  }

  /** The header is a single line. */
  lemma {:induction false} HeaderOneLine()
    ensures '\n' !in Header
  {
    assert '\n' !in "Name                         ";
    assert '\n' !in "S/T   " + "Pos  " + "G-score ";
    assert '\n' !in "I-score " + "Y/N  " + "Comment";
  }

  /** `"\n".join([header] + tabular)`: the text given to the table reader. */
  function TableText(text: string): (r: string)
    ensures Header <= r
  {
    Join([Header] + Rows(text), '\n')
  }

  /** With no row selected the table text is the header alone; otherwise it
      is the header, a newline, and the rows joined by newlines. */
  lemma {:induction false} TableTextShape(text: string)
    ensures Rows(text) == [] ==> TableText(text) == Header
    ensures Rows(text) != [] ==> TableText(text) == Header + "\n" + Join(Rows(text), '\n')
  {
    var parts := [Header] + Rows(text);
    if Rows(text) != [] {
      assert parts[1..] == Rows(text);
    }
  }

  /** The header is always the table text's first line, whatever the input. */
  lemma {:induction false} HeaderFirstLine(text: string)
    ensures |TableText(text)| >= |Header| && TableText(text)[..|Header|] == Header
    ensures Split(TableText(text), '\n')[0] == Header
  {
    TableTextShape(text);
    var t := TableText(text);
    HeaderOneLine();
    if Rows(text) != [] {
      assert t[|Header|] == '\n';
      assert t[..|Header|] == Header;
      assert FirstIndex(t, '\n') == |Header|;
    } else {
      assert t == Header;
    }
  }

  /** When no row runs over a line break, the table text's lines are exactly
      the header followed by the rows, in order. */
  lemma {:induction false} TableLines(text: string)
    requires forall i :: 0 <= i < |Rows(text)| ==> '\n' !in Rows(text)[i]
    ensures Split(TableText(text), '\n') == [Header] + Rows(text)
  {
    var parts := [Header] + Rows(text);
    HeaderOneLine();
    assert forall i :: 1 <= i < |parts| ==> parts[i] == Rows(text)[i - 1];
    SplitJoin(parts, '\n');
  }
}
