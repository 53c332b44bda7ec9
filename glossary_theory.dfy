/**
  What the scraper's dict means, stated without the loop.

  The tags between a term-starting paragraph and the next <div> or the next
  term-starting paragraph form that term's segment; its definition is the
  first part taken from the starting paragraph followed by the text of every
  paragraph in the segment that has no <em>, joined and stripped. The dict
  holds every non-empty term that is started, in the order terms are first
  started, each with the definition of its LAST segment.
 */
module GlossaryTheory {
  import opened Wrappers
  import opened Text
  import opened PyDict
  import opened GlossaryScraper

  /** `t` starts the term `k`. */
  predicate Names(t: Tag, k: string) {
    StartsTerm(t) && TermOf(t) == k
  }

  /** The index of the last paragraph starting the term `k`, if any. */
  function LastStart(p: seq<Tag>, k: string): (r: Option<nat>)
    ensures r.Some? ==> r.value < |p| && Names(p[r.value], k)
    ensures r.Some? ==> forall j :: r.value < j < |p| ==> !Names(p[j], k)
    ensures r.None? ==> forall j :: 0 <= j < |p| ==> !Names(p[j], k)
  {
    if p == [] then None
    else if Names(p[|p| - 1], k) then Some(|p| - 1)
    else LastStart(p[..|p| - 1], k)
  }

  /** The index of the last term-starting paragraph, whatever its term. */
  function LastTermStart(p: seq<Tag>): (r: Option<nat>)
    ensures r.Some? ==> r.value < |p| && StartsTerm(p[r.value])
    ensures r.Some? ==> forall j :: r.value < j < |p| ==> !StartsTerm(p[j])
    ensures r.None? ==> forall j :: 0 <= j < |p| ==> !StartsTerm(p[j])
  {
    if p == [] then None
    else if StartsTerm(p[|p| - 1]) then Some(|p| - 1)
    else LastTermStart(p[..|p| - 1])
  }

  /** A <div> or a new term ends the segment of a non-empty term. */
  predicate EndsSegment(t: Tag) {
    t.Div? || StartsTerm(t)
  }

  /** The first index at or after `j` that ends a segment, or |p|. */
  function SegmentEndFrom(p: seq<Tag>, j: nat): (r: nat)
    requires j <= |p|
    ensures j <= r <= |p|
    ensures forall m :: j <= m < r ==> !EndsSegment(p[m])
    ensures r < |p| ==> EndsSegment(p[r])
    decreases |p| - j
  {
    if j == |p| || EndsSegment(p[j]) then j else SegmentEndFrom(p, j + 1)
  }

  /** What a tag inside a segment adds to the definition: the text of a paragraph without <em>. */
  function Piece(t: Tag): seq<string> {
    if t.P? && !StartsTerm(t) && !t.hasEm then [t.text] else []
  }

  function Continuations(seg: seq<Tag>): seq<string> {
    if seg == [] then [] else Continuations(seg[..|seg| - 1]) + Piece(seg[|seg| - 1])
  }

  /** The paragraphs' texts that continue the segment the paragraph at `i` starts. */
  function ContinuationsAt(p: seq<Tag>, i: nat): seq<string>
    requires i < |p|
  {
    Continuations(p[i + 1..SegmentEndFrom(p, i + 1)])
  }

  /** The definition parts of the segment the paragraph at `i` starts. */
  function PartsAt(p: seq<Tag>, i: nat): seq<string>
    requires i < |p| && StartsTerm(p[i])
  {
    [FirstPart(p[i])] + ContinuationsAt(p, i)
  }

  function DefinitionAt(p: seq<Tag>, i: nat): string
    requires i < |p| && StartsTerm(p[i])
  {
    Definition(PartsAt(p, i))
  }

  /** The non-empty terms started in `p`, without repeats, in order of first start. */
  function StartedTerms(p: seq<Tag>): (ks: seq<string>)
    ensures Distinct(ks)
    ensures forall k :: k in ks <==> k != "" && exists i :: 0 <= i < |p| && Names(p[i], k)
  {
    if p == [] then []
    else
      var front := p[..|p| - 1];
      var ks := StartedTerms(front);
      var t := p[|p| - 1];
      assert forall i :: 0 <= i < |front| ==> front[i] == p[i];
      if StartsTerm(t) && TermOf(t) != "" && TermOf(t) !in ks then ks + [TermOf(t)] else ks
  }

  /** The definition of the last segment of `k`. */
  function ValueOf(p: seq<Tag>, k: string): string {
    match LastStart(p, k)
    case None => ""
    case Some(i) => DefinitionAt(p, i)
  }

  /** The dict the scraper should produce, by the description above. */
  function Reference(p: seq<Tag>): (d: Dict)
    ensures Keys(d) == StartedTerms(p)
  {
    FromKeys(StartedTerms(p), k => ValueOf(p, k))
  }

  // ---------------------------------------------------------------------------
  // How the definitions above change when one more tag is read.

  lemma LastStartSnoc(p: seq<Tag>, t: Tag, k: string)
    ensures LastStart(p + [t], k) == if Names(t, k) then Some(|p|) else LastStart(p, k)
  {
    var q := p + [t];
    assert q[|q| - 1] == t && q[..|q| - 1] == p;
  }

  lemma LastTermStartSnoc(p: seq<Tag>, t: Tag)
    ensures LastTermStart(p + [t]) == if StartsTerm(t) then Some(|p|) else LastTermStart(p)
  {
    var q := p + [t];
    assert q[|q| - 1] == t && q[..|q| - 1] == p;
  }

  lemma StartedTermsSnoc(p: seq<Tag>, t: Tag)
    ensures StartedTerms(p + [t]) ==
      if StartsTerm(t) && TermOf(t) != "" && TermOf(t) !in StartedTerms(p)
      then StartedTerms(p) + [TermOf(t)] else StartedTerms(p)
  {
    var q := p + [t];
    assert q[|q| - 1] == t && q[..|q| - 1] == p;
  }

  lemma ContinuationsSnoc(seg: seq<Tag>, t: Tag)
    ensures Continuations(seg + [t]) == Continuations(seg) + Piece(t)
  {
    assert (seg + [t])[..|seg|] == seg;
  }

  lemma {:induction false} SegmentEndSnoc(p: seq<Tag>, t: Tag, j: nat)
    requires j <= |p|
    ensures SegmentEndFrom(p + [t], j) ==
      if SegmentEndFrom(p, j) < |p| then SegmentEndFrom(p, j)
      else if EndsSegment(t) then |p| else |p| + 1
    decreases |p| - j
  {
    if j < |p| {
      assert (p + [t])[j] == p[j];
      if !EndsSegment(p[j]) {
        SegmentEndSnoc(p, t, j + 1);
      }
    }
  }

  /** Only a segment still open at the end of `p` can grow, and only by the new tag's piece. */
  lemma ContinuationsAtSnoc(p: seq<Tag>, t: Tag, i: nat)
    requires i < |p|
    ensures ContinuationsAt(p + [t], i) ==
      if SegmentEndFrom(p, i + 1) == |p| then ContinuationsAt(p, i) + Piece(t) else ContinuationsAt(p, i)
  {
    var q := p + [t];
    var e := SegmentEndFrom(p, i + 1);
    SegmentEndSnoc(p, t, i + 1);
    SliceSnocUpTo(p, t, i + 1, e);
    if e == |p| && !EndsSegment(t) {
      ContinuationsSnoc(p[i + 1..e], t);
    }
  }

  lemma ConsSnoc<T>(x: T, a: seq<T>, b: seq<T>)
    ensures [x] + (a + b) == ([x] + a) + b
  {
  }

  /** Only a segment still open at the end of `p` can grow, and only by the new tag's piece. */
  lemma PartsSnoc(p: seq<Tag>, t: Tag, i: nat)
    requires i < |p| && StartsTerm(p[i])
    ensures PartsAt(p + [t], i) ==
      if SegmentEndFrom(p, i + 1) == |p| then PartsAt(p, i) + Piece(t) else PartsAt(p, i)
  {
    assert (p + [t])[i] == p[i];
    ContinuationsAtSnoc(p, t, i);
    ConsSnoc(FirstPart(p[i]), ContinuationsAt(p, i), Piece(t));
  }

  /** A term that `t` does not start keeps its value unless its segment is open and `t` adds a piece. */
  lemma ValueSnoc(p: seq<Tag>, t: Tag, k: string)
    requires !Names(t, k)
    requires LastStart(p, k).Some? ==> SegmentEndFrom(p, LastStart(p, k).value + 1) < |p| || Piece(t) == []
    ensures ValueOf(p + [t], k) == ValueOf(p, k)
  {
    LastStartSnoc(p, t, k);
    if LastStart(p, k).Some? {
      var i := LastStart(p, k).value;
      ContinuationsAtClosed(p, t, i);
      assert (p + [t])[i] == p[i];
      SameDefinition(p, p + [t], i);
    }
  }

  lemma ContinuationsAtClosed(p: seq<Tag>, t: Tag, i: nat)
    requires i < |p|
    requires SegmentEndFrom(p, i + 1) < |p| || Piece(t) == []
    ensures ContinuationsAt(p + [t], i) == ContinuationsAt(p, i)
  {
    ContinuationsAtSnoc(p, t, i);
    AppendEmpty(ContinuationsAt(p, i));
  }

  /** Equal parts give equal definitions. */
  lemma SameDefinition(p: seq<Tag>, q: seq<Tag>, i: nat)
    requires i < |p| && i < |q| && q[i] == p[i] && StartsTerm(p[i])
    requires ContinuationsAt(q, i) == ContinuationsAt(p, i)
    ensures DefinitionAt(q, i) == DefinitionAt(p, i)
  {
  }

  lemma AppendEmpty<T>(a: seq<T>)
    ensures a + [] == a
  {
  }

  /** The segment of an earlier start has ended by the next start. */
  lemma EarlierSegmentClosed(p: seq<Tag>, i: nat, s: nat)
    requires i < s < |p| && StartsTerm(p[s])
    ensures SegmentEndFrom(p, i + 1) <= s
  {
  }

  // ---------------------------------------------------------------------------
  // The loop's variables, described by the tags read so far.

  predicate NoDivAfter(p: seq<Tag>, s: nat) {
    forall m :: s < m < |p| ==> !p[m].Div?
  }

  /** Paragraphs are being collected: a term was started and has not been closed by a <div>. */
  predicate Open(p: seq<Tag>) {
    match LastTermStart(p)
    case None => false
    case Some(s) => TermOf(p[s]) == "" || NoDivAfter(p, s)
  }

  /**
    The pending term and parts are those of the last started term: its name,
    its first part, and the text of every later paragraph without <em>.
   */
  predicate Tracks(p: seq<Tag>, st: ScanState) {
    && (st.collecting <==> Open(p))
    && (st.collecting ==>
          LastTermStart(p).Some?
          && st.term == TermOf(p[LastTermStart(p).value])
          && st.parts == [FirstPart(p[LastTermStart(p).value])] + Continuations(p[LastTermStart(p).value + 1..]))
  }

  /** What holds of the loop's variables after reading the tags `p`. */
  predicate Inv(p: seq<Tag>, st: ScanState) {
    && WellFormed(st)
    && Tracks(p, st)
    && Flush(st) == Reference(p)
  }

  lemma SliceSnoc(p: seq<Tag>, t: Tag, s: nat)
    requires s < |p|
    ensures (p + [t])[s + 1..] == p[s + 1..] + [t]
  {
  }

  lemma SliceSnocUpTo(p: seq<Tag>, t: Tag, i: nat, e: nat)
    requires i <= e <= |p|
    ensures (p + [t])[i..e] == p[i..e]
    ensures e == |p| ==> (p + [t])[i..e + 1] == p[i..e] + [t]
  {
  }

  /** The continuations after `s` grow by the new tag's piece. */
  lemma ContinuationsAfterSnoc(p: seq<Tag>, t: Tag, s: nat)
    requires s < |p|
    ensures Continuations((p + [t])[s + 1..]) == Continuations(p[s + 1..]) + Piece(t)
  {
    SliceSnoc(p, t, s);
    ContinuationsSnoc(p[s + 1..], t);
  }

  // --- A <div> ---

  /** A <div> changes no value: it adds no piece to any segment. */
  lemma DivValues(p: seq<Tag>)
    ensures Reference(p + [Div]) == Reference(p)
  {
    forall k | k in StartedTerms(p) ensures ValueOf(p + [Div], k) == ValueOf(p, k) {
      DivValue(p, k);
    }
    SameReference(p, Div);
  }

  lemma DivValue(p: seq<Tag>, k: string)
    ensures ValueOf(p + [Div], k) == ValueOf(p, k)
  {
    assert Piece(Div) == [] && !Names(Div, k);
    ValueSnoc(p, Div, k);
  }

  /** A tag that starts no term and changes no value leaves the reference dict as it is. */
  lemma SameReference(p: seq<Tag>, t: Tag)
    requires !StartsTerm(t)
    requires forall j :: j in StartedTerms(p) ==> ValueOf(p + [t], j) == ValueOf(p, j)
    ensures Reference(p + [t]) == Reference(p)
  {
    StartedTermsSnoc(p, t);
    FromKeysAgree(StartedTerms(p), j => ValueOf(p, j), j => ValueOf(p + [t], j));
  }

  lemma StepDivTracks(p: seq<Tag>, st: ScanState)
    requires WellFormed(st) && Tracks(p, st)
    ensures Tracks(p + [Div], Step(st, Div))
  {
    if st.collecting && st.term == "" {
      DivKeepsEmptyTerm(p, st);
    } else {
      DivCloses(p, st.collecting, st.term);
    }
  }

  /** A <div> closes the last started term unless its name is empty. */
  lemma DivCloses(p: seq<Tag>, collecting: bool, term: string)
    requires collecting <==> Open(p)
    requires collecting ==> LastTermStart(p).Some? && term == TermOf(p[LastTermStart(p).value])
    requires !(collecting && term == "")
    ensures !Open(p + [Div])
  {
    var q := p + [Div];
    LastTermStartSnoc(p, Div);
    if LastTermStart(p).Some? {
      var s := LastTermStart(p).value;
      assert q[s] == p[s];
      assert !NoDivAfter(q, s) by { assert q[|p|].Div?; }
    }
  }

  /** Collecting for an empty term goes on across a <div>, which adds no part. */
  lemma DivKeepsEmptyTerm(p: seq<Tag>, st: ScanState)
    requires Tracks(p, st) && st.collecting && st.term == ""
    ensures Tracks(p + [Div], st)
  {
    var q := p + [Div];
    LastTermStartSnoc(p, Div);
    var s := LastTermStart(p).value;
    assert q[s] == p[s];
    ContinuationsAfterSnoc(p, Div, s);
    AppendEmpty(Continuations(p[s + 1..]));
  }

  lemma StepDivFlush(p: seq<Tag>, st: ScanState)
    requires Flush(st) == Reference(p)
    ensures Flush(Step(st, Div)) == Reference(p + [Div])
  {
    DivValues(p);
  }

  // --- A paragraph that starts a term ---

  /** A new start gives its term the first part alone, and changes no other term's value. */
  lemma StartValues(p: seq<Tag>, t: Tag)
    requires StartsTerm(t)
    ensures ValueOf(p + [t], TermOf(t)) == Definition([FirstPart(t)])
    ensures forall j :: j != TermOf(t) ==> ValueOf(p + [t], j) == ValueOf(p, j)
  {
    var q := p + [t];
    assert Piece(t) == [];
    forall j | j != TermOf(t) ensures ValueOf(q, j) == ValueOf(p, j) {
      ValueSnoc(p, t, j);
    }
    LastStartSnoc(p, t, TermOf(t));
    assert SegmentEndFrom(q, |p| + 1) == |q|;
    assert ContinuationsAt(q, |p|) == [];
    assert PartsAt(q, |p|) == [FirstPart(t)];
  }

  lemma StepStartTracks(p: seq<Tag>, st: ScanState, t: Tag)
    requires StartsTerm(t)
    ensures Tracks(p + [t], Step(st, t))
  {
    var q := p + [t];
    LastTermStartSnoc(p, t);
    assert q[|p|] == t;
    assert q[|p| + 1..] == [];
    assert NoDivAfter(q, |p|);
  }

  lemma StepStartFlush(p: seq<Tag>, st: ScanState, t: Tag)
    requires StartsTerm(t)
    requires Flush(st) == Reference(p)
    ensures Flush(Step(st, t)) == Reference(p + [t])
  {
    var q := p + [t];
    var k := TermOf(t);
    StartedTermsSnoc(p, t);
    StartValues(p, t);
    var ks := StartedTerms(p);
    var f := j => ValueOf(p, j);
    var g := j => ValueOf(q, j);
    if k == "" {
      FromKeysAgree(ks, f, g);
    } else if k in ks {
      FromKeysPut(ks, f, g, k);
    } else {
      FromKeysAppend(ks, f, g, k);
    }
  }

  // --- Any other paragraph ---

  /** What a paragraph that starts no term does to the loop's variables. */
  function Collect(st: ScanState, t: Tag): ScanState {
    if st.collecting then st.(parts := st.parts + Piece(t)) else st
  }

  /** Such a paragraph is collected when a term is open, and otherwise skipped. */
  lemma StepParagraph(st: ScanState, t: Tag)
    requires t.P? && !StartsTerm(t)
    ensures Step(st, t) == Collect(st, t)
  {
    AppendEmpty(st.parts);
  }

  lemma StepParagraphTracks(p: seq<Tag>, st: ScanState, t: Tag)
    requires Tracks(p, st)
    requires t.P? && !StartsTerm(t)
    ensures Tracks(p + [t], Collect(st, t))
  {
    if st.collecting {
      StepOpenTracks(p, st, t);
    } else {
      ParagraphKeepsClosed(p, t);
    }
  }

  /** While collecting, the pending parts take in the paragraph's piece. */
  lemma StepOpenTracks(p: seq<Tag>, st: ScanState, t: Tag)
    requires Tracks(p, st) && st.collecting
    requires t.P? && !StartsTerm(t)
    ensures Tracks(p + [t], Collect(st, t))
  {
    var s := LastTermStart(p).value;
    ParagraphKeepsOpen(p, t, s);
    ConsSnoc(FirstPart(p[s]), Continuations(p[s + 1..]), Piece(t));
  }

  /** A paragraph that starts no term does not reopen a closed term. */
  lemma ParagraphKeepsClosed(p: seq<Tag>, t: Tag)
    requires !Open(p) && !StartsTerm(t)
    ensures !Open(p + [t])
  {
    LastTermStartSnoc(p, t);
    if LastTermStart(p).Some? {
      var s := LastTermStart(p).value;
      var m :| s < m < |p| && p[m].Div?;
      assert (p + [t])[s] == p[s] && (p + [t])[m] == p[m];
    }
  }

  /** A paragraph that starts no term keeps an open term open and adds its piece to the parts. */
  lemma ParagraphKeepsOpen(p: seq<Tag>, t: Tag, s: nat)
    requires Open(p) && LastTermStart(p) == Some(s) && t.P? && !StartsTerm(t)
    ensures Open(p + [t]) && LastTermStart(p + [t]) == Some(s) && (p + [t])[s] == p[s]
    ensures Continuations((p + [t])[s + 1..]) == Continuations(p[s + 1..]) + Piece(t)
  {
    var q := p + [t];
    LastTermStartSnoc(p, t);
    assert q[s] == p[s];
    assert NoDivAfter(q, s) == NoDivAfter(p, s);
    ContinuationsAfterSnoc(p, t, s);
  }

  /** A paragraph that starts no term changes the value of no term but the open one. */
  lemma ParagraphValues(p: seq<Tag>, t: Tag, j: string)
    requires t.P? && !StartsTerm(t)
    requires Open(p) && LastTermStart(p).Some? ==> j != TermOf(p[LastTermStart(p).value])
    ensures ValueOf(p + [t], j) == ValueOf(p, j)
  {
    if LastStart(p, j).Some? {
      var i := LastStart(p, j).value;
      var s := LastTermStart(p).value;
      if i < s {
        EarlierSegmentClosed(p, i, s);
      } else {
        var m :| s < m < |p| && p[m].Div?;
        assert SegmentEndFrom(p, s + 1) <= m;
      }
    }
    ValueSnoc(p, t, j);
  }

  /** The last started term, when not empty and not closed, has its segment still running. */
  lemma OpenTerm(p: seq<Tag>, s: nat)
    requires LastTermStart(p) == Some(s) && TermOf(p[s]) != "" && NoDivAfter(p, s)
    ensures LastStart(p, TermOf(p[s])) == Some(s)
    ensures SegmentEndFrom(p, s + 1) == |p|
    ensures ContinuationsAt(p, s) == Continuations(p[s + 1..])
  {
    LastStartIsLastTermStart(p, TermOf(p[s]));
    OpenSegment(p, s);
  }

  /** A collected paragraph adds its text to the open term's definition. */
  lemma GrowValue(p: seq<Tag>, t: Tag, s: nat, parts: seq<string>)
    requires LastTermStart(p) == Some(s) && TermOf(p[s]) != "" && NoDivAfter(p, s)
    requires parts == [FirstPart(p[s])] + Continuations(p[s + 1..])
    requires t.P? && !StartsTerm(t) && !t.hasEm
    ensures ValueOf(p + [t], TermOf(p[s])) == Definition(parts + [t.text])
  {
    var q := p + [t];
    OpenTerm(p, s);
    OpenParts(p, s, parts);
    LastStartSnoc(p, t, TermOf(p[s]));
    PartsSnoc(p, t, s);
    assert PartsAt(q, s) == parts + [t.text];
  }

  lemma OpenParts(p: seq<Tag>, s: nat, parts: seq<string>)
    requires s < |p| && StartsTerm(p[s])
    requires ContinuationsAt(p, s) == Continuations(p[s + 1..])
    requires parts == [FirstPart(p[s])] + Continuations(p[s + 1..])
    ensures PartsAt(p, s) == parts
  {
  }

  /** A segment that nothing has ended yet runs to the end of the tags read. */
  lemma OpenSegment(p: seq<Tag>, s: nat)
    requires s < |p| && NoDivAfter(p, s)
    requires forall j :: s < j < |p| ==> !StartsTerm(p[j])
    ensures SegmentEndFrom(p, s + 1) == |p|
    ensures ContinuationsAt(p, s) == Continuations(p[s + 1..])
  {
    assert p[s + 1..|p|] == p[s + 1..];
  }

  /** The last start of the last started term is the last start of any term. */
  lemma {:induction false} LastStartIsLastTermStart(p: seq<Tag>, k: string)
    requires LastTermStart(p).Some? && TermOf(p[LastTermStart(p).value]) == k
    ensures LastStart(p, k) == LastTermStart(p)
  {
    var t := p[|p| - 1];
    if !StartsTerm(t) {
      var front := p[..|p| - 1];
      assert p == front + [t];
      LastTermStartSnoc(front, t);
      LastStartSnoc(front, t, k);
      assert front[LastTermStart(front).value] == p[LastTermStart(p).value];
      LastStartIsLastTermStart(front, k);
    }
  }

  /** Collecting after a closed or empty term, or skipping an <em> paragraph, changes no value. */
  lemma StepParagraphSameValues(p: seq<Tag>, st: ScanState, t: Tag)
    requires Tracks(p, st)
    requires t.P? && !StartsTerm(t)
    requires !(st.collecting && !t.hasEm && st.term != "")
    ensures forall j :: j in StartedTerms(p) ==> ValueOf(p + [t], j) == ValueOf(p, j)
  {
    forall j | j in StartedTerms(p) ensures ValueOf(p + [t], j) == ValueOf(p, j) {
      var s := LastTermStart(p).value;
      if j == TermOf(p[s]) {
        assert LastStart(p, j) == Some(s);
        if !st.collecting {
          var m :| s < m < |p| && p[m].Div?;
          assert SegmentEndFrom(p, s + 1) <= m;
        }
        ValueSnoc(p, t, j);
      } else {
        ParagraphValues(p, t, j);
      }
    }
  }

  lemma StepParagraphFlush(p: seq<Tag>, st: ScanState, t: Tag)
    requires Tracks(p, st) && Flush(st) == Reference(p)
    requires t.P? && !StartsTerm(t)
    ensures Flush(Collect(st, t)) == Reference(p + [t])
  {
    if st.collecting && !t.hasEm && st.term != "" {
      CollectedFlush(p, st, t);
    } else {
      SkippedFlush(p, st, t);
    }
  }

  /** A paragraph collected for a non-empty term: the flush follows the growing definition. */
  lemma CollectedFlush(p: seq<Tag>, st: ScanState, t: Tag)
    requires Tracks(p, st) && Flush(st) == Reference(p)
    requires t.P? && !StartsTerm(t) && st.collecting && !t.hasEm && st.term != ""
    ensures Flush(Collect(st, t)) == Reference(p + [t])
  {
    var s := LastTermStart(p).value;
    assert NoDivAfter(p, s);
    GrowCase(p, st, t, s);
  }

  /** A paragraph skipped, or collected for an empty term: nothing saved changes. */
  lemma SkippedFlush(p: seq<Tag>, st: ScanState, t: Tag)
    requires Tracks(p, st) && Flush(st) == Reference(p)
    requires t.P? && !StartsTerm(t) && !(st.collecting && !t.hasEm && st.term != "")
    ensures Flush(Collect(st, t)) == Reference(p + [t])
  {
    StepParagraphSameValues(p, st, t);
    SameValuesFlush(p, st, t);
  }

  /** The open term's pending definition takes in the paragraph, in the reference as in the saved dict. */
  lemma GrowCase(p: seq<Tag>, st: ScanState, t: Tag, s: nat)
    requires LastTermStart(p) == Some(s) && NoDivAfter(p, s)
    requires st.term == TermOf(p[s]) && st.term != "" && st.collecting
    requires st.parts == [FirstPart(p[s])] + Continuations(p[s + 1..])
    requires Flush(st) == Reference(p)
    requires t.P? && !StartsTerm(t) && !t.hasEm
    ensures Flush(Collect(st, t)) == Reference(p + [t])
  {
    GrowValue(p, t, s, st.parts);
    FlushIsPut(st);
    GrowFlush(p, t, s, st.glossary, st.parts);
    FlushGrow(st, t);
  }

  /** With a pending term, the flush saves it. */
  lemma FlushIsPut(st: ScanState)
    requires st.term != ""
    ensures Flush(st) == Put(st.glossary, st.term, Definition(st.parts))
  {
  }

  /** A collected paragraph lengthens the pending parts the flush saves. */
  lemma FlushGrow(st: ScanState, t: Tag)
    requires st.term != "" && st.collecting && t.P? && !StartsTerm(t) && !t.hasEm
    ensures Flush(Collect(st, t)) == Put(st.glossary, st.term, Definition(st.parts + [t.text]))
  {
  }

  /** A paragraph that adds nothing to a pending term leaves the flush as it is. */
  lemma FlushKept(st: ScanState, t: Tag)
    requires t.P? && !StartsTerm(t)
    requires !(st.collecting && !t.hasEm && st.term != "")
    ensures Flush(Collect(st, t)) == Flush(st)
  {
    if st.term == "" {
      assert Collect(st, t).term == "" && Collect(st, t).glossary == st.glossary;
    } else {
      AppendEmpty(st.parts);
      assert Collect(st, t) == st;
    }
  }

  /** A paragraph that changes no value and no pending definition leaves the saved dict right. */
  lemma SameValuesFlush(p: seq<Tag>, st: ScanState, t: Tag)
    requires Flush(st) == Reference(p)
    requires t.P? && !StartsTerm(t)
    requires !(st.collecting && !t.hasEm && st.term != "")
    requires forall j :: j in StartedTerms(p) ==> ValueOf(p + [t], j) == ValueOf(p, j)
    ensures Flush(Collect(st, t)) == Reference(p + [t])
  {
    FlushKept(st, t);
    SameReference(p, t);
  }

  /**
    A collected paragraph replaces the open term's saved definition and
    nothing else: the dict saved with the longer parts is the reference after it.
   */
  lemma GrowFlush(p: seq<Tag>, t: Tag, s: nat, saved: Dict, parts: seq<string>)
    requires LastTermStart(p) == Some(s) && TermOf(p[s]) != ""
    requires Put(saved, TermOf(p[s]), Definition(parts)) == Reference(p)
    requires t.P? && !StartsTerm(t)
    requires ValueOf(p + [t], TermOf(p[s])) == Definition(parts + [t.text])
    ensures Put(saved, TermOf(p[s]), Definition(parts + [t.text])) == Reference(p + [t])
  {
    var q := p + [t];
    var k := TermOf(p[s]);
    var ks := StartedTerms(p);
    var f := j => ValueOf(p, j);
    var g := j => ValueOf(q, j);
    StartedTermsSnoc(p, t);
    assert k in ks by {
      assert Names(p[s], k);
    }
    forall j | j in ks && j != k ensures g(j) == f(j) {
      ParagraphValues(p, t, j);
    }
    PutPut(saved, k, Definition(parts), Definition(parts + [t.text]));
    FromKeysPut(ks, f, g, k);
  }

  lemma StepKeepsInv(p: seq<Tag>, st: ScanState, t: Tag)
    requires Inv(p, st)
    ensures Inv(p + [t], Step(st, t))
  {
    if t.Div? {
      StepDivTracks(p, st);
      StepDivFlush(p, st);
    } else if StartsTerm(t) {
      StepStartTracks(p, st, t);
      StepStartFlush(p, st, t);
    } else {
      StepParagraph(st, t);
      StepParagraphTracks(p, st, t);
      StepParagraphFlush(p, st, t);
    }
  }

  lemma {:induction false} RunKeepsInv(p: seq<Tag>)
    ensures Inv(p, Run(p))
    decreases |p|
  {
    if p == [] {
      assert Reference(p) == [];
    } else {
      var front := p[..|p| - 1];
      RunKeepsInv(front);
      assert p == front + [p[|p| - 1]];
      StepKeepsInv(front, Run(front), p[|p| - 1]);
    }
  }

  // ---------------------------------------------------------------------------
  // What the scraper produces.

  /** The scraper's dict is exactly the reference dict. */
  lemma GlossaryIsReference(p: seq<Tag>)
    ensures Glossary(p) == Reference(p)
  {
    RunKeepsInv(p);
  }

  /**
    The keys are the non-empty started terms, in order of first start: a term
    is a key exactly when some paragraph starts it and it is not empty.
   */
  lemma GlossaryKeys(p: seq<Tag>, k: string)
    ensures Keys(Glossary(p)) == StartedTerms(p)
    ensures k in Keys(Glossary(p)) <==> k != "" && exists i :: 0 <= i < |p| && Names(p[i], k)
  {
    GlossaryIsReference(p);
  }

  /**
    A term started more than once ends up with the definition of its last
    segment: earlier definitions are overwritten.
   */
  lemma LaterDefinitionWins(p: seq<Tag>, k: string, i: nat)
    requires i < |p| && Names(p[i], k) && k != ""
    requires forall j :: i < j < |p| ==> !Names(p[j], k)
    ensures Get(Glossary(p), k) == Some(DefinitionAt(p, i))
  {
    GlossaryIsReference(p);
    assert LastStart(p, k) == Some(i);
    var ks := StartedTerms(p);
    assert k in ks;
    var n :| 0 <= n < |ks| && ks[n] == k;
    GetAt(Reference(p), n);
  }

  lemma {:induction false} GetAt(d: Dict, n: nat)
    requires n < |d| && Distinct(Keys(d))
    ensures Get(d, d[n].0) == Some(d[n].1)
  {
    if n > 0 {
      assert Keys(d[1..]) == Keys(d)[1..];
      GetAt(d[1..], n - 1);
    }
  }

  /** Tags before the first term-starting paragraph contribute nothing. */
  lemma PrefixWithoutTermsIgnored(pre: seq<Tag>, p: seq<Tag>)
    requires forall i :: 0 <= i < |pre| ==> !StartsTerm(pre[i])
    ensures Glossary(pre + p) == Glossary(p)
  {
    RunFromAppend(Initial, pre, p);
    IdleIgnoresTags(Initial, pre);
  }

  /** While not collecting, tags that start no term leave every variable as it is. */
  lemma {:induction false} IdleIgnoresTags(st: ScanState, b: seq<Tag>)
    requires !st.collecting
    requires forall i :: 0 <= i < |b| ==> !StartsTerm(b[i])
    ensures RunFrom(st, b) == st
    decreases |b|
  {
    if b != [] {
      IdleIgnoresTags(st, b[..|b| - 1]);
    }
  }

  /** The variables agree on everything the dict can still come to depend on. */
  predicate Equiv(x: ScanState, y: ScanState) {
    && x.glossary == y.glossary && x.term == y.term && x.collecting == y.collecting
    && (x.term != "" ==> x.parts == y.parts)
  }

  lemma {:induction false} RunKeepsEquiv(x: ScanState, y: ScanState, c: seq<Tag>)
    requires Equiv(x, y)
    ensures Equiv(RunFrom(x, c), RunFrom(y, c))
    decreases |c|
  {
    if c != [] {
      RunKeepsEquiv(x, y, c[..|c| - 1]);
    }
  }

  /** With no term pending, tags that start no term change only parts that are never saved. */
  lemma {:induction false} NoTermIgnoresTags(x: ScanState, b: seq<Tag>)
    requires x.term == ""
    requires forall i :: 0 <= i < |b| ==> !StartsTerm(b[i])
    ensures Equiv(RunFrom(x, b), x)
    decreases |b|
  {
    if b != [] {
      NoTermIgnoresTags(x, b[..|b| - 1]);
    }
  }

  /**
    After a <div>, paragraphs up to the next term-starting paragraph contribute
    nothing to the dict.
   */
  lemma AfterDivIgnored(a: seq<Tag>, b: seq<Tag>, c: seq<Tag>)
    requires forall i :: 0 <= i < |b| ==> !StartsTerm(b[i])
    ensures Glossary(a + [Div] + b + c) == Glossary(a + [Div] + c)
  {
    var x := Run(a + [Div]);
    assert (a + [Div])[..|a|] == a;
    assert WellFormed(Run(a));
    assert x.term == "";
    RunFromAppend(Initial, a + [Div] + b, c);
    RunFromAppend(Initial, a + [Div], b);
    RunFromAppend(Initial, a + [Div], c);
    NoTermIgnoresTags(x, b);
    RunKeepsEquiv(RunFrom(x, b), x, c);
  }
}
