/**
  The glossary scraper: one pass over the <p> and <div> tags of the glossary
  page, in document order, building a term -> definition dict.

  The loop keeps three variables besides the dict: the pending term, whether
  paragraphs are being collected for it, and the definition parts collected
  so far. A paragraph whose first <strong> contains ':' starts a term, a later
  paragraph without <em> continues it, and a <div> (the horizontal rule
  between entries) closes it.
 */
module GlossaryScraper {
  import opened Wrappers
  import opened Text
  import opened PyDict

  /**
    One tag of find_all(["p", "div"]), reduced to what the loop reads. For a
    paragraph: the text of its first <strong> with each text piece stripped
    (None when it has none), whether it has an <em>, and its own text with
    each text piece stripped.
   */
  datatype Tag =
    | P(strong: Option<string>, hasEm: bool, text: string)
    | Div


  /** A paragraph whose first <strong> contains ':' starts a new term. */
  predicate StartsTerm(t: Tag) {
    t.P? && t.strong.Some? && ':' in t.strong.value
  }

  /** The name of the term a paragraph starts: its strong text, trailing colons removed. */
  function TermOf(t: Tag): string
    requires StartsTerm(t)
  {
    RStrip(t.strong.value, Colon)
  }

  /** A term name is its strong text up to the trailing colons, and never ends with one. */
  lemma TermOfShape(t: Tag)
    requires StartsTerm(t)
    ensures var k := TermOf(t);
      && |k| <= |t.strong.value| && k == t.strong.value[..|k|]
      && (forall i :: |k| <= i < |t.strong.value| ==> t.strong.value[i] == ':')
      && (k == [] || k[|k| - 1] != ':')
  {
    RStripSpec(t.strong.value, Colon);
  }

  /**
    The first part of a new term's definition: the paragraph's text with every
    occurrence of the strong text removed, then ':' and ' ' stripped from both
    ends, then whitespace stripped.
   */
  function FirstPart(t: Tag): string
    requires StartsTerm(t)
  {
    Strip(Strip(RemoveAll(t.text, t.strong.value), ColonOrSpace), PyWhitespace)
  }

  /** The first part has no surrounding whitespace and holds only characters of the paragraph's text. */
  lemma FirstPartShape(t: Tag)
    requires StartsTerm(t)
    ensures var r := FirstPart(t);
      && (r == [] || (!IsPyWhitespace(r[0]) && !IsPyWhitespace(r[|r| - 1])))
      && multiset(r) <= multiset(t.text)
  {
    var removed := RemoveAll(t.text, t.strong.value);
    var trimmed := Strip(removed, ColonOrSpace);
    RemoveAllSpec(t.text, t.strong.value);
    StripShrinks(removed, ColonOrSpace);
    StripShrinks(trimmed, PyWhitespace);
    StripSpec(trimmed, PyWhitespace);
  }

  /** A typical entry: the strong text and the colon go, the definition stays. */
  lemma FirstPartExample(strong: string, text: string, rest: string)
    requires strong == "Force:" && rest == "The mark" && text == strong + rest
    ensures FirstPart(P(Some(strong), false, text)) == rest
  {
    RemoveStrongExample(strong, text, rest);
    StripExample(rest);
  }

  lemma RemoveStrongExample(strong: string, text: string, rest: string)
    requires strong == "Force:" && rest == "The mark" && text == strong + rest
    ensures RemoveAll(text, strong) == rest
  {
    assert OccursAt(text, strong, 0);
    RemoveAllLeftmost(text, strong, 0);
    assert text[..0] == [] && text[|strong|..] == rest;
    assert forall i :: !OccursAt(rest, strong, i);
    RemoveAllSpec(rest, strong);
  }

  lemma StripExample(rest: string)
    requires rest == "The mark"
    ensures Strip(Strip(rest, ColonOrSpace), PyWhitespace) == rest
  {
    StripKeeps(rest, ColonOrSpace);
    StripKeeps(rest, PyWhitespace);
  }

  /** A definition as saved: the parts joined with single spaces, then stripped. */
  function Definition(parts: seq<string>): string {
    Strip(Join(parts, " "), PyWhitespace)
  }

  /** A saved definition has no surrounding whitespace. */
  lemma DefinitionShape(parts: seq<string>)
    ensures var r := Definition(parts);
      r == [] || (!IsPyWhitespace(r[0]) && !IsPyWhitespace(r[|r| - 1]))
  {
    StripSpec(Join(parts, " "), PyWhitespace);
  }

  /** The loop's variables: the dict, current_term ("" for None), collecting, definition_parts. */
  datatype ScanState = ScanState(glossary: Dict, term: string, collecting: bool, parts: seq<string>)

  const Initial := ScanState([], "", false, [])

  /**
    What holds of the variables between iterations: when not collecting there
    is no pending term and no part; when collecting there is at least the
    first part; the dict never holds a key twice.
   */
  predicate WellFormed(st: ScanState) {
    && (!st.collecting ==> st.term == "" && st.parts == [])
    && (st.collecting ==> |st.parts| >= 1)
    && Distinct(Keys(st.glossary))
  }

  /** The dict with the pending term saved, if there is one: what lines 20, 32 and 39 write. */
  function Flush(st: ScanState): (d: Dict)
    ensures st.term != "" ==> Get(d, st.term) == Some(Definition(st.parts))
    ensures forall k :: k != st.term ==> Get(d, k) == Get(st.glossary, k)
    ensures forall k :: k in Keys(st.glossary) ==> k in Keys(d)
    ensures Distinct(Keys(st.glossary)) ==> Distinct(Keys(d))
  {
    if st.term != "" then
      PutSpec(st.glossary, st.term, Definition(st.parts));
      var d := Put(st.glossary, st.term, Definition(st.parts));
      assert Distinct(Keys(st.glossary)) ==> Distinct(Keys(d)) by {
        if Distinct(Keys(st.glossary)) {
          PutDistinct(st.glossary, st.term, Definition(st.parts));
        }
      }
      d
    else
      st.glossary
  }

  /**
    One iteration of the loop. The saved dict either stays as it is or takes in
    the pending term, no saved key is ever lost, and the invariant is kept. A
    tag that neither starts a term, nor continues one, nor closes a non-empty
    one changes nothing.
   */
  function Step(st: ScanState, t: Tag): (r: ScanState)
    ensures r.glossary == st.glossary || r.glossary == Flush(st)
    ensures !StartsTerm(t) && !(t.P? && st.collecting && !t.hasEm) && !(t.Div? && st.collecting && st.term != "") ==> r == st
    ensures forall k :: k in Keys(st.glossary) ==> k in Keys(r.glossary)
    ensures WellFormed(st) ==> WellFormed(r)
  {
    match t
    case P(strong, hasEm, text) =>
      if StartsTerm(t) then
        ScanState(Flush(st), TermOf(t), true, [FirstPart(t)])
      else if st.collecting && !hasEm then
        st.(parts := st.parts + [text])
      else
        st
    case Div =>
      if st.collecting && st.term != "" then
        ScanState(Flush(st), "", false, [])
      else
        st
  }

  /** The loop run over `tags` from the state `st`. */
  function RunFrom(st: ScanState, tags: seq<Tag>): (r: ScanState)
    ensures WellFormed(st) ==> WellFormed(r)
    ensures forall k :: k in Keys(st.glossary) ==> k in Keys(r.glossary)
    decreases |tags|
  {
    if tags == [] then st else Step(RunFrom(st, tags[..|tags| - 1]), tags[|tags| - 1])
  }

  function Run(tags: seq<Tag>): ScanState {
    RunFrom(Initial, tags)
  }

  /** The dict the script dumps to glossary.json: the loop, then the final flush. */
  function Glossary(tags: seq<Tag>): (d: Dict)
    ensures Distinct(Keys(d))
  {
    Flush(Run(tags))
  }

  /** Running over `a + b` is running over `a`, then over `b`. */
  lemma {:induction false} RunFromAppend(st: ScanState, a: seq<Tag>, b: seq<Tag>)
    ensures RunFrom(st, a + b) == RunFrom(RunFrom(st, a), b)
    decreases |b|
  {
    if b == [] {
      assert a + b == a;
    } else {
      assert (a + b)[..|a + b| - 1] == a + b[..|b| - 1];
      RunFromAppend(st, a, b[..|b| - 1]);
    }
  }

  /** The script's loop and final flush, over an already extracted tag sequence. */
  method Scan(tags: seq<Tag>) returns (glossary: Dict)
    ensures glossary == Glossary(tags)
    ensures Distinct(Keys(glossary))
  {
    glossary := [];
    var currentTerm := "";
    var collecting := false;
    var definitionParts: seq<string> := [];
    for i := 0 to |tags|
      invariant ScanState(glossary, currentTerm, collecting, definitionParts) == Run(tags[..i])
    {
      assert tags[..i + 1][..i] == tags[..i];
      var tag := tags[i];
      match tag
      case P(strong, hasEm, text) =>
        if strong.Some? && ':' in strong.value {
          // Save the previous term, then start the new one
          if currentTerm != "" {
            glossary := Put(glossary, currentTerm, Definition(definitionParts));
          }
          currentTerm := TermOf(tag);
          definitionParts := [FirstPart(tag)];
          collecting := true;
        } else if collecting && !hasEm {
          definitionParts := definitionParts + [text];
        }
      case Div =>
        // Reset on the horizontal rule
        if collecting && currentTerm != "" {
          glossary := Put(glossary, currentTerm, Definition(definitionParts));
          currentTerm := "";
          definitionParts := [];
          collecting := false;
        }
    }
    assert tags[..|tags|] == tags;
    if currentTerm != "" {
      glossary := Put(glossary, currentTerm, Definition(definitionParts));
    }
  }
}
