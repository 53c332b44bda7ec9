/**
  The scraper's glossary.json as the server loads it: one entry per non-empty
  started term, in the order terms are first started, each showing the
  definition of the term's last segment.
 */
module Pipeline {
  import opened Text
  import opened PyDict
  import opened GlossaryScraper
  import opened GlossaryTheory
  import opened Server

  lemma EntriesOfScrapedGlossary(p: seq<Tag>)
    ensures var es := Entries(Glossary(p)); var ks := StartedTerms(p);
      && |es| == |ks|
      && forall i :: 0 <= i < |ks| ==>
           es[i] == Entry(Lower(ks[i]), EntryLine(ks[i], ValueOf(p, ks[i])))
  {
    GlossaryIsReference(p);
  }
}
