# Frisbee dictation: glossary scraper and request reshaping, in Dafny

This project models the two pieces of logic in the ultimate-frisbee dictation
tool that go beyond plumbing:

- **The glossary scraper** (`glossary.py`). It makes one pass over the `<p>` and
  `<div>` tags of a glossary page and builds a term → definition dict. It keeps
  a pending term, a `collecting` flag and the definition parts collected so far.
  A paragraph whose `<strong>` contains `:` starts a term. A later paragraph
  without `<em>` continues it. A `<div>` closes it. Whatever is pending at the
  end is saved.
- **The server's request reshaping** (`server.js`). It builds glossary entries
  from `glossary.json`. It finds the entries whose term occurs as a whole word in
  the dictation, ignoring case, and assembles the prompt from them. It turns the
  language model's reply into events, with a single `raw` event as the fallback.
  Finally it turns the events into timestamped rows.

Modules, one per file:

- `Wrappers`: `Option`.
- `Text`: the string built-ins the code relies on. These are Python's `strip`,
  `rstrip`, `replace(s, "")` and `join`, JavaScript's `trim`, and
  `toLowerCase` on ASCII. Each is a function, and its properties are lemmas.
- `PyDict`: a Python dict with string keys. Keys stay in insertion order, and
  assigning to a present key replaces the value where it stands.
- `GlossaryScraper`: the `Tag` datatype, the loop's state, and one loop step
  `Step`. `Glossary` is the fold plus the final flush. The imperative `Scan` is
  the script's loop over the same variables, proved equal to `Glossary`.
- `GlossaryTheory`: a description of the dict that does not use the loop. The
  tags from a term-starting paragraph to the next `<div>` or term start form a
  *segment*. The dict holds every non-empty started term, in order of first
  start, each with the definition of its *last* segment. `GlossaryIsReference`
  proves that the loop computes exactly this dict. The overwriting and ignoring
  properties follow as corollaries.
- `Server`: entries, whole-word matching, the glossary context, the prompt, the
  JSON values and events, the reply → events step with its fallbacks, and rows.
- `Pipeline`: the scraper's dict as the server's entries.

The reply is only trimmed before parsing (server.js:95), so a fenced reply
falls back to the raw event (`Server.FencedReplyFallsBack`).

## Model

| member | source | states |
|---|---|---|
| Text.LStripSpec | glossary.py:23 | What `lstrip` keeps is a suffix. Every character it cuts is in the set, and the first kept character is not. |
| Text.RStripSpec | glossary.py:22 | What `rstrip(":")` keeps is a prefix. Every character it cuts is in the set, and the last kept character is not. |
| Text.StripSpec | glossary.py:23 | `strip(chars)` leaves a slice of the input. Only characters of the set are cut from either end, and the result neither starts nor ends with one of them. |
| Text.StripKeeps | glossary.py:23 | A string that neither starts nor ends with a character of the set is stripped to itself. |
| Text.StripShrinks | glossary.py:23 | Stripping adds no character: the result's multiset is contained in the input's. |
| Text.RemoveAllSpec | glossary.py:23 | `replace(strong, "")` only drops characters. A string without an occurrence of the strong text is returned unchanged. |
| Text.RemoveAllLeftmost | glossary.py:23 | `replace(strong, "")` keeps the string up to the leftmost occurrence, drops that occurrence and goes on after it. With the no-occurrence clause this determines the result. |
| Text.JoinContains | glossary.py:20 | `" ".join(parts)` contains every part. |
| Text.JoinCons | glossary.py:20 | `" ".join` puts the parts in order, with exactly one separator between neighbours. |
| Text.Lower | server.js:15 | `toLowerCase` keeps the length and lowers every ASCII letter in place. |
| Text.LowerIdempotent | server.js:73 | Lowering twice is lowering once, and no upper-case ASCII letter remains. |
| PyDict.Get | glossary.py:20 | A lookup finds nothing exactly when the key is absent. |
| PyDict.PutSpec | glossary.py:20 | `d[k] = v` makes `k` hold `v` and leaves every other key's value unchanged. It appends `k` to the key order only if `k` is new. |
| PyDict.PutDistinct | glossary.py:20 | Assignment never makes a key appear twice. |
| PyDict.PutPut | glossary.py:32 | Two assignments to the same key leave only the later value, in the key's original place. |
| GlossaryScraper.TermOfShape | glossary.py:22 | The term is the stripped strong text without its trailing colons, and it never ends with a colon. |
| GlossaryScraper.FirstPartShape | glossary.py:23-24 | The first definition part has no surrounding whitespace and only holds characters of the paragraph's text. |
| GlossaryScraper.FirstPartExample | glossary.py:23-24 | For the paragraph `<strong>Force:</strong>The mark`, the first part is `"The mark"`: the strong text and the colon are removed. |
| GlossaryScraper.DefinitionShape | glossary.py:20 | A saved definition, the parts joined with spaces and then stripped, has no surrounding whitespace. |
| GlossaryScraper.Flush | glossary.py:38-39 | Saving the pending term puts its definition under it when the term is non-empty. It touches no other key's value, loses no key and keeps keys distinct. |
| GlossaryScraper.Step | glossary.py:12-35 | One iteration either keeps the dict or saves the pending term, and loses no key. It keeps the state well formed. A tag that neither starts, continues nor closes a non-empty term changes nothing. |
| GlossaryScraper.RunFrom | glossary.py:12 | The loop over a tag sequence keeps the state well formed and loses no key. |
| GlossaryScraper.Glossary | glossary.py:7-39 | The scraped dict never holds a key twice. |
| GlossaryScraper.RunFromAppend | glossary.py:12 | Running the loop over `a + b` is running it over `a` and then over `b`. |
| GlossaryScraper.Scan | glossary.py:7-39 | The script's loop over its three variables, followed by the final flush, produces exactly `Glossary(tags)`. |
| GlossaryTheory.StartedTerms | glossary.py:22 | A term is listed exactly when some paragraph starts it and it is non-empty. No term is listed twice. |
| GlossaryTheory.Reference | glossary.py:7-39 | The reference dict's keys are the started terms. |
| GlossaryTheory.StartValues | glossary.py:17-25 | A term-starting paragraph gives its term the first part alone as its definition, and changes no other term's value. |
| GlossaryTheory.DivValues | glossary.py:29-35 | A `<div>` changes no value in the reference dict. |
| GlossaryTheory.DivCloses | glossary.py:29-35 | A `<div>` ends collecting unless the pending term is empty. |
| GlossaryTheory.DivKeepsEmptyTerm | glossary.py:31 | A `<div>` does not stop collecting for an empty term, because the test also needs `current_term`. The collected parts stay as they are. |
| GlossaryTheory.ParagraphValues | glossary.py:26-28 | A paragraph that starts no term changes no term's value except the open one's. |
| GlossaryTheory.GrowValue | glossary.py:26-28 | A paragraph without `<em>` that is collected for an open, non-empty term appends its text to that term's definition parts. |
| GlossaryTheory.StepParagraphSameValues | glossary.py:26-28 | A paragraph that is not collected changes no value: either nothing is collecting, or it has an `<em>`, or the pending term is empty. |
| GlossaryTheory.StepKeepsInv | glossary.py:12-35 | Each iteration keeps the invariant: the variables describe the last started term, and flushing them gives the reference dict. |
| GlossaryTheory.RunKeepsInv | glossary.py:12-35 | The invariant holds after any prefix of the tags. |
| GlossaryTheory.GlossaryIsReference | glossary.py:7-39 | The scraper's dict is exactly the reference dict. |
| GlossaryTheory.GlossaryKeys | glossary.py:38-39 | The keys are the non-empty started terms in order of first start. A term is a key exactly when it is non-empty and some paragraph starts it. |
| GlossaryTheory.LaterDefinitionWins | glossary.py:20 | A term started more than once ends up with the definition of its last segment. |
| GlossaryTheory.PrefixWithoutTermsIgnored | glossary.py:26 | Tags before the first term-starting paragraph contribute nothing. |
| GlossaryTheory.IdleIgnoresTags | glossary.py:26 | While nothing is collecting, tags that start no term change no variable. |
| GlossaryTheory.NoTermIgnoresTags | glossary.py:31-35 | With no pending term, tags that start no term change only parts that are never saved. |
| GlossaryTheory.AfterDivIgnored | glossary.py:29-35 | Paragraphs after a `<div>` and before the next term start contribute nothing. |
| Server.Entries | server.js:14-17 | There is one entry per key, in table order. The entry's term is the lowercased key, and its line is `"<key> - <definition>"`. |
| Server.EntryLineSplits | server.js:16 | An entry's line shows the key, then `" - "`, then the definition, so both can be read back. |
| Server.FilterLines | server.js:74 | `filter(...).map(e => e.line)` keeps the lines of exactly the accepted entries, in table order. |
| Server.NoneSelected | server.js:75 | Nothing is matched exactly when no entry is accepted. |
| Server.Matched | server.js:73-74 | The matched lines are exactly those of the entries whose term occurs as a whole word in the lowercased dictation, in table order. |
| Server.MatchedIgnoresCase | server.js:73 | Matching does not depend on the case of the dictation. |
| Server.WholeWordExamples | server.js:74 | `\b` boundaries: "stack" is found in "nice stack, bob" but not in "stacks". |
| Server.ContextOf | server.js:76 | The context starts with `"Glossary:\n"`, ends with a newline, and shows every matched line. |
| Server.GlossaryContext | server.js:71-78 | The context is empty exactly when no entry's term occurs as a word. Otherwise it is the header, the matched lines and a final newline. |
| Server.Prompt | server.js:80-85 | The prompt is the fixed instruction, then the glossary context, then the "Return only the JSON array" line, and it ends with `"Dictation: " + text`. |
| Server.LastMember | server.js:100 | Reading a property of a parsed object finds the last member with that name, or is undefined when no member has it. |
| Server.Property | server.js:100 | Reading a property throws exactly on `null`. |
| Server.EventsOfItems | server.js:100 | Mapping the items succeeds exactly when no item is `null`. It then gives one event per item, in order, with `event = item.stat` and `details = item.player`. |
| Server.ReplyEvents | server.js:95-107 | When the trimmed reply parses to an array without `null`, there is one event per item, in order. In every other case the result is the single raw event carrying the original dictation. |
| Server.ParseWithAI | server.js:64-108 | With no client the result is exactly `[{event: "raw", details: text}]`. With a client it is the events of the client's reply to the prompt. |
| Server.NoEventsOnlyFromEmptyArray | server.js:96-107 | No event comes out exactly when the reply is the empty array. |
| Server.StatNotValidated | server.js:100 | The stat is not checked: the reply `[{"player":"Jason","stat":"turn"}]` gives a "turn" event for Jason. |
| Server.FencedReplyFallsBack | server.js:95-97 | A reply whose first non-blank character is a backquote, such as a fenced one, gives the raw event. |
| Server.StripStartsAt | server.js:95 | The first character that `trim` keeps is the first non-blank character. |
| Server.PaddedReplySame | server.js:95 | Whitespace around the reply changes no event. |
| Server.StripPadding | server.js:95 | Characters of the stripped set placed around a string are stripped with it. |
| Server.Rows | server.js:119 | There is one row per event, and row `i` carries the `i`-th clock reading. |
| Server.RowsKeepEvents | server.js:119 | The rows carry the events unchanged and in order, whatever the clock says. |
| Pipeline.EntriesOfScrapedGlossary | server.js:14-17 | Loading the scraper's dict gives one entry per non-empty started term, in order of first start. Each entry has the lowercased term and the line `"<term> - <definition of its last segment>"`. |

## Left out

- BeautifulSoup parsing and the JSON dump (glossary.py:1-5, 41-45). The model starts from the tag sequence that `find_all(["p", "div"])` returns. Each paragraph is reduced to its stripped strong text (if any), whether it has an `<em>`, and its stripped text. Testing `:` on the unstripped strong text is the same as testing it on the stripped text, because stripping removes only whitespace.
- `current_term = None` is modelled as the empty string. Both are falsy, and every use treats them alike.
- Express, body parsing, static files, the route and `listen` (server.js:24-26, 110-132). These are HTTP plumbing.
- The OpenAI client and the network call (server.js:44-50, 88-94). The client is a function from the prompt to the reply text. A reply whose content is not a string would throw outside the `try`; this is not modelled.
- The mock client (server.js:52-62). It defines `completions.create`, but the code calls `chat.completions.create`, so with the mock every request fails before any reply exists.
- `JSON.parse` itself. It is a function parameter from the trimmed reply to a parse outcome. The only property assumed of it is that it rejects text starting with a backquote (`Server.FencedReplyFallsBack`). JSON numbers are kept as their literal text.
- Server.Matched: a term is treated as literal text. A term holding a regular-expression metacharacter is interpolated into the pattern unescaped (server.js:74), so the source matches it differently or throws on an invalid pattern. That behaviour is not modelled.
- Text.Lower: `toLowerCase` and the `i` flag are modelled on ASCII letters only. Unicode case mapping is not modelled.
- Server.Entries: the table order is the order of the dict's keys. `Object.entries` puts integer-like keys first, and that reordering is not modelled. Definitions are assumed to be strings, as the scraper writes them.
- Server.ParseWithAI: the dictation is assumed to be a string. The source takes whatever `req.body.text` holds. With no client, a body without `text` gives `[{event: "raw", details: undefined}]` (server.js:66-70). With a client, `text.toLowerCase()` throws at server.js:73 and the request fails. Neither path is modelled.
- File and clock I/O: reading `glossary.json`, appending to the transcript, and the CSV writer (server.js:11-21, 29-37, 114-117, 121). Timestamps are a clock function from the row index to a string.
- Logging (`console.log`, `console.error`, `print`). It has no effect on results.
- `yahoo_prices.py` as a whole. It is a wrapper over a network price API, with floating-point prices.
