/**
  The request-reshaping helpers of the dictation server: the glossary entries
  built from glossary.json, the whole-word glossary matching, the prompt, the
  events made from the language model's reply (with the single "raw" fallback
  event), and the CSV rows made from the events.

  The model's reply, JSON.parse and the clock are inputs: the reply is what a
  client function returns for the prompt, JSON.parse is a function from the
  trimmed reply to a parse outcome, and the clock gives the timestamp of the
  i-th row.
 */
module Server {
  import opened Wrappers
  import opened Text
  import opened PyDict

  // ---------------------------------------------------------------------------
  // Glossary entries

  /** One glossary entry: the lowercased term to look for, and the line to show. */
  datatype Entry = Entry(term: string, line: string)

  /** `${term} - ${def}` */
  function EntryLine(key: string, def: string): string {
    key + " - " + def
  }

  /**
    Object.entries(raw).map(...): one entry per key of the table, in table
    order, searching for the lowercased key and showing "<key> - <definition>".
   */
  function Entries(table: Dict): (es: seq<Entry>)
    ensures |es| == |table|
    ensures forall i :: 0 <= i < |table| ==>
      es[i].term == Lower(table[i].0) && es[i].line == EntryLine(table[i].0, table[i].1)
  {
    if table == [] then [] else Entries(table[..|table| - 1]) + [Entry(Lower(table[|table| - 1].0), EntryLine(table[|table| - 1].0, table[|table| - 1].1))]
  }

  /** A line shows its key first, then " - ", then the definition, so both can be read back. */
  lemma EntryLineSplits(key: string, def: string)
    ensures var line := EntryLine(key, def);
      line[..|key|] == key && line[|key|..|key| + 3] == " - " && line[|key| + 3..] == def
  {
  }

  // ---------------------------------------------------------------------------
  // Whole-word, case-insensitive matching

  /** A character that \w matches: an ASCII letter, digit or underscore. */
  predicate IsWordChar(c: char) {
    ('a' <= c <= 'z') || ('A' <= c <= 'Z') || ('0' <= c <= '9') || c == '_'
  }

  /** Position `i` of `t` holds a word character (positions outside `t` do not). */
  predicate WordAt(t: string, i: int) {
    0 <= i < |t| && IsWordChar(t[i])
  }

  /** \b at position `i`: a word character on exactly one side. */
  predicate Boundary(t: string, i: int) {
    WordAt(t, i - 1) != WordAt(t, i)
  }

  /** /\bterm\b/i matches `t` starting at `i`, for a term written without regex metacharacters. */
  predicate MatchesAt(term: string, t: string, i: int) {
    && 0 <= i && i + |term| <= |t|
    && Lower(t[i..i + |term|]) == Lower(term)
    && Boundary(t, i) && Boundary(t, i + |term|)
  }

  /** new RegExp(`\\b${term}\\b`, 'i').test(t) */
  predicate OccursAsWord(term: string, t: string) {
    exists i :: 0 <= i <= |t| && MatchesAt(term, t, i)
  }

  /** `idx` picks, in increasing order, exactly the entries `keep` accepts, and `lines` are their lines. */
  predicate Selects(entries: seq<Entry>, keep: Entry -> bool, idx: seq<nat>, lines: seq<string>) {
    && |idx| == |lines|
    && (forall j :: 0 <= j < |idx| ==> idx[j] < |entries| && lines[j] == entries[idx[j]].line)
    && (forall j, j' :: 0 <= j < j' < |idx| ==> idx[j] < idx[j'])
    && (forall i :: 0 <= i < |entries| ==> (keep(entries[i]) <==> i in idx))
  }

  /** entries.filter(keep).map(e => e.line): the lines of exactly the entries `keep` accepts, in table order. */
  function FilterLines(entries: seq<Entry>, keep: Entry -> bool): (lines: seq<string>)
    ensures exists idx :: Selects(entries, keep, idx, lines)
  {
    if entries == [] then
      assert Selects(entries, keep, [], []);
      []
    else
      var front := entries[..|entries| - 1];
      var e := entries[|entries| - 1];
      var rest := FilterLines(front, keep);
      var idx: seq<nat> :| Selects(front, keep, idx, rest);
      SelectsSnoc(front, e, keep, idx, rest);
      assert entries == front + [e];
      if keep(e) then rest + [e.line] else rest
  }

  /** A selection extends to one more entry, which is selected exactly when `keep` accepts it. */
  lemma SelectsSnoc(front: seq<Entry>, e: Entry, keep: Entry -> bool, idx: seq<nat>, lines: seq<string>)
    requires Selects(front, keep, idx, lines)
    ensures keep(e) ==> Selects(front + [e], keep, idx + [|front|], lines + [e.line])
    ensures !keep(e) ==> Selects(front + [e], keep, idx, lines)
  {
    if keep(e) {
      SelectsKeep(front, e, keep, idx, lines);
    } else {
      SelectsSkip(front, e, keep, idx, lines);
    }
  }

  lemma SelectsKeep(front: seq<Entry>, e: Entry, keep: Entry -> bool, idx: seq<nat>, lines: seq<string>)
    requires Selects(front, keep, idx, lines) && keep(e)
    ensures Selects(front + [e], keep, idx + [|front|], lines + [e.line])
  {
    var entries, idx', lines' := front + [e], idx + [|front|], lines + [e.line];
    forall j | 0 <= j < |idx'|
      ensures idx'[j] < |entries| && lines'[j] == entries[idx'[j]].line
    {
      if j < |idx| {
        assert idx'[j] == idx[j] && lines'[j] == lines[j];
        assert entries[idx[j]] == front[idx[j]];
      }
    }
    forall i | 0 <= i < |entries|
      ensures keep(entries[i]) <==> i in idx'
    {
      if i < |front| {
        assert entries[i] == front[i];
        assert i in idx' <==> i in idx;
      }
    }
  }

  lemma SelectsSkip(front: seq<Entry>, e: Entry, keep: Entry -> bool, idx: seq<nat>, lines: seq<string>)
    requires Selects(front, keep, idx, lines) && !keep(e)
    ensures Selects(front + [e], keep, idx, lines)
  {
    var entries := front + [e];
    forall j | 0 <= j < |idx|
      ensures idx[j] < |entries| && lines[j] == entries[idx[j]].line
    {
      assert entries[idx[j]] == front[idx[j]];
    }
    forall i | 0 <= i < |entries|
      ensures keep(entries[i]) <==> i in idx
    {
      if i < |front| {
        assert entries[i] == front[i];
      } else {
        assert |front| !in idx;
      }
    }
  }

  /** Nothing is selected exactly when `keep` accepts no entry. */
  lemma NoneSelected(entries: seq<Entry>, keep: Entry -> bool)
    ensures FilterLines(entries, keep) == [] <==> forall i :: 0 <= i < |entries| ==> !keep(entries[i])
  {
    var lines := FilterLines(entries, keep);
    var idx: seq<nat> :| Selects(entries, keep, idx, lines);
    if lines != [] {
      assert keep(entries[idx[0]]);
    }
  }

  /** The test the filter applies: the entry's term occurs as a word in the lowercased dictation. */
  function WordTest(t: string): Entry -> bool {
    (e: Entry) => OccursAsWord(e.term, t)
  }

  /**
    Lines 73-74: the lines of exactly the entries whose term occurs as a whole
    word in the lowercased dictation, in table order.
   */
  function Matched(entries: seq<Entry>, text: string): (lines: seq<string>)
    ensures exists idx :: Selects(entries, WordTest(Lower(text)), idx, lines)
  {
    FilterLines(entries, WordTest(Lower(text)))
  }

  /** Matching ignores the case of the dictation. */
  lemma MatchedIgnoresCase(entries: seq<Entry>, text: string)
    ensures Matched(entries, text) == Matched(entries, Lower(text))
  {
    LowerIdempotent(text);
  }

  /** A term is matched as a whole word: "stack" is found in "Nice stack, Bob" but not in "stacks". */
  lemma WholeWordExamples()
    ensures OccursAsWord("stack", "nice stack, bob")
    ensures !OccursAsWord("stack", "stacks")
  {
    assert MatchesAt("stack", "nice stack, bob", 5);
    forall i | 0 <= i <= |"stacks"|
      ensures !MatchesAt("stack", "stacks", i)
    {
      if i == 1 {
        assert "stacks"[1..6][0] == 't';
      }
    }
  }

  const GlossaryHeader := "Glossary:\n"

  /** Lines 75-77 once something matched: the header, the lines joined by newlines, and a final newline. */
  function ContextOf(matched: seq<string>): (ctx: string)
    ensures |ctx| > |GlossaryHeader| && ctx[..|GlossaryHeader|] == GlossaryHeader && ctx[|ctx| - 1] == '\n'
    ensures forall k :: 0 <= k < |matched| ==> Contains(ctx, matched[k])
  {
    var body := Join(matched, "\n");
    assert (GlossaryHeader + body + "\n")[..|GlossaryHeader|] == GlossaryHeader;
    ContextShowsLines(matched);
    GlossaryHeader + body + "\n"
  }

  lemma ContextShowsLines(matched: seq<string>)
    ensures forall k :: 0 <= k < |matched| ==> Contains(GlossaryHeader + Join(matched, "\n") + "\n", matched[k])
  {
    forall k | 0 <= k < |matched|
      ensures Contains(GlossaryHeader + Join(matched, "\n") + "\n", matched[k])
    {
      JoinContains(matched, "\n", k);
      ContainsWithin(GlossaryHeader, Join(matched, "\n"), "\n", matched[k]);
    }
  }

  /**
    The glossary part of the prompt: empty exactly when no entry's term occurs
    as a word in the dictation; otherwise it starts with "Glossary:\n", ends
    with a newline and shows every matched line.
   */
  function GlossaryContext(entries: seq<Entry>, text: string): (ctx: string)
    ensures ctx == "" <==> forall i :: 0 <= i < |entries| ==> !OccursAsWord(entries[i].term, Lower(text))
    ensures ctx != "" ==> ctx == ContextOf(Matched(entries, text))
  {
    NoneSelected(entries, WordTest(Lower(text)));
    if |entries| == 0 then ""
    else
      var matched := Matched(entries, text);
      if |matched| == 0 then "" else ContextOf(matched)
  }

  // ---------------------------------------------------------------------------
  // The prompt

  const Instruction :=
    "From the paragraph below dictating an ultimate frisbee game, extract scores, assists, blocks, and turns."
    + " Return only a JSON array of objects each with \"player\" and \"stat\" ("
    + "score, assist, block or turnover). If no stats are present return [].\n"

  const ReturnOnly := "Return only the JSON array without any extra text.\n"

  const DictationLabel := "Dictation: "

  /**
    The prompt: the fixed instruction, the glossary context, the "Return only"
    line, and the dictation, labelled, at the very end.
   */
  function Prompt(text: string, ctx: string): (prompt: string)
    ensures |prompt| == |Instruction| + |ctx| + |ReturnOnly| + |DictationLabel + text|
    ensures prompt[..|Instruction|] == Instruction
    ensures prompt[|Instruction|..|Instruction| + |ctx|] == ctx
    ensures prompt[|Instruction| + |ctx|..|Instruction| + |ctx| + |ReturnOnly|] == ReturnOnly
    ensures prompt[|prompt| - |DictationLabel + text|..] == DictationLabel + text
  {
    ConcatParts(Instruction, ctx, ReturnOnly, DictationLabel + text);
    Instruction + ctx + ReturnOnly + (DictationLabel + text)
  }

  lemma ConcatParts<T>(a: seq<T>, b: seq<T>, c: seq<T>, d: seq<T>)
    ensures var s := a + b + c + d;
      && s[..|a|] == a && s[|a|..|a| + |b|] == b && s[|a| + |b|..|a| + |b| + |c|] == c
      && s[|s| - |d|..] == d
  {
  }

  // ---------------------------------------------------------------------------
  // The reply, as JSON values and events

  /** A JSON value as JSON.parse returns it; a number is kept as its literal text. */
  datatype Json =
    | JNull
    | JBool(b: bool)
    | JNumber(literal: string)
    | JString(s: string)
    | JArray(items: seq<Json>)
    | JObject(members: seq<(string, Json)>)

  /** What reading a property gives: a value, or undefined when there is no such property. */
  datatype Value = Undefined | Defined(json: Json)

  /** JSON.parse(resultText): a SyntaxError, or the parsed value. */
  datatype ParseOutcome = SyntaxError | Parsed(value: Json)

  /** One event: {event, details}. */
  datatype Event = Event(event: Value, details: Value)

  /** The fallback event {event: 'raw', details: text}. */
  function RawEvent(text: string): Event {
    Event(Defined(JString("raw")), Defined(JString(text)))
  }

  /** The value of the last member named `name`: JSON.parse lets a later duplicate overwrite. */
  function LastMember(members: seq<(string, Json)>, name: string): (r: Value)
    ensures r.Undefined? <==> forall i :: 0 <= i < |members| ==> members[i].0 != name
    ensures r.Defined? ==>
      exists i :: 0 <= i < |members| && members[i] == (name, r.json) && (forall j :: i < j < |members| ==> members[j].0 != name)
  {
    if members == [] then Undefined
    else if members[|members| - 1].0 == name then Defined(members[|members| - 1].1)
    else LastMember(members[..|members| - 1], name)
  }

  /**
    `item[name]`: a member of an object; undefined on any other value; and a
    TypeError (None) on null.
   */
  function Property(item: Json, name: string): (r: Option<Value>)
    ensures r.None? <==> item.JNull?
  {
    match item
    case JNull => None
    case JObject(members) => Some(LastMember(members, name))
    case _ => Some(Undefined)
  }

  /**
    items.map(it => ({event: it.stat, details: it.player})): one event per
    item, in order, or None when some item is null and the map throws.
   */
  function EventsOfItems(items: seq<Json>): (r: Option<seq<Event>>)
    ensures r.Some? <==> forall i :: 0 <= i < |items| ==> items[i] != JNull
    ensures r.Some? ==> |r.value| == |items| && forall i :: 0 <= i < |items| ==>
      r.value[i] == Event(Property(items[i], "stat").value, Property(items[i], "player").value)
  {
    if items == [] then Some([])
    else
      var front := EventsOfItems(items[..|items| - 1]);
      var it := items[|items| - 1];
      match (front, Property(it, "stat"), Property(it, "player"))
      case (Some(es), Some(stat), Some(player)) => Some(es + [Event(stat, player)])
      case _ => None
  }

  /**
    Lines 95-107: trim the reply and parse it; an array gives one event per
    item, and anything else (a parse error, a value that is not an array, or a
    null item that makes the mapping throw) gives the single raw event.
   */
  function ReplyEvents(text: string, reply: string, parse: string -> ParseOutcome): (events: seq<Event>)
    ensures match parse(Strip(reply, JsWhitespace))
      case Parsed(JArray(items)) =>
        if forall i :: 0 <= i < |items| ==> items[i] != JNull
        then |events| == |items| && forall i :: 0 <= i < |items| ==>
          events[i] == Event(Property(items[i], "stat").value, Property(items[i], "player").value)
        else events == [RawEvent(text)]
      case _ => events == [RawEvent(text)]
  {
    match parse(Strip(reply, JsWhitespace))
    case Parsed(JArray(items)) =>
      (match EventsOfItems(items)
       case Some(es) => es
       case None => [RawEvent(text)])
    case _ => [RawEvent(text)]
  }

  /**
    parseWithAI(text): without a client, the raw event; with one, the events of
    its reply to the prompt built from the dictation and the matched glossary lines.
   */
  function ParseWithAI(client: Option<string -> string>, entries: seq<Entry>, text: string,
                       parse: string -> ParseOutcome): (events: seq<Event>)
    ensures client.None? ==> events == [RawEvent(text)]
    ensures client.Some? ==>
      events == ReplyEvents(text, client.value(Prompt(text, GlossaryContext(entries, text))), parse)
  {
    if client.None? then [RawEvent(text)]
    else
      var prompt := Prompt(text, GlossaryContext(entries, text));
      ReplyEvents(text, client.value(prompt), parse)
  }

  /** No event comes out only when the trimmed reply parses to the empty array. */
  lemma NoEventsOnlyFromEmptyArray(text: string, reply: string, parse: string -> ParseOutcome)
    ensures ReplyEvents(text, reply, parse) == [] <==> parse(Strip(reply, JsWhitespace)) == Parsed(JArray([]))
  {
  }

  /**
    The stat is copied, not checked against the four stats the prompt asks
    for: the reply [{"player":"Jason","stat":"turn"}] gives a "turn" event.
   */
  lemma StatNotValidated(text: string, reply: string, parse: string -> ParseOutcome)
    requires parse(Strip(reply, JsWhitespace)) ==
      Parsed(JArray([JObject([("player", JString("Jason")), ("stat", JString("turn"))])]))
    ensures ReplyEvents(text, reply, parse) == [Event(Defined(JString("turn")), Defined(JString("Jason")))]
  {
    var members := [("player", JString("Jason")), ("stat", JString("turn"))];
    assert members[..1] == [("player", JString("Jason"))];
    assert LastMember(members, "player") == Defined(JString("Jason"));
  }

  /** JSON.parse accepts no text whose first character is a backquote. */
  ghost predicate RejectsBackquote(parse: string -> ParseOutcome) {
    forall s :: |s| > 0 && s[0] == '`' ==> parse(s) == SyntaxError
  }

  /**
    The reply is only trimmed before parsing: a reply wrapped in a ``` code
    fence, whatever it holds, falls back to the raw event.
   */
  lemma FencedReplyFallsBack(text: string, pad: string, fenced: string, parse: string -> ParseOutcome)
    requires forall k :: 0 <= k < |pad| ==> IsJsWhitespace(pad[k])
    requires |fenced| > 0 && fenced[0] == '`'
    requires RejectsBackquote(parse)
    ensures ReplyEvents(text, pad + fenced, parse) == [RawEvent(text)]
  {
    var s := pad + fenced;
    assert s[|pad|] == '`';
    StripStartsAt(s, |pad|, JsWhitespace);
  }

  /** Strip keeps the first character that is not stripped as its own first character. */
  lemma StripStartsAt(s: string, i: nat, chars: Chars)
    requires i < |s| && !In(s[i], chars)
    requires forall k :: 0 <= k < i ==> In(s[k], chars)
    ensures |Strip(s, chars)| > 0 && Strip(s, chars)[0] == s[i]
  {
    StripSpec(s, chars);
    var r := Strip(s, chars);
    var j :| StrippedSlice(s, r, j, chars);
    assert j <= i;
    assert i < j + |r|;
    assert r[0] == s[j];
  }

  /** Whitespace around the reply changes nothing: only the trimmed reply is parsed. */
  lemma PaddedReplySame(text: string, pad: string, reply: string, pad2: string, parse: string -> ParseOutcome)
    requires forall k :: 0 <= k < |pad| ==> IsJsWhitespace(pad[k])
    requires forall k :: 0 <= k < |pad2| ==> IsJsWhitespace(pad2[k])
    ensures ReplyEvents(text, pad + reply + pad2, parse) == ReplyEvents(text, reply, parse)
  {
    StripPadding(pad, reply, pad2, JsWhitespace);
  }

  /** Characters of the stripped set around a string are stripped with it. */
  lemma StripPadding(pad: string, s: string, pad2: string, chars: Chars)
    requires forall k :: 0 <= k < |pad| ==> In(pad[k], chars)
    requires forall k :: 0 <= k < |pad2| ==> In(pad2[k], chars)
    ensures Strip(pad + s + pad2, chars) == Strip(s, chars)
  {
    assert pad + s + pad2 == pad + (s + pad2);
    LStripPrefix(pad, s + pad2, chars);
    if LStrip(s, chars) == [] {
      LStripAll(s, pad2, chars);
    } else {
      LStripSuffix(s, pad2, chars);
      RStripSuffix(LStrip(s, chars), pad2, chars);
    }
  }

  lemma {:induction false} LStripPrefix(pad: string, s: string, chars: Chars)
    requires forall k :: 0 <= k < |pad| ==> In(pad[k], chars)
    ensures LStrip(pad + s, chars) == LStrip(s, chars)
    decreases |pad|
  {
    if pad == [] {
      assert pad + s == s;
    } else {
      assert In(pad[0], chars);
      assert (pad + s)[0] == pad[0];
      assert (pad + s)[1..] == pad[1..] + s;
      LStripPrefix(pad[1..], s, chars);
    }
  }

  lemma {:induction false} LStripAll(s: string, pad2: string, chars: Chars)
    requires LStrip(s, chars) == []
    requires forall k :: 0 <= k < |pad2| ==> In(pad2[k], chars)
    ensures LStrip(s + pad2, chars) == []
    decreases |s|
  {
    if s == [] {
      assert s + pad2 == pad2 + [];
      LStripPrefix(pad2, [], chars);
    } else {
      assert In(s[0], chars);
      assert (s + pad2)[0] == s[0];
      assert (s + pad2)[1..] == s[1..] + pad2;
      LStripAll(s[1..], pad2, chars);
    }
  }

  lemma {:induction false} LStripSuffix(s: string, pad2: string, chars: Chars)
    requires LStrip(s, chars) != []
    ensures LStrip(s + pad2, chars) == LStrip(s, chars) + pad2
    decreases |s|
  {
    assert (s + pad2)[0] == s[0];
    if In(s[0], chars) {
      assert (s + pad2)[1..] == s[1..] + pad2;
      LStripSuffix(s[1..], pad2, chars);
    }
  }

  lemma {:induction false} RStripSuffix(s: string, pad2: string, chars: Chars)
    requires forall k :: 0 <= k < |pad2| ==> In(pad2[k], chars)
    ensures RStrip(s + pad2, chars) == RStrip(s, chars)
    decreases |pad2|
  {
    if pad2 == [] {
      assert s + pad2 == s;
    } else {
      var q := s + pad2;
      assert q[..|q| - 1] == s + pad2[..|pad2| - 1];
      RStripSuffix(s, pad2[..|pad2| - 1], chars);
    }
  }

  // ---------------------------------------------------------------------------
  // Rows

  /** One CSV row: {timestamp, event, details}. */
  datatype Row = Row(timestamp: string, event: Value, details: Value)

  /** events.map(e => ({timestamp, event: e.event, details: e.details})), with the i-th clock reading. */
  function Rows(events: seq<Event>, clock: nat -> string): (rows: seq<Row>)
    ensures |rows| == |events|
    ensures forall i :: 0 <= i < |events| ==> rows[i].timestamp == clock(i)
  {
    if events == [] then []
    else
      var e := events[|events| - 1];
      Rows(events[..|events| - 1], clock) + [Row(clock(|events| - 1), e.event, e.details)]
  }

  /** The events a row list carries, timestamps dropped. */
  function EventsOfRows(rows: seq<Row>): seq<Event> {
    if rows == [] then [] else [Event(rows[0].event, rows[0].details)] + EventsOfRows(rows[1..])
  }

  /** The rows carry the events unchanged and in order, whatever the clock says. */
  lemma {:induction false} RowsKeepEvents(events: seq<Event>, clock: nat -> string)
    ensures EventsOfRows(Rows(events, clock)) == events
    decreases |events|
  {
    if events != [] {
      var front := events[..|events| - 1];
      var e := events[|events| - 1];
      RowsKeepEvents(front, clock);
      EventsOfRowsAppend(Rows(front, clock), [Row(clock(|front|), e.event, e.details)]);
      assert events == front + [e];
    }
  }

  lemma {:induction false} EventsOfRowsAppend(a: seq<Row>, b: seq<Row>)
    ensures EventsOfRows(a + b) == EventsOfRows(a) + EventsOfRows(b)
    decreases |a|
  {
    if a == [] {
      assert a + b == b;
    } else {
      assert (a + b)[0] == a[0];
      assert (a + b)[1..] == a[1..] + b;
      EventsOfRowsAppend(a[1..], b);
    }
  }
}
