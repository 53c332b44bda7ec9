/**
  The string built-ins the scraper (Python) and the server (JavaScript) rely on:
  strip/rstrip with a character set, str.replace with an empty replacement,
  str.join, String.prototype.trim and an ASCII toLowerCase.
 */
module Text {

  /** What Python's str.isspace() accepts, i.e. what str.strip() with no argument removes. */
  predicate IsPyWhitespace(c: char) {
    || ('\t' <= c <= '\r')
    || ('\U{1C}' <= c <= '\U{1F}')
    || c == ' ' || c == '\U{85}' || c == '\U{A0}' || c == '\U{1680}'
    || ('\U{2000}' <= c <= '\U{200A}')
    || c == '\U{2028}' || c == '\U{2029}' || c == '\U{202F}' || c == '\U{205F}' || c == '\U{3000}'
  }

  /** What JavaScript's String.prototype.trim removes: WhiteSpace and LineTerminator. */
  predicate IsJsWhitespace(c: char) {
    || ('\t' <= c <= '\r')
    || c == ' ' || c == '\U{A0}' || c == '\U{1680}'
    || ('\U{2000}' <= c <= '\U{200A}')
    || c == '\U{2028}' || c == '\U{2029}' || c == '\U{202F}' || c == '\U{205F}' || c == '\U{3000}'
    || c == '\U{FEFF}'
  }

  /** The character sets the core strips: the argument of strip/rstrip, or the default whitespace. */
  datatype Chars =
    | PyWhitespace  // Python's s.strip()
    | JsWhitespace  // JavaScript's s.trim()
    | Colon         // the ":" of s.rstrip(":")
    | ColonOrSpace  // the ": " of s.strip(": ")

  predicate In(c: char, chars: Chars) {
    match chars
    case PyWhitespace => IsPyWhitespace(c)
    case JsWhitespace => IsJsWhitespace(c)
    case Colon => c == ':'
    case ColonOrSpace => c == ':' || c == ' '
  }

  /** Python's s.lstrip(chars): drop the longest prefix made of characters of `chars`. */
  function LStrip(s: string, chars: Chars): string {
    if s == [] || !In(s[0], chars) then s else LStrip(s[1..], chars)
  }

  /** What lstrip leaves is a suffix, every character cut off is in `chars`, and the first kept one is not. */
  lemma {:induction false} LStripSpec(s: string, chars: Chars)
    ensures var r := LStrip(s, chars);
      && |r| <= |s| && r == s[|s| - |r|..]
      && (forall k :: 0 <= k < |s| - |r| ==> In(s[k], chars))
      && (r == [] || !In(r[0], chars))
    decreases |s|
  {
    if s != [] && In(s[0], chars) {
      LStripSpec(s[1..], chars);
    }
  }

  /** Python's s.rstrip(chars): drop the longest suffix made of characters of `chars`. */
  function RStrip(s: string, chars: Chars): string {
    if s == [] || !In(s[|s| - 1], chars) then s else RStrip(s[..|s| - 1], chars)
  }

  /** What rstrip leaves is a prefix, every character cut off is in `chars`, and the last kept one is not. */
  lemma {:induction false} RStripSpec(s: string, chars: Chars)
    ensures var r := RStrip(s, chars);
      && |r| <= |s| && r == s[..|r|]
      && (forall k :: |r| <= k < |s| ==> In(s[k], chars))
      && (r == [] || !In(r[|r| - 1], chars))
    decreases |s|
  {
    if s != [] && In(s[|s| - 1], chars) {
      RStripSpec(s[..|s| - 1], chars);
    }
  }

  /**
    `r` is what is left of `s` once its first `i` characters and its last
    |s| - i - |r| characters, all of them characters of `chars`, are cut off.
   */
  predicate StrippedSlice(s: string, r: string, i: int, chars: Chars) {
    && 0 <= i <= |s| - |r|
    && r == s[i..i + |r|]
    && (forall k :: 0 <= k < i ==> In(s[k], chars))
    && (forall k :: i + |r| <= k < |s| ==> In(s[k], chars))
  }

  /** Python's s.strip(chars) and JavaScript's s.trim(). */
  function Strip(s: string, chars: Chars): string {
    RStrip(LStrip(s, chars), chars)
  }

  /** A string that neither starts nor ends with a character of the set is stripped to itself. */
  lemma StripKeeps(s: string, chars: Chars)
    requires s == [] || (!In(s[0], chars) && !In(s[|s| - 1], chars))
    ensures Strip(s, chars) == s
  {
  }

  /**
    What strip leaves is the slice of `s` left once every character of `chars`
    has been removed from both ends: it neither starts nor ends with one.
   */
  lemma StripSpec(s: string, chars: Chars)
    ensures exists i :: StrippedSlice(s, Strip(s, chars), i, chars)
    ensures var r := Strip(s, chars); r == [] || (!In(r[0], chars) && !In(r[|r| - 1], chars))
  {
    var left := LStrip(s, chars);
    var r := RStrip(left, chars);
    assert r == Strip(s, chars);
    LStripSpec(s, chars);
    RStripSpec(left, chars);
    PrefixOfSuffix(s, left, r, chars);
    assert StrippedSlice(s, r, |s| - |left|, chars);
  }

  /** A prefix `r` of a suffix `left` of `s` is a slice of `s`, and what `r` leaves of `left` is what it leaves of `s`. */
  lemma PrefixOfSuffix(s: string, left: string, r: string, chars: Chars)
    requires |left| <= |s| && left == s[|s| - |left|..]
    requires |r| <= |left| && r == left[..|r|]
    requires forall k :: |r| <= k < |left| ==> In(left[k], chars)
    ensures r == s[|s| - |left|..|s| - |left| + |r|]
    ensures forall k :: |s| - |left| + |r| <= k < |s| ==> In(s[k], chars)
  {
    var i := |s| - |left|;
    forall k | i + |r| <= k < |s|
      ensures In(s[k], chars)
    {
      assert s[k] == left[k - i];
    }
  }

  /** A stripped string holds no character the original did not. */
  lemma StripShrinks(s: string, chars: Chars)
    ensures multiset(Strip(s, chars)) <= multiset(s)
  {
    StripSpec(s, chars);
    var r := Strip(s, chars);
    var i :| StrippedSlice(s, r, i, chars);
    SliceMultiset(s, i, i + |r|);
  }

  lemma SliceMultiset(s: string, i: nat, j: nat)
    requires i <= j <= |s|
    ensures multiset(s[i..j]) <= multiset(s)
  {
    assert s == s[..i] + s[i..j] + s[j..];
  }

  /** `sub` occurs in `s` starting at index `i`. */
  predicate OccursAt(s: string, sub: string, i: int) {
    0 <= i && i + |sub| <= |s| && s[i..i + |sub|] == sub
  }

  /** `sub` occurs somewhere in `s`. */
  predicate Contains(s: string, sub: string) {
    exists i :: 0 <= i <= |s| && OccursAt(s, sub, i)
  }

  /** Text added around a string keeps what it contains. */
  lemma ContainsWithin(pre: string, s: string, post: string, sub: string)
    requires Contains(s, sub)
    ensures Contains(pre + s + post, sub)
  {
    var i :| 0 <= i <= |s| && OccursAt(s, sub, i);
    var w := pre + s + post;
    assert w[|pre| + i..|pre| + i + |sub|] == s[i..i + |sub|];
    assert OccursAt(w, sub, |pre| + i);
  }

  /** An occurrence in the tail of `s` is an occurrence in `s`, one place later. */
  lemma OccursInTail(s: string, sub: string, i: int)
    requires |s| > 0 && OccursAt(s[1..], sub, i)
    ensures OccursAt(s, sub, i + 1)
  {
    assert s[i + 1..i + 1 + |sub|] == s[1..][i..i + |sub|];
  }

  /**
    Python's s.replace(sub, ""): every non-overlapping occurrence of `sub`,
    found left to right, is removed. With an empty `sub` Python inserts the empty
    replacement between characters, which leaves `s` as it is.
   */
  function RemoveAll(s: string, sub: string): string
    decreases |s|
  {
    if |sub| == 0 || |s| < |sub| then s
    else if s[..|sub|] == sub then RemoveAll(s[|sub|..], sub)
    else [s[0]] + RemoveAll(s[1..], sub)
  }

  /** Removing occurrences only drops characters, and a string without an occurrence is left as it is. */
  lemma {:induction false} RemoveAllSpec(s: string, sub: string)
    ensures multiset(RemoveAll(s, sub)) <= multiset(s)
    ensures (forall i :: !OccursAt(s, sub, i)) ==> RemoveAll(s, sub) == s
    decreases |s|
  {
    if |sub| == 0 || |s| < |sub| {
    } else if s[..|sub|] == sub {
      assert s == s[..|sub|] + s[|sub|..];
      assert OccursAt(s, sub, 0);
      RemoveAllSpec(s[|sub|..], sub);
    } else {
      RemoveAllSpec(s[1..], sub);
      assert s == [s[0]] + s[1..];
      if forall i :: !OccursAt(s, sub, i) {
        forall i
          ensures !OccursAt(s[1..], sub, i)
        {
          if OccursAt(s[1..], sub, i) {
            OccursInTail(s, sub, i);
          }
        }
      }
    }
  }

  /**
    Removal proceeds left to right: up to the leftmost occurrence of `sub` the
    string is kept as it is, that occurrence is dropped, and removal goes on
    after it. With the no-occurrence clause of `RemoveAllSpec` this fixes the result.
   */
  lemma {:induction false} RemoveAllLeftmost(s: string, sub: string, i: nat)
    requires |sub| > 0 && OccursAt(s, sub, i)
    requires forall j :: 0 <= j < i ==> !OccursAt(s, sub, j)
    ensures RemoveAll(s, sub) == s[..i] + RemoveAll(s[i + |sub|..], sub)
    decreases i, 1
  {
    if i == 0 {
      RemoveAllDrop(s, sub);
    } else {
      RemoveAllLeftmostLater(s, sub, i);
    }
  }

  /** The leftmost occurrence is not at the front: the first character is kept and removal goes on in the tail. */
  lemma {:induction false} RemoveAllLeftmostLater(s: string, sub: string, i: nat)
    requires |sub| > 0 && i > 0 && OccursAt(s, sub, i)
    requires forall j :: 0 <= j < i ==> !OccursAt(s, sub, j)
    ensures RemoveAll(s, sub) == s[..i] + RemoveAll(s[i + |sub|..], sub)
    decreases i, 0
  {
    var tail := s[1..];
    var rest := RemoveAll(s[i + |sub|..], sub);
    var kept := RemoveAll(tail, sub);
    assert kept == tail[..i - 1] + rest by {
      TailOccurs(s, sub, i);
      TailNoEarlier(s, sub, i);
      RemoveAllLeftmost(tail, sub, i - 1);
      assert tail[i - 1 + |sub|..] == s[i + |sub|..];
    }
    RemoveAllSkip(s, sub);
    ConsThenSlice(s, i, RemoveAll(s, sub), kept, rest);
  }

  /** Putting back the first character of `s` in front of a slice of its tail gives a prefix of `s`. */
  lemma ConsThenSlice(s: string, i: nat, whole: string, kept: string, rest: string)
    requires 0 < i <= |s|
    requires whole == [s[0]] + kept && kept == s[1..][..i - 1] + rest
    ensures whole == s[..i] + rest
  {
    assert [s[0]] + s[1..][..i - 1] == s[..i];
  }

  /** An occurrence at the front is dropped. */
  lemma RemoveAllDrop(s: string, sub: string)
    requires |sub| > 0 && OccursAt(s, sub, 0)
    ensures RemoveAll(s, sub) == RemoveAll(s[|sub|..], sub)
  {
    assert s[..|sub|] == sub;
  }

  /** A first character that starts no occurrence is kept. */
  lemma RemoveAllSkip(s: string, sub: string)
    requires |sub| > 0 && |s| > 0 && !OccursAt(s, sub, 0)
    ensures RemoveAll(s, sub) == [s[0]] + RemoveAll(s[1..], sub)
  {
    if |s| >= |sub| {
      assert s[..|sub|] != sub;
    }
  }

  lemma TailOccurs(s: string, sub: string, i: nat)
    requires i > 0 && OccursAt(s, sub, i)
    ensures OccursAt(s[1..], sub, i - 1)
  {
    assert s[1..][i - 1..i - 1 + |sub|] == s[i..i + |sub|];
  }

  lemma TailNoEarlier(s: string, sub: string, i: nat)
    requires i > 0 && |s| > 0
    requires forall j :: 0 <= j < i ==> !OccursAt(s, sub, j)
    ensures forall j :: 0 <= j < i - 1 ==> !OccursAt(s[1..], sub, j)
  {
    forall j | 0 <= j < i - 1
      ensures !OccursAt(s[1..], sub, j)
    {
      if OccursAt(s[1..], sub, j) {
        OccursInTail(s, sub, j);
      }
    }
  }

  /** Python's sep.join(parts). */
  function Join(parts: seq<string>, sep: string): string
  {
    if |parts| == 0 then ""
    else if |parts| == 1 then parts[0]
    else Join(parts[..|parts| - 1], sep) + sep + parts[|parts| - 1]
  }

  /** Every part of a join appears in it, so a joined list loses no part. */
  lemma {:induction false} JoinContains(parts: seq<string>, sep: string, k: nat)
    requires k < |parts|
    ensures Contains(Join(parts, sep), parts[k])
    decreases |parts|
  {
    var j := Join(parts, sep);
    if |parts| == 1 {
      assert OccursAt(j, parts[k], 0);
    } else if k == |parts| - 1 {
      assert OccursAt(j, parts[k], |j| - |parts[k]|);
    } else {
      var front := Join(parts[..|parts| - 1], sep);
      JoinContains(parts[..|parts| - 1], sep, k);
      var i :| 0 <= i <= |front| && OccursAt(front, parts[k], i);
      assert j[..|front|] == front;
      assert j[i..i + |parts[k]|] == front[i..i + |parts[k]|];
      assert OccursAt(j, parts[k], i);
    }
  }

  /**
    The parts are joined in order with exactly one separator between neighbours:
    joining `x` in front of a non-empty list puts one separator after `x`.
   */
  lemma {:induction false} JoinCons(x: string, parts: seq<string>, sep: string)
    requires |parts| > 0
    ensures Join([x] + parts, sep) == x + sep + Join(parts, sep)
    decreases |parts|
  {
    var q := [x] + parts;
    if |parts| == 1 {
      assert q[..|q| - 1] == [x];
    } else {
      var front := parts[..|parts| - 1];
      assert q[..|q| - 1] == [x] + front;
      JoinCons(x, front, sep);
    }
  }

  /** JavaScript's toLowerCase on one character, restricted to ASCII letters. */
  function LowerChar(c: char): char {
    if 'A' <= c <= 'Z' then (c as int - 'A' as int + 'a' as int) as char else c
  }

  /** JavaScript's toLowerCase, restricted to ASCII letters. */
  function Lower(s: string): (r: string)
    ensures |r| == |s|
    ensures forall i :: 0 <= i < |s| ==> r[i] == LowerChar(s[i])
  {
    if s == [] then [] else [LowerChar(s[0])] + Lower(s[1..])
  }

  /** Lowering is idempotent: a lowered string has no upper-case ASCII letter left. */
  lemma LowerIdempotent(s: string)
    ensures Lower(Lower(s)) == Lower(s)
    ensures forall i :: 0 <= i < |s| ==> !('A' <= Lower(s)[i] <= 'Z')
  {
  }
}
