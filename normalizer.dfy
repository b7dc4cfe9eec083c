/**
 * The normalisation of the language model's reply in query_documents:
 * delete Markdown code fences and strip, locate the widest brace-delimited
 * span, decode it, and turn each multi-line meal string into a list of its
 * non-blank lines. Every failure gives the default menu.
 */
module Normalizer {
  import opened Wrappers
  import opened Text
  import opened Json

  /** The keys whose string values are turned into lists, in loop order. */
  const MealKeys: seq<string> := ["Breakfast", "Lunch", "Dinner"]

  /** The fallback result: an empty date and three empty meal lists. */
  function DefaultMenu(): JsonObject {
    map["Date" := JString(""), "Breakfast" := JArray([]), "Lunch" := JArray([]), "Dinner" := JArray([])]
  }

  lemma DefaultMenuShape()
    ensures DefaultMenu().Keys == {"Date", "Breakfast", "Lunch", "Dinner"}
    ensures DefaultMenu()["Date"] == JString("")
    ensures forall k :: k in MealKeys ==> DefaultMenu()[k] == JArray([])
  {
  }

  // ----- Fence stripping -----

  /** The reply with every "```json", then every "```", deleted, then stripped. */
  function StripFences(reply: string): string {
    Strip(RemoveAll(RemoveAll(reply, "```json"), "```"))
  }

  /** The cleaned reply holds no fence marker and has no whitespace at either end. */
  lemma StripFencesClean(reply: string)
    ensures NoFence(StripFences(reply)) && Trimmed(StripFences(reply))
  {
    var t := RemoveAll(RemoveAll(reply, "```json"), "```");
    RemoveAllLeavesNoFence(RemoveAll(reply, "```json"));
    StripKeepsNoFence(t);
  }

  /** A reply without backticks is changed only by the strip. */
  lemma StripFencesNoBackticks(reply: string)
    requires '`' !in reply
    ensures StripFences(reply) == Strip(reply)
  {
    RemoveAllAbsent(reply, "```json");
    RemoveAllAbsent(reply, "```");
  }

  /** A body wrapped as a fenced JSON block comes out as the stripped body. */
  lemma FencedReplyUnwraps(body: string)
    requires '`' !in body
    ensures StripFences("```json" + body + "```") == Strip(body)
  {
    var s := "```json" + body + "```";
    assert "```json" <= s;
    assert s[7..] == body + "```";
    RemoveAllKeepsPrefix(body, "```", "```json");
    assert RemoveAll("```", "```json") == "```";
    assert RemoveAll(s, "```json") == body + "```";
    RemoveAllKeepsPrefix(body, "```", "```");
    assert RemoveAll("```", "```") == "";
    assert body + "" == body;
  }

  // ----- Brace-span location -----

  /** `s[i..j]` matches the regular expression \{.*\} when . also matches newlines. */
  predicate SpanAt(s: string, i: int, j: int) {
    0 <= i && i + 2 <= j <= |s| && s[i] == '{' && s[j - 1] == '}'
  }

  /**
   * The bounds of re.search(r'\{.*\}', s, re.DOTALL): the span runs from the
   * first '{' through the last '}', and exists only if that '}' comes later.
   */
  function BraceSpanBounds(s: string): (r: Option<(nat, nat)>)
    ensures r.Some? ==> SpanAt(s, r.value.0, r.value.1)
                        && IndexOf(s, '{') == Some(r.value.0)
                        && LastIndexOf(s, '}') == Some(r.value.1 - 1)
  {
    match IndexOf(s, '{')
    case None => None
    case Some(i) =>
      match LastIndexOf(s, '}')
      case None => None
      case Some(j) => if i < j then Some((i, j + 1)) else None
  }

  /**
   * BraceSpanBounds is what a leftmost, greedy search returns: nothing when
   * no match exists anywhere, otherwise the match that starts leftmost and,
   * among those, ends last.
   */
  lemma BraceSpanIsLeftmostLongest(s: string)
    ensures BraceSpanBounds(s).None? <==> forall i, j :: !SpanAt(s, i, j)
    ensures BraceSpanBounds(s).Some? ==>
      forall i, j :: SpanAt(s, i, j) ==>
        BraceSpanBounds(s).value.0 < i
        || (BraceSpanBounds(s).value.0 == i && j <= BraceSpanBounds(s).value.1)
  {
    match IndexOf(s, '{')
    case None =>
    case Some(first) =>
      match LastIndexOf(s, '}')
      case None =>
      case Some(last) =>
        forall i, j | SpanAt(s, i, j) ensures first <= i && j - 1 <= last {
          assert s[i] == '{' && s[j - 1] == '}';
        }
  }

  /** json_match.group(): the text of the span, if there is one. */
  function BraceSpan(s: string): (r: Option<string>)
    ensures r.Some? ==> |r.value| >= 2 && r.value[0] == '{' && r.value[|r.value| - 1] == '}'
  {
    match BraceSpanBounds(s)
    case None => None
    case Some((i, j)) => Some(s[i..j])
  }

  /** A text that is itself enclosed in braces is its own span. */
  lemma WholeSpan(t: string)
    requires |t| >= 2 && t[0] == '{' && t[|t| - 1] == '}'
    ensures BraceSpan(t) == Some(t)
  {
    assert IndexOf(t, '{') == Some(0);
    assert LastIndexOf(t, '}') == Some(|t| - 1);
    assert t[0..|t|] == t;
  }

  // ----- Coercion of multi-line strings -----

  /** [p.strip() for p in pieces if p.strip()] */
  function KeepNonBlank(pieces: seq<string>): (r: seq<string>)
    ensures |r| <= |pieces|
  {
    if pieces == [] then [] else KeepPiece(pieces[0]) + KeepNonBlank(pieces[1..])
  }

  /** One piece: its stripped text, or nothing when that is empty. */
  function KeepPiece(p: string): seq<string> {
    var q := Strip(p);
    if q == "" then [] else [q]
  }

  /** Every kept item is non-empty and already stripped. */
  lemma {:induction false} KeepNonBlankTrimmed(pieces: seq<string>)
    ensures forall k :: 0 <= k < |KeepNonBlank(pieces)| ==>
      KeepNonBlank(pieces)[k] != "" && Trimmed(KeepNonBlank(pieces)[k])
  {
    if pieces != [] {
      KeepNonBlankTrimmed(pieces[1..]);
    }
  }

  lemma {:induction false} KeepNonBlankAvoids(pieces: seq<string>, c: char)
    requires forall k :: 0 <= k < |pieces| ==> c !in pieces[k]
    ensures forall k :: 0 <= k < |KeepNonBlank(pieces)| ==> c !in KeepNonBlank(pieces)[k]
  {
    if pieces != [] {
      StripKeepsChars(pieces[0], c);
      KeepNonBlankAvoids(pieces[1..], c);
    }
  }

  lemma {:induction false} KeepNonBlankAppend(x: seq<string>, y: seq<string>)
    ensures KeepNonBlank(x + y) == KeepNonBlank(x) + KeepNonBlank(y)
  {
    if x == [] {
      assert x + y == y;
    } else {
      assert (x + y)[0] == x[0] && (x + y)[1..] == x[1..] + y;
      KeepNonBlankAppend(x[1..], y);
    }
  }

  /**
   * [item.strip() for item in s.split("\n") if item.strip()]: the lines of
   * `s`, each stripped, blank ones dropped.
   */
  function SplitLines(s: string): (r: seq<string>)
    ensures forall k :: 0 <= k < |r| ==> r[k] != "" && Trimmed(r[k]) && '\n' !in r[k]
  {
    var pieces := Split(s, '\n');
    SplitPiecesAvoid(s, '\n');
    KeepNonBlankAvoids(pieces, '\n');
    KeepNonBlankTrimmed(pieces);
    KeepNonBlank(pieces)
  }

  /** A text without a newline is one line: kept stripped unless blank. */
  lemma SplitLinesOneLine(s: string)
    requires '\n' !in s
    ensures SplitLines(s) == if Strip(s) == "" then [] else [Strip(s)]
  {
    SplitNoSep(s, '\n');
    assert Split(s, '\n')[1..] == [];
  }

  /** The lines of a text are the lines before a newline followed by those after it. */
  lemma SplitLinesConcat(a: string, b: string)
    ensures SplitLines(a + "\n" + b) == SplitLines(a) + SplitLines(b)
  {
    SplitConcat(a, b, '\n');
    KeepNonBlankAppend(Split(a, '\n'), Split(b, '\n'));
  }

  /** Blank lines, including the one after a trailing newline, are dropped. */
  lemma SplitLinesDropsBlank(a: string, b: string)
    requires a != "" && b != "" && Trimmed(a) && Trimmed(b) && '\n' !in a && '\n' !in b
    ensures SplitLines(a + "\n" + "\n" + b + "\n") == [a, b]
  {
    calc {
      SplitLines(a + "\n" + "\n" + b + "\n");
    == { assert a + "\n" + "\n" + b + "\n" == a + "\n" + ("\n" + b + "\n"); }
      SplitLines(a + "\n" + ("\n" + b + "\n"));
    == { SplitLinesConcat(a, "\n" + b + "\n"); }
      SplitLines(a) + SplitLines("\n" + b + "\n");
    == { SplitLinesBlankAround(b); }
      SplitLines(a) + SplitLines(b);
    == { SplitLinesSingle(a); SplitLinesSingle(b); }
      [a] + [b];
    }
  }

  /** A non-blank stripped line is a one-element list, and as a meal the list of one JSON string. */
  lemma SplitLinesSingle(a: string)
    requires a != "" && Trimmed(a) && '\n' !in a
    ensures SplitLines(a) == [a]
    ensures StringItems(SplitLines(a)) == [JString(a)]
  {
    SplitLinesOneLine(a);
    StripTrimmed(a);
  }

  /** Two non-blank stripped lines separated by a newline become a two-element list, and as a meal the list of two JSON strings. */
  lemma SplitLinesTwo(a: string, b: string)
    requires a != "" && b != "" && Trimmed(a) && Trimmed(b) && '\n' !in a && '\n' !in b
    ensures SplitLines(a + "\n" + b) == [a, b]
    ensures StringItems(SplitLines(a + "\n" + b)) == [JString(a), JString(b)]
  {
    SplitLinesConcat(a, b);
    SplitLinesOneLine(a);
    StripTrimmed(a);
    SplitLinesOneLine(b);
    StripTrimmed(b);
  }

  lemma SplitLinesBlankAround(t: string)
    ensures SplitLines("\n" + t + "\n") == SplitLines(t)
  {
    assert "\n" + t + "\n" == "\n" + (t + "\n");
    SplitLinesBlankFirst(t + "\n");
    SplitLinesTrailingNewline(t);
  }

  lemma SplitLinesBlankFirst(t: string)
    ensures SplitLines("\n" + t) == SplitLines(t)
  {
    calc {
      SplitLines("\n" + t);
    == { assert "\n" + t == "" + "\n" + t; }
      SplitLines("" + "\n" + t);
    == { SplitLinesConcat("", t); }
      SplitLines("") + SplitLines(t);
    == { SplitLinesEmpty(); }
      SplitLines(t);
    }
  }

  lemma SplitLinesTrailingNewline(t: string)
    ensures SplitLines(t + "\n") == SplitLines(t)
  {
    calc {
      SplitLines(t + "\n");
    == { assert t + "\n" == t + "\n" + ""; }
      SplitLines(t + "\n" + "");
    == { SplitLinesConcat(t, ""); }
      SplitLines(t) + SplitLines("");
    == { SplitLinesEmpty(); }
      SplitLines(t);
    }
  }

  /** The empty text has no lines. */
  lemma SplitLinesEmpty()
    ensures SplitLines("") == []
  {
    assert Split("", '\n') == [""];
    assert Strip("") == "";
  }

  /** The meal text "A\n\nB\n" becomes ["A", "B"]. */
  lemma SplitLinesExample()
    ensures SplitLines("A\n\nB\n") == ["A", "B"]
  {
    SplitLinesDropsBlank("A", "B");
    assert "A\n\nB\n" == "A" + "\n" + "\n" + "B" + "\n";
  }

  /** The strings of a Python list, as a JSON array's items. */
  function StringItems(items: seq<string>): seq<JsonValue> {
    seq(|items|, k requires 0 <= k < |items| => JString(items[k]))
  }

  /** A JSON array of non-blank, stripped, single-line strings. */
  predicate IsLineList(v: JsonValue) {
    v.JArray? && forall k :: 0 <= k < |v.items| ==>
      v.items[k].JString? && v.items[k].str != "" && Trimmed(v.items[k].str) && '\n' !in v.items[k].str
  }

  /** The value stored under `k` after the loop body has run for `k`. */
  function CoerceField(k: string, v: JsonValue): JsonValue {
    if k in MealKeys && v.JString? then JArray(StringItems(SplitLines(v.str))) else v
  }

  /** The decoded object with every meal string replaced by its list of lines. */
  function Coerced(m: JsonObject): JsonObject {
    map k | k in m :: CoerceField(k, m[k])
  }

  /**
   * The loop over "Breakfast", "Lunch", "Dinner" that rewrites the decoded
   * object key by key.
   */
  method CoerceMeals(m: JsonObject) returns (r: JsonObject)
    ensures r == Coerced(m)
  {
    r := m;
    for i := 0 to |MealKeys|
      invariant r.Keys == m.Keys
      invariant forall k :: k in m ==> r[k] == if k in MealKeys[..i] then CoerceField(k, m[k]) else m[k]
    {
      var k := MealKeys[i];
      if k in r && r[k].JString? {
        r := r[k := CoerceField(k, r[k])];
      }
      assert MealKeys[..i + 1] == MealKeys[..i] + [k];
    }
    assert MealKeys[..|MealKeys|] == MealKeys;
  }

  /** Coercion keeps every key and leaves alone every value it is not meant to change. */
  lemma CoercedFrame(m: JsonObject)
    ensures Coerced(m).Keys == m.Keys
    ensures forall k :: k in m && !(k in MealKeys && m[k].JString?) ==> Coerced(m)[k] == m[k]
  {
  }

  /** A meal given as a string becomes the list of its non-blank stripped lines. */
  lemma CoercedMealIsLines(m: JsonObject, k: string)
    requires k in MealKeys && k in m && m[k].JString?
    ensures IsLineList(Coerced(m)[k])
    ensures Coerced(m)[k].items == StringItems(SplitLines(m[k].str))
  {
  }

  /** After coercion no meal field holds a string. */
  lemma CoercedNoMealString(m: JsonObject)
    ensures forall k :: k in MealKeys && k in Coerced(m) ==> !Coerced(m)[k].JString?
  {
  }

  /** Coercing twice is coercing once: lists are never split again. */
  lemma CoercedIdempotent(m: JsonObject)
    ensures Coerced(Coerced(m)) == Coerced(m)
  {
    CoercedNoMealString(m);
  }

  /** An object whose meal fields are not strings passes through unchanged. */
  lemma CoercedNoStrings(m: JsonObject)
    requires forall k :: k in MealKeys && k in m ==> !m[k].JString?
    ensures Coerced(m) == m
  {
  }

  // ----- The whole normalisation -----

  /** The decoded object, or None where the source falls back to the default. */
  function Extract(reply: string, parse: Parser): Option<JsonObject> {
    match BraceSpan(StripFences(reply))
    case None => None
    case Some(span) => parse(span)
  }

  /** From the model's reply to the menu query_documents returns. */
  function Normalize(reply: string, parse: Parser): JsonObject {
    match Extract(reply, parse)
    case None => DefaultMenu()
    case Some(obj) => Coerced(obj)
  }

  /** With no '{' followed somewhere by '}' in the cleaned reply, the result is the default. */
  lemma NoSpanGivesDefault(reply: string, parse: Parser)
    requires forall i, j :: !SpanAt(StripFences(reply), i, j)
    ensures Normalize(reply, parse) == DefaultMenu()
  {
    BraceSpanIsLeftmostLongest(StripFences(reply));
  }

  /** A span that does not decode gives the default. */
  lemma MalformedGivesDefault(reply: string, parse: Parser)
    requires BraceSpan(StripFences(reply)).Some?
    requires parse(BraceSpan(StripFences(reply)).value).None?
    ensures Normalize(reply, parse) == DefaultMenu()
  {
  }

  /** The result is the default or a decoded object whose meal fields hold no string. */
  lemma NormalizeMealsAreNotStrings(reply: string, parse: Parser)
    ensures forall k :: k in MealKeys && k in Normalize(reply, parse) ==> !Normalize(reply, parse)[k].JString?
  {
    match Extract(reply, parse)
    case None =>
    case Some(obj) => CoercedNoMealString(obj);
  }

  /** Normalising a reply whose object is already normalised returns that object. */
  lemma NormalizedObjectUnchanged(reply: string, parse: Parser, obj: JsonObject)
    requires Extract(reply, parse) == Some(obj)
    requires forall k :: k in MealKeys && k in obj ==> !obj[k].JString?
    ensures Normalize(reply, parse) == obj
  {
    CoercedNoStrings(obj);
  }
}
