/**
 * query_documents, the handler of GET /menu: read the PDF text, fall back
 * to the default menu when it is empty, otherwise ask the language model
 * and normalise its reply. The model's reply and json.loads are inputs.
 */
module Handler {
  import opened Wrappers
  import opened Text
  import opened Json
  import opened PdfText
  import opened Normalizer

  /**
   * One request. `askedModel` tells whether the handler got as far as
   * prompting the model; `reply` is what the model answers if it is asked.
   */
  method QueryDocuments(pdf: PdfRead, reply: string, parse: Parser)
    returns (menu: JsonObject, askedModel: bool)
    ensures askedModel <==> GetPdfText(pdf) != ""
    ensures menu == if askedModel then Normalize(reply, parse) else DefaultMenu()
  {
    var pdfText := GetPdfText(pdf);
    if pdfText == "" {
      return DefaultMenu(), false;
    }
    askedModel := true;
    var cleaned := StripFences(reply);
    var jsonMatch := BraceSpan(cleaned);
    if jsonMatch.None? {
      return DefaultMenu(), askedModel;
    }
    var menuData := parse(jsonMatch.value);
    if menuData.None? {
      return DefaultMenu(), askedModel;
    }
    menu := CoerceMeals(menuData.value);
  }

  /** A reply that is a braced object with whitespace around it decodes to that object, coerced. */
  lemma BareObjectNormalizes(p: string, span: string, q: string, parse: Parser, obj: JsonObject)
    requires AllSpace(p) && AllSpace(q) && '`' !in p + span + q
    requires |span| >= 2 && span[0] == '{' && span[|span| - 1] == '}'
    requires parse(span) == Some(obj)
    ensures Normalize(p + span + q, parse) == Coerced(obj)
  {
    StripFencesNoBackticks(p + span + q);
    StripUnique(p, span, q);
    WholeSpan(span);
  }

  /** A braced object inside a fenced JSON block decodes to that object, coerced. */
  lemma FencedObjectNormalizes(span: string, parse: Parser, obj: JsonObject)
    requires '`' !in span
    requires |span| >= 2 && span[0] == '{' && span[|span| - 1] == '}'
    requires parse(span) == Some(obj)
    ensures Normalize("```json\n" + span + "\n```", parse) == Coerced(obj)
  {
    FencedSpanCleans(span);
    WholeSpan(span);
  }

  /** Cleaning a fenced block whose body is a trimmed backtick-free text leaves that text. */
  lemma FencedSpanCleans(span: string)
    requires '`' !in span && Trimmed(span)
    ensures StripFences("```json\n" + span + "\n```") == span
  {
    var body := "\n" + span + "\n";
    LinePaddingClean(span);
    assert "```json\n" + span + "\n```" == "```json" + body + "```";
    FencedReplyUnwraps(body);
    StripUnique("\n", span, "\n");
  }

  lemma LinePaddingClean(span: string)
    requires '`' !in span
    ensures '`' !in "\n" + span + "\n"
  {
    var body := "\n" + span + "\n";
    forall k | 0 <= k < |body| ensures body[k] != '`' {
      if 0 < k < |body| - 1 { assert body[k] == span[k - 1]; }
    }
  }

  /**
   * A fenced reply, for any strings in its place: a "Breakfast" holding two
   * lines comes back as the list of both, the list-valued "Lunch" and
   * "Dinner" are passed through and "Date" is kept.
   */
  lemma FencedReplyExample(span: string, parse: Parser, obj: JsonObject,
                           date: string, first: string, second: string, soup: string)
    requires '`' !in span && |span| >= 2 && span[0] == '{' && span[|span| - 1] == '}'
    requires first != "" && second != "" && Trimmed(first) && Trimmed(second)
    requires '\n' !in first && '\n' !in second
    requires parse(span) == Some(obj)
    requires obj.Keys == {"Date", "Breakfast", "Lunch", "Dinner"}
    requires obj["Date"] == JString(date) && obj["Breakfast"] == JString(first + "\n" + second)
    requires obj["Lunch"] == JArray([]) && obj["Dinner"] == JArray([JString(soup)])
    ensures var r := Normalize("```json\n" + span + "\n```", parse);
      && r.Keys == {"Date", "Breakfast", "Lunch", "Dinner"}
      && r["Date"] == JString(date)
      && r["Breakfast"] == JArray([JString(first), JString(second)])
      && r["Lunch"] == JArray([])
      && r["Dinner"] == JArray([JString(soup)])
  {
    FencedObjectNormalizes(span, parse, obj);
    DateIsNotAMeal();
    SplitLinesTwo(first, second);
  }

  /**
   * An unfenced reply, for any strings in its place: every single-line meal
   * string becomes a one-element list and "Date" is kept.
   */
  lemma BareReplyExample(span: string, parse: Parser, obj: JsonObject,
                         date: string, breakfast: string, lunch: string, dinner: string)
    requires '`' !in span && |span| >= 2 && span[0] == '{' && span[|span| - 1] == '}'
    requires breakfast != "" && Trimmed(breakfast) && '\n' !in breakfast
    requires lunch != "" && Trimmed(lunch) && '\n' !in lunch
    requires dinner != "" && Trimmed(dinner) && '\n' !in dinner
    requires parse(span) == Some(obj)
    requires obj.Keys == {"Date", "Breakfast", "Lunch", "Dinner"}
    requires obj["Date"] == JString(date) && obj["Breakfast"] == JString(breakfast)
    requires obj["Lunch"] == JString(lunch) && obj["Dinner"] == JString(dinner)
    ensures var r := Normalize(span, parse);
      && r.Keys == {"Date", "Breakfast", "Lunch", "Dinner"}
      && r["Date"] == JString(date)
      && r["Breakfast"] == JArray([JString(breakfast)])
      && r["Lunch"] == JArray([JString(lunch)])
      && r["Dinner"] == JArray([JString(dinner)])
  {
    assert "" + span + "" == span;
    BareObjectNormalizes("", span, "", parse, obj);
    DateIsNotAMeal();
    SplitLinesSingle(breakfast);
    SplitLinesSingle(lunch);
    SplitLinesSingle(dinner);
  }

  lemma DateIsNotAMeal()
    ensures "Date" !in MealKeys
  {
    assert |"Date"| == 4;
  }
}
