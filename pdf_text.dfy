/**
 * get_pdf_text: the page texts the PDF reader extracts, joined into one
 * string. The reader is outside the model; what it yields is an input.
 */
module PdfText {
  import opened Text

  /** The outcome of reading the PDF: each page's extracted text, or an exception. */
  datatype PdfRead = Pages(texts: seq<string>) | ReadError

  /** The page texts that are non-empty, in page order. */
  function NonEmptyPages(texts: seq<string>): (r: seq<string>)
    ensures |r| <= |texts|
    ensures forall k :: 0 <= k < |r| ==> r[k] != ""
    ensures forall t :: t in r <==> t in texts && t != ""
  {
    if texts == [] then []
    else (if texts[0] == "" then [] else [texts[0]]) + NonEmptyPages(texts[1..])
  }

  /** "\n".join(t for t in texts if t) */
  function JoinPages(texts: seq<string>): string {
    Join("\n", NonEmptyPages(texts))
  }

  /** The text of the whole document; any read failure gives "". */
  function GetPdfText(pdf: PdfRead): (r: string)
    ensures pdf.ReadError? ==> r == ""
  {
    match pdf
    case ReadError => ""
    case Pages(texts) => JoinPages(texts)
  }

  lemma {:induction false} NonEmptyPagesAppend(a: seq<string>, b: seq<string>)
    ensures NonEmptyPages(a + b) == NonEmptyPages(a) + NonEmptyPages(b)
  {
    if a == [] {
      assert a + b == b;
    } else {
      assert (a + b)[0] == a[0] && (a + b)[1..] == a[1..] + b;
      NonEmptyPagesAppend(a[1..], b);
    }
  }

  /** One page is kept exactly when its text is non-empty. */
  lemma NonEmptyPagesSingle(t: string)
    ensures NonEmptyPages([t]) == if t == "" then [] else [t]
  {
    assert [t][1..] == [];
  }

  lemma {:induction false} NonEmptyPagesNone(texts: seq<string>)
    ensures NonEmptyPages(texts) == [] <==> forall k :: 0 <= k < |texts| ==> texts[k] == ""
  {
    if texts != [] {
      NonEmptyPagesNone(texts[1..]);
      assert forall k :: 1 <= k < |texts| ==> texts[k] == texts[1..][k - 1];
    }
  }

  /** The text is empty exactly when reading failed or every page text is empty (`""`). */
  lemma PdfTextEmpty(pdf: PdfRead)
    ensures GetPdfText(pdf) == "" <==>
      (pdf.ReadError? || forall k :: 0 <= k < |pdf.texts| ==> pdf.texts[k] == "")
  {
    if pdf.Pages? {
      var pages := NonEmptyPages(pdf.texts);
      NonEmptyPagesNone(pdf.texts);
      if pages != [] {
        assert |Join("\n", pages)| >= |pages[0]|;
      }
    }
  }

  /** A single page contributes its text as it is. */
  lemma PdfTextSinglePage(t: string)
    ensures JoinPages([t]) == t
  {
    assert [t][1..] == [];
  }

  /** A page holding only whitespace is not dropped: the text is that whitespace. */
  lemma WhitespacePageKept(t: string)
    requires t != "" && AllSpace(t)
    ensures GetPdfText(Pages([t])) == t
    ensures GetPdfText(Pages([t])) != ""
  {
    PdfTextSinglePage(t);
  }

  /** Pages are joined section by section, with one newline between non-empty sections. */
  lemma PdfTextAppend(a: seq<string>, b: seq<string>)
    ensures JoinPages(a + b) ==
      if JoinPages(a) == "" then JoinPages(b)
      else if JoinPages(b) == "" then JoinPages(a)
      else JoinPages(a) + "\n" + JoinPages(b)
  {
    NonEmptyPagesAppend(a, b);
    var x, y := NonEmptyPages(a), NonEmptyPages(b);
    NonEmptyPagesNone(a);
    NonEmptyPagesNone(b);
    if x == [] {
      assert x + y == y;
    } else if y == [] {
      assert x + y == x;
      assert |Join("\n", x)| >= |x[0]|;
    } else {
      JoinAppend("\n", x, y);
      assert |Join("\n", x)| >= |x[0]|;
      assert |Join("\n", y)| >= |y[0]|;
    }
  }

  /** An empty page contributes nothing, wherever it stands. */
  lemma EmptyPageIgnored(a: seq<string>, b: seq<string>)
    ensures JoinPages(a + [""] + b) == JoinPages(a + b)
  {
    NonEmptyPagesAppend(a + [""], b);
    NonEmptyPagesAppend(a, [""]);
    NonEmptyPagesAppend(a, b);
    assert NonEmptyPages([""]) == [];
    assert NonEmptyPages(a) + [] == NonEmptyPages(a);
  }
}
