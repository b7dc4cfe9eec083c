# Cafeteria menu service: normalising the language model's reply

The service answers `GET /menu`. It reads the text of a fixed PDF and asks
a language model for today's menu. It then turns the language model's free-form
reply into an object with the keys `Date`, `Breakfast`, `Lunch` and `Dinner`.
This project models the deterministic parts of that path in `main.py`:

- `get_pdf_text`: joins the non-empty page texts with `"\n"`. A read
  failure gives `""`.
- the short-circuit in `query_documents`: empty PDF text returns the default
  menu before any prompt is built or the language model is called.
- the normalisation of the reply:
  - delete every `` ```json `` and then every `` ``` ``, then strip;
  - take the greedy `\{.*\}` span (DOTALL) and decode it with `json.loads`;
  - turn each meal string into the list of its non-blank stripped lines;
  - return the default menu `{"Date": "", "Breakfast": [], "Lunch": [], "Dinner": []}`
    when no span is found or the span does not decode.

Modules:

- `Wrappers` (`wrappers.dfy`): `Option`.
- `Json` (`json.dfy`): the decoded JSON values. A decoded object is a
  `map<string, JsonValue>`. The decoder `json.loads` is a parameter of type
  `Parser`, which returns `None` for a `JSONDecodeError`.
- `Text` (`text.dfy`): the Python string operations the code calls.
  `str.strip()` is `Strip`, `s.replace(pat, "")` is `RemoveAll`,
  `s.split(c)` is `Split` and `sep.join` is `Join`. The first and last
  position of a character are `IndexOf` and `LastIndexOf`.
- `PdfText` (`pdf_text.dfy`): `get_pdf_text` over the page texts, which are
  an input.
- `Normalizer` (`normalizer.dfy`): fence stripping, the brace span, line
  coercion, the default menu and the whole normalisation `Normalize`. The
  in-place loop over the three meal keys is the method `CoerceMeals`. It is
  proved equal to the pointwise specification `Coerced`.
- `Handler` (`handler.dfy`): `query_documents` as the method
  `QueryDocuments`, plus a fenced and an unfenced example reply, written for
  arbitrary strings.

Absent meal keys are not filled in. A decoded object is returned with
exactly its own keys (`CoercedFrame`); only the response schema, which is
not modelled, sees it.

## Model

| member | source | states |
|---|---|---|
| `Text.Strip` | main.py:68 | `.strip()` returns the slice of its input that starts at the first non-whitespace character; what follows the slice is all whitespace, and the result starts and ends with non-whitespace |
| `Text.RemoveAll` | main.py:68 | `.replace(pat, "")` never lengthens the text; characterised by `RemoveAllNoOccurrence`, `RemoveAllAbsent`, `RemoveAllKeepsPrefix` and `RemoveAllLeavesNoFence` |
| `Text.Split` | main.py:78 | `.split(sep)` gives at least one piece; `SplitPiecesAvoid`, `JoinSplit`, `SplitJoin`, `SplitNoSep`, `SplitAt` and `SplitConcat` characterise it |
| `Text.SplitPiecesAvoid` | main.py:78 | no piece of `.split(sep)` contains `sep` |
| `Text.SplitNoSep` | main.py:78 | a text without the separator splits into itself alone |
| `Text.Join` | main.py:31 | `sep.join(parts)`; `JoinSplit`, `SplitJoin` and `JoinAppend` characterise it |
| `Text.JoinAppend` | main.py:31 | joining two non-empty lists puts one separator between their joins |
| `Text.StripUnique` | main.py:68 | writing a text as whitespace + a trimmed core + whitespace determines the core: `.strip()` returns exactly that core |
| `Text.RemoveAllLeavesNoFence` | main.py:68 | after `.replace("```", "")` no run of three backticks is left, even where two deletions meet |
| `Text.RemoveAllNoOccurrence` | main.py:68 | `.replace(pat, "")` leaves a text unchanged when `pat` does not occur in it, so a partial marker such as two backticks survives |
| `Text.RemoveAllAbsent` | main.py:68 | `.replace(pat, "")` leaves a text unchanged when it does not contain the first character of `pat` |
| `Text.RemoveAllKeepsPrefix` | main.py:68 | a prefix without the pattern's first character passes through `.replace(pat, "")` untouched |
| `Text.JoinSplit` | main.py:78 | joining the pieces of `s.split("\n")` with `"\n"` gives `s` back |
| `Text.SplitJoin` | main.py:78 | splitting the `"\n"`-join of newline-free pieces gives the pieces back |
| `Text.SplitConcat` | main.py:78 | `(a + "\n" + b).split("\n")` is the pieces of `a` followed by the pieces of `b` |
| `Text.SplitAt` | main.py:78 | splitting at any one occurrence of the separator gives the pieces before it followed by the pieces after it |
| `Text.IndexOf` | main.py:70 | the index of the first occurrence of a character, or none when it does not occur |
| `Text.LastIndexOf` | main.py:70 | the index of the last occurrence of a character, or none when it does not occur |
| `Normalizer.StripFences` | main.py:68 | the two `.replace` calls and the `.strip()`; characterised by `StripFencesClean`, `StripFencesNoBackticks` and `FencedReplyUnwraps` |
| `Normalizer.StripFencesClean` | main.py:68 | the cleaned reply contains no triple backtick and has no whitespace at either end |
| `Normalizer.StripFencesNoBackticks` | main.py:68 | a reply without backticks is changed only by the strip |
| `Normalizer.FencedReplyUnwraps` | main.py:68 | a body without backticks wrapped as `` ```json `` … `` ``` `` comes out as the stripped body |
| `Normalizer.BraceSpanBounds` | main.py:70 | a found span starts with `{` at the first `{`, ends with `}` at the last `}`, and matches `\{.*\}` |
| `Normalizer.BraceSpanIsLeftmostLongest` | main.py:70-71 | no span is found exactly when no `{` is followed later by a `}`; otherwise the span is the leftmost match and, among matches starting there, the longest, as `re.search` with a greedy `.*` returns |
| `Normalizer.BraceSpan` | main.py:70 | the matched text is at least two characters long, starts with `{` and ends with `}` |
| `Normalizer.WholeSpan` | main.py:70 | a text that itself starts with `{` and ends with `}` is its own span |
| `Normalizer.SplitLines` | main.py:78 | every element of the coerced list is non-empty, already stripped and free of newlines |
| `Normalizer.KeepNonBlank` | main.py:78 | the filter `if item.strip()` with each kept item stripped never yields more items than pieces; `KeepNonBlankTrimmed`, `KeepNonBlankAvoids` and `KeepNonBlankAppend` characterise it |
| `Normalizer.KeepNonBlankTrimmed` | main.py:78 | every kept item is non-empty and already stripped |
| `Normalizer.KeepNonBlankAvoids` | main.py:78 | a character absent from every piece is absent from every kept item |
| `Normalizer.KeepNonBlankAppend` | main.py:78 | filtering two runs of pieces gives the kept items of the first followed by those of the second |
| `Normalizer.SplitLinesSingle` | main.py:78 | a non-blank stripped line gives the one-element list of itself, as a meal the list of one JSON string |
| `Normalizer.SplitLinesTwo` | main.py:78 | two non-blank stripped lines joined by a newline give the list of both, as a meal the list of two JSON strings |
| `Normalizer.SplitLinesEmpty` | main.py:78 | the empty text has no lines |
| `Normalizer.SplitLinesOneLine` | main.py:78 | a text without a newline becomes the one-element list of its stripped self, or the empty list if it is blank |
| `Normalizer.SplitLinesConcat` | main.py:78 | the list for `a + "\n" + b` is the list for `a` followed by the list for `b`, so lines keep their source order |
| `Normalizer.SplitLinesDropsBlank` | main.py:78 | an empty line and the empty piece after a trailing newline contribute nothing |
| `Normalizer.SplitLinesExample` | main.py:78 | `"A\n\nB\n"` becomes `["A", "B"]` |
| `Normalizer.CoerceMeals` | main.py:76-78 | the key-by-key loop over Breakfast, Lunch and Dinner leaves the object equal to the pointwise coercion `Coerced` of the decoded object |
| `Normalizer.Coerced` | main.py:76-78 | each meal key holding a string is replaced by its lines; characterised by `CoercedFrame`, `CoercedMealIsLines`, `CoercedNoMealString`, `CoercedIdempotent` and `CoercedNoStrings` |
| `Normalizer.CoercedFrame` | main.py:76-77 | coercion keeps every key, and leaves `Date`, other keys and every non-string meal value as they were |
| `Normalizer.CoercedMealIsLines` | main.py:77-78 | a meal given as a string becomes a JSON array of non-blank, stripped, single-line strings: the lines of that string |
| `Normalizer.CoercedNoMealString` | main.py:76-78 | after coercion no meal key holds a string |
| `Normalizer.CoercedIdempotent` | main.py:76-78 | coercing twice equals coercing once |
| `Normalizer.CoercedNoStrings` | main.py:76-78 | an object whose meal values are not strings, for instance already lists, passes through unchanged |
| `Normalizer.DefaultMenu` | main.py:41 | the fallback object; `DefaultMenuShape` states its contents |
| `Normalizer.Extract` | main.py:70-73 | the brace span decoded by the parser, or none; used by `Normalize` |
| `Normalizer.Normalize` | main.py:68-84 | the whole normalisation; characterised by `NoSpanGivesDefault`, `MalformedGivesDefault`, `NormalizeMealsAreNotStrings`, `NormalizedObjectUnchanged`, `BareObjectNormalizes` and `FencedObjectNormalizes` |
| `Normalizer.DefaultMenuShape` | main.py:82-84 | the default menu has exactly the four keys, `Date` is `""` and every meal is the empty list |
| `Normalizer.NoSpanGivesDefault` | main.py:70-84 | when the cleaned reply has no `{` followed later by a `}`, the result is the default menu |
| `Normalizer.MalformedGivesDefault` | main.py:72-82 | when the span does not decode, the result is the default menu |
| `Normalizer.NormalizeMealsAreNotStrings` | main.py:68-84 | whatever the reply, no meal key of the result holds a string |
| `Normalizer.NormalizedObjectUnchanged` | main.py:73-80 | a decoded object whose meal fields are already lists is returned as it is |
| `PdfText.NonEmptyPages` | main.py:31 | a text is among the kept pages exactly when it is a non-empty page text; none is empty and there are no more of them than pages |
| `PdfText.NonEmptyPagesSingle` | main.py:31 | one page is kept exactly when its text is non-empty |
| `PdfText.NonEmptyPagesAppend` | main.py:31 | the kept pages of two runs of pages are those of the first run followed by those of the second, so page order is kept |
| `PdfText.NonEmptyPagesNone` | main.py:31 | no page is kept exactly when every page text is empty |
| `PdfText.JoinPages` | main.py:31 | `"\n".join` of the kept pages; characterised by `PdfTextSinglePage`, `PdfTextAppend`, `PdfTextEmpty` and `EmptyPageIgnored` |
| `PdfText.GetPdfText` | main.py:28-34 | a read failure yields `""` |
| `PdfText.PdfTextEmpty` | main.py:28-41 | the text is empty exactly when reading failed or every page text is empty (`extract_text()` gave `""`); with `QueryDocuments`' ensures, these are exactly the cases where the language model is not asked |
| `PdfText.PdfTextSinglePage` | main.py:31 | a one-page document gives that page's text |
| `PdfText.WhitespacePageKept` | main.py:31-34 | a page of whitespace only is kept, so the text is non-empty and the model is asked |
| `PdfText.PdfTextAppend` | main.py:31 | the text of two runs of pages is their texts joined by one `"\n"`, or just one of them when the other is empty |
| `PdfText.EmptyPageIgnored` | main.py:31 | an empty page anywhere contributes nothing |
| `Handler.QueryDocuments` | main.py:37-84 | the model is asked exactly when the PDF text is non-empty; otherwise the default menu comes back, and when it is asked the result is the normalised reply |
| `Handler.BareObjectNormalizes` | main.py:68-80 | a reply that is a braced, backtick-free object with whitespace around it gives the coercion of its decoding |
| `Handler.FencedObjectNormalizes` | main.py:68-80 | a braced object inside a `` ```json `` block gives the coercion of its decoding |
| `Handler.FencedSpanCleans` | main.py:68 | a trimmed, backtick-free text inside a `` ```json `` fence with a newline on each side comes out of the cleaning exactly as it went in |
| `Handler.FencedReplyExample` | main.py:68-80 | a fenced reply whose Breakfast is `"first\nsecond"` comes back with Breakfast `[first, second]`; Date and the list-valued meals are unchanged |
| `Handler.BareReplyExample` | main.py:68-80 | an unfenced reply whose meals are single-line strings comes back with each meal a one-element list |

## Left out

- The FastAPI app, routing and the `async` handler are framework plumbing.
- Validation against the `MenuResponse` response schema (a pydantic class) is left out. `QueryDocuments` returns the dict that the handler returns, before any validation.
- `load_dotenv` and the lookup of the API key are configuration I/O.
- `PdfReader` and `page.extract_text()` belong to a foreign library. This project takes the page texts, or the fact that reading raised, as input (`PdfRead`).
  - The code calls `extract_text()` twice per page. This project assumes both calls return the same text.
  - A page whose extraction gives nothing counts as `""`.
- The diagnostic `print` in `get_pdf_text` is not modelled.
- `ChatGoogleGenerativeAI` and `llm.invoke` are a network call. The reply is an arbitrary input string. A transport error propagates in the code and is not modelled.
- `datetime.now()` and the prompt f-string are not modelled: the first is a clock, the second plain templating.
- The internals of `json.loads` are not modelled: it is the `Parser` parameter. Its result is always an object, because a text that starts with `{` and ends with `}` can only decode to one. Exceptions other than `JSONDecodeError` are not modelled.
- JSON numbers are kept as their literal text, because nothing here reads them.
- Dict insertion order is not modelled: a decoded object is a `map`, so key order is not captured.
- `Text.IsSpace` is the fixed set of characters for which Python's `str.isspace()` holds. It does not consult Unicode tables.
