/** Text extraction from an uploaded PDF: the per-page loop that joins page
    texts, the blank-document sentinel, the failure message, and the final
    cleanup. The PDF library itself is not modelled: a document is what it
    yields, page by page. */
module PdfExtraction {
  import opened Wrappers
  import opened SeqFacts
  import opened PyStr
  import opened Whitespace

  /** What the PDF library yields for an upload: either the reader could not
      be built or iterated (with the exception's message), or a list of
      pages, each holding the page's extracted text or `None` when
      `page.extract_text()` raised. */
  datatype PdfDocument = Unreadable(error: string) | Pages(pages: seq<Option<string>>)

  /** Returned instead of text when no page yields any. */
  const NoTextSentinel: string :=
    "No text content could be "
    + "extracted from this PDF file. "
    + "The document may contain only "
    + "images or be password "
    + "protected."

  /** Start of the message returned when the reader itself fails. */
  const FailurePrefix: string :=
    "Failed to extract text from "
    + "PDF: "

  /** What page `k` adds to the joined text: nothing when its extraction
      raised or its text is blank; otherwise its text, followed by a line
      break unless it is the last page of the document. */
  function Contribution(pages: seq<Option<string>>, k: nat): string
    requires k < |pages|
  {
    match pages[k]
    case None => ""
    case Some(t) =>
      if AllSpace(t) then ""
      else if k < |pages| - 1 then t + "\n"
      else t
  }

  /** The joined text after the loop has visited the first `n` pages. */
  function JoinPrefix(pages: seq<Option<string>>, n: nat): string
    requires n <= |pages|
  {
    if n == 0 then "" else JoinPrefix(pages, n - 1) + Contribution(pages, n - 1)
  }

  /** The result of `extract_text_from_pdf`, as a function of the document. */
  function PdfText(doc: PdfDocument): string {
    match doc
    case Unreadable(e) => FailurePrefix + e
    case Pages(pages) =>
      var joined := JoinPrefix(pages, |pages|);
      if AllSpace(joined) then NoTextSentinel else Clean(joined)
  }

  /** `extract_text_from_pdf`: walks the pages, appending every non-blank
      page's text and a separator after each such page but the last; then
      returns the sentinel for blank output, or the cleaned text. */
  method ExtractTextFromPdf(doc: PdfDocument) returns (text: string)
    ensures text == PdfText(doc)
  {
    match doc
    case Unreadable(e) =>
      text := FailurePrefix + e;
    case Pages(pages) =>
      var extracted := "";
      for pageNum := 0 to |pages|
        invariant extracted == JoinPrefix(pages, pageNum)
      {
        ghost var before := extracted;
        match pages[pageNum]
        case None =>
          assert Contribution(pages, pageNum) == [];
        case Some(pageText) =>
          if Strip(pageText) != [] {
            extracted := extracted + pageText;
            if pageNum < |pages| - 1 {
              extracted := extracted + "\n";
              ConcatAssoc(before, pageText, "\n");
            }
          } else {
            assert Contribution(pages, pageNum) == [];
          }
        assert extracted == before + Contribution(pages, pageNum);
      }
      if Strip(extracted) == [] {
        text := NoTextSentinel;
      } else {
        var cleaned := RemoveNulls(extracted);
        cleaned := JoinSpace(Split(cleaned));
        cleaned := Strip(cleaned);
        text := cleaned;
        assert text == Clean(extracted);
      }
  }

  /** What the page-loop proofs need of a way of reading words out of text:
      blank text has none, a trailing line break adds none, and text that
      starts a line contributes its own words after those before it. The
      cleanup's reading, `split()` after null removal, is one
      (`CleanupSeparatesAtLineBreaks`); the proofs about the loop are stated
      for any such reading so that they need not unfold `split()`. */
  ghost predicate SeparatesAtLineBreaks(words: string -> seq<string>) {
    && (forall t :: AllSpace(t) ==> words(t) == [])
    && (forall t :: words(t + "\n") == words(t))
    && (forall a, c :: AtLineStart(a) ==> words(a + c) == words(a) + words(c))
  }

  /** `split()` after null removal separates words at line breaks. */
  lemma CleanupSeparatesAtLineBreaks()
    ensures SeparatesAtLineBreaks(Words)
  {
    forall t | AllSpace(t) ensures Words(t) == [] {
      WordsBlank(t);
    }
    forall t ensures Words(t + "\n") == Words(t) {
      WordsTrailingNewline(t);
    }
    forall a, c | AtLineStart(a) ensures Words(a + c) == Words(a) + Words(c) {
      WordsAfterBreak(a + c, a, c);
    }
  }

  /** The words of one page; none when its extraction raised. */
  function PageWordsOf(words: string -> seq<string>, page: Option<string>): seq<string> {
    match page
    case None => []
    case Some(t) => words(t)
  }

  /** The words of all pages, page after page. */
  function PageWords(words: string -> seq<string>, pages: seq<Option<string>>): seq<string> {
    if pages == [] then []
    else PageWords(words, pages[..|pages| - 1]) + PageWordsOf(words, pages[|pages| - 1])
  }

  /** None of the first `n` pages holds text: each raised or is blank. */
  ghost predicate NoTextUpTo(pages: seq<Option<string>>, n: nat)
    requires n <= |pages|
  {
    forall i :: 0 <= i < n && pages[i].Some? ==> AllSpace(pages[i].value)
  }

  /** No page of the document holds text. */
  ghost predicate NoText(pages: seq<Option<string>>) {
    NoTextUpTo(pages, |pages|)
  }

  /** Before the last page, the joined text always ends a line (or is
      still empty), so the next page's text starts a line of its own. */
  lemma {:induction false} JoinPrefixAtLineStart(pages: seq<Option<string>>, n: nat)
    requires n < |pages|
    ensures AtLineStart(JoinPrefix(pages, n))
  {
    if n > 0 {
      JoinPrefixAtLineStart(pages, n - 1);
      var a, c := JoinPrefix(pages, n - 1), Contribution(pages, n - 1);
      if c == [] {
        assert a + c == a;
      } else {
        assert c[|c| - 1] == '\n';
        assert (a + c)[|a + c| - 1] == c[|c| - 1];
      }
    }
  }

  /** A page contributes exactly its own words. */
  lemma ContributionWords(words: string -> seq<string>, pages: seq<Option<string>>, k: nat)
    requires SeparatesAtLineBreaks(words)
    requires k < |pages|
    ensures words(Contribution(pages, k)) == PageWordsOf(words, pages[k])
  {
    assert AllSpace("");
  }

  /** A page contributes only whitespace exactly when it raised or is
      blank. */
  lemma ContributionBlank(pages: seq<Option<string>>, k: nat)
    requires k < |pages|
    ensures AllSpace(Contribution(pages, k)) <==> pages[k].None? || AllSpace(pages[k].value)
  {
    match pages[k]
    case None =>
    case Some(t) =>
      if !AllSpace(t) && k < |pages| - 1 {
        AllSpaceConcat(t, "\n");
      }
  }

  /** After `n` pages the joined text holds exactly the words of those
      pages, in order. */
  lemma {:induction false} JoinPrefixWords(words: string -> seq<string>, pages: seq<Option<string>>, n: nat)
    requires SeparatesAtLineBreaks(words)
    requires n <= |pages|
    ensures words(JoinPrefix(pages, n)) == PageWords(words, pages[..n])
  {
    if n == 0 {
      assert AllSpace("");
    } else {
      JoinPrefixWords(words, pages, n - 1);
      JoinPrefixAtLineStart(pages, n - 1);
      ContributionWords(words, pages, n - 1);
      TakeInit(pages, n);
    }
  }

  /** After `n` pages the joined text is blank exactly when none of those
      pages holds text. */
  lemma {:induction false} JoinPrefixBlank(pages: seq<Option<string>>, n: nat)
    requires n <= |pages|
    ensures AllSpace(JoinPrefix(pages, n)) <==> NoTextUpTo(pages, n)
  {
    if n > 0 {
      JoinPrefixBlank(pages, n - 1);
      AllSpaceConcat(JoinPrefix(pages, n - 1), Contribution(pages, n - 1));
      ContributionBlank(pages, n - 1);
    }
  }

  /** A readable document none of whose pages holds text yields the
      sentinel. */
  lemma BlankDocumentSentinel(pages: seq<Option<string>>)
    requires NoText(pages)
    ensures PdfText(Pages(pages)) == NoTextSentinel
  {
    JoinPrefixBlank(pages, |pages|);
  }

  /** What `extract_text_from_pdf` returns for a readable document: the
      sentinel exactly when no page holds text; otherwise the words of all
      pages, in page order, joined by single spaces. */
  lemma PdfTextOfPages(pages: seq<Option<string>>)
    ensures NoText(pages) ==> PdfText(Pages(pages)) == NoTextSentinel
    ensures !NoText(pages) ==> PdfText(Pages(pages)) == JoinSpace(PageWords(Words, pages))
    ensures !NoText(pages) ==> Normalized(PdfText(Pages(pages)))
  {
    var joined := JoinPrefix(pages, |pages|);
    CleanupSeparatesAtLineBreaks();
    JoinPrefixWords(Words, pages, |pages|);
    JoinPrefixBlank(pages, |pages|);
    assert pages[..|pages|] == pages;
    CleanNormalized(joined);
  }

  /** Whatever a reader failure says, the result starts with "Failed to
      extract", the prefix the PDF endpoint rejects. */
  lemma UnreadableMessage(e: string)
    ensures StartsWith(PdfText(Unreadable(e)), "Failed to extract")
  {
    assert (FailurePrefix + e)[..|"Failed to extract"|] == "Failed to extract";
  }

  /** The words of two runs of pages are the words of each, in order. */
  lemma {:induction false} PageWordsAppend(words: string -> seq<string>, xs: seq<Option<string>>, ys: seq<Option<string>>)
    ensures PageWords(words, xs + ys) == PageWords(words, xs) + PageWords(words, ys)
    decreases |ys|
  {
    if ys == [] {
      assert xs + ys == xs;
    } else {
      var ys', last := ys[..|ys| - 1], ys[|ys| - 1];
      calc {
        PageWords(words, xs + ys);
        == { InitOfConcat(xs, ys); }
        PageWords(words, xs + ys') + PageWordsOf(words, last);
        == { PageWordsAppend(words, xs, ys'); }
        PageWords(words, xs) + PageWords(words, ys') + PageWordsOf(words, last);
        == { ConcatAssoc(PageWords(words, xs), PageWords(words, ys'), PageWordsOf(words, last)); }
        PageWords(words, xs) + PageWords(words, ys);
      }
    }
  }

  /** Inserting a page without words leaves the words of a document as
      they were. */
  lemma PageWordsInsertEmpty(words: string -> seq<string>, pages: seq<Option<string>>, i: nat, page: Option<string>)
    requires i <= |pages|
    requires PageWordsOf(words, page) == []
    ensures PageWords(words, pages[..i] + [page] + pages[i..]) == PageWords(words, pages)
  {
    var pre, post := pages[..i], pages[i..];
    assert PageWords(words, [page]) == [] by {
      assert [page][..0] == [];
    }
    PageWordsAppend(words, pre + [page], post);
    PageWordsAppend(words, pre, [page]);
    assert PageWords(words, pre) + [] == PageWords(words, pre);
    PageWordsAppend(words, pre, post);
    SliceSplit(pages, i);
  }

  /** Inserting a page that raised or is blank does not change whether the
      document holds text. */
  lemma NoTextInsert(pages: seq<Option<string>>, i: nat, page: Option<string>)
    requires i <= |pages|
    requires page.Some? ==> AllSpace(page.value)
    ensures NoText(pages[..i] + [page] + pages[i..]) <==> NoText(pages)
  {
    var more := pages[..i] + [page] + pages[i..];
    assert forall j :: 0 <= j < i ==> more[j] == pages[j];
    assert forall j :: i <= j < |pages| ==> more[j + 1] == pages[j];
    assert more[i] == page;
  }

  /** A page whose extraction raised, or whose text is blank, changes
      nothing, wherever it stands in the document. */
  lemma BlankPageIgnored(pages: seq<Option<string>>, i: nat, page: Option<string>)
    requires i <= |pages|
    requires page.Some? ==> AllSpace(page.value)
    ensures PdfText(Pages(pages[..i] + [page] + pages[i..])) == PdfText(Pages(pages))
  {
    var more := pages[..i] + [page] + pages[i..];
    NoTextInsert(pages, i, page);
    CleanupSeparatesAtLineBreaks();
    PageWordsInsertEmpty(Words, pages, i, page);
    PdfTextOfPages(pages);
    PdfTextOfPages(more);
  }

  /** Every page that yields text yields only whitespace once its null
      characters are removed. */
  ghost predicate OnlyNullText(pages: seq<Option<string>>) {
    forall i :: 0 <= i < |pages| && pages[i].Some? ==> AllSpace(RemoveNulls(pages[i].value))
  }

  /** Pages whose text is only nulls and whitespace have no words. */
  lemma {:induction false} OnlyNullTextNoWords(pages: seq<Option<string>>)
    requires OnlyNullText(pages)
    ensures PageWords(Words, pages) == []
    decreases |pages|
  {
    if pages != [] {
      var init := pages[..|pages| - 1];
      assert forall i :: 0 <= i < |init| ==> init[i] == pages[i];
      OnlyNullTextNoWords(init);
      match pages[|pages| - 1]
      case None =>
      case Some(t) => SplitBlank(RemoveNulls(t));
    }
  }

  /** A document whose only text is null characters (with whitespace) is
      not blank to the loop, so it yields no sentinel, yet the cleanup
      leaves nothing: the result is the empty string. */
  lemma NullOnlyText(pages: seq<Option<string>>)
    requires !NoText(pages) && OnlyNullText(pages)
    ensures PdfText(Pages(pages)) == ""
  {
    PdfTextOfPages(pages);
    OnlyNullTextNoWords(pages);
  }
}
