/**
 * The uploaded regulatory document: the text extracted from its pages and the
 * short preview shown under the upload widget.
 */
module Document {
  import opened Wrappers
  import opened Text

  /** What `page.extract_text()` returned for one page; `None` when it gave nothing. */
  type PageExtract = Option<string>

  /** `page.extract_text() or ""`: a page without text counts as the empty string. */
  function PageText(page: PageExtract): (r: string)
    ensures page.None? ==> r == ""
    ensures page.Some? ==> r == page.value
  {
    page.GetOr("")
  }

  /** The page texts, in page order. */
  function PageTexts(pages: seq<PageExtract>): (r: seq<string>)
    ensures |r| == |pages|
    ensures forall i :: 0 <= i < |pages| ==> r[i] == PageText(pages[i])
  {
    seq(|pages|, i requires 0 <= i < |pages| => PageText(pages[i]))
  }

  /**
   * `read_pdf_file`: the page texts joined by newlines. Its layout, page by
   * page, is stated by `DocumentTextLayout`.
   */
  function DocumentText(pages: seq<PageExtract>): (r: string)
    ensures |r| == TotalLength(PageTexts(pages)) + SeparatorCount(|pages|)
    ensures |pages| == 0 ==> r == ""
  {
    Join("\n", PageTexts(pages))
  }

  /** Where page `i` starts in the document text. */
  function PageOffset(pages: seq<PageExtract>, i: nat): nat
    requires i <= |pages|
  {
    Offset("\n", PageTexts(pages), i)
  }

  /**
   * The document text is laid out page by page: page `i` sits verbatim at
   * `PageOffset(pages, i)` and exactly one newline follows every page but the
   * last, so `n` pages write `n - 1` newlines of their own.
   */
  lemma DocumentTextLayout(pages: seq<PageExtract>, i: nat)
    requires i < |pages|
    ensures |DocumentText(pages)| == TotalLength(PageTexts(pages)) + SeparatorCount(|pages|)
    ensures PageOffset(pages, i) + |PageText(pages[i])| <= |DocumentText(pages)|
    ensures DocumentText(pages)[PageOffset(pages, i)..PageOffset(pages, i) + |PageText(pages[i])|]
         == PageText(pages[i])
    ensures i + 1 < |pages| ==>
      PageOffset(pages, i) + |PageText(pages[i])| < |DocumentText(pages)| &&
      DocumentText(pages)[PageOffset(pages, i) + |PageText(pages[i])|] == '\n'
  {
    var texts := PageTexts(pages);
    JoinLayout("\n", texts, i);
    var o := PageOffset(pages, i) + |texts[i]|;
    if i + 1 < |pages| {
      assert DocumentText(pages)[o..o + 1] == "\n";
      assert DocumentText(pages)[o] == DocumentText(pages)[o..o + 1][0];
    }
  }

  /** No pages give the empty document; one page gives exactly that page's text. */
  lemma DocumentTextSmall(pages: seq<PageExtract>)
    ensures |pages| == 0 ==> DocumentText(pages) == ""
    ensures |pages| == 1 ==> DocumentText(pages) == PageText(pages[0])
  {
  }

  /** A document with one more page gains one newline and that page's text. */
  lemma DocumentTextAddPage(pages: seq<PageExtract>, page: PageExtract)
    requires pages != []
    ensures DocumentText(pages + [page]) == DocumentText(pages) + "\n" + PageText(page)
  {
    assert PageTexts(pages + [page]) == PageTexts(pages) + [PageText(page)];
    JoinSnoc("\n", PageTexts(pages), PageText(page));
  }

  // ---------------------------------------------------------------------
  // Preview
  // ---------------------------------------------------------------------

  /** The number of characters of the document shown in the preview. */
  const PreviewLimit: nat := 1000

  /** The marker appended when the preview cuts the document short. */
  const Ellipsis: string := "..."

  function Min(a: nat, b: nat): nat {
    if a <= b then a else b
  }

  /**
   * `text[:1000] + ("..." if len(text) > 1000 else "")`: the preview starts
   * with the first (at most) 1000 characters of the text and ends with the
   * marker exactly when the text is longer than that.
   */
  function Preview(text: string): (r: string)
    ensures |r| <= PreviewLimit + |Ellipsis|
    ensures |r| == Min(|text|, PreviewLimit) + (if |text| > PreviewLimit then |Ellipsis| else 0)
    ensures r[..Min(|text|, PreviewLimit)] == text[..Min(|text|, PreviewLimit)]
    ensures |text| > PreviewLimit <==> r[Min(|text|, PreviewLimit)..] == Ellipsis
    ensures |text| <= PreviewLimit ==> r == text
  {
    (if |text| <= PreviewLimit then text else text[..PreviewLimit])
      + (if |text| > PreviewLimit then Ellipsis else "")
  }

  /** The preview of a preview is the preview: a long text's preview is already cut and marked. */
  lemma PreviewIdempotent(text: string)
    ensures Preview(Preview(text)) == Preview(text)
  {
    var p := Preview(text);
    if |text| > PreviewLimit {
      assert p[..PreviewLimit] == text[..PreviewLimit];
      assert Preview(p) == p[..PreviewLimit] + Ellipsis;
      assert p == p[..PreviewLimit] + p[PreviewLimit..];
    }
  }

  /** Texts that agree on their first 1000 characters and are both long have the same preview. */
  lemma PreviewSeesOnlyTheStart(a: string, b: string)
    requires |a| > PreviewLimit && |b| > PreviewLimit
    requires a[..PreviewLimit] == b[..PreviewLimit]
    ensures Preview(a) == Preview(b)
  {
    var pa, pb := Preview(a), Preview(b);
    assert pa == pa[..PreviewLimit] + pa[PreviewLimit..];
    assert pb == pb[..PreviewLimit] + pb[PreviewLimit..];
  }

  // ---------------------------------------------------------------------
  // Loading the upload
  // ---------------------------------------------------------------------

  /**
   * The sidebar upload: no file, a file whose reading raised an exception,
   * or the text extracted from each page of a readable file.
   */
  datatype Upload = NoFile | Unreadable | Readable(pages: seq<PageExtract>)

  /** The document text the analysis sees and the preview shown, if any. */
  datatype Loaded = Loaded(text: string, preview: Option<string>)

  /**
   * The top-level loading step: `pdf_text` starts empty and is replaced by the
   * joined page texts only when reading succeeds; the preview is shown only then.
   */
  function Load(upload: Upload): (r: Loaded)
    ensures !upload.Readable? ==> r.text == "" && r.preview == None
    ensures upload.Readable? ==>
      r.text == DocumentText(upload.pages) && r.preview == Some(Preview(r.text))
  {
    match upload
    case NoFile => Loaded("", None)
    case Unreadable => Loaded("", None)
    case Readable(pages) =>
      var text := DocumentText(pages);
      Loaded(text, Some(Preview(text)))
  }
}
