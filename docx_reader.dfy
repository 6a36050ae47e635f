/** `DocxReader`: a word-processing document becomes an HTML page showing its
    plain text preformatted, and the plain text itself for copy and share. */
module DocxReader {
  import opened KotlinStd
  import opened HtmlEscape
  import opened DocxTextExtractor

  datatype DocxContent = DocxContent(html: string, plainText: string)

  /** `buildPlainTextHtml`: an empty paragraph for blank text, otherwise the
      escaped text inside `<pre>`. */
  function BuildPlainTextHtml(text: string): string
  {
    if IsBlank(text) then "<p></p>" else "<pre>" + EscapeHtml(text) + "</pre>"
  }

  /** Reads the text back out of a body `BuildPlainTextHtml` produces. */
  function DecodePlainTextHtml(html: string): Option<string>
  {
    if html == "<p></p>" then Some([])
    else if |html| >= 11 && html[..5] == "<pre>" && html[|html| - 6..] == "</pre>" then
      Some(Unescape(html[5..|html| - 6]))
    else None
  }

  lemma DecodePre(html: string, o: string, e: string, c: string)
    requires o == "<pre>" && c == "</pre>"
    requires html == o + e + c
    ensures DecodePlainTextHtml(html) == Some(Unescape(e))
  {
    assert |html| >= 11;
    assert html[..5] == o;
    assert html[|html| - 6..] == c;
    assert html[5..|html| - 6] == e;
  }

  /** Round trip: a blank text renders as an empty paragraph, any other text
      can be read back exactly from the `<pre>` fragment (before `wrap`), and
      the `<pre>` content holds no character that could open a tag or end an
      attribute. */
  lemma PlainTextHtmlRoundTrip(text: string)
    ensures BuildPlainTextHtml(text) == "<p></p>" <==> IsBlank(text)
    ensures DecodePlainTextHtml(BuildPlainTextHtml(text)) == Some(if IsBlank(text) then [] else text)
    ensures !IsBlank(text) ==>
      var html := BuildPlainTextHtml(text);
      |html| >= 11 && NoMarkupChars(html[5..|html| - 6])
  {
    if !IsBlank(text) {
      var e := EscapeHtml(text);
      var html := BuildPlainTextHtml(text);
      DecodePre(html, "<pre>", e, "</pre>");
      assert html[2] == 'r';
      UnescapeEscapeHtml(text);
      EscapeHtmlNoMarkup(text);
      assert html[5..|html| - 6] == e;
    }
  }

  /** `parse`: extracts the text, renders it, wraps the page, and trims the
      plain text. A document the library cannot open throws. */
  method Parse(doc: Outcome<seq<BodyElement>>, wrap: string -> string) returns (result: Outcome<DocxContent>)
    ensures doc.Thrown? <==> result.Thrown?
    ensures doc.Ok? ==>
              result.value == DocxContent(wrap(BuildPlainTextHtml(ExtractedText(doc.value))), Trim(ExtractedText(doc.value)))
  {
    var extracted := Extract(doc);
    if extracted.Thrown? {
      return Thrown;
    }
    var plainText := extracted.value;
    var htmlBody := BuildPlainTextHtml(plainText);
    result := Ok(DocxContent(wrap(htmlBody), Trim(plainText)));
  }

  /** The extracted text already has no trailing whitespace, so the final
      `trim()` only strips leading whitespace. */
  lemma PlainTextTrimsStartOnly(els: seq<BodyElement>)
    ensures Trim(ExtractedText(els)) == TrimStart(ExtractedText(els))
  {
    var t := ExtractedText(els);
    ExtractedTextSpec(els);
    assert TrimEnd(t) == t;
  }

  /** The body fragment is the empty paragraph exactly when the plain text is empty. */
  lemma EmptyPageIffEmptyText(els: seq<BodyElement>)
    ensures BuildPlainTextHtml(ExtractedText(els)) == "<p></p>" <==> Trim(ExtractedText(els)) == []
  {
    var t := ExtractedText(els);
    TrimSpec(t);
    if !IsBlank(t) {
      var html := BuildPlainTextHtml(t);
      assert |html| >= 11;
    }
  }
}
