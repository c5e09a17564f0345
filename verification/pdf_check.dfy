/**
  The first screen: deciding from the headers of a HEAD response whether a
  URL serves a PDF (`isPdf`), and the two buttons that record the document
  to open.  The HEAD request itself is an input: the response it produced,
  or `None` when there was no HTTP response.  URL parsing (`URL(string:)`) is
  an input function too.
 */
module PdfCheck {
  import opened Wrappers
  import opened Text
  import opened CacheKey

  /** An HTTP response, reduced to its string-valued header fields. */
  datatype HttpResponse = HttpResponse(headers: map<string, string>)

  const ContentTypeField: string := "Content-Type"
  const ContentDispositionField: string := "Content-Disposition"
  const PdfMediaType: string := "application/pdf"
  const PdfExtension: string := ".pdf"

  /** The fixed document behind the second button. */
  const SampleUrl: string := "https://jp.sharp/support/aquos/doc/lc20f5_mn_exp.pdf"

  /** The state of the first screen: the document to hand to the viewer. */
  datatype Home = Home(pdffile: Option<Url>)

  /** A button handler either finishes or traps on a force-unwrapped `nil`. */
  datatype Outcome = Done(home: Home) | Crash

  /** Header `field` is present and its value contains `part`. */
  ghost predicate HeaderMentions(r: HttpResponse, field: string, part: string) {
    field in r.headers && Occurs(part, r.headers[field])
  }

  /** The headers announce a PDF: by media type, or failing that by file name. */
  ghost predicate ServesPdf(r: HttpResponse) {
    HeaderMentions(r, ContentTypeField, PdfMediaType) || HeaderMentions(r, ContentDispositionField, PdfExtension)
  }

  /**
    The header decision of `isPdf`: no HTTP response is not a PDF; a
    `Content-Type` mentioning the PDF media type is; failing that, a
    `Content-Disposition` mentioning `.pdf` is.
   */
  function IsPdf(response: Option<HttpResponse>): (b: bool)
    ensures response.None? ==> !b
  {
    match response
    case None => false
    case Some(r) =>
      if ContentTypeField in r.headers && Contains(r.headers[ContentTypeField], PdfMediaType) then true
      else if ContentDispositionField in r.headers && Contains(r.headers[ContentDispositionField], PdfExtension) then true
      else false
  }

  /** A response is a PDF exactly when one of the two headers mentions it. */
  lemma IsPdfHeaderDecision(r: HttpResponse)
    ensures IsPdf(Some(r)) <==> ServesPdf(r)
  {
    if ContentTypeField in r.headers {
      ContainsIsOccurs(r.headers[ContentTypeField], PdfMediaType);
    }
    if ContentDispositionField in r.headers {
      ContainsIsOccurs(r.headers[ContentDispositionField], PdfExtension);
    }
  }

  /** A PDF media type decides the question, whatever the disposition says. */
  lemma ContentTypeDecides(r: HttpResponse, disposition: string)
    requires ContentTypeField in r.headers && Occurs(PdfMediaType, r.headers[ContentTypeField])
    ensures IsPdf(Some(r))
    ensures IsPdf(Some(HttpResponse(r.headers[ContentDispositionField := disposition])))
  {
    IsPdfHeaderDecision(r);
    IsPdfHeaderDecision(HttpResponse(r.headers[ContentDispositionField := disposition]));
  }

  /** Without either header, a response is not a PDF. */
  lemma NoHeadersNotPdf(r: HttpResponse)
    requires ContentTypeField !in r.headers && ContentDispositionField !in r.headers
    ensures !IsPdf(Some(r))
  {
    IsPdfHeaderDecision(r);
  }

  /**
    The URL-field button (`actionPDFView`): no text leaves the screen as it
    is; text that is not a URL traps; otherwise the document is the URL when
    the response is a PDF and is cleared when it is not.
   */
  function ActionPDFView(h: Home, text: Option<string>, parse: string -> Option<Url>, head: Option<HttpResponse>): (r: Outcome)
    ensures text.None? ==> r == Done(h)
    ensures text.Some? && parse(text.value).None? ==> r == Crash
    ensures text.Some? && parse(text.value).Some? && IsPdf(head) ==> r == Done(Home(parse(text.value)))
    ensures text.Some? && parse(text.value).Some? && !IsPdf(head) ==> r == Done(Home(None))
  {
    match text
    case None => Done(h)
    case Some(t) =>
      if parse(t).None? then Crash
      else if IsPdf(head) then Done(Home(parse(t)))
      else Done(Home(None))
  }

  /**
    The sample button (`actionPDF1`): records the fixed URL when it serves a
    PDF and otherwise leaves the recorded document unchanged.
   */
  function ActionPDF1(h: Home, parse: string -> Option<Url>, head: Option<HttpResponse>): (r: Outcome)
    ensures parse(SampleUrl).None? ==> r == Crash
    ensures parse(SampleUrl).Some? && IsPdf(head) ==> r == Done(Home(parse(SampleUrl)))
    ensures parse(SampleUrl).Some? && !IsPdf(head) ==> r == Done(h)
  {
    if parse(SampleUrl).None? then Crash
    else if IsPdf(head) then Done(Home(parse(SampleUrl)))
    else Done(h)
  }

  /**
    On a response that is not a PDF the two buttons disagree: the URL field
    clears a previously recorded document, the sample button keeps it.
   */
  lemma ButtonsDisagreeOnNonPdf(u: Url, parse: string -> Option<Url>, head: Option<HttpResponse>)
    requires parse(u).Some? && parse(SampleUrl).Some? && !IsPdf(head)
    ensures ActionPDFView(Home(Some(u)), Some(u), parse, head) == Done(Home(None))
    ensures ActionPDF1(Home(Some(u)), parse, head) == Done(Home(Some(u)))
  {
  }

  /**
    Both buttons follow the headers: for a URL that parses, the URL field
    records it exactly when the headers announce a PDF and clears the
    document otherwise; the sample button records the sample exactly when
    the headers announce a PDF or it was already recorded, and otherwise
    changes nothing.
   */
  lemma ButtonsFollowHeaders(h: Home, t: string, parse: string -> Option<Url>, r: HttpResponse)
    requires parse(t).Some?
    ensures ActionPDFView(h, Some(t), parse, Some(r)) == Done(Home(parse(t))) <==> ServesPdf(r)
    ensures !ServesPdf(r) ==> ActionPDFView(h, Some(t), parse, Some(r)) == Done(Home(None))
    ensures parse(SampleUrl).Some? ==>
      (ActionPDF1(h, parse, Some(r)) == Done(Home(parse(SampleUrl))) <==> ServesPdf(r) || h.pdffile == parse(SampleUrl))
    ensures !ServesPdf(r) ==> ActionPDF1(h, parse, Some(r)) in {Done(h), Crash}
  {
    IsPdfHeaderDecision(r);
  }
}
