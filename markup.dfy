/**
 * What the scraper sees of a parsed page. HTML parsing itself is not modelled:
 * a card or a detail page is given as the element that each `find(tag,
 * class_=...)` call made by the code returns, when it returns one.
 */
module Markup {
  import opened Strings

  /** The arguments of `find(tag, class_=cls)`. */
  datatype Selector = Selector(tag: string, cls: string)

  /** A matched element: its text content and its attributes. */
  datatype Node = Node(text: string, attrs: map<string, string>)

  /** A card or a page: the first element each selector matches, if any. */
  type Doc = map<Selector, Node>

  /** `tag['href']` on an element without that attribute raises `KeyError`,
      which no handler in the scraper catches. */
  datatype ExtractError = MissingHref(sel: Selector)

  datatype Result<T> = Ok(value: T) | Err(error: ExtractError)

  datatype Option<T> = None | Some(value: T)

  /** `tag['href']` would raise on the element `doc.find(sel)`. */
  predicate HrefMissing(doc: Doc, sel: Selector) {
    sel in doc && "href" !in doc[sel].attrs
  }

  /** The sentinel stored for a field whose element is absent. */
  const NA: string := "N/A"

  lemma SentinelIsNormal()
    ensures IsStripped(NA) && Normal(NA) && Normalize(NA) == NA
  {
    assert !IsSpace(NA[0]) && !IsSpace(NA[2]) && !IsSpace(NA[1]);
    NormalIffFixed(NA);
  }

  /** `doc.find(sel).text.strip() if doc.find(sel) else "N/A"` */
  function TextOf(doc: Doc, sel: Selector): (r: string)
    ensures IsStripped(r)
    ensures sel !in doc ==> r == NA
    ensures sel in doc ==> r == Trim(doc[sel].text)
  {
    SentinelIsNormal();
    if sel in doc then Trim(doc[sel].text) else NA
  }

  /** `tag['href'].strip() if tag else "N/A"` where `tag = doc.find(sel)` */
  function HrefOf(doc: Doc, sel: Selector): (r: Result<string>)
    ensures r.Err? <==> HrefMissing(doc, sel)
    ensures r.Err? ==> r.error == MissingHref(sel)
    ensures r.Ok? ==> IsStripped(r.value)
    ensures sel !in doc ==> r == Ok(NA)
    ensures sel in doc && "href" in doc[sel].attrs ==> r == Ok(Trim(doc[sel].attrs["href"]))
  {
    SentinelIsNormal();
    if sel !in doc then Ok(NA)
    else if "href" in doc[sel].attrs then Ok(Trim(doc[sel].attrs["href"]))
    else Err(MissingHref(sel))
  }
}
