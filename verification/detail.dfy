/**
 The detail-page step `scrape_khutbah`: a failed fetch or any missing element
 gives no record; otherwise the record is assembled from the elements' texts,
 with the date found by `Dates.ExtractDate` and an empty mosque.
 */
module Detail {
  import opened Wrappers
  import opened Dates

  /** The record built for one sermon page. */
  datatype Khutbah = Khutbah(title: string, speaker: string, date: string, mosque: string, text: string)

  /**
   The four elements the page is searched for, each given by the text the
   HTML parser extracts from it (`None` when `find` returns nothing):
   `h1#title` and `a#author-name` stripped, `span#date` stripped and joined
   with spaces, `div#body` as is.
   */
  datatype Located = Located(title: Option<string>, speaker: Option<string>, dateText: Option<string>, body: Option<string>)

  /** The HTML parser: page markup to the four located elements. */
  type Locator = string -> Located

  predicate AllPresent(loc: Located) {
    loc.title.Some? && loc.speaker.Some? && loc.dateText.Some? && loc.body.Some?
  }

  /** Record assembly and validity gate. */
  function Assemble(loc: Located): (r: Option<Khutbah>)
    ensures r.None? <==> !AllPresent(loc)
    ensures r.Some? ==>
      && r.value.title == loc.title.value
      && r.value.speaker == loc.speaker.value
      && r.value.text == loc.body.value
      && r.value.mosque == ""
      && IsDateShape(r.value.date)
  {
    if !AllPresent(loc) then None
    else Some(Khutbah(loc.title.value, loc.speaker.value, ExtractDate(loc.dateText.value), "", loc.body.value))
  }

  /** The record's date is the one the date step finds in the date element's text. */
  lemma AssembledDate(loc: Located)
    requires AllPresent(loc)
    ensures Assemble(loc).value.date == ExtractDate(loc.dateText.value)
    ensures (forall j: nat :: !DateAt(loc.dateText.value, j)) ==> Assemble(loc).value.date == Epoch
  {
  }

  /** `scrape_khutbah(url)` given the fetched page (`None` when the request failed). */
  function ScrapeKhutbah(page: Option<string>, locate: Locator): (r: Option<Khutbah>)
    ensures page.None? ==> r.None?
    ensures page.Some? ==> (r.None? <==> !AllPresent(locate(page.value)))
    ensures r.Some? ==> r.value.mosque == "" && IsDateShape(r.value.date)
  {
    match page
    case None => None
    case Some(html) => Assemble(locate(html))
  }
}
