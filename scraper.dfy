/**
 * The OpenCourseWare scraper: course URLs taken from a search response, the zip download link
 * chosen on each course's download page, and the bookkeeping of links found.
 */
module Scraping {
  import opened Wrappers
  import opened Text

  // ----- The search response ----------------------------------------------------------------

  /** A course run; `slug` is None when the key is missing or null. */
  datatype Run = Run(slug: Option<string>)

  /** A hit's `_source`; `runs` is None when the key is missing. */
  datatype Source = Source(runs: Option<seq<Run>>)

  /** A search hit; `source` is None when `_source` is missing. */
  datatype Hit = Hit(source: Option<Source>)

  /** The top-level `hits` object; its own `hits` list is None when missing. */
  datatype HitsField = HitsField(hits: Option<seq<Hit>>)

  /** The decoded search response; `hits` is None when the key is missing. */
  datatype SearchResponse = SearchResponse(hits: Option<HitsField>)

  /** The runs of a hit (`hit.get("_source", {}).get("runs", [])`). */
  function HitRuns(h: Hit): seq<Run> {
    match h.source
    case None => []
    case Some(src) => if src.runs.Some? then src.runs.value else []
  }

  /** The hits of a response, or nothing when `hits` or `hits.hits` is missing. */
  function ResponseHits(resp: SearchResponse): seq<Hit> {
    match resp.hits
    case None => []
    case Some(hf) => if hf.hits.Some? then hf.hits.value else []
  }

  /** Whether a run yields a course URL: its slug is present and non-empty. */
  predicate HasSlug(r: Run) {
    r.slug.Some? && r.slug.value != []
  }

  /** The URLs of the runs that have a slug, in run order. */
  function RunUrls(host: string, runs: seq<Run>): seq<string> {
    if runs == [] then []
    else
      var n := |runs| - 1;
      RunUrls(host, runs[..n]) + (if HasSlug(runs[n]) then [host + runs[n].slug.value] else [])
  }

  /** The URLs of the hits' runs: hit by hit, and run by run within a hit. */
  function HitsUrls(host: string, hits: seq<Hit>): seq<string> {
    if hits == [] then []
    else
      var n := |hits| - 1;
      HitsUrls(host, hits[..n]) + RunUrls(host, HitRuns(hits[n]))
  }

  /** `_extract_course_urls`. */
  function CourseUrls(host: string, resp: SearchResponse): seq<string> {
    HitsUrls(host, ResponseHits(resp))
  }

  /** All runs of the hits, in hit order and run order. */
  function AllRuns(hits: seq<Hit>): seq<Run> {
    if hits == [] then [] else AllRuns(hits[..|hits| - 1]) + HitRuns(hits[|hits| - 1])
  }

  /** Run URLs of two run lists one after the other are the two URL lists one after the other. */
  lemma {:induction false} RunUrlsAppend(host: string, a: seq<Run>, b: seq<Run>)
    ensures RunUrls(host, a + b) == RunUrls(host, a) + RunUrls(host, b)
    decreases |b|
  {
    if b == [] {
      assert a + b == a;
    } else {
      var n := |b| - 1;
      assert (a + b)[..|a + b| - 1] == a + b[..n];
      RunUrlsAppend(host, a, b[..n]);
    }
  }

  /** The URLs of the hits are the URLs of all their runs taken in order. */
  lemma {:induction false} HitsUrlsFlatten(host: string, hits: seq<Hit>)
    ensures HitsUrls(host, hits) == RunUrls(host, AllRuns(hits))
  {
    if hits != [] {
      var n := |hits| - 1;
      HitsUrlsFlatten(host, hits[..n]);
      RunUrlsAppend(host, AllRuns(hits[..n]), HitRuns(hits[n]));
    }
  }

  /**
   * Every run URL is the host followed by the slug of a run that has one, and there is exactly one
   * URL per such run.
   */
  lemma {:induction false} RunUrlsSpec(host: string, runs: seq<Run>)
    ensures forall u :: u in RunUrls(host, runs) <==>
      exists i :: 0 <= i < |runs| && HasSlug(runs[i]) && u == host + runs[i].slug.value
    ensures |RunUrls(host, runs)| == |set i | 0 <= i < |runs| && HasSlug(runs[i])|
  {
    if runs != [] {
      var n := |runs| - 1;
      var init := runs[..n];
      RunUrlsSpec(host, init);
      forall u ensures u in RunUrls(host, runs) <==>
        exists i :: 0 <= i < |runs| && HasSlug(runs[i]) && u == host + runs[i].slug.value
      {
        if exists i :: 0 <= i < |runs| && HasSlug(runs[i]) && u == host + runs[i].slug.value {
          var i :| 0 <= i < |runs| && HasSlug(runs[i]) && u == host + runs[i].slug.value;
          if i < n {
            assert init[i] == runs[i];
          }
        }
      }
      var before := set i | 0 <= i < n && HasSlug(init[i]);
      assert before == set i | 0 <= i < n && HasSlug(runs[i]);
      if HasSlug(runs[n]) {
        assert (set i | 0 <= i < |runs| && HasSlug(runs[i])) == before + {n};
      } else {
        assert (set i | 0 <= i < |runs| && HasSlug(runs[i])) == before;
      }
    }
  }

  /**
   * The course URLs of a response: one per run with a non-empty slug, each the host followed by that
   * slug; a response lacking `hits` or `hits.hits` gives none.
   */
  lemma CourseUrlsSpec(host: string, resp: SearchResponse)
    ensures CourseUrls(host, resp) == RunUrls(host, AllRuns(ResponseHits(resp)))
    ensures forall u :: u in CourseUrls(host, resp) <==>
      exists r :: r in AllRuns(ResponseHits(resp)) && HasSlug(r) && u == host + r.slug.value
    ensures resp.hits.None? || resp.hits.value.hits.None? ==> CourseUrls(host, resp) == []
  {
    var runs := AllRuns(ResponseHits(resp));
    HitsUrlsFlatten(host, ResponseHits(resp));
    RunUrlsSpec(host, runs);
    forall u ensures u in CourseUrls(host, resp) <==>
      exists r :: r in runs && HasSlug(r) && u == host + r.slug.value
    {
      if exists r :: r in runs && HasSlug(r) && u == host + r.slug.value {
        var r :| r in runs && HasSlug(r) && u == host + r.slug.value;
        var i :| 0 <= i < |runs| && runs[i] == r;
      }
    }
  }

  /** Example: an empty slug and a missing slug are skipped. */
  lemma CourseUrlsExample(host: string)
    ensures CourseUrls(host, SearchResponse(Some(HitsField(Some([
      Hit(Some(Source(Some([Run(Some("courses/2-001")), Run(Some("")), Run(None)])))),
      Hit(None)])))))
      == [host + "courses/2-001"]
  {
    var runs := [Run(Some("courses/2-001")), Run(Some("")), Run(None)];
    assert runs[..2][..1][..0] == [] && runs[..2][..1] == [runs[0]] && runs[..2] == [runs[0], runs[1]];
    assert RunUrls(host, runs[..1]) == [host + "courses/2-001"];
    assert RunUrls(host, runs[..2]) == [host + "courses/2-001"];
    assert RunUrls(host, runs) == [host + "courses/2-001"];
    var hits := [Hit(Some(Source(Some(runs)))), Hit(None)];
    assert hits[..1][..0] == [] && hits[..1] == [hits[0]];
    assert HitsUrls(host, hits[..1]) == RunUrls(host, runs);
  }

  // ----- Choosing the zip link --------------------------------------------------------------

  /** A parsed element: its tag name, its `href` attribute if any, and its text with whitespace stripped. */
  datatype Element = Element(tag: string, href: Option<string>, text: string)

  /** Links found on the page: an absolute href as it is, a root-relative one on the OCW host, anything else under the course URL. */
  function ResolveHref(href: string, baseUrl: string): (r: string)
    ensures EndsWith(r, href)
  {
    if StartsWith(href, "http") then href
    else if StartsWith(href, "/") then
      var r := "https://ocw.mit.edu" + href;
      assert r[|r| - |href|..] == href;
      r
    else
      var r := baseUrl + "/" + href;
      assert r[|r| - |href|..] == href;
      r
  }

  /**
   * A resolved link is absolute when the course URL is: resolving it again, against any base, leaves
   * it as it is.
   */
  lemma ResolveHrefIdempotent(href: string, baseUrl: string, otherBase: string)
    requires StartsWith(baseUrl, "http")
    ensures StartsWith(ResolveHref(href, baseUrl), "http")
    ensures ResolveHref(ResolveHref(href, baseUrl), otherBase) == ResolveHref(href, baseUrl)
  {
    var r := ResolveHref(href, baseUrl);
    if !StartsWith(href, "http") {
      if StartsWith(href, "/") {
        assert r[..4] == "https://ocw.mit.edu"[..4];
      } else {
        assert r[..4] == baseUrl[..4];
      }
    }
  }

  /** Every chosen link contains ".zip" when its href does. */
  lemma ResolveHrefKeepsZip(href: string, baseUrl: string)
    requires Contains(href, ".zip")
    ensures Contains(ResolveHref(href, baseUrl), ".zip")
  {
    var r := ResolveHref(href, baseUrl);
    assert r == r[..|r| - |href|] + href + [];
    ContainsInSuperstring(r[..|r| - |href|], href, [], ".zip");
  }

  /** Strategy 1's test: an `a` or `button` with a ".zip" href whose lower-cased text mentions the download. */
  predicate DownloadButton(e: Element) {
    && (e.tag == "a" || e.tag == "button")
    && e.href.Some? && Contains(e.href.value, ".zip")
    && var text := Lower(e.text);
       Contains(text, "download") || Contains(text, "course") || Contains(text, "zip")
  }

  /** Strategy 3's test: an anchor whose href contains ".zip". */
  predicate ZipAnchor(e: Element) {
    e.tag == "a" && e.href.Some? && Contains(e.href.value, ".zip")
  }

  /** Strategy 1: the first download button in document order, resolved. */
  function FirstDownloadButton(elements: seq<Element>, baseUrl: string): Option<string> {
    if elements == [] then None
    else if DownloadButton(elements[0]) then Some(ResolveHref(elements[0].href.value, baseUrl))
    else FirstDownloadButton(elements[1..], baseUrl)
  }

  /** Strategy 3: the first anchor with a ".zip" href, resolved. */
  function FirstZipAnchor(elements: seq<Element>, baseUrl: string): Option<string> {
    if elements == [] then None
    else if ZipAnchor(elements[0]) then Some(ResolveHref(elements[0].href.value, baseUrl))
    else FirstZipAnchor(elements[1..], baseUrl)
  }

  /**
   * `_extract_zip_download_link`: strategy 1, then strategy 2 (the first ".zip" anchor under the
   * parent of a "download ... course" text, given as `nearDownloadHref`), then strategy 3.
   */
  function ZipLink(elements: seq<Element>, nearDownloadHref: Option<string>, baseUrl: string): Option<string> {
    match FirstDownloadButton(elements, baseUrl)
    case Some(u) => Some(u)
    case None =>
      match nearDownloadHref
      case Some(h) => Some(ResolveHref(h, baseUrl))
      case None => FirstZipAnchor(elements, baseUrl)
  }

  /** Strategy 1 picks the first download button, and finds nothing exactly when there is none. */
  lemma {:induction false} FirstDownloadButtonSpec(elements: seq<Element>, baseUrl: string)
    ensures FirstDownloadButton(elements, baseUrl).None? <==>
      forall i :: 0 <= i < |elements| ==> !DownloadButton(elements[i])
    ensures FirstDownloadButton(elements, baseUrl).Some? ==> exists i ::
      && 0 <= i < |elements| && DownloadButton(elements[i])
      && (forall j :: 0 <= j < i ==> !DownloadButton(elements[j]))
      && FirstDownloadButton(elements, baseUrl).value == ResolveHref(elements[i].href.value, baseUrl)
  {
    if elements != [] && !DownloadButton(elements[0]) {
      var rest := elements[1..];
      FirstDownloadButtonSpec(rest, baseUrl);
      assert forall i :: 0 < i < |elements| ==> elements[i] == rest[i - 1];
      if FirstDownloadButton(rest, baseUrl).Some? {
        var i :| 0 <= i < |rest| && DownloadButton(rest[i])
          && (forall j :: 0 <= j < i ==> !DownloadButton(rest[j]))
          && FirstDownloadButton(rest, baseUrl).value == ResolveHref(rest[i].href.value, baseUrl);
        assert forall j :: 0 < j < i + 1 ==> !DownloadButton(elements[j]);
        assert elements[i + 1] == rest[i];
      }
    }
  }

  /** Strategy 3 picks the first ".zip" anchor, and finds nothing exactly when there is none. */
  lemma {:induction false} FirstZipAnchorSpec(elements: seq<Element>, baseUrl: string)
    ensures FirstZipAnchor(elements, baseUrl).None? <==>
      forall i :: 0 <= i < |elements| ==> !ZipAnchor(elements[i])
    ensures FirstZipAnchor(elements, baseUrl).Some? ==> exists i ::
      && 0 <= i < |elements| && ZipAnchor(elements[i])
      && (forall j :: 0 <= j < i ==> !ZipAnchor(elements[j]))
      && FirstZipAnchor(elements, baseUrl).value == ResolveHref(elements[i].href.value, baseUrl)
  {
    if elements != [] && !ZipAnchor(elements[0]) {
      var rest := elements[1..];
      FirstZipAnchorSpec(rest, baseUrl);
      assert forall i :: 0 < i < |elements| ==> elements[i] == rest[i - 1];
      if FirstZipAnchor(rest, baseUrl).Some? {
        var i :| 0 <= i < |rest| && ZipAnchor(rest[i])
          && (forall j :: 0 <= j < i ==> !ZipAnchor(rest[j]))
          && FirstZipAnchor(rest, baseUrl).value == ResolveHref(rest[i].href.value, baseUrl);
        assert forall j :: 0 < j < i + 1 ==> !ZipAnchor(elements[j]);
        assert elements[i + 1] == rest[i];
      }
    }
  }

  /**
   * The strategies in order: a download button wins; failing that, strategy 2's href; failing that,
   * a ".zip" anchor; nothing is found only when all three fail. Every link found contains ".zip".
   */
  lemma ZipLinkSpec(elements: seq<Element>, nearDownloadHref: Option<string>, baseUrl: string)
    requires nearDownloadHref.Some? ==> Contains(nearDownloadHref.value, ".zip")
    ensures ZipLink(elements, nearDownloadHref, baseUrl).None? <==>
      && (forall i :: 0 <= i < |elements| ==> !DownloadButton(elements[i]))
      && nearDownloadHref.None?
      && (forall i :: 0 <= i < |elements| ==> !ZipAnchor(elements[i]))
    ensures (exists i :: 0 <= i < |elements| && DownloadButton(elements[i])) ==>
      ZipLink(elements, nearDownloadHref, baseUrl) == FirstDownloadButton(elements, baseUrl)
    ensures ZipLink(elements, nearDownloadHref, baseUrl).Some? ==>
      Contains(ZipLink(elements, nearDownloadHref, baseUrl).value, ".zip")
  {
    FirstDownloadButtonSpec(elements, baseUrl);
    FirstZipAnchorSpec(elements, baseUrl);
    match FirstDownloadButton(elements, baseUrl)
    case Some(u) =>
      var i :| 0 <= i < |elements| && DownloadButton(elements[i])
        && u == ResolveHref(elements[i].href.value, baseUrl);
      ResolveHrefKeepsZip(elements[i].href.value, baseUrl);
    case None =>
      if nearDownloadHref.Some? {
        ResolveHrefKeepsZip(nearDownloadHref.value, baseUrl);
      } else if FirstZipAnchor(elements, baseUrl).Some? {
        var i :| 0 <= i < |elements| && ZipAnchor(elements[i])
          && FirstZipAnchor(elements, baseUrl).value == ResolveHref(elements[i].href.value, baseUrl);
        ResolveHrefKeepsZip(elements[i].href.value, baseUrl);
      }
  }

  /** Example: a relative zip href behind a "Download course" button resolves under the course URL. */
  lemma ZipLinkExample(course: string, text: string)
    requires course == "https://ocw.mit.edu/courses/2-001" && text == "Download course"
    ensures ZipLink([Element("a", Some("2-001.zip"), text)], None, course)
         == Some("https://ocw.mit.edu/courses/2-001/2-001.zip")
  {
    var e := Element("a", Some("2-001.zip"), text);
    assert OccursAt("2-001.zip", ".zip", 5);
    ContainsIff("2-001.zip", ".zip");
    assert Lower(text)[..8] == "download";
    assert OccursAt(Lower(text), "download", 0);
    ContainsIff(Lower(text), "download");
    assert DownloadButton(e);
    assert "2-001.zip"[..4][0] == '2' && "2-001.zip"[..1][0] == '2';
    assert !StartsWith("2-001.zip", "http") && !StartsWith("2-001.zip", "/");
    assert ResolveHref("2-001.zip", course) == course + "/" + "2-001.zip";
    assert FirstDownloadButton([e], course) == Some(course + "/" + "2-001.zip");
    assert course + "/" + "2-001.zip" == "https://ocw.mit.edu/courses/2-001/2-001.zip";
  }

  // ----- The scraper ------------------------------------------------------------------------

  /** A fetched download page: its HTTP status, its parsed elements and strategy 2's href. */
  datatype DownloadPage = DownloadPage(status: int, elements: seq<Element>, nearDownloadHref: Option<string>)

  /** The address of a course's download page. */
  function DownloadPageUrl(courseUrl: string): string {
    courseUrl + "/download"
  }

  /** The zip link found on a course's download page. */
  function LinkFor(courseUrl: string, fetch: string -> DownloadPage): Option<string> {
    var page := fetch(DownloadPageUrl(courseUrl));
    ZipLink(page.elements, page.nearDownloadHref, courseUrl)
  }

  /** The pages of these courses all came back with status 200. */
  predicate AllPagesOk(courseUrls: seq<string>, fetch: string -> DownloadPage) {
    forall i :: 0 <= i < |courseUrls| ==> fetch(DownloadPageUrl(courseUrls[i])).status == 200
  }

  /** The (course URL, zip URL) pairs for the courses whose page held a zip link, in course order. */
  function FoundLinks(courseUrls: seq<string>, fetch: string -> DownloadPage): seq<(string, string)> {
    if courseUrls == [] then []
    else
      var n := |courseUrls| - 1;
      var c := courseUrls[n];
      FoundLinks(courseUrls[..n], fetch) + (if LinkFor(c, fetch).Some? then [(c, LinkFor(c, fetch).value)] else [])
  }

  /** The zip URLs of the pairs, in order. */
  function ZipUrls(links: seq<(string, string)>): (r: seq<string>)
    ensures |r| == |links| && forall i :: 0 <= i < |r| ==> r[i] == links[i].1
  {
    seq(|links|, i requires 0 <= i < |links| => links[i].1)
  }

  /** Each found pair is a scraped course with the link found on its page; at most one pair per course. */
  lemma {:induction false} FoundLinksSpec(courseUrls: seq<string>, fetch: string -> DownloadPage)
    ensures |FoundLinks(courseUrls, fetch)| <= |courseUrls|
    ensures forall p :: p in FoundLinks(courseUrls, fetch) ==> p.0 in courseUrls && LinkFor(p.0, fetch) == Some(p.1)
    ensures forall c :: c in courseUrls && LinkFor(c, fetch).Some? ==> (c, LinkFor(c, fetch).value) in FoundLinks(courseUrls, fetch)
  {
    if courseUrls != [] {
      var n := |courseUrls| - 1;
      FoundLinksSpec(courseUrls[..n], fetch);
      assert forall c :: c in courseUrls ==> c in courseUrls[..n] || c == courseUrls[n];
    }
  }

  /** One more course: its page joins the status check, and its pair (if any) the found links. */
  lemma ScrapeStep(courseUrls: seq<string>, fetch: string -> DownloadPage, i: nat)
    requires i < |courseUrls|
    ensures var c := courseUrls[i];
      && (AllPagesOk(courseUrls[..i + 1], fetch) <==>
          AllPagesOk(courseUrls[..i], fetch) && fetch(DownloadPageUrl(c)).status == 200)
      && FoundLinks(courseUrls[..i + 1], fetch) ==
         FoundLinks(courseUrls[..i], fetch) + (if LinkFor(c, fetch).Some? then [(c, LinkFor(c, fetch).value)] else [])
      && ZipUrls(FoundLinks(courseUrls[..i + 1], fetch)) ==
         ZipUrls(FoundLinks(courseUrls[..i], fetch)) + (if LinkFor(c, fetch).Some? then [LinkFor(c, fetch).value] else [])
  {
    assert courseUrls[..i + 1][..i] == courseUrls[..i];
    assert forall k :: 0 <= k < i ==> courseUrls[..i + 1][k] == courseUrls[..i][k];
  }

  class Scraper {
    const host: string
    const apiUrl: string
    /** The (course URL, zip URL) pairs found so far. */
    var urls: seq<(string, string)>
    var downloadPagesScraped: nat

    constructor()
      ensures host == "https://ocw.mit.edu/" && apiUrl == "https://open.mit.edu/api/v0/search/"
      ensures urls == [] && downloadPagesScraped == 0
    {
      host := "https://ocw.mit.edu/";
      apiUrl := "https://open.mit.edu/api/v0/search/";
      urls := [];
      downloadPagesScraped := 0;
    }

    /** `_extract_course_urls`: the nested loop over hits and their runs. */
    method ExtractCourseUrls(resp: SearchResponse) returns (found: seq<string>)
      ensures found == CourseUrls(host, resp)
    {
      found := [];
      if resp.hits.None? || resp.hits.value.hits.None? {
        return;
      }
      var hits := resp.hits.value.hits.value;
      var i := 0;
      while i < |hits|
        invariant 0 <= i <= |hits|
        invariant found == HitsUrls(host, hits[..i])
      {
        var runs := HitRuns(hits[i]);
        ghost var before := found;
        var j := 0;
        while j < |runs|
          invariant 0 <= j <= |runs|
          invariant found == before + RunUrls(host, runs[..j])
        {
          var slug := runs[j].slug;
          if slug.Some? && slug.value != [] {
            found := found + [host + slug.value];
          }
          assert runs[..j + 1][..j] == runs[..j];
          j := j + 1;
        }
        assert runs[..j] == runs;
        assert hits[..i + 1][..i] == hits[..i];
        i := i + 1;
      }
      assert hits[..i] == hits;
    }

    /**
     * `_extract_zip_download_link`: strategy 1 scans the elements in document order and returns at the
     * first download button; then strategies 2 and 3.
     */
    method ExtractZipDownloadLink(page: DownloadPage, baseUrl: string) returns (link: Option<string>)
      ensures link == ZipLink(page.elements, page.nearDownloadHref, baseUrl)
    {
      var elements := page.elements;
      var i := 0;
      while i < |elements|
        invariant 0 <= i <= |elements|
        invariant FirstDownloadButton(elements, baseUrl) == FirstDownloadButton(elements[i..], baseUrl)
      {
        var e := elements[i];
        assert elements[i..][0] == e && elements[i..][1..] == elements[i + 1..];
        if (e.tag == "a" || e.tag == "button") && e.href.Some? {
          var href := e.href.value;
          var text := Lower(e.text);
          if Contains(href, ".zip") {
            if Contains(text, "download") || Contains(text, "course") || Contains(text, "zip") {
              if StartsWith(href, "http") {
                return Some(href);
              } else if StartsWith(href, "/") {
                return Some("https://ocw.mit.edu" + href);
              } else {
                return Some(baseUrl + "/" + href);
              }
            }
          }
        }
        i := i + 1;
      }
      if page.nearDownloadHref.Some? {
        return Some(ResolveHref(page.nearDownloadHref.value, baseUrl));
      }
      link := FirstZipAnchor(elements, baseUrl);
    }

    /**
     * `_scrape_download_links`: each course's download page is fetched in turn; a page with status 200
     * counts as scraped and, when it holds a zip link, adds the pair to `urls` and the link to the
     * result; the first page with another status raises, keeping what was recorded before it.
     */
    method ScrapeDownloadLinks(courseUrls: seq<string>, fetch: string -> DownloadPage)
      returns (r: Result<seq<string>>)
      modifies this`urls, this`downloadPagesScraped
      ensures r.Ok? <==> AllPagesOk(courseUrls, fetch)
      ensures r.Ok? ==>
        && urls == old(urls) + FoundLinks(courseUrls, fetch)
        && downloadPagesScraped == old(downloadPagesScraped) + |courseUrls|
        && r.value == ZipUrls(FoundLinks(courseUrls, fetch))
      ensures r.Raised? ==> exists k ::
        && 0 <= k < |courseUrls|
        && AllPagesOk(courseUrls[..k], fetch)
        && fetch(DownloadPageUrl(courseUrls[k])).status != 200
        && urls == old(urls) + FoundLinks(courseUrls[..k], fetch)
        && downloadPagesScraped == old(downloadPagesScraped) + k
        && r.message == "Bad response when looking up download page: " + DownloadPageUrl(courseUrls[k])
    {
      if courseUrls == [] {
        return Ok([]);
      }
      var zipUrls := [];
      var i := 0;
      while i < |courseUrls|
        invariant 0 <= i <= |courseUrls|
        invariant AllPagesOk(courseUrls[..i], fetch)
        invariant urls == old(urls) + FoundLinks(courseUrls[..i], fetch)
        invariant downloadPagesScraped == old(downloadPagesScraped) + i
        invariant zipUrls == ZipUrls(FoundLinks(courseUrls[..i], fetch))
      {
        var courseUrl := courseUrls[i];
        var downloadPage := courseUrl + "/download";
        var response := fetch(downloadPage);
        ScrapeStep(courseUrls, fetch, i);
        if response.status == 200 {
          downloadPagesScraped := downloadPagesScraped + 1;
          var zipDownloadUrl := ExtractZipDownloadLink(response, courseUrl);
          if zipDownloadUrl.Some? {
            zipUrls := zipUrls + [zipDownloadUrl.value];
            urls := urls + [(courseUrl, zipDownloadUrl.value)];
          }
        } else {
          return Raised("Bad response when looking up download page: " + downloadPage);
        }
        i := i + 1;
      }
      assert courseUrls[..i] == courseUrls;
      r := Ok(zipUrls);
    }

    /**
     * `scrape`: a failed or empty search raises; a search with no course URLs ends without scraping;
     * otherwise the download links are scraped (and a bad download page raises). `search` is the
     * decoded search response, None when the request failed or gave nothing.
     */
    method Scrape(search: Option<SearchResponse>, fetch: string -> DownloadPage) returns (r: Outcome)
      modifies this`urls, this`downloadPagesScraped
      ensures r.Pass? <==> search.Some? && AllPagesOk(CourseUrls(host, search.value), fetch)
      ensures search.None? ==>
        r == Fail("Fetching courses failed.") && urls == old(urls) && downloadPagesScraped == old(downloadPagesScraped)
      ensures search.Some? && CourseUrls(host, search.value) == [] ==>
        r == Pass && urls == old(urls) && downloadPagesScraped == old(downloadPagesScraped)
      ensures search.Some? && AllPagesOk(CourseUrls(host, search.value), fetch) ==>
        && r == Pass
        && urls == old(urls) + FoundLinks(CourseUrls(host, search.value), fetch)
        && downloadPagesScraped == old(downloadPagesScraped) + |CourseUrls(host, search.value)|
      ensures search.Some? && !AllPagesOk(CourseUrls(host, search.value), fetch) ==>
        var cs := CourseUrls(host, search.value);
        exists k ::
          && 0 <= k < |cs|
          && AllPagesOk(cs[..k], fetch)
          && fetch(DownloadPageUrl(cs[k])).status != 200
          && r == Fail("Bad response when looking up download page: " + DownloadPageUrl(cs[k]))
          && urls == old(urls) + FoundLinks(cs[..k], fetch)
          && downloadPagesScraped == old(downloadPagesScraped) + k
    {
      if search.None? {
        return Fail("Fetching courses failed.");
      }
      var courseUrls := ExtractCourseUrls(search.value);
      if courseUrls == [] {
        return Pass;
      }
      var links := ScrapeDownloadLinks(courseUrls, fetch);
      if links.Raised? {
        return Fail(links.message);
      }
      r := Pass;
    }
  }
}
