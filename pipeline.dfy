/**
 * The course-processing pipeline: it runs the scraper, then processes every (course URL, zip URL)
 * pair it found, counting successes and failures and listing the courses that failed.
 */
module Pipelines {
  import opened Wrappers
  import opened Scraping

  /** `pipeline_stats`: the two timestamps (None until set) and the three counters. */
  datatype Stats = Stats(startTime: Option<string>, endTime: Option<string>, totalCourses: nat, successful: nat, failed: nat)

  /** How many of the first `n` courses were processed successfully (`succeeds(i)` for the course at `i`). */
  function SuccessCount(n: nat, succeeds: nat -> bool): nat {
    if n == 0 then 0 else SuccessCount(n - 1, succeeds) + (if succeeds(n - 1) then 1 else 0)
  }

  /** The course URLs of the payloads whose processing failed, in order. */
  function FailedUrls(payloads: seq<(string, string)>, succeeds: nat -> bool): seq<string> {
    if payloads == [] then []
    else
      var n := |payloads| - 1;
      FailedUrls(payloads[..n], succeeds) + (if succeeds(n) then [] else [payloads[n].0])
  }

  /**
   * Every course counts once: the successes and the failures add up to the number of courses, and
   * each failure lists a failed course's URL.
   */
  lemma {:induction false} OutcomesPartition(payloads: seq<(string, string)>, succeeds: nat -> bool)
    ensures SuccessCount(|payloads|, succeeds) + |FailedUrls(payloads, succeeds)| == |payloads|
    ensures forall u :: u in FailedUrls(payloads, succeeds) ==>
      exists i :: 0 <= i < |payloads| && !succeeds(i) && payloads[i].0 == u
  {
    if payloads != [] {
      var n := |payloads| - 1;
      OutcomesPartition(payloads[..n], succeeds);
      forall u | u in FailedUrls(payloads, succeeds)
        ensures exists i :: 0 <= i < |payloads| && !succeeds(i) && payloads[i].0 == u
      {
        if u in FailedUrls(payloads[..n], succeeds) {
          var i :| 0 <= i < n && !succeeds(i) && payloads[..n][i].0 == u;
          assert payloads[i] == payloads[..n][i];
        }
      }
    }
  }

  /** A failing course does not stop the others: every failed course's URL is listed. */
  lemma {:induction false} FailuresListed(payloads: seq<(string, string)>, succeeds: nat -> bool, i: nat)
    requires i < |payloads| && !succeeds(i)
    ensures payloads[i].0 in FailedUrls(payloads, succeeds)
  {
    var n := |payloads| - 1;
    if i < n {
      FailuresListed(payloads[..n], succeeds, i);
    }
  }

  class OpenCourseWarePipeline {
    const scraper: Scraper
    var failedCourses: seq<string>
    var stats: Stats

    constructor()
      ensures fresh(scraper) && scraper.urls == [] && scraper.downloadPagesScraped == 0
      ensures scraper.host == "https://ocw.mit.edu/"
      ensures failedCourses == [] && stats == Stats(None, None, 0, 0, 0)
    {
      scraper := new Scraper();
      failedCourses := [];
      stats := Stats(None, None, 0, 0, 0);
    }

    /**
     * `_async_run_pipeline`. The clock readings at entry and in `finally` are `startStamp` and
     * `endStamp`; `search` and `fetch` are what the scraper's requests return; `succeeds(i)` says
     * whether the course at position `i` of the scraper's list was downloaded and saved.
     */
    method RunPipeline(search: Option<SearchResponse>, fetch: string -> DownloadPage, succeeds: nat -> bool,
                       startStamp: string, endStamp: string) returns (r: Result<Stats>)
      modifies this`stats, this`failedCourses, scraper`urls, scraper`downloadPagesScraped
      ensures stats.startTime == Some(startStamp) && stats.endTime == Some(endStamp)
      ensures r.Ok? <==>
        && search.Some? && AllPagesOk(CourseUrls(scraper.host, search.value), fetch)
        && scraper.urls != []
      ensures search.None? ==> r == Raised("Fetching courses failed.")
      ensures search.Some? && AllPagesOk(CourseUrls(scraper.host, search.value), fetch) && scraper.urls == [] ==>
        r == Raised("No scraper URLs found")
      ensures search.Some? && !AllPagesOk(CourseUrls(scraper.host, search.value), fetch) ==>
        var cs := CourseUrls(scraper.host, search.value);
        exists k ::
          && 0 <= k < |cs|
          && AllPagesOk(cs[..k], fetch)
          && fetch(DownloadPageUrl(cs[k])).status != 200
          && r == Raised("Bad response when looking up download page: " + DownloadPageUrl(cs[k]))
          && scraper.urls == old(scraper.urls) + FoundLinks(cs[..k], fetch)
      ensures r.Raised? ==>
        && failedCourses == old(failedCourses) && stats.totalCourses == old(stats.totalCourses)
        && stats.successful == old(stats.successful) && stats.failed == old(stats.failed)
      ensures r.Ok? ==>
        && r.value == stats
        && stats.totalCourses == |scraper.urls|
        && stats.successful == old(stats.successful) + SuccessCount(|scraper.urls|, succeeds)
        && stats.failed == old(stats.failed) + |FailedUrls(scraper.urls, succeeds)|
        && failedCourses == old(failedCourses) + FailedUrls(scraper.urls, succeeds)
      ensures r.Ok? && old(stats.successful) == 0 && old(stats.failed) == 0 && old(failedCourses) == [] ==>
        && stats.successful + stats.failed == stats.totalCourses
        && |failedCourses| == stats.failed
    {
      stats := stats.(startTime := Some(startStamp));
      var scraped := scraper.Scrape(search, fetch);
      if scraped.Fail? {
        stats := stats.(endTime := Some(endStamp));
        return Raised(scraped.message);
      }
      if scraper.urls == [] {
        stats := stats.(endTime := Some(endStamp));
        return Raised("No scraper URLs found");
      }
      assert search.Some? && AllPagesOk(CourseUrls(scraper.host, search.value), fetch);
      stats := stats.(totalCourses := |scraper.urls|);
      ProcessCourses(scraper.urls, succeeds);
      OutcomesPartition(scraper.urls, succeeds);
      stats := stats.(endTime := Some(endStamp));
      r := Ok(stats);
    }

    /**
     * The `for payload in self.scraper.urls` loop: each course either adds one to `successful`, or
     * has its URL appended to `failedCourses` and adds one to `failed`; nothing else changes.
     */
    method ProcessCourses(payloads: seq<(string, string)>, succeeds: nat -> bool)
      modifies this`stats, this`failedCourses
      ensures stats == old(stats).(successful := old(stats.successful) + SuccessCount(|payloads|, succeeds),
                                  failed := old(stats.failed) + |FailedUrls(payloads, succeeds)|)
      ensures failedCourses == old(failedCourses) + FailedUrls(payloads, succeeds)
    {
      var i := 0;
      while i < |payloads|
        invariant 0 <= i <= |payloads|
        invariant stats == old(stats).(successful := old(stats.successful) + SuccessCount(i, succeeds),
                                       failed := old(stats.failed) + |FailedUrls(payloads[..i], succeeds)|)
        invariant failedCourses == old(failedCourses) + FailedUrls(payloads[..i], succeeds)
      {
        assert payloads[..i + 1][..i] == payloads[..i];
        if succeeds(i) {
          stats := stats.(successful := stats.successful + 1);
        } else {
          failedCourses := failedCourses + [payloads[i].0];
          stats := stats.(failed := stats.failed + 1);
        }
        i := i + 1;
      }
      assert payloads[..i] == payloads;
    }
  }
}
