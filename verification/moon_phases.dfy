/**
  The scraper object: the request cookies it sends and the worksheet it
  accumulates. The browser visit, the HTTP requests and the HTML parsing are
  outside the model: the cookie jar the browser ends with and the page each
  year's request yields are given as parameters.
*/
module Scraper {
  import opened Lines
  import opened Records
  import opened Table
  import opened Session
  import opened Tasks

  /**
    What the worker pool returns: one record list per year task, in task
    order, each with one non-empty record per full run of cells of that
    year's page.
  */
  function YearResults(years: seq<int>, cookies: map<string, string>,
                       fetch: (int, map<string, string>) -> Page): (results: seq<seq<Record>>)
    ensures |results| == |years|
    ensures forall i :: 0 <= i < |years| ==>
              |results[i]| == |fetch(years[i], cookies).cells| / |Split(fetch(years[i], cookies).headerRow, NEW_LINE)|
    ensures forall i, k :: 0 <= i < |results| && 0 <= k < |results[i]| ==> results[i][k] != map[]
  {
    seq(|years|, i requires 0 <= i < |years| => Scrape(fetch(years[i], cookies)))
  }

  /**
    Every row the run merges has at least one column, so the merged worksheet
    is empty exactly when it has no rows.
  */
  lemma MergedRowsNonEmpty(years: seq<int>, cookies: map<string, string>,
                           fetch: (int, map<string, string>) -> Page, row: Record)
    requires row in Concat(YearResults(years, cookies, fetch))
    ensures row != map[]
  {
    var results := YearResults(years, cookies, fetch);
    ConcatMember(results, row);
    var i :| 0 <= i < |results| && row in results[i];
    var k :| 0 <= k < |results[i]| && results[i][k] == row;
  }

  class MoonPhases {
    /** The cookies sent with every data request. */
    var cookies: map<string, string>
    /** The merged result table, one record per row. */
    var worksheet: seq<Record>
    /** The last year to scrape (the clock is not modelled). */
    const currentYear: int

    constructor (currentYear: int)
      ensures this.currentYear == currentYear
      ensures cookies == INITIAL_COOKIES
      ensures worksheet == []
    {
      this.currentYear := currentYear;
      cookies := INITIAL_COOKIES;
      worksheet := [];
    }

    /** Walks the jar and stores the value of the first cookie named "session", then stops. */
    method AdoptSessionCookie(jar: seq<Cookie>)
      modifies this
      ensures cookies == AdoptSession(old(cookies), jar)
      ensures worksheet == old(worksheet)
    {
      for i := 0 to |jar|
        invariant forall j :: 0 <= j < i ==> jar[j].name != SESSION
        invariant cookies == old(cookies)
        invariant worksheet == old(worksheet)
      {
        if jar[i].name == SESSION {
          cookies := cookies[SESSION := jar[i].value];
          break;
        }
      }
    }

    /**
      Folds the per-year results into the worksheet in order: an empty
      worksheet is replaced by the result, otherwise the result's rows are
      appended.
    */
    method MergeResults(results: seq<seq<Record>>)
      modifies this
      ensures worksheet == old(worksheet) + Concat(results)
      ensures cookies == old(cookies)
    {
      for i := 0 to |results|
        invariant worksheet == old(worksheet) + Concat(results[..i])
        invariant cookies == old(cookies)
      {
        ConcatAppend(results[..i], [results[i]]);
        assert results[..i + 1] == results[..i] + [results[i]];
        assert Concat([results[i]]) == results[i] by {
          assert [results[i]][1..] == [];
        }
        if |worksheet| == 0 {
          worksheet := results[i];
        } else {
          worksheet := worksheet + results[i];
        }
      }
      assert results[..|results|] == results;
    }

    /**
      One run after the browser visit: adopt the session cookie, scrape every
      year task with those cookies, and merge the results in task order.
    */
    method Run(jar: seq<Cookie>, fetch: (int, map<string, string>) -> Page)
      modifies this
      ensures cookies == AdoptSession(old(cookies), jar)
      ensures worksheet == old(worksheet) + Concat(YearResults(YearTasks(currentYear), cookies, fetch))
    {
      AdoptSessionCookie(jar);
      var years := YearTasks(currentYear);
      var results: seq<seq<Record>> := [];
      ghost var adopted := cookies;
      for i := 0 to |years|
        invariant cookies == adopted && worksheet == old(worksheet)
        invariant |results| == i
        invariant forall j :: 0 <= j < i ==> results[j] == Scrape(fetch(years[j], cookies))
      {
        var records := ParseTable(fetch(years[i], cookies));
        results := results + [records];
      }
      assert results == YearResults(years, cookies, fetch);
      MergeResults(results);
    }
  }
}
