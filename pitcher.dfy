/**
 * `get_1st_inning_stats_for_pitcher`: fetch the pitcher's split page, give
 * up on a non-200 status, fetch it again, strip the comment openers, find
 * the by-inning table and return the record of its "1st inning" row.
 *
 * The network and the HTML parser are parameters: `statusOf` and
 * `contentOf` stand for the status code and the decoded body a GET of a URL
 * yields, `inningTableOf` for parsing a page and looking up its table with
 * id "innng". The calls the function makes are returned as a trace.
 */
module Pitcher {
  import opened Wrappers
  import opened PlayerPage
  import opened Sanitize
  import opened Extract

  const HTTP_OK := 200

  /** `find_all` called on the `None` that a missing table gives. */
  datatype Error = AttributeError

  /** An outside call the function makes. */
  datatype Event = Fetch(url: string) | Parse(html: string)

  method GetFirstInningStatsForPitcher(
    firstName: string, lastName: string, year: int,
    statusOf: string -> int, contentOf: string -> string,
    inningTableOf: string -> Option<seq<Row>>)
    returns (outcome: Result<Option<StatRecord>, Error>, trace: seq<Event>)
    ensures var url := PlayerPageUrl(firstName, lastName, year);
            statusOf(url) != HTTP_OK ==> outcome == Success(None) && trace == [Fetch(url)]
    ensures var url := PlayerPageUrl(firstName, lastName, year);
            var html := StripOpeners(contentOf(url));
            statusOf(url) == HTTP_OK ==>
              trace == [Fetch(url), Fetch(url), Parse(html)]
              && (inningTableOf(html).None? ==> outcome == Failure(AttributeError))
              && (inningTableOf(html).Some? ==> outcome == Success(FirstInningStats(inningTableOf(html).value)))
  {
    var url := PlayerPageUrl(firstName, lastName, year);
    trace := [Fetch(url)];
    if statusOf(url) != HTTP_OK {
      return Success(None), trace;
    }
    // The second fetch's status is not looked at.
    trace := trace + [Fetch(url)];
    var html := StripOpeners(contentOf(url));
    trace := trace + [Parse(html)];
    var table := inningTableOf(html);
    if table.None? {
      return Failure(AttributeError), trace;
    }
    var stats := FindFirstInningStats(table.value);
    return Success(stats), trace;
  }
}
