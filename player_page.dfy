/**
 * The pitcher's split-statistics page: deriving the player id from the
 * pitcher's names and splicing it into the page URL, with a parser that
 * recovers the id and the year from such a URL.
 */
module PlayerPage {
  import opened Wrappers
  import opened Decimal

  const URL_ROOT := "https://www.baseball-reference.com"
  const SPLIT_PATH := "/players/split.fcgi?id="
  const YEAR_PARAM := "&year="
  const PITCHING_PARAM := "&t=p"
  /** Sequence suffix appended to every derived id. */
  const ID_SUFFIX := "01"

  function Min(a: int, b: int): int {
    if a <= b then a else b
  }

  /** ASCII lower-casing of one character. */
  function LowerChar(c: char): char {
    if 'A' <= c <= 'Z' then (c as int - 'A' as int + 'a' as int) as char else c
  }

  /** `s.lower()`, on the ASCII letters. */
  function Lower(s: string): (r: string)
    ensures |r| == |s|
    ensures forall i :: 0 <= i < |s| ==> !('A' <= r[i] <= 'Z')
    ensures forall i :: 0 <= i < |s| && !('A' <= s[i] <= 'Z') ==> r[i] == s[i]
    ensures forall i :: 0 <= i < |s| && 'A' <= s[i] <= 'Z' ==> 'a' <= r[i] <= 'z' && r[i] as int - s[i] as int == 32
  {
    seq(|s|, i requires 0 <= i < |s| => LowerChar(s[i]))
  }

  /** Python's `s[:n]`: the first `n` characters, or all of `s` when it is shorter. */
  function Take(s: string, n: nat): (r: string)
    ensures |r| == Min(|s|, n)
    ensures r == s[..|r|]
  {
    if |s| <= n then s else s[..n]
  }

  /** The player id: five letters of the surname, two of the given name, then "01". */
  function PlayerPageId(firstName: string, lastName: string): (id: string)
    ensures |id| == Min(|lastName|, 5) + Min(|firstName|, 2) + 2
    ensures 2 <= |id| <= 9
    ensures |lastName| >= 5 && |firstName| >= 2 ==> |id| == 9
    ensures id[|id| - 2..] == ID_SUFFIX
    ensures forall i :: 0 <= i < Min(|lastName|, 5) ==> id[i] == LowerChar(lastName[i])
    ensures forall i :: 0 <= i < Min(|firstName|, 2) ==>
              id[Min(|lastName|, 5) + i] == LowerChar(firstName[i])
  {
    Take(Lower(lastName), 5) + Take(Lower(firstName), 2) + ID_SUFFIX
  }

  /** The `id` and `year` query parameters, in the order the page URL has them. */
  function SplitQuery(id: string, year: int): string {
    id + YEAR_PARAM + IntToString(year)
  }

  /** The split page of player `id` for season `year`. */
  function SplitPageUrl(id: string, year: int): (url: string)
    ensures |url| == |URL_ROOT| + |SPLIT_PATH| + |id| + |YEAR_PARAM| + |IntToString(year)| + |PITCHING_PARAM|
    ensures url[..|URL_ROOT|] == URL_ROOT
    ensures url[|URL_ROOT| + |SPLIT_PATH|..][..|id|] == id
    ensures url[|url| - |PITCHING_PARAM|..] == PITCHING_PARAM
  {
    URL_ROOT + SPLIT_PATH + SplitQuery(id, year) + PITCHING_PARAM
  }

  /** The URL that is fetched for a pitcher: the split page of the derived id. */
  function PlayerPageUrl(firstName: string, lastName: string, year: int): (url: string)
    ensures |url| == |URL_ROOT| + |SPLIT_PATH| + |PlayerPageId(firstName, lastName)| + |YEAR_PARAM|
                     + |IntToString(year)| + |PITCHING_PARAM|
    ensures url[..|URL_ROOT|] == URL_ROOT
    ensures url[|URL_ROOT| + |SPLIT_PATH|..][..|PlayerPageId(firstName, lastName)|]
            == PlayerPageId(firstName, lastName)
    ensures url[|url| - |PITCHING_PARAM|..] == PITCHING_PARAM
  {
    SplitPageUrl(PlayerPageId(firstName, lastName), year)
  }

  /** Index of the first occurrence of `c` in `s`. */
  function IndexOf(s: string, c: char): (k: Option<nat>)
    ensures k.Some? ==> k.value < |s| && s[k.value] == c && c !in s[..k.value]
    ensures k.None? ==> c !in s
  {
    if s == [] then None
    else if s[0] == c then Some(0)
    else match IndexOf(s[1..], c)
      case None => None
      case Some(j) => assert s[..j + 1] == [s[0]] + s[1..][..j]; Some(j + 1)
  }

  /** Reads `<id>&year=<year>` back into the id and the year. */
  function ParseQuery(query: string): Option<(string, int)> {
    match IndexOf(query, '&')
    case None => None
    case Some(k) =>
      var rest := query[k..];
      if |rest| < |YEAR_PARAM| || rest[..|YEAR_PARAM|] != YEAR_PARAM then None
      else match ParseInt(rest[|YEAR_PARAM|..])
        case None => None
        case Some(year) => Some((query[..k], year))
  }

  /** `c` first occurs at `k` exactly when it is there and nowhere before. */
  lemma {:induction false} IndexOfAt(s: string, c: char, k: nat)
    requires k < |s| && s[k] == c
    requires forall j :: 0 <= j < k ==> s[j] != c
    ensures IndexOf(s, c) == Some(k)
  {
    if k > 0 {
      IndexOfAt(s[1..], c, k - 1);
    }
  }

  /** Recovers the player id and the year from a split-page URL, if it is one. */
  function ParseSplitPageUrl(url: string): Option<(string, int)> {
    var head := URL_ROOT + SPLIT_PATH;
    if |url| < |head| + |PITCHING_PARAM| || url[..|head|] != head
       || url[|url| - |PITCHING_PARAM|..] != PITCHING_PARAM
    then None
    else ParseQuery(url[|head|..|url| - |PITCHING_PARAM|])
  }

  lemma ParseSplitPageUrlShape(query: string)
    ensures ParseSplitPageUrl(URL_ROOT + SPLIT_PATH + query + PITCHING_PARAM) == ParseQuery(query)
  {
    var head := URL_ROOT + SPLIT_PATH;
    var url := head + query + PITCHING_PARAM;
    assert url[..|head|] == head;
    assert url[|url| - |PITCHING_PARAM|..] == PITCHING_PARAM;
    assert url[|head|..|url| - |PITCHING_PARAM|] == query;
  }

  lemma ParseQueryRoundTrip(id: string, year: int)
    requires '&' !in id
    ensures ParseQuery(SplitQuery(id, year)) == Some((id, year))
  {
    var ys := IntToString(year);
    var query := SplitQuery(id, year);
    assert query[..|id|] == id;
    IndexOfAt(query, '&', |id|);
    assert query[|id|..] == YEAR_PARAM + ys;
    assert (YEAR_PARAM + ys)[..|YEAR_PARAM|] == YEAR_PARAM;
    assert (YEAR_PARAM + ys)[|YEAR_PARAM|..] == ys;
    assert query[..|id|] == id;
    IntToStringRoundTrip(year);
  }

  /** Any id without an `&` and any year can be read back from the URL built from them. */
  lemma SplitPageUrlRoundTrip(id: string, year: int)
    requires '&' !in id
    ensures ParseSplitPageUrl(SplitPageUrl(id, year)) == Some((id, year))
  {
    ParseSplitPageUrlShape(SplitQuery(id, year));
    ParseQueryRoundTrip(id, year);
  }

  /** The pitcher's id and the season can be read back from the URL that is fetched. */
  lemma PlayerPageUrlRoundTrip(firstName: string, lastName: string, year: int)
    requires '&' !in firstName && '&' !in lastName
    ensures ParseSplitPageUrl(PlayerPageUrl(firstName, lastName, year))
            == Some((PlayerPageId(firstName, lastName), year))
  {
    var id := PlayerPageId(firstName, lastName);
    assert '&' !in id by {
      forall i | 0 <= i < |id| ensures id[i] != '&' {
        if i < Min(|lastName|, 5) {
          assert lastName[i] in lastName;
        } else if i < Min(|lastName|, 5) + Min(|firstName|, 2) {
          assert firstName[i - Min(|lastName|, 5)] in firstName;
        } else {
          assert id[|id| - 2..][i - (|id| - 2)] == id[i];
        }
      }
    }
    SplitPageUrlRoundTrip(id, year);
  }
}
