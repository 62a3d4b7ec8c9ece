/** The Episode List screen: a case-insensitive search over the fetched
    episodes, and a pager with two fixed pages of ten results each. */
module EpisodeList {
  import opened Text
  import opened Model
  import opened Seqs

  /** The search box starts empty. */
  const InitialSearch: string := ""

  /** Number of episodes on each of the two pages. */
  const PageSize: nat := 10

  /** Number of filtered episodes the pager can show at all. */
  const Reachable: nat := 2 * PageSize

  function Min(a: int, b: int): int {
    if a <= b then a else b
  }

  /** No two episodes of `s` share an identifier. */
  predicate EpisodeIdsUnique(s: seq<Episode>) {
    forall i, j :: 0 <= i < j < |s| ==> s[i].id != s[j].id
  }

  // ---------------------------------------------------------------------
  // Search
  // ---------------------------------------------------------------------

  /** The query stored when the user types `text`: the same text with every
      upper-case letter lowered. */
  function HandleSearch(text: string): (search: string)
    ensures SameIgnoringCase(search, text)
    ensures IsLowerCase(search)
  {
    Lower(text)
  }

  /** An episode passes the filter when its lower-cased name includes the
      stored query. */
  predicate Matches(e: Episode, search: string) {
    Contains(Lower(e.name), search)
  }

  /** The filtered list: the episodes that match, in fetch order. */
  function FilterEpisodes(data: seq<Episode>, search: string): (r: seq<Episode>)
    ensures |r| <= |data|
    ensures forall i :: 0 <= i < |r| ==> Matches(r[i], search)
  {
    if |data| == 0 then []
    else if Matches(data[0], search) then [data[0]] + FilterEpisodes(data[1..], search)
    else FilterEpisodes(data[1..], search)
  }

  /** The filtered list for the text typed into the search box: fetched
      episodes, in fetch order, whose lower-cased name includes the
      lower-cased text. */
  function Visible(data: seq<Episode>, text: string): (r: seq<Episode>)
    ensures IsSubsequence(r, data)
    ensures forall i :: 0 <= i < |r| ==> Contains(Lower(r[i].name), Lower(text))
  {
    FilterIsSubsequence(data, HandleSearch(text));
    FilterEpisodes(data, HandleSearch(text))
  }

  /** The filtered list keeps the fetched order: it is a subsequence. */
  lemma {:induction false} FilterIsSubsequence(data: seq<Episode>, search: string)
    ensures IsSubsequence(FilterEpisodes(data, search), data)
    decreases |data|
  {
    if |data| > 0 {
      FilterIsSubsequence(data[1..], search);
    }
  }

  /** An episode is in the filtered list exactly when it was fetched and
      matches the stored query. */
  lemma {:induction false} FilterMembers(data: seq<Episode>, search: string, e: Episode)
    ensures e in FilterEpisodes(data, search) <==> e in data && Matches(e, search)
    decreases |data|
  {
    if |data| > 0 {
      FilterMembers(data[1..], search, e);
      assert data == [data[0]] + data[1..];
    }
  }

  /** Filtering keeps every copy of a matching episode and no copy of any
      other: each value occurs in the result as often as in the fetched list
      when it matches, and not at all otherwise. */
  lemma {:induction false} FilterCounts(data: seq<Episode>, search: string, e: Episode)
    ensures multiset(FilterEpisodes(data, search))[e]
            == if Matches(e, search) then multiset(data)[e] else 0
    decreases |data|
  {
    if |data| > 0 {
      FilterCounts(data[1..], search, e);
      assert data == [data[0]] + data[1..];
    }
  }

  /** Membership in the visible list in terms of the typed text: the
      lower-cased name includes the lower-cased query. */
  lemma VisibleMembers(data: seq<Episode>, text: string, e: Episode)
    ensures e in Visible(data, text) <==> e in data && Contains(Lower(e.name), Lower(text))
  {
    FilterMembers(data, HandleSearch(text), e);
  }

  /** With the initial empty query every fetched episode is listed, in order. */
  lemma {:induction false} EmptySearchKeepsAll(data: seq<Episode>)
    ensures FilterEpisodes(data, InitialSearch) == data
    ensures Visible(data, InitialSearch) == data
    decreases |data|
  {
    if |data| > 0 {
      ContainsEmpty(Lower(data[0].name));
      EmptySearchKeepsAll(data[1..]);
    }
    assert HandleSearch(InitialSearch) == InitialSearch;
  }

  /** Re-casing the query does not change the result. */
  lemma SearchIgnoresCase(data: seq<Episode>, a: string, b: string)
    requires SameIgnoringCase(a, b)
    ensures Visible(data, a) == Visible(data, b)
  {
    SameIgnoringCaseIffSameLower(a, b);
  }

  /** Upper-casing the whole query is one such re-casing. */
  lemma SearchIgnoresUpperCase(data: seq<Episode>, text: string)
    ensures Visible(data, Upper(text)) == Visible(data, text)
  {
    UpperIsRecasing(text);
    SearchIgnoresCase(data, Upper(text), text);
  }

  /** A longer stored query keeps a subsequence of the shorter one's result. */
  lemma {:induction false} FilterNarrows(data: seq<Episode>, short: string, long: string)
    requires Contains(long, short)
    ensures IsSubsequence(FilterEpisodes(data, long), FilterEpisodes(data, short))
    decreases |data|
  {
    if |data| > 0 {
      FilterNarrows(data[1..], short, long);
      var d := data[0];
      if Matches(d, long) {
        ContainsTransitive(Lower(d.name), long, short);
        assert Matches(d, short);
      } else {
        var r := FilterEpisodes(data[1..], long);
        if Matches(d, short) && |r| > 0 {
          assert IsSubsequence(r, [d] + FilterEpisodes(data[1..], short)) by {
            assert ([d] + FilterEpisodes(data[1..], short))[1..] == FilterEpisodes(data[1..], short);
          }
        }
      }
    }
  }

  /** Typing more (a query that includes the previous one) only narrows the
      result: it is a subsequence, hence a subset, of the previous result. */
  lemma SearchNarrows(data: seq<Episode>, short: string, long: string)
    requires Contains(long, short)
    ensures IsSubsequence(Visible(data, long), Visible(data, short))
    ensures forall e :: e in Visible(data, long) ==> e in Visible(data, short)
  {
    LowerPreservesContains(long, short);
    FilterNarrows(data, Lower(short), Lower(long));
    SubsequenceMembers(Visible(data, long), Visible(data, short));
  }

  /** Filtering keeps identifiers distinct. */
  lemma {:induction false} FilterKeepsIdsUnique(data: seq<Episode>, search: string)
    requires EpisodeIdsUnique(data)
    ensures EpisodeIdsUnique(FilterEpisodes(data, search))
    decreases |data|
  {
    if |data| > 0 {
      var tail := data[1..];
      assert EpisodeIdsUnique(tail) by {
        forall i, j | 0 <= i < j < |tail|
          ensures tail[i].id != tail[j].id
        {
          assert tail[i] == data[i + 1] && tail[j] == data[j + 1];
        }
      }
      FilterKeepsIdsUnique(tail, search);
      var r := FilterEpisodes(tail, search);
      forall k | 0 <= k < |r|
        ensures r[k].id != data[0].id
      {
        FilterMembers(tail, search, r[k]);
        var m :| 0 <= m < |tail| && tail[m] == r[k];
        assert data[m + 1] == r[k];
      }
    }
  }

  // ---------------------------------------------------------------------
  // Pagination
  // ---------------------------------------------------------------------

  /** JavaScript's `s.slice(start, end)` for non-negative bounds: both bounds
      are clamped to the length, and the window is empty once the clamped
      start reaches the clamped end. */
  function Slice<T>(s: seq<T>, start: nat, end: nat): (r: seq<T>)
    ensures start < Min(end, |s|) ==> |r| == Min(end, |s|) - start
    ensures start >= Min(end, |s|) ==> |r| == 0
    ensures forall k :: 0 <= k < |r| ==> r[k] == s[start + k]
  {
    var b := Min(start, |s|);
    var e := Min(end, |s|);
    if b < e then s[b..e] else []
  }

  /** The first pager page, `filtered.slice(0, 10)`: the first min(n, 10)
      filtered episodes. */
  function FirstPage(filtered: seq<Episode>): (r: seq<Episode>)
    ensures r == filtered[..Min(|filtered|, PageSize)]
  {
    Slice(filtered, 0, PageSize)
  }

  /** The second pager page, `filtered.slice(10, 20)`: the filtered episodes
      from position min(n, 10) up to min(n, 20). */
  function SecondPage(filtered: seq<Episode>): (r: seq<Episode>)
    ensures r == filtered[Min(|filtered|, PageSize)..Min(|filtered|, Reachable)]
  {
    Slice(filtered, PageSize, Reachable)
  }

  /** The two pages are consecutive windows of the filtered list: the first
      holds its first min(n, 10) entries, the second the entries from
      min(n, 10) up to min(n, 20), and together they are its length-min(n, 20)
      prefix. */
  lemma PagesAreWindows(filtered: seq<Episode>)
    ensures FirstPage(filtered) == filtered[..Min(|filtered|, PageSize)]
    ensures SecondPage(filtered) == filtered[Min(|filtered|, PageSize)..Min(|filtered|, Reachable)]
    ensures |FirstPage(filtered)| <= PageSize && |SecondPage(filtered)| <= PageSize
    ensures |filtered| <= PageSize ==> SecondPage(filtered) == []
    ensures FirstPage(filtered) + SecondPage(filtered) == filtered[..Min(|filtered|, Reachable)]
  {
    var n := |filtered|;
    var p1, p2 := FirstPage(filtered), SecondPage(filtered);
    assert p1 == filtered[..Min(n, PageSize)];
    if n > PageSize {
      assert p2 == filtered[PageSize..Min(n, Reachable)];
    }
    assert filtered[..Min(n, Reachable)] == filtered[..Min(n, PageSize)] + filtered[Min(n, PageSize)..Min(n, Reachable)];
  }

  /** An episode is shown on a page exactly when it sits at one of the first
      twenty positions of the filtered list. */
  lemma ShownIffAmongFirstTwenty(filtered: seq<Episode>, e: Episode)
    ensures (e in FirstPage(filtered) || e in SecondPage(filtered))
        <==> exists i :: 0 <= i < Min(|filtered|, Reachable) && filtered[i] == e
  {
    PagesAreWindows(filtered);
    var prefix := filtered[..Min(|filtered|, Reachable)];
    assert e in FirstPage(filtered) + SecondPage(filtered) <==> e in prefix;
    if e in prefix {
      var i :| 0 <= i < |prefix| && prefix[i] == e;
      assert filtered[i] == e;
    }
  }

  /** Whatever follows the twentieth filtered episode never reaches a page. */
  lemma PagesIgnoreBeyondTwenty(filtered: seq<Episode>, rest: seq<Episode>)
    requires |filtered| >= Reachable
    ensures FirstPage(filtered + rest) == FirstPage(filtered)
    ensures SecondPage(filtered + rest) == SecondPage(filtered)
  {
    PagesAreWindows(filtered);
    PagesAreWindows(filtered + rest);
    assert (filtered + rest)[..PageSize] == filtered[..PageSize];
    assert (filtered + rest)[PageSize..Reachable] == filtered[PageSize..Reachable];
  }

  /** When identifiers are distinct no episode is on both pages. */
  lemma PagesDisjoint(filtered: seq<Episode>)
    requires EpisodeIdsUnique(filtered)
    ensures forall i, j :: 0 <= i < |FirstPage(filtered)| && 0 <= j < |SecondPage(filtered)|
                       ==> FirstPage(filtered)[i].id != SecondPage(filtered)[j].id
  {
    var p1, p2 := FirstPage(filtered), SecondPage(filtered);
    forall i, j | 0 <= i < |p1| && 0 <= j < |p2|
      ensures p1[i].id != p2[j].id
    {
      assert p1[i] == filtered[i] && p2[j] == filtered[PageSize + j];
    }
  }

  // ---------------------------------------------------------------------
  // The whole screen
  // ---------------------------------------------------------------------

  /** What the pager shows for the fetched episodes and the typed text. */
  datatype Pages = Pages(first: seq<Episode>, second: seq<Episode>)

  /** Filters the fetched episodes by the typed text and cuts the result
      into the two pages. */
  function ShowPages(data: seq<Episode>, text: string): (p: Pages)
    ensures |p.first| <= PageSize && |p.second| <= PageSize
    ensures p.first == Visible(data, text)[..Min(|Visible(data, text)|, PageSize)]
    ensures p.second == Visible(data, text)[Min(|Visible(data, text)|, PageSize)..Min(|Visible(data, text)|, Reachable)]
    ensures p.first + p.second == Visible(data, text)[..Min(|Visible(data, text)|, Reachable)]
    ensures forall e :: e in p.first || e in p.second
                    ==> e in data && Contains(Lower(e.name), Lower(text))
  {
    var filtered := Visible(data, text);
    PagesAreWindows(filtered);
    forall e | e in FirstPage(filtered) || e in SecondPage(filtered)
      ensures e in data && Contains(Lower(e.name), Lower(text))
    {
      assert e in FirstPage(filtered) + SecondPage(filtered);
      VisibleMembers(data, text, e);
    }
    Pages(FirstPage(filtered), SecondPage(filtered))
  }

  /** "Pilot" does not include "a", even lower-cased. */
  lemma PilotDoesNotMatch()
    ensures !Contains(Lower("Pilot"), "a")
  {
    var name := Lower("Pilot");
    forall i | 0 <= i < |name|
      ensures !OccursAt(name, "a", i)
    {
      assert name[i] == ToLower("Pilot"[i]);
      if i + 1 <= |name| {
        assert name[i..i + 1][0] == name[i];
      }
    }
  }

  /** "Lawnmower Dog" includes "a" at index 1. */
  lemma LawnmowerDogMatches()
    ensures Contains(Lower("Lawnmower Dog"), "a")
  {
    var name := Lower("Lawnmower Dog");
    assert name[0] == ToLower("Lawnmower Dog"[0]) == 'l';
    assert name[1] == ToLower("Lawnmower Dog"[1]) == 'a';
    assert name[..1] != "a";
    assert name[1..][..1] == "a";
    assert Contains(name[1..], "a");
  }

  /** "Anatomy Park" includes "a" at index 0 once lower-cased. */
  lemma AnatomyParkMatches()
    ensures Contains(Lower("Anatomy Park"), "a")
  {
    var name := Lower("Anatomy Park");
    assert name[0] == ToLower("Anatomy Park"[0]) == 'a';
    assert name[0..1] == "a";
    assert OccursAt(name, "a", 0);
  }

  /** Filtering three episodes of which only the last two match. */
  lemma FilterDropsOnlyFirst(first: Episode, second: Episode, third: Episode, search: string)
    requires !Matches(first, search) && Matches(second, search) && Matches(third, search)
    ensures FilterEpisodes([first, second, third], search) == [second, third]
  {
    var data := [first, second, third];
    var tail1: seq<Episode> := [second, third];
    var tail2: seq<Episode> := [third];
    assert data[0] == first && data[1..] == tail1;
    assert tail1[0] == second && tail1[1..] == tail2;
    assert tail2[0] == third && tail2[1..] == [];
    assert FilterEpisodes(tail2, search) == [third] + FilterEpisodes([], search) == [third];
    assert FilterEpisodes(tail1, search) == [second] + FilterEpisodes(tail2, search) == [second, third];
  }

  /** The worked example: of episodes titled "Pilot", "Lawnmower Dog" and
      "Anatomy Park", the query "a" keeps the last two, in order. */
  lemma SearchExample(pilot: Episode, dog: Episode, park: Episode)
    requires pilot.name == "Pilot" && dog.name == "Lawnmower Dog" && park.name == "Anatomy Park"
    ensures Visible([pilot, dog, park], "a") == [dog, park]
  {
    var search := HandleSearch("a");
    assert search == "a" by {
      assert Lower("a") == [ToLower('a')] + Lower([]);
    }
    assert !Matches(pilot, search) by {
      PilotDoesNotMatch();
    }
    assert Matches(dog, search) by {
      LawnmowerDogMatches();
    }
    assert Matches(park, search) by {
      AnatomyParkMatches();
    }
    FilterDropsOnlyFirst(pilot, dog, park, search);
  }
}
