/**
 The list filtering of scraper.py: collecting the distinct news-source
 URLs of a batch of articles (`add_domain`, `get_domain_list`) and turning
 the titles of an RSS feed into headlines (the title loop of
 `retrieve_headlines`). Fetching and parsing are not modelled: an article
 is its `url` field, a feed is the sequence of its item titles, and
 `urlparse(url).netloc` is a function passed in.
 */
module Scraper {
  import opened Seqs
  import opened Text

  // ----- Source URLs -----

  /** The Python list `add_domain` receives and mutates in place. */
  class DomainList {
    var items: seq<string>

    constructor ()
      ensures items == []
    {
      items := [];
    }
  }

  /** The list after `add_domain`: `url` is appended when it is not there
      yet, and the list is left as it is otherwise. */
  function Added(items: seq<string>, url: string): (r: seq<string>)
    ensures items <= r && |r| <= |items| + 1
    ensures forall x :: x in r <==> x in items || x == url
    ensures url in items <==> r == items
    ensures Distinct(items) ==> Distinct(r)
  {
    if url in items then items else items + [url]
  }

  /** `add_domain(domains, url)`: the list object it returns is the one it
      was given, extended in place. */
  method AddDomain(domains: DomainList, url: string) returns (domainList: DomainList)
    modifies domains
    ensures domainList == domains
    ensures domains.items == Added(old(domains.items), url)
  {
    domainList := domains;
    if url !in domainList.items {
      domainList.items := domainList.items + [url];
    }
  }

  /** `"http://{}".format(urlparse(url).netloc)`. */
  function SourceUrl(netloc: string -> string, url: string): string {
    "http://" + netloc(url)
  }

  /** The source list after the articles whose URLs are `urls`. */
  function Domains(urls: seq<string>, netloc: string -> string): seq<string> {
    if urls == [] then []
    else Added(Domains(urls[..|urls| - 1], netloc), SourceUrl(netloc, urls[|urls| - 1]))
  }

  /** `get_domain_list(articles)`, an article given by its URL: every source
      once, in the order the articles first name it. */
  method GetDomainList(urls: seq<string>, netloc: string -> string) returns (domains: seq<string>)
    ensures domains == Domains(urls, netloc)
    ensures Distinct(domains)
    ensures forall x :: x in domains <==> exists j :: 0 <= j < |urls| && x == SourceUrl(netloc, urls[j])
  {
    var domainList := new DomainList();
    for i := 0 to |urls|
      invariant fresh(domainList)
      invariant domainList.items == Domains(urls[..i], netloc)
    {
      var sourceUrl := netloc(urls[i]);
      domainList := AddDomain(domainList, "http://" + sourceUrl);
      assert urls[..i + 1][..i] == urls[..i];
    }
    assert urls[..|urls|] == urls;
    domains := domainList.items;
    DomainsDistinct(urls, netloc);
    DomainsMembers(urls, netloc);
  }

  /** No source is listed twice. */
  lemma {:induction false} DomainsDistinct(urls: seq<string>, netloc: string -> string)
    ensures Distinct(Domains(urls, netloc))
  {
    if urls != [] {
      DomainsDistinct(urls[..|urls| - 1], netloc);
    }
  }

  /** The sources listed are exactly the sources of the articles. */
  lemma {:induction false} DomainsMembers(urls: seq<string>, netloc: string -> string)
    ensures forall x :: x in Domains(urls, netloc) <==>
              exists j :: 0 <= j < |urls| && x == SourceUrl(netloc, urls[j])
  {
    if urls != [] {
      var init := urls[..|urls| - 1];
      DomainsMembers(init, netloc);
      forall x | x in Domains(urls, netloc)
        ensures exists j :: 0 <= j < |urls| && x == SourceUrl(netloc, urls[j])
      {
        if x in Domains(init, netloc) {
          var j :| 0 <= j < |init| && x == SourceUrl(netloc, init[j]);
          assert urls[j] == init[j];
        } else {
          assert x == SourceUrl(netloc, urls[|urls| - 1]);
        }
      }
      forall x | exists j :: 0 <= j < |urls| && x == SourceUrl(netloc, urls[j])
        ensures x in Domains(urls, netloc)
      {
        var j :| 0 <= j < |urls| && x == SourceUrl(netloc, urls[j]);
        if j < |init| {
          assert init[j] == urls[j];
        }
      }
    }
  }

  /** The list for the first `n` articles is never rewritten by the later
      ones: it is a prefix of the final list. */
  lemma {:induction false} DomainsPrefix(urls: seq<string>, netloc: string -> string, n: nat)
    requires n <= |urls|
    ensures Domains(urls[..n], netloc) <= Domains(urls, netloc)
  {
    if n < |urls| {
      var init := urls[..|urls| - 1];
      assert urls[..n] == init[..n];
      DomainsPrefix(init, netloc, n);
    } else {
      assert urls[..n] == urls;
    }
  }

  /** Sources are listed by first occurrence: a source listed before the
      one first named by article `j` was already named by an earlier
      article. */
  lemma DomainsOrder(urls: seq<string>, netloc: string -> string, p: nat, q: nat, j: nat)
    requires p < q < |Domains(urls, netloc)|
    requires j < |urls| && SourceUrl(netloc, urls[j]) == Domains(urls, netloc)[q]
    ensures exists i :: 0 <= i < j && SourceUrl(netloc, urls[i]) == Domains(urls, netloc)[p]
  {
    var d := Domains(urls, netloc);
    var before := Domains(urls[..j], netloc);
    var upTo := Domains(urls[..j + 1], netloc);
    assert urls[..j + 1][..j] == urls[..j];
    assert upTo == Added(before, SourceUrl(netloc, urls[j]));
    DomainsPrefix(urls, netloc, j + 1);
    DomainsDistinct(urls, netloc);
    var r :| 0 <= r < |upTo| && upTo[r] == d[q];
    assert d[r] == d[q];
    assert p < |before|;
    assert d[p] == before[p] && before[p] in before;
    DomainsMembers(urls[..j], netloc);
    var i :| 0 <= i < j && d[p] == SourceUrl(netloc, urls[..j][i]);
    assert urls[..j][i] == urls[i];
  }

  // ----- Feed titles -----

  /** The source delimiter: an en dash. */
  const SourceDelimiter: char := '–'

  /** The titles dropped as invalid. */
  const InvalidTitles: seq<string> := ["\n", ""]

  /** `s.split(source_delimiter)[0]`: the longest prefix of `s` without the
      delimiter. */
  function BeforeDelimiter(s: string): (r: string)
    ensures r <= s && SourceDelimiter !in r
    ensures |r| < |s| <==> SourceDelimiter in s
    ensures |r| < |s| ==> s[|r|] == SourceDelimiter
  {
    if s == [] || s[0] == SourceDelimiter then []
    else [s[0]] + BeforeDelimiter(s[1..])
  }

  /** The result list after one more title: a delimited title contributes
      its stripped head; an invalid or repeated plain title nothing; any
      other title itself. */
  function AddTitle(result: seq<string>, title: string): (r: seq<string>)
    ensures result <= r && |r| <= |result| + 1
    ensures SourceDelimiter in title ==> r == result + [Strip(BeforeDelimiter(title))]
    ensures SourceDelimiter !in title && title in result ==> r == result
    ensures SourceDelimiter !in title ==> (r != result <==> title !in InvalidTitles && title !in result)
  {
    if SourceDelimiter in title then result + [Strip(BeforeDelimiter(title))]
    else if title in InvalidTitles then result
    else if title in result then result
    else result + [title]
  }

  /** The headlines taken from the feed titles `ts`. */
  function Titles(ts: seq<string>): seq<string> {
    if ts == [] then []
    else AddTitle(Titles(ts[..|ts| - 1]), ts[|ts| - 1])
  }

  /** The title loop of `retrieve_headlines`, over the item titles. */
  method RetrieveHeadlines(titles: seq<string>) returns (result: seq<string>)
    ensures result == Titles(titles)
    ensures |result| <= |titles|
  {
    result := [];
    var i := 0;
    while i < |titles|
      invariant i <= |titles|
      invariant result == Titles(titles[..i])
    {
      var title := titles[i];
      assert titles[..i + 1][..i] == titles[..i];
      i := i + 1;
      if SourceDelimiter in title {
        result := result + [Strip(BeforeDelimiter(title))];
      } else if title in InvalidTitles {
        continue;
      } else if title in result {
        continue;
      } else {
        result := result + [title];
      }
    }
    assert titles[..|titles|] == titles;
    TitlesLength(titles);
  }

  /** A title a feed item contributes, if any. */
  predicate Contributes(title: string, x: string) {
    if SourceDelimiter in title then x == Strip(BeforeDelimiter(title))
    else title !in InvalidTitles && x == title
  }

  /** Each item contributes at most one headline. */
  lemma {:induction false} TitlesLength(ts: seq<string>)
    ensures |Titles(ts)| <= |ts|
  {
    if ts != [] {
      TitlesLength(ts[..|ts| - 1]);
    }
  }

  /** Headlines are kept in item order: the headlines of the first `n`
      items are a prefix of the whole result. */
  lemma {:induction false} TitlesPrefix(ts: seq<string>, n: nat)
    requires n <= |ts|
    ensures Titles(ts[..n]) <= Titles(ts)
  {
    if n < |ts| {
      var init := ts[..|ts| - 1];
      assert ts[..n] == init[..n];
      TitlesPrefix(init, n);
    } else {
      assert ts[..n] == ts;
    }
  }

  /** Every headline comes from some item: a delimited title's stripped
      head or a valid plain title. */
  lemma {:induction false} TitlesSound(ts: seq<string>)
    ensures forall x :: x in Titles(ts) ==> exists i :: 0 <= i < |ts| && Contributes(ts[i], x)
  {
    if ts != [] {
      var init := ts[..|ts| - 1];
      TitlesSound(init);
      forall x | x in Titles(ts)
        ensures exists i :: 0 <= i < |ts| && Contributes(ts[i], x)
      {
        if x in Titles(init) {
          var i :| 0 <= i < |init| && Contributes(init[i], x);
          assert ts[i] == init[i];
        } else {
          assert Contributes(ts[|ts| - 1], x);
        }
      }
    }
  }

  /** What item `i` contributes is among the headlines. */
  lemma {:induction false} TitleKept(ts: seq<string>, i: nat)
    requires i < |ts|
    ensures SourceDelimiter in ts[i] ==> Strip(BeforeDelimiter(ts[i])) in Titles(ts)
    ensures SourceDelimiter !in ts[i] && ts[i] !in InvalidTitles ==> ts[i] in Titles(ts)
  {
    var init := ts[..|ts| - 1];
    var r := Titles(init);
    assert Titles(ts) == AddTitle(r, ts[|ts| - 1]);
    if i < |init| {
      TitleKept(init, i);
      assert ts[i] == init[i];
      assert r <= Titles(ts);
    } else if SourceDelimiter !in ts[i] && ts[i] !in InvalidTitles && ts[i] !in r {
      assert Titles(ts) == r + [ts[i]];
    }
  }

  /** No item is lost: each delimited title's stripped head and each valid
      plain title is among the headlines. */
  lemma TitlesComplete(ts: seq<string>)
    ensures forall i :: 0 <= i < |ts| && SourceDelimiter in ts[i] ==>
              Strip(BeforeDelimiter(ts[i])) in Titles(ts)
    ensures forall i :: 0 <= i < |ts| && SourceDelimiter !in ts[i] && ts[i] !in InvalidTitles ==>
              ts[i] in Titles(ts)
  {
    forall i | 0 <= i < |ts| {
      TitleKept(ts, i);
    }
  }

  /** The number of delimited titles among `ts`. */
  function Delimited(ts: seq<string>): nat {
    if ts == [] then 0
    else Delimited(ts[..|ts| - 1]) + (if SourceDelimiter in ts[|ts| - 1] then 1 else 0)
  }

  /** Delimited titles skip the repeat check: every one of them adds a
      headline, even one already in the result. */
  lemma {:induction false} TitlesCountDelimited(ts: seq<string>)
    ensures |Titles(ts)| >= Delimited(ts)
  {
    if ts != [] {
      TitlesCountDelimited(ts[..|ts| - 1]);
    }
  }

  /** How many delimited titles among `ts` have the stripped head `x`. */
  function HeadCount(ts: seq<string>, x: string): nat {
    if ts == [] then 0
    else
      var last := ts[|ts| - 1];
      HeadCount(ts[..|ts| - 1], x)
      + (if SourceDelimiter in last && Strip(BeforeDelimiter(last)) == x then 1 else 0)
  }

  /** Plain titles are deduplicated in every feed: a headline occurs at most
      once more than the number of delimited titles whose stripped head it
      is, so a plain title already in the result is never added again. */
  lemma {:induction false} TitlesRepeats(ts: seq<string>, x: string)
    ensures multiset(Titles(ts))[x] <= 1 + HeadCount(ts, x)
  {
    if ts != [] {
      var init := ts[..|ts| - 1];
      var last := ts[|ts| - 1];
      var r := Titles(init);
      TitlesRepeats(init, x);
      assert Titles(ts) == AddTitle(r, last);
      if SourceDelimiter !in last && last !in InvalidTitles && last !in r {
        assert Titles(ts) == r + [last];
        if last == x {
          assert multiset(r)[x] == 0;
        }
      }
    }
  }

  /** Without delimited titles, no headline repeats and none is invalid. */
  lemma {:induction false} TitlesDistinct(ts: seq<string>)
    requires forall i :: 0 <= i < |ts| ==> SourceDelimiter !in ts[i]
    ensures Distinct(Titles(ts))
    ensures forall x :: x in Titles(ts) ==> x !in InvalidTitles
  {
    if ts != [] {
      TitlesDistinct(ts[..|ts| - 1]);
    }
  }
}
