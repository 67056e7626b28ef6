/** Listing-page URL synthesis (`rabbiPagination`): the last page number read
    from the pagination control becomes the ordered list of listing URLs
    `root&_paged=1`, …, `root&_paged=last`. */
module Pagination {
  import opened Options
  import opened Decimal

  /** The query-string fragment that selects a listing page. */
  const PageParam: string := "&_paged="

  /** The listing URL of page `n`: `${root}&_paged=${n}`. */
  function PageUrl(root: string, n: nat): (u: string)
    ensures |root + PageParam| < |u| && u[..|root + PageParam|] == root + PageParam
    ensures AllDigits(u[|root + PageParam|..])
  {
    var u := root + PageParam + NatToString(n);
    assert u[|root + PageParam|..] == NatToString(n);
    u
  }

  /** The page number a listing URL under `root` selects, if it is one. */
  function PageNumber(root: string, u: string): Option<nat> {
    var prefix := root + PageParam;
    if |prefix| < |u| && u[..|prefix|] == prefix && AllDigits(u[|prefix|..])
    then Some(ParseNat(u[|prefix|..]))
    else None
  }

  /** Every synthesized URL carries the page number it was made for. */
  lemma PageNumberOfPageUrl(root: string, n: nat)
    ensures PageNumber(root, PageUrl(root, n)) == Some(n)
  {
    var prefix := root + PageParam;
    var u := PageUrl(root, n);
    assert u[..|prefix|] == prefix;
    assert u[|prefix|..] == NatToString(n);
    ParseNatToString(n);
  }

  /** The listing URLs for a last page number, as a value. */
  function PageUrls(root: string, lastPage: int): seq<string> {
    seq(if lastPage < 1 then 0 else lastPage, k requires 0 <= k => PageUrl(root, k + 1))
  }

  /** The URL loop: one URL per page number `1 <= i <= lastPage`, ascending.
      A last page below 1 gives no URLs at all. */
  method RabbiPagination(root: string, lastPage: int) returns (urls: seq<string>)
    ensures |urls| == if lastPage < 1 then 0 else lastPage
    ensures forall k :: 0 <= k < |urls| ==> urls[k] == PageUrl(root, k + 1)
  {
    urls := [];
    var i := 1;
    while i <= lastPage
      invariant 1 <= i && (lastPage < 1 ==> i == 1) && (1 <= lastPage ==> i <= lastPage + 1)
      invariant |urls| == i - 1
      invariant forall k :: 0 <= k < |urls| ==> urls[k] == PageUrl(root, k + 1)
    {
      urls := urls + [PageUrl(root, i)];
      i := i + 1;
    }
  }

  /** The listing URLs name pages 1, 2, … in order, so they are pairwise
      distinct and strictly ascending by page number. */
  lemma PagesAscending(root: string, urls: seq<string>)
    requires forall k :: 0 <= k < |urls| ==> urls[k] == PageUrl(root, k + 1)
    ensures forall k :: 0 <= k < |urls| ==> PageNumber(root, urls[k]) == Some(k + 1)
    ensures forall j, k :: 0 <= j < k < |urls| ==> urls[j] != urls[k]
  {
    forall k | 0 <= k < |urls|
      ensures PageNumber(root, urls[k]) == Some(k + 1)
    {
      PageNumberOfPageUrl(root, k + 1);
    }
  }

  /** Four pages give exactly the four URLs `root&_paged=1` … `root&_paged=4`. */
  lemma FourPages(root: string, urls: seq<string>)
    requires |urls| == 4
    requires forall k :: 0 <= k < |urls| ==> urls[k] == PageUrl(root, k + 1)
    ensures urls == [root + "&_paged=1", root + "&_paged=2", root + "&_paged=3", root + "&_paged=4"]
  {
    forall k | 0 <= k < 4
      ensures urls[k] == root + (PageParam + [DigitChar(k + 1)])
    {
      assert NatToString(k + 1) == [DigitChar(k + 1)];
    }
    assert PageParam + [DigitChar(1)] == "&_paged=1";
    assert PageParam + [DigitChar(2)] == "&_paged=2";
    assert PageParam + [DigitChar(3)] == "&_paged=3";
    assert PageParam + [DigitChar(4)] == "&_paged=4";
  }
}
