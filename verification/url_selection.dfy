/**
 `get_o365_endpoints_urls` of the minimal script: it walks the Office 365 response and,
 for every record whose `ips` is not None, rebinds the printed variable to that record's
 `urls`. The loop iterates the response it started with, so the rebinding does not
 change what is visited; what is printed is the `urls` of the last such record, or the
 whole response when no record has ranges.
 */
module UrlSelection {
  import opened Common
  import UrlFlattening
  import IpGrouping

  /** What the variable `urls_list` holds: the whole decoded response, or one record's
      `urls` value (a list, or None for `null`). */
  datatype UrlsList = Whole(records: seq<Record>) | Urls(value: Option<seq<string>>)

  /** `item.get("ips") is not None`: a present list qualifies even when it is empty. */
  predicate Qualifies(r: Record)
  {
    r.ips.Some?
  }

  /** The value `item["urls"]` binds for a qualifying record that has the key. */
  function Selected(r: Record): UrlsList
    requires UrlFlattening.HasUrlsKey(r)
  {
    Urls(UrlFlattening.UrlsValue(r))
  }

  /** The index of the last qualifying record among the first `n`, or -1. */
  function LastQualifying(rs: seq<Record>, n: nat): (k: int)
    requires n <= |rs|
    ensures -1 <= k < n
    ensures k >= 0 ==> Qualifies(rs[k])
    ensures forall j :: k < j < n ==> !Qualifies(rs[j])
  {
    if n == 0 then -1
    else if Qualifies(rs[n - 1]) then n - 1
    else LastQualifying(rs, n - 1)
  }

  /** The loop body's lookup raised, or has not yet, within the first `i` records. */
  predicate MissingUrls(rs: seq<Record>, i: nat)
    requires i <= |rs|
  {
    exists j :: 0 <= j < i && Qualifies(rs[j]) && rs[j].urls.Absent?
  }

  /** The loop of `get_o365_endpoints_urls` over the decoded response. A qualifying
      record without a `urls` key raises KeyError; otherwise the result is the last
      qualifying record's `urls`, and the response itself when none qualifies. */
  method GetO365EndpointsUrls(response: seq<Record>) returns (r: Result<UrlsList>)
    ensures r.Err? <==> MissingUrls(response, |response|)
    ensures r.Err? ==> r.error == KeyError("urls")
    ensures r.Ok? && (forall j :: 0 <= j < |response| ==> !Qualifies(response[j])) ==>
      r.value == Whole(response)
    ensures r.Ok? ==> forall j :: 0 <= j < |response| && Qualifies(response[j]) ==>
      (forall k :: j < k < |response| ==> !Qualifies(response[k])) ==>
      UrlFlattening.HasUrlsKey(response[j]) && r.value == Selected(response[j])
  {
    var urlsList := Whole(response);
    var i := 0;
    while i < |response|
      invariant 0 <= i <= |response|
      invariant !MissingUrls(response, i)
      invariant LastQualifying(response, i) < 0 ==> urlsList == Whole(response)
      invariant LastQualifying(response, i) >= 0 ==>
        UrlFlattening.HasUrlsKey(response[LastQualifying(response, i)]) &&
        urlsList == Selected(response[LastQualifying(response, i)])
    {
      var item := response[i];
      if item.ips.Some? {
        if item.urls.Absent? {
          assert MissingUrls(response, |response|);
          return Err(KeyError("urls"));
        }
        urlsList := Selected(item);
      }
      i := i + 1;
    }
    forall j | 0 <= j < |response| && Qualifies(response[j]) &&
      (forall k :: j < k < |response| ==> !Qualifies(response[k]))
      ensures LastQualifying(response, |response|) == j
    {
      LastQualifyingIs(response, |response|, j);
    }
    r := Ok(urlsList);
  }

  /** A qualifying record followed by none is the last qualifying one. */
  lemma LastQualifyingIs(rs: seq<Record>, n: nat, j: nat)
    requires j < n <= |rs| && Qualifies(rs[j])
    requires forall k :: j < k < n ==> !Qualifies(rs[k])
    ensures LastQualifying(rs, n) == j
  {
  }

  /** An empty `ips` list qualifies here but gives no service area in the grouping: the
      two scripts disagree on such a record. */
  lemma EmptyIpsContrast(name: string, urls: seq<string>)
    ensures Qualifies(Record(Some(name), Some([]), Present(urls)))
    ensures !IpGrouping.Contributes(Record(Some(name), Some([]), Present(urls)), name)
  {
  }
}
