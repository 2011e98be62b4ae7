/**
 * The public home page's notice strip: the three most recent public
 * documents.
 */
module HomePage {

  import opened Wrappers
  import Lists
  import opened Models
  import NoticesPage

  /**
   * `fetchNotices`: the response copied, sorted newest first and cut to
   * three. At most three, all taken from the response, newest first, and
   * no document left out is newer than one kept.
   */
  function Latest(response: seq<Pdf>): (r: seq<Pdf>)
    ensures |r| == if |response| < 3 then |response| else 3
    ensures forall i :: 0 <= i < |r| ==> r[i] in response
    ensures Lists.SortedDesc(r, UploadDate)
    ensures forall y :: y in response && y !in r ==> forall i :: 0 <= i < |r| ==> y.uploadDate <= r[i].uploadDate
  {
    LatestFacts(response);
    Lists.Take(NoticesPage.NewestFirst(response), 3)
  }

  lemma LatestFacts(response: seq<Pdf>)
    ensures var r := Lists.Take(NoticesPage.NewestFirst(response), 3);
      (forall i :: 0 <= i < |r| ==> r[i] in response)
      && Lists.SortedDesc(r, UploadDate)
      && forall y :: y in response && y !in r ==> forall i :: 0 <= i < |r| ==> y.uploadDate <= r[i].uploadDate
  {
    var sorted := NoticesPage.NewestFirst(response);
    var r := Lists.Take(sorted, 3);
    forall i | 0 <= i < |r| ensures r[i] in response {
      assert r[i] == sorted[i];
      assert r[i] in multiset(sorted);
    }
    forall y | y in response && y !in r
      ensures forall i :: 0 <= i < |r| ==> y.uploadDate <= r[i].uploadDate
    {
      LeftOutIsOlder(sorted, r, y);
    }
  }

  lemma LeftOutIsOlder(sorted: seq<Pdf>, r: seq<Pdf>, y: Pdf)
    requires Lists.SortedDesc(sorted, UploadDate) && |r| <= |sorted| && r == sorted[..|r|]
    requires y in multiset(sorted) && y !in r
    ensures forall i :: 0 <= i < |r| ==> y.uploadDate <= r[i].uploadDate
  {
    var j := Lists.IndexOf(sorted, y);
    forall i | 0 <= i < |r| ensures y.uploadDate <= r[i].uploadDate {
      assert r[i] == sorted[i];
      assert UploadDate(sorted[i]) >= UploadDate(sorted[j]);
    }
  }

  /** The notice strip after the fetch: a failed request leaves it as it was. */
  function AfterFetch(notices: seq<Pdf>, response: Option<seq<Pdf>>): (r: seq<Pdf>)
    ensures response.None? ==> r == notices
    ensures response.Some? ==> r == Latest(response.value)
  {
    match response
    case None => notices
    case Some(docs) => Latest(docs)
  }

  /** The strip starts empty, so a failed first fetch shows no notices. */
  lemma FailedFirstFetch()
    ensures AfterFetch([], None) == []
  {
  }
}
