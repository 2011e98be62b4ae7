/**
 * The public notices screen: the fetched documents are kept newest first,
 * the category buttons are `ALL` followed by the categories present, and a
 * category other than `ALL` keeps its documents in that order.
 */
module NoticesPage {

  import opened Wrappers
  import Lists
  import opened Models

  const LoadFailed := "Unable to load notices at the moment."

  /**
   * `[...response.data].sort(...)`: a sorted copy, newest upload first;
   * documents uploaded at the same time keep their response order.
   */
  function NewestFirst(response: seq<Pdf>): (r: seq<Pdf>)
    ensures multiset(r) == multiset(response)
    ensures Lists.SortedDesc(r, UploadDate)
    ensures forall t :: Lists.Filter(r, Lists.KeyIs(UploadDate, t)) == Lists.Filter(response, Lists.KeyIs(UploadDate, t))
  {
    Lists.SortDescSorted(response, UploadDate);
    forall t ensures Lists.Filter(Lists.SortDesc(response, UploadDate), Lists.KeyIs(UploadDate, t))
                  == Lists.Filter(response, Lists.KeyIs(UploadDate, t)) {
      Lists.SortDescStable(response, UploadDate, t);
    }
    Lists.SortDesc(response, UploadDate)
  }

  /** The screen's `pdfs` and `error` once the fetch has settled. */
  datatype Loaded = Loaded(pdfs: seq<Pdf>, error: string)

  /** The fetch: `None` is a failed request, which keeps the initial empty list. */
  function Fetch(response: Option<seq<Pdf>>): (l: Loaded)
    ensures response.None? ==> l == Loaded([], LoadFailed)
    ensures response.Some? ==> l == Loaded(NewestFirst(response.value), "")
  {
    match response
    case None => Loaded([], LoadFailed)
    case Some(docs) => Loaded(NewestFirst(docs), "")
  }

  /** `categories`: `ALL`, then each category once in the order of the sorted list. */
  function Categories(pdfs: seq<Pdf>): (cs: seq<string>)
    ensures |cs| >= 1 && cs[0] == "ALL"
    ensures Lists.NoDups(cs[1..])
    ensures forall i :: 0 <= i < |pdfs| ==> pdfs[i].category in cs[1..]
    ensures forall c :: c in cs[1..] ==> exists i :: 0 <= i < |pdfs| && pdfs[i].category == c
  {
    var all := CategoriesOf(pdfs);
    var d := Lists.Distinct(all);
    assert forall c :: c in d ==> pdfs[Lists.IndexOf(all, c)].category == c;
    assert (["ALL"] + d)[1..] == d;
    ["ALL"] + d
  }

  /** After `ALL`, the categories come in the order of their first notices. */
  lemma CategoriesOrder(pdfs: seq<Pdf>)
    ensures var all := CategoriesOf(pdfs);
      forall i, j :: 1 <= i < j < |Categories(pdfs)| ==>
        Lists.IndexOf(all, Categories(pdfs)[i]) < Lists.IndexOf(all, Categories(pdfs)[j])
  {
    var d := Lists.Distinct(CategoriesOf(pdfs));
    Lists.DistinctOrder(CategoriesOf(pdfs));
    assert forall i :: 1 <= i < |Categories(pdfs)| ==> Categories(pdfs)[i] == d[i - 1];
  }

  /** `filtered`: `ALL` shows every notice; another category keeps its exact matches. */
  function Filtered(pdfs: seq<Pdf>, selected: string): (r: seq<Pdf>)
    ensures selected == "ALL" ==> r == pdfs
    ensures selected != "ALL" ==> forall p :: p in r <==> p in pdfs && p.category == selected
    ensures Lists.IsSubseq(r, pdfs)
    ensures selected != "ALL" ==> forall p :: multiset(r)[p] == if p.category == selected then multiset(pdfs)[p] else 0
  {
    if selected == "ALL" then
      Lists.SubseqRefl(pdfs);
      pdfs
    else
      Lists.FilterCounts(pdfs, CategoryIs(selected));
      Lists.Filter(pdfs, CategoryIs(selected))
  }

  /** Whatever is selected, the fetched notices shown stay newest first. */
  lemma FilteredNewestFirst(response: seq<Pdf>, selected: string)
    ensures Lists.SortedDesc(Filtered(NewestFirst(response), selected), UploadDate)
  {
    if selected != "ALL" {
      Lists.FilterSortedDesc(NewestFirst(response), CategoryIs(selected), UploadDate);
    }
  }
}
