/**
 * The student's documents screen: the category buttons, the category
 * filter and the message shown when nothing is listed.
 */
module StudentPdfsPage {

  import Lists
  import opened Models

  /** `categories`: each category once, in order of first appearance. */
  function Categories(pdfs: seq<Pdf>): (cs: seq<string>)
    ensures Lists.NoDups(cs)
    ensures forall i :: 0 <= i < |pdfs| ==> pdfs[i].category in cs
    ensures forall c :: c in cs ==> exists i :: 0 <= i < |pdfs| && pdfs[i].category == c
  {
    var all := CategoriesOf(pdfs);
    var cs := Lists.Distinct(all);
    assert forall c :: c in cs ==> pdfs[Lists.IndexOf(all, c)].category == c;
    cs
  }

  /** The categories come in the order of their first documents. */
  lemma CategoriesOrder(pdfs: seq<Pdf>)
    ensures var all := CategoriesOf(pdfs);
      forall i, j :: 0 <= i < j < |Categories(pdfs)| ==>
        Lists.IndexOf(all, Categories(pdfs)[i]) < Lists.IndexOf(all, Categories(pdfs)[j])
  {
    Lists.DistinctOrder(CategoriesOf(pdfs));
  }

  /** `filteredPdfs`: no selection shows everything; a selection keeps exact matches in order. */
  function Filtered(pdfs: seq<Pdf>, selected: string): (r: seq<Pdf>)
    ensures selected == [] ==> r == pdfs
    ensures selected != [] ==> forall p :: p in r <==> p in pdfs && p.category == selected
    ensures Lists.IsSubseq(r, pdfs)
    ensures selected != [] ==> forall p :: multiset(r)[p] == if p.category == selected then multiset(pdfs)[p] else 0
  {
    if selected == [] then
      Lists.SubseqRefl(pdfs);
      pdfs
    else
      Lists.FilterCounts(pdfs, CategoryIs(selected));
      Lists.Filter(pdfs, CategoryIs(selected))
  }

  /** The message shown when the filtered list is empty. */
  function EmptyMessage(pdfs: seq<Pdf>): string {
    if |pdfs| == 0 then "No documents available" else "No documents in selected category"
  }

  /** Picking an offered category lists at least one document. */
  lemma OfferedCategoryNonEmpty(pdfs: seq<Pdf>, selected: string)
    requires selected in Categories(pdfs) && selected != []
    ensures |Filtered(pdfs, selected)| > 0
  {
    var i :| 0 <= i < |pdfs| && pdfs[i].category == selected;
    assert pdfs[i] in Filtered(pdfs, selected);
  }

  /** With documents present, an empty list means a selection that matches none of them. */
  lemma EmptyOnlyUnderSelection(pdfs: seq<Pdf>, selected: string)
    requires |pdfs| > 0 && |Filtered(pdfs, selected)| == 0
    ensures selected != [] && selected !in Categories(pdfs)
    ensures EmptyMessage(pdfs) == "No documents in selected category"
  {
    if selected in Categories(pdfs) {
      OfferedCategoryNonEmpty(pdfs, selected);
    }
  }
}
