/** Site selection: the sites whose suburb is one of the configured regions. */
module Sites {

  /** One row of the site metadata table. */
  datatype SiteInfo = SiteInfo(siteId: int, suburb: string)

  /** The configured list of suburbs of interest. */
  const SelectedSuburbs: seq<string> := [
    "East Melbourne", "Richmond", "Cremorne", "Jolimont", "Melbourne", "South Yarra",
    "Southbank", "South Melbourne", "Fitzroy", "Collingwood"]

  /** The `site_id` column of the metadata rows whose suburb is in `suburbs`,
      in table order; suburb names match exactly (case-sensitive). */
  function SelectSites(meta: seq<SiteInfo>, suburbs: seq<string>): (ids: seq<int>)
    ensures |ids| <= |meta|
    ensures forall id :: id in ids <==> exists m :: m in meta && m.suburb in suburbs && m.siteId == id
  {
    if meta == [] then []
    else
      var rest := SelectSites(meta[1..], suburbs);
      assert forall m :: m in meta <==> m == meta[0] || m in meta[1..];
      if meta[0].suburb in suburbs then [meta[0].siteId] + rest else rest
  }

  /** The selection keeps the metadata table's order: selecting from two
      stacked tables stacks the two selections. */
  lemma {:induction false} SelectSitesConcat(a: seq<SiteInfo>, b: seq<SiteInfo>, suburbs: seq<string>)
    ensures SelectSites(a + b, suburbs) == SelectSites(a, suburbs) + SelectSites(b, suburbs)
  {
    if a == [] {
      assert a + b == b;
    } else {
      assert (a + b)[0] == a[0];
      assert (a + b)[1..] == a[1..] + b;
      SelectSitesConcat(a[1..], b, suburbs);
    }
  }

  /** With the configured suburbs, names match exactly: a "Richmond" site is
      selected, a "richmond" or a "Carlton" site is not. */
  lemma SelectedSuburbsExact()
    ensures SelectSites([SiteInfo(1, "Richmond"), SiteInfo(2, "richmond"), SiteInfo(3, "Carlton")],
                        SelectedSuburbs) == [1]
  {
    assert "richmond"[0] != "Richmond"[0];
    assert "richmond" !in SelectedSuburbs;
    assert "Carlton" !in SelectedSuburbs;
  }
}
