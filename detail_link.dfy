/** The address of a thesis's full-metadata view, made from its catalog link. */
module DetailLink {
  import opened Wrappers

  const Host: string := "https://cybertesis.unmsm.edu.pe"
  const FullSuffix: string := "/full"

  /** The host, then the link as the catalog gives it, then "/full". */
  function DetailUrl(link: string): (url: string)
    ensures |url| == |Host| + |link| + |FullSuffix|
    ensures url[..|Host|] == Host
    ensures url[|url| - |FullSuffix|..] == FullSuffix
    ensures url[|Host|..|url| - |FullSuffix|] == link
  {
    Host + link + FullSuffix
  }

  /** The catalog link a detail address was made from, if it is one. */
  function LinkOf(url: string): Option<string>
  {
    if |url| >= |Host| + |FullSuffix| && url[..|Host|] == Host && url[|url| - |FullSuffix|..] == FullSuffix
    then Some(url[|Host|..|url| - |FullSuffix|])
    else None
  }

  /** Every link is recovered from its detail address. */
  lemma LinkOfDetailUrl(link: string)
    ensures LinkOf(DetailUrl(link)) == Some(link)
  {
  }

  /** Every address `LinkOf` accepts is the detail address of the link it returns. */
  lemma DetailUrlOfLinkOf(url: string)
    requires LinkOf(url).Some?
    ensures DetailUrl(LinkOf(url).value) == url
  {
  }
}
