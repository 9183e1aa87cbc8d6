/**
 * The locations list page: a server-paged list of location entries, twenty per
 * page, with a search over the current page and rows showing a
 * zero-padded id badge and the name with hyphens turned into spaces.
 */
module Locations {
  import opened Js
  import opened Text
  import ServerList

  const LocationsPerPage: nat := 20

  /** The page as first rendered: empty search, offset 0, nothing loaded yet, pages of twenty. */
  method NewLocationsPage() returns (page: ServerList.ServerListPage)
    ensures fresh(page)
    ensures page.pageSize == LocationsPerPage
    ensures page.searchQuery == "" && page.offset == 0 && page.data == None
    ensures page.Valid()
  {
    page := new ServerList.ServerListPage(LocationsPerPage);
  }

  /**
   * The id in a location URL: the digits of the leftmost "/digits/" segment,
   * or "" when the URL has none.
   */
  function GetLocationId(url: string): (id: string)
    ensures AllDigits(id)
    ensures id == "" <==> forall s, l :: !ServerList.IdPatternAt(url, s, l)
    ensures id != "" ==> exists s :: ServerList.FirstMatch(url, s, |id|) && id == url[s + 1..s + 1 + |id|]
  {
    ServerList.ResourceIdIsFirstMatch(url);
    ServerList.ResourceId(url)
  }

  /** `location.name.replaceAll('-', ' ')`: same length, no hyphen left, every other character kept. */
  function LocationName(name: string): (shown: string)
    ensures |shown| == |name|
    ensures '-' !in shown
    ensures forall i :: 0 <= i < |name| ==> shown[i] == (if name[i] == '-' then ' ' else name[i])
  {
    ServerList.DisplayName(name)
  }

  /** The badge text after '#': the id left-padded with zeros to at least three characters. */
  function LocationBadge(id: string): (badge: string)
    ensures |badge| == Max(3, |id|)
    ensures badge[|badge| - |id|..] == id
    ensures forall i :: 0 <= i < |badge| - |id| ==> badge[i] == '0'
  {
    ServerList.IdBadge(id)
  }
}
