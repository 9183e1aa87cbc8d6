/**
 * What the server-paged list pages (locations and berries) share: the
 * page state (search query and offset, with the server's current page of
 * results), the guarded next/previous transitions that follow the
 * server's `next`/`previous` links, the search that filters only the
 * current page, and the extraction of a resource id from its URL with
 * the regular expression `/\/(\d+)\//`.
 */
module ServerList {
  import opened Js
  import opened Text
  import opened PokeApi
  import Paging
  import Search

  // ---------------------------------------------------------------------
  // The id pattern /\/(\d+)\//
  // ---------------------------------------------------------------------

  /** The pattern matches at `start`: a slash, `len >= 1` digits (the capture), a slash. */
  ghost predicate IdPatternAt(url: string, start: int, len: int) {
    && 0 <= start && len >= 1 && start + len + 1 < |url|
    && url[start] == '/'
    && AllDigits(url[start + 1..start + 1 + len])
    && url[start + 1 + len] == '/'
  }

  /** The match at `start` is the leftmost one, as `String.prototype.match` reports. */
  ghost predicate FirstMatch(url: string, start: int, len: int) {
    IdPatternAt(url, start, len) && forall s, l :: 0 <= s < start ==> !IdPatternAt(url, s, l)
  }

  /** No match of the pattern starts at an index in `lo..hi`. */
  ghost predicate NoMatchBetween(url: string, lo: int, hi: int) {
    forall s, l :: lo <= s < hi ==> !IdPatternAt(url, s, l)
  }

  /** A match's capture is the whole digit run after its slash. */
  lemma MatchIsDigitRun(url: string, start: int, len: int)
    requires IdPatternAt(url, start, len)
    ensures len == DigitRun(url[start + 1..])
  {
    assert url[start + 1..][..len] == url[start + 1..start + 1 + len];
    DigitRunExact(url[start + 1..], len);
  }

  /** The scanner's test at index `i`: a slash, a non-empty digit run, then a slash. */
  predicate MatchesAt(url: string, i: nat)
    requires i < |url|
  {
    var n := DigitRun(url[i + 1..]);
    url[i] == '/' && n >= 1 && i + 1 + n < |url| && url[i + 1 + n] == '/'
  }

  /** The scanner's test succeeds exactly when the pattern matches at `i`, with the digit run as capture. */
  lemma MatchesAtIff(url: string, i: nat)
    requires i < |url|
    ensures MatchesAt(url, i) ==> IdPatternAt(url, i, DigitRun(url[i + 1..]))
    ensures forall l :: IdPatternAt(url, i, l) ==> MatchesAt(url, i) && l == DigitRun(url[i + 1..])
  {
    var n := DigitRun(url[i + 1..]);
    assert url[i + 1..][..n] == url[i + 1..i + 1 + n];
    forall l | IdPatternAt(url, i, l) ensures l == n {
      MatchIsDigitRun(url, i, l);
    }
  }

  /** The capture of the leftmost match at or after index `i`, or "" when there is none. */
  function MatchFrom(url: string, i: nat): (capture: string)
    requires i <= |url|
    ensures AllDigits(capture)
    decreases |url| - i
  {
    if i == |url| then ""
    else if MatchesAt(url, i) then url[i + 1..][..DigitRun(url[i + 1..])]
    else MatchFrom(url, i + 1)
  }

  /** When the scanner matches at `i`, its capture is the digits between the two slashes. */
  lemma MatchFromHere(url: string, i: nat)
    requires i < |url| && MatchesAt(url, i)
    ensures MatchFrom(url, i) == url[i + 1..i + 1 + DigitRun(url[i + 1..])]
    ensures MatchFrom(url, i) != ""
  {
    var n := DigitRun(url[i + 1..]);
    assert url[i + 1..][..n] == url[i + 1..i + 1 + n];
  }

  /** `MatchFrom` finds the leftmost match at or after `i`, and finds none only when there is none. */
  lemma {:induction false} MatchFromIsLeftmost(url: string, i: nat) returns (start: int)
    requires i <= |url|
    ensures MatchFrom(url, i) != "" ==>
              i <= start && IdPatternAt(url, start, |MatchFrom(url, i)|)
              && MatchFrom(url, i) == url[start + 1..start + 1 + |MatchFrom(url, i)|]
              && NoMatchBetween(url, i, start)
    ensures MatchFrom(url, i) == "" ==> NoMatchBetween(url, i, |url|)
    decreases |url| - i
  {
    if i == |url| {
      start := i;
    } else {
      MatchesAtIff(url, i);
      if MatchesAt(url, i) {
        start := i;
        MatchFromHere(url, i);
      } else {
        start := MatchFromIsLeftmost(url, i + 1);
        assert NoMatchBetween(url, i, i + 1);
      }
    }
  }

  /** `url.match(/\/(\d+)\//)`: the first capture, or '' when the URL has no such segment. */
  function ResourceId(url: string): (id: string)
    ensures AllDigits(id)
  {
    MatchFrom(url, 0)
  }

  /**
   * The id is empty exactly when no "/digits/" segment occurs, and
   * otherwise it is the digits of the leftmost one.
   */
  lemma ResourceIdIsFirstMatch(url: string)
    ensures ResourceId(url) == "" <==> forall s, l :: !IdPatternAt(url, s, l)
    ensures ResourceId(url) != "" ==>
              exists s :: FirstMatch(url, s, |ResourceId(url)|) && ResourceId(url) == url[s + 1..s + 1 + |ResourceId(url)|]
  {
    var start := MatchFromIsLeftmost(url, 0);
    if ResourceId(url) != "" {
      assert FirstMatch(url, start, |ResourceId(url)|);
    }
  }

  /** A match that starts inside `prefix` of `prefix + "/" + digits + "/"` is already a match of `prefix + "/"`. */
  lemma MatchInPrefix(prefix: string, digits: string, s: int, l: int)
    requires IdPatternAt(prefix + "/" + digits + "/", s, l)
    requires s < |prefix|
    ensures IdPatternAt(prefix + "/", s, l)
  {
    var url := prefix + "/" + digits + "/";
    MatchIsDigitRun(url, s, l);
    DigitRunStopsAt(url[s + 1..], |prefix| - (s + 1));
    assert url[..|prefix| + 1] == prefix + "/";
    assert (prefix + "/")[s + 1..s + 1 + l] == url[s + 1..s + 1 + l];
  }

  /** A detail URL ending in "/<number>/" with no earlier "/digits/" segment yields that number. */
  lemma ResourceIdOfDetailUrl(prefix: string, n: nat)
    requires forall s, l :: !IdPatternAt(prefix + "/", s, l)
    ensures ResourceId(prefix + "/" + NatToString(n) + "/") == NatToString(n)
  {
    var digits := NatToString(n);
    var url := prefix + "/" + digits + "/";
    var start := |prefix|;
    assert url[start + 1..start + 1 + |digits|] == digits;
    assert IdPatternAt(url, start, |digits|);
    var found := MatchFromIsLeftmost(url, 0);
    if found < start {
      MatchInPrefix(prefix, digits, found, |ResourceId(url)|);
    }
    MatchIsDigitRun(url, found, |ResourceId(url)|);
    MatchIsDigitRun(url, start, |digits|);
  }

  // ---------------------------------------------------------------------
  // Row formatting
  // ---------------------------------------------------------------------

  /** `name.replaceAll('-', ' ')`: every hyphen becomes a space, nothing else changes. */
  function DisplayName(name: string): (shown: string)
    ensures |shown| == |name|
    ensures '-' !in shown
    ensures forall i :: 0 <= i < |name| && name[i] != '-' ==> shown[i] == name[i]
    ensures forall i :: 0 <= i < |name| && name[i] == '-' ==> shown[i] == ' '
  {
    ReplaceChar(name, '-', ' ')
  }

  /** `id.padStart(3, '0')`: at least three characters, zeros in front, the id as suffix. */
  function IdBadge(id: string): (badge: string)
    ensures |badge| == Max(3, |id|)
    ensures badge[|badge| - |id|..] == id
    ensures forall i :: 0 <= i < |badge| - |id| ==> badge[i] == '0'
  {
    PadStart(id, 3, '0')
  }

  // ---------------------------------------------------------------------
  // Page state
  // ---------------------------------------------------------------------

  /** A server-paged, searchable list page. */
  class ServerListPage {
    const pageSize: nat
    var searchQuery: string
    var offset: int
    var data: Option<ResourceList>

    /** The offset is a non-negative whole number of pages. */
    ghost predicate Valid()
      reads this
    {
      pageSize > 0 && offset >= 0 && offset % pageSize == 0
    }

    constructor (pageSize: nat)
      requires pageSize > 0
      ensures this.pageSize == pageSize
      ensures searchQuery == "" && offset == 0 && data == None
      ensures Valid()
    {
      this.pageSize := pageSize;
      searchQuery := "";
      offset := 0;
      data := None;
    }

    /** `data?.data?.results || []`: the current page's entries, none before the first response. */
    function Results(): seq<NamedApiResource>
      reads this
    {
      if data.Some? then data.value.results else []
    }

    /** `data?.data?.count || 0`: the server's total, 0 before the first response. */
    function TotalCount(): nat
      reads this
    {
      if data.Some? then data.value.count else 0
    }

    /** `!!data?.data?.next`: the server gave a non-empty next link. */
    predicate HasNext()
      reads this
    {
      data.Some? && TruthyString(data.value.next)
    }

    /** `!!data?.data?.previous`: the server gave a non-empty previous link. */
    predicate HasPrevious()
      reads this
    {
      data.Some? && TruthyString(data.value.previous)
    }

    /** `Math.ceil(totalCount / pageSize)`: the fewest pages that hold the server's total. */
    function TotalPages(): (pages: nat)
      reads this
      requires Valid()
      ensures pages * pageSize >= TotalCount()
      ensures pages > 0 ==> (pages - 1) * pageSize < TotalCount()
      ensures data.None? ==> pages == 0
    {
      Paging.TotalPages(TotalCount(), pageSize)
    }

    /** `Math.floor(offset / pageSize) + 1`: the page that starts at the offset. */
    function CurrentPage(): (page: int)
      reads this
      requires Valid()
      ensures page >= 1 && (page - 1) * pageSize == offset
    {
      Paging.CurrentPageOfMultiple(offset / pageSize, pageSize);
      Paging.CurrentPage(offset, pageSize)
    }

    /**
     * The rows shown: nothing before the first response; without a query
     * the current page unchanged; with one, exactly the current page's
     * entries whose name matches.
     */
    function FilteredResults(): (rows: seq<NamedApiResource>)
      reads this
      ensures data.None? ==> rows == []
      ensures searchQuery == "" ==> rows == Results()
      ensures forall r :: r in rows ==> r in Results() && Search.NameMatches(r.name, searchQuery)
      ensures forall j :: 0 <= j < |Results()| && Search.NameMatches(Results()[j].name, searchQuery) ==> Results()[j] in rows
    {
      SearchIsPageLocal(Results(), searchQuery);
      Search.FilterKeepsMatches(Results(), ResourceName, searchQuery);
      Search.Filter(Results(), ResourceName, searchQuery)
    }

    /**
     * Pagination controls are rendered below a non-empty table only, and
     * there only while not searching and when the server gave a next or
     * previous link. Whenever they are shown, the table is the server's
     * whole current page.
     */
    predicate PaginationShown()
      reads this
      ensures PaginationShown() ==> data.Some? && Results() != [] && FilteredResults() == Results()
      ensures PaginationShown() <==> searchQuery == "" && Results() != [] && (HasNext() || HasPrevious())
    {
      |FilteredResults()| > 0 && searchQuery == "" && (HasNext() || HasPrevious())
    }

    /** The list query for the current offset resolved with `response`. */
    method ReceiveData(response: ResourceList)
      requires Valid()
      modifies this
      ensures data == Some(response)
      ensures searchQuery == old(searchQuery) && offset == old(offset)
      ensures Valid()
    {
      data := Some(response);
    }

    /** `handleSearchChange`: store the query and go back to the first page. */
    method HandleSearchChange(value: string)
      requires Valid()
      modifies this
      ensures searchQuery == value && offset == 0 && data == old(data)
      ensures Valid()
    {
      searchQuery := value;
      offset := 0;
    }

    /** `handleNextPage`: one page forward, only when the server gave a next link. */
    method HandleNextPage()
      requires Valid()
      modifies this
      ensures offset == if old(HasNext()) then old(offset) + pageSize else old(offset)
      ensures searchQuery == old(searchQuery) && data == old(data)
      ensures Valid()
    {
      if HasNext() {
        Paging.MultipleStep(offset, pageSize);
        offset := offset + pageSize;
      }
    }

    /** `handlePreviousPage`: one page back, floored at 0, only when the server gave a previous link. */
    method HandlePreviousPage()
      requires Valid()
      modifies this
      ensures offset == if old(HasPrevious()) then Max(0, old(offset) - pageSize) else old(offset)
      ensures searchQuery == old(searchQuery) && data == old(data)
      ensures Valid()
    {
      if HasPrevious() {
        Paging.MultipleStep(offset, pageSize);
        offset := Max(0, offset - pageSize);
      }
    }
  }

  /**
   * The search only ever narrows the server's current page: without a
   * query it is that page unchanged, and with one every row shown is an
   * entry of that page whose name matches.
   */
  lemma SearchIsPageLocal(results: seq<NamedApiResource>, query: string)
    ensures Search.Filter(results, ResourceName, "") == results
    ensures forall r :: r in Search.Filter(results, ResourceName, query) ==>
              r in results && Search.NameMatches(r.name, query)
  {
    Search.FilterEmptyQuery(results, ResourceName);
    var idx := Search.FilterPositions(results, ResourceName, query);
  }
}
