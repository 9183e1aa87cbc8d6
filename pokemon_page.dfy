/**
 * The Pokemon list page: the whole collection is held on the client, an
 * empty search shows one page of 24, a non-empty search shows every
 * match, and page-jump buttons show a sliding window of at most seven
 * page numbers. The page state is the pair (search query, offset).
 */
module PokemonPage {
  import opened Js
  import opened Text
  import Paging
  import Search

  const PokemonPerPage: nat := 24
  const MaxPageButtons: nat := 7

  datatype Pokemon = Pokemon(id: nat, name: string)

  /** The GraphQL list response: `pokemon` and `pokemon_aggregate.aggregate.count`. */
  datatype PokemonListResponse = PokemonListResponse(pokemon: seq<Pokemon>, aggregateCount: Option<nat>)

  function PokemonName(p: Pokemon): string {
    p.name
  }

  /**
   * `filteredPokemon`: without a query, the page starting at `offset`;
   * with a query, every matching Pokemon of the whole collection.
   */
  function VisiblePokemon(all: seq<Pokemon>, query: string, offset: nat): (visible: seq<Pokemon>)
    ensures query == "" ==> |visible| == Max(0, Min(PokemonPerPage, |all| - offset))
    ensures query == "" ==> forall i :: 0 <= i < |visible| ==> visible[i] == all[offset + i]
    ensures query != "" ==> forall i :: 0 <= i < |visible| ==> Search.NameMatches(visible[i].name, query)
    ensures query != "" ==> forall j :: 0 <= j < |all| && Search.NameMatches(all[j].name, query) ==> all[j] in visible
  {
    if query == "" then Paging.Slice(all, offset, offset + PokemonPerPage)
    else
      Search.FilterKeepsMatches(all, PokemonName, query);
      Search.Filter(all, PokemonName, query)
  }

  /** Browsing without a query never shows more than one page. */
  lemma BrowsingShowsAtMostOnePage(all: seq<Pokemon>, offset: nat)
    ensures |VisiblePokemon(all, "", offset)| <= PokemonPerPage
    ensures offset < |all| ==> VisiblePokemon(all, "", offset) == all[offset..Min(offset + PokemonPerPage, |all|)]
  {
  }

  /**
   * A search shows exactly the Pokemon whose lower-cased name contains the
   * lower-cased query, in collection order, whatever the offset is.
   */
  lemma SearchShowsAllMatches(all: seq<Pokemon>, query: string, offset: nat, otherOffset: nat)
    requires query != ""
    ensures VisiblePokemon(all, query, offset) == VisiblePokemon(all, query, otherOffset)
    ensures exists idx: seq<nat> ::
      && |idx| == |VisiblePokemon(all, query, offset)|
      && (forall i, j :: 0 <= i < j < |idx| ==> idx[i] < idx[j])
      && (forall i :: 0 <= i < |idx| ==> idx[i] < |all| && VisiblePokemon(all, query, offset)[i] == all[idx[i]])
      && (forall j :: 0 <= j < |all| ==> (Search.NameMatches(all[j].name, query) <==> j in idx))
  {
    var idx := Search.FilterPositions(all, PokemonName, query);
  }

  /** The number on page-jump button `i`. */
  function PageButtonNumber(totalPages: nat, currentPage: int, i: nat): int {
    if totalPages <= 7 then i + 1
    else if currentPage <= 4 then i + 1
    else if currentPage >= totalPages - 3 then totalPages - 6 + i
    else currentPage - 3 + i
  }

  /**
   * The page-jump buttons: `Math.min(totalPages, 7)` consecutive page
   * numbers inside 1..totalPages, including the current page when that
   * is a real page.
   */
  function PageButtons(totalPages: nat, currentPage: int): (pages: seq<int>)
    ensures |pages| == Min(totalPages, MaxPageButtons)
    ensures forall i :: 0 <= i < |pages| ==> 1 <= pages[i] <= totalPages
    ensures forall i :: 0 < i < |pages| ==> pages[i] == pages[i - 1] + 1
    ensures 1 <= currentPage <= totalPages ==> currentPage in pages
  {
    var pages := seq(Min(totalPages, MaxPageButtons), i requires 0 <= i < Min(totalPages, MaxPageButtons) =>
      PageButtonNumber(totalPages, currentPage, i));
    if 1 <= currentPage <= totalPages then
      assert pages[currentPage - pages[0]] == currentPage;
      pages
    else
      pages
  }

  /**
   * With more than seven pages the window starts at the current page
   * minus three, clamped to 1 at the front and to totalPages - 6 at the
   * back; away from both ends the current page is the middle button.
   */
  lemma PageButtonsClampedWindow(totalPages: nat, currentPage: int)
    requires totalPages > MaxPageButtons
    ensures PageButtons(totalPages, currentPage)[0] == Max(1, Min(currentPage - 3, totalPages - 6))
    ensures 4 < currentPage < totalPages - 3 ==> PageButtons(totalPages, currentPage)[3] == currentPage
  {
  }

  /** Twenty pages: page 10 shows 7..13 and page 19 shows 14..20. */
  lemma PageButtonsExamples()
    ensures PageButtons(20, 10) == [7, 8, 9, 10, 11, 12, 13]
    ensures PageButtons(20, 19) == [14, 15, 16, 17, 18, 19, 20]
    ensures PageButtons(5, 1) == [1, 2, 3, 4, 5]
  {
  }

  /** "char" matches charmander and charizard but not squirtle. */
  lemma CharMatches()
    ensures Search.NameMatches("charmander", "char")
    ensures Search.NameMatches("charizard", "char")
    ensures !Search.NameMatches("squirtle", "char")
  {
    assert Lower("char") == "char";
    assert Lower("charmander") == "charmander";
    assert Lower("charizard") == "charizard";
    assert Lower("squirtle") == "squirtle";
    assert StartsWith("charmander", "char") && StartsWith("charizard", "char");
    AbsentFirstChar("squirtle", "char");
  }

  /** Searching "char" among charmander, squirtle and charizard keeps charmander and charizard, in order. */
  lemma SearchExample()
    ensures VisiblePokemon([Pokemon(4, "charmander"), Pokemon(7, "squirtle"), Pokemon(6, "charizard")], "char", 0)
            == [Pokemon(4, "charmander"), Pokemon(6, "charizard")]
  {
    var c4, s7, c6 := Pokemon(4, "charmander"), Pokemon(7, "squirtle"), Pokemon(6, "charizard");
    var keep := Search.Matcher(PokemonName, "char");
    CharMatches();
    assert PokemonName(c4) == "charmander" && PokemonName(s7) == "squirtle" && PokemonName(c6) == "charizard";
    assert keep(c4) == Search.NameMatches(PokemonName(c4), "char");
    assert keep(s7) == Search.NameMatches(PokemonName(s7), "char");
    assert keep(c6) == Search.NameMatches(PokemonName(c6), "char");
    KeepFirstAndLast(c4, s7, c6, keep);
  }

  /** Filtering three items that keeps the outer two and drops the middle one. */
  lemma KeepFirstAndLast<T>(a: T, b: T, c: T, keep: T -> bool)
    requires keep(a) && !keep(b) && keep(c)
    ensures Search.Keep([a, b, c], keep) == [a, c]
  {
    assert [c][1..] == [];
    assert Search.Keep([c], keep) == [c] + Search.Keep([], keep) == [c];
    assert [b, c][1..] == [c];
    assert Search.Keep([b, c], keep) == Search.Keep([c], keep);
    assert [a, b, c][1..] == [b, c];
    assert Search.Keep([a, b, c], keep) == [a] + Search.Keep([b, c], keep);
  }

  /** `#` badge text: `String(id).padStart(3, '0')`. */
  function IdBadge(id: nat): (badge: string)
    ensures |badge| == Max(3, |NatToString(id)|)
    ensures badge[|badge| - |NatToString(id)|..] == NatToString(id)
    ensures forall i :: 0 <= i < |badge| - |NatToString(id)| ==> badge[i] == '0'
  {
    PadStart(NatToString(id), 3, '0')
  }

  /** The page's state: the search box and the offset, plus the last list response. */
  class PokemonListPage {
    var searchQuery: string
    var offset: int
    var data: Option<PokemonListResponse>

    /** The offset is a non-negative whole number of pages. */
    ghost predicate Valid()
      reads this
    {
      offset >= 0 && offset % PokemonPerPage == 0
    }

    /** The offset is the first page or lies before the end of the collection. */
    ghost predicate InRange()
      reads this
    {
      offset == 0 || offset < TotalCount()
    }

    constructor ()
      ensures Valid() && InRange()
      ensures searchQuery == "" && offset == 0 && data == None
    {
      searchQuery := "";
      offset := 0;
      data := None;
    }

    /** `allPokemonData?.pokemon || []`. */
    function AllPokemon(): seq<Pokemon>
      reads this
    {
      if data.Some? then data.value.pokemon else []
    }

    /** `allPokemonData?.pokemon_aggregate?.aggregate?.count || 0`. */
    function TotalCount(): nat
      reads this
    {
      if data.Some? then CountOrZero(data.value.aggregateCount) else 0
    }

    /** `Math.ceil(totalCount / 24)`: the fewest pages of 24 that hold the collection. */
    function TotalPages(): (pages: nat)
      reads this
      ensures pages * PokemonPerPage >= TotalCount()
      ensures pages > 0 ==> (pages - 1) * PokemonPerPage < TotalCount()
    {
      Paging.TotalPages(TotalCount(), PokemonPerPage)
    }

    /** `Math.floor(offset / 24) + 1`: the page holding the offset, which starts it in every valid state. */
    function CurrentPage(): (page: int)
      reads this
      ensures (page - 1) * PokemonPerPage <= offset < page * PokemonPerPage
      ensures Valid() ==> page >= 1 && (page - 1) * PokemonPerPage == offset
    {
      Paging.CurrentPageOfMultiple(offset / PokemonPerPage, PokemonPerPage);
      Paging.CurrentPage(offset, PokemonPerPage)
    }

    /** `offset + 24 < totalCount`: in a valid state, exactly when a later page exists. */
    predicate HasNext()
      reads this
      ensures Valid() ==> (HasNext() <==> CurrentPage() < TotalPages())
    {
      Paging.PageStartInRange(CurrentPage() + 1, PokemonPerPage, TotalCount());
      offset + PokemonPerPage < TotalCount()
    }

    /** `offset > 0`: in a valid state, exactly when the current page is not the first. */
    predicate HasPrevious()
      reads this
      ensures Valid() ==> (HasPrevious() <==> CurrentPage() > 1)
    {
      offset > 0
    }

    /**
     * `filteredPokemon`: without a query, the page of 24 (fewer at the
     * end) from the offset on; with one, every matching Pokemon and
     * nothing else.
     */
    function FilteredPokemon(): (visible: seq<Pokemon>)
      reads this
      requires Valid()
      ensures searchQuery == "" ==> |visible| == Max(0, Min(PokemonPerPage, |AllPokemon()| - offset))
      ensures searchQuery == "" ==> forall i :: 0 <= i < |visible| ==> visible[i] == AllPokemon()[offset + i]
      ensures searchQuery != "" ==> forall i :: 0 <= i < |visible| ==> Search.NameMatches(visible[i].name, searchQuery)
      ensures searchQuery != "" ==>
                forall j :: 0 <= j < |AllPokemon()| && Search.NameMatches(AllPokemon()[j].name, searchQuery) ==> AllPokemon()[j] in visible
    {
      VisiblePokemon(AllPokemon(), searchQuery, offset)
    }

    /** The page-jump buttons: at most seven real pages, the current one among them in every reachable state. */
    function PageNumbers(): (pages: seq<int>)
      reads this
      ensures |pages| == Min(TotalPages(), MaxPageButtons)
      ensures forall i :: 0 <= i < |pages| ==> 1 <= pages[i] <= TotalPages()
      ensures Valid() && InRange() && TotalCount() > 0 ==> CurrentPage() in pages
    {
      CurrentPageButtonShown(offset, TotalCount());
      PageButtons(TotalPages(), CurrentPage())
    }

    /**
     * Pagination controls are rendered below a non-empty grid only, and
     * there only while not searching and when there is somewhere to go:
     * in every reachable state, exactly when the grid is not empty, no
     * search is active and there is more than one page.
     */
    predicate PaginationShown()
      reads this
      requires Valid()
      ensures InRange() ==> (PaginationShown() <==> searchQuery == "" && |FilteredPokemon()| > 0 && TotalPages() > 1)
      ensures PaginationShown() ==> offset < |AllPokemon()|
    {
      CurrentPageButtonShown(offset, TotalCount());
      |FilteredPokemon()| > 0 && searchQuery == "" && (HasNext() || HasPrevious())
    }

    /** The list query resolved with `response`. */
    method ReceiveData(response: PokemonListResponse)
      requires Valid()
      modifies this
      ensures data == Some(response)
      ensures searchQuery == old(searchQuery) && offset == old(offset)
      ensures Valid()
      ensures old(InRange()) && TotalCount() >= old(TotalCount()) ==> InRange()
    {
      data := Some(response);
    }

    /** `handleSearchChange`: store the query and go back to the first page. */
    method HandleSearchChange(value: string)
      requires Valid()
      modifies this
      ensures searchQuery == value && offset == 0 && data == old(data)
      ensures Valid() && InRange()
    {
      searchQuery := value;
      offset := 0;
    }

    /** `handleNextPage`: one page forward, only when there is a next page. */
    method HandleNextPage()
      requires Valid()
      modifies this
      ensures offset == if old(HasNext()) then old(offset) + PokemonPerPage else old(offset)
      ensures searchQuery == old(searchQuery) && data == old(data)
      ensures Valid()
      ensures old(HasNext()) ==> InRange()
      ensures old(InRange()) ==> InRange()
    {
      if HasNext() {
        offset := offset + PokemonPerPage;
      }
    }

    /** `handlePreviousPage`: one page back, floored at 0, only when there is a previous page. */
    method HandlePreviousPage()
      requires Valid()
      modifies this
      ensures offset == if old(HasPrevious()) then Max(0, old(offset) - PokemonPerPage) else old(offset)
      ensures searchQuery == old(searchQuery) && data == old(data)
      ensures Valid()
      ensures old(InRange()) ==> InRange()
    {
      if HasPrevious() {
        offset := Max(0, offset - PokemonPerPage);
      }
    }

    /** A click on page-jump button `pageNum`: jump to that page's offset. */
    method HandlePageClick(pageNum: int)
      requires Valid()
      requires pageNum in PageNumbers()
      modifies this
      ensures offset == (pageNum - 1) * PokemonPerPage
      ensures searchQuery == old(searchQuery) && data == old(data)
      ensures CurrentPage() == pageNum
      ensures Valid() && InRange()
    {
      offset := (pageNum - 1) * PokemonPerPage;
      Paging.CurrentPageOfMultiple(pageNum - 1, PokemonPerPage);
      Paging.PageStartInRange(pageNum, PokemonPerPage, TotalCount());
    }
  }

  /** A whole-page offset that is the first page or lies before the end of `count` items. */
  predicate ReachableOffset(offset: int, count: nat) {
    offset >= 0 && offset % PokemonPerPage == 0 && (offset == 0 || offset < count)
  }

  /**
   * In every reachable state the current page is a real page and its
   * button is among the page-jump buttons; with an empty collection it
   * is page 1 of 0.
   */
  lemma CurrentPageButtonShown(offset: int, count: nat)
    ensures ReachableOffset(offset, count) && count > 0 ==>
              && 1 <= Paging.CurrentPage(offset, PokemonPerPage) <= Paging.TotalPages(count, PokemonPerPage)
              && Paging.CurrentPage(offset, PokemonPerPage) in
                   PageButtons(Paging.TotalPages(count, PokemonPerPage), Paging.CurrentPage(offset, PokemonPerPage))
    ensures ReachableOffset(offset, count) && count == 0 ==>
              offset == 0 && Paging.CurrentPage(offset, PokemonPerPage) == 1 && Paging.TotalPages(count, PokemonPerPage) == 0
  {
    if ReachableOffset(offset, count) {
      Paging.CurrentPageWithinTotal(offset, PokemonPerPage, count);
    }
  }
}
