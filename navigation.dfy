/**
 * The main navigation bar: three links, each highlighted when the
 * current path is the link's own path or lies beneath it.
 */
module Navigation {
  import opened Text

  datatype NavItem = NavItem(href: string, caption: string)

  /** The links, in display order. */
  const NavItems: seq<NavItem> := [
    NavItem("/pokemon", "Покемоны"),
    NavItem("/berries", "Ягоды"),
    NavItem("/locations", "Локации")
  ]

  /**
   * `pathname === href || pathname.startsWith(`${href}/`)`. An active
   * link's path is always a prefix of the current path.
   */
  predicate IsActive(pathname: string, href: string)
    ensures IsActive(pathname, href) ==> |href| <= |pathname| && pathname[..|href|] == href
  {
    if pathname == href then true
    else
      var boundary := href + "/";
      if StartsWith(pathname, boundary) then
        assert pathname[..|href|] == boundary[..|href|];
        true
      else false
  }

  /**
   * The highlight flag of every link, in display order: a link is lit on
   * its own path and beneath it, and never two links at once.
   */
  function ActiveFlags(pathname: string): (flags: seq<bool>)
    ensures |flags| == |NavItems|
    ensures forall i :: 0 <= i < |NavItems| ==> (flags[i] <==> IsActive(pathname, NavItems[i].href))
    ensures forall i :: 0 <= i < |NavItems| ==>
              (flags[i] <==> pathname == NavItems[i].href || exists rest :: pathname == NavItems[i].href + "/" + rest)
    ensures forall i, j :: 0 <= i < j < |flags| ==> !(flags[i] && flags[j])
  {
    EveryItemOwnOrBeneath(pathname);
    AtMostOneActive(pathname);
    seq(|NavItems|, i requires 0 <= i < |NavItems| => IsActive(pathname, NavItems[i].href))
  }

  /** `ActiveIffOwnOrBeneath` for every link. */
  lemma EveryItemOwnOrBeneath(pathname: string)
    ensures forall i :: 0 <= i < |NavItems| ==>
              (IsActive(pathname, NavItems[i].href) <==> pathname == NavItems[i].href || exists rest :: pathname == NavItems[i].href + "/" + rest)
  {
    forall i | 0 <= i < |NavItems|
      ensures IsActive(pathname, NavItems[i].href) <==> pathname == NavItems[i].href || exists rest :: pathname == NavItems[i].href + "/" + rest
    {
      ActiveIffOwnOrBeneath(pathname, NavItems[i].href);
    }
  }

  /** A link is active exactly on its own path and on the paths of its sub-pages. */
  lemma ActiveIffOwnOrBeneath(pathname: string, href: string)
    ensures IsActive(pathname, href) <==> pathname == href || exists rest :: pathname == href + "/" + rest
  {
    if StartsWith(pathname, href + "/") {
      var rest := pathname[|href| + 1..];
      assert pathname == href + "/" + rest;
    }
    forall rest | pathname == href + "/" + rest ensures StartsWith(pathname, href + "/") {
      assert pathname[..|href + "/"|] == href + "/";
    }
  }

  /** A path that merely extends a link's path without a `/` does not activate it. */
  lemma NoMatchWithoutBoundary(pathname: string, href: string)
    requires |pathname| > |href| && pathname[..|href|] == href && pathname[|href|] != '/'
    ensures !IsActive(pathname, href)
  {
    if |pathname| >= |href| + 1 {
      assert pathname[..|href| + 1][|href|] == pathname[|href|];
      assert (href + "/")[|href|] == '/';
    }
  }

  /** At most one link is highlighted, whatever the path. */
  lemma AtMostOneActive(pathname: string)
    ensures forall i, j :: 0 <= i < j < |NavItems| ==>
              !(IsActive(pathname, NavItems[i].href) && IsActive(pathname, NavItems[j].href))
  {
    forall i | 0 <= i < |NavItems| && IsActive(pathname, NavItems[i].href)
      ensures |pathname| > 1 && pathname[1] == NavItems[i].href[1]
    {
      assert pathname[..|NavItems[i].href|][1] == pathname[1];
    }
    assert NavItems[0].href[1] == 'p' && NavItems[1].href[1] == 'b' && NavItems[2].href[1] == 'l';
  }

  /** Examples: a detail page highlights its section; the home page and look-alike paths highlight nothing. */
  lemma ActiveExamples()
    ensures ActiveFlags("/pokemon") == [true, false, false]
    ensures ActiveFlags("/berries/12") == [false, true, false]
    ensures ActiveFlags("/") == [false, false, false]
    ensures !IsActive("/pokemonx", "/pokemon")
  {
    assert "/berries" + "/" == "/berries/";
    assert IsActive("/berries/12", NavItems[1].href);
    AtMostOneActive("/berries/12");
    NoMatchWithoutBoundary("/pokemonx", "/pokemon");
  }
}
