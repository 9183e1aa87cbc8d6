/**
 * The older Pokemon list component: server-paged by twenty, with
 * previous/next buttons that move the offset, a "Showing a - b of n"
 * line, and the Pokemon id read from the last non-empty path segment of
 * its URL with `parseInt`.
 */
module PokemonList {
  import opened Js
  import opened Text
  import opened PokeApi
  import Paging

  const Limit: nat := 20

  // ---------------------------------------------------------------------
  // Id from URL
  // ---------------------------------------------------------------------

  /** `parts.filter(Boolean)` on strings: drops the empty ones and keeps every other piece. */
  function NonEmpty(parts: seq<string>): (kept: seq<string>)
    ensures forall i :: 0 <= i < |kept| ==> kept[i] != "" && kept[i] in parts
    ensures forall p :: p in parts && p != "" ==> p in kept
    ensures |kept| <= |parts|
    decreases |parts|
  {
    if parts == [] then []
    else NonEmpty(parts[..|parts| - 1]) + (if parts[|parts| - 1] == "" then [] else [parts[|parts| - 1]])
  }

  /** The filter keeps the order: filtering a concatenation concatenates the filtered parts. */
  lemma {:induction false} NonEmptyAppend(a: seq<string>, b: seq<string>)
    ensures NonEmpty(a + b) == NonEmpty(a) + NonEmpty(b)
    decreases |b|
  {
    if b == [] {
      assert a + b == a;
    } else {
      var init := b[..|b| - 1];
      NonEmptyAppend(a, init);
      assert (a + b)[..|a + b| - 1] == a + init;
    }
  }

  /** `url.split('/').filter(Boolean)`: the non-empty path pieces, none holding a slash, all of them kept. */
  function Segments(url: string): (segs: seq<string>)
    ensures forall i :: 0 <= i < |segs| ==> segs[i] != "" && '/' !in segs[i]
    ensures forall p :: p in Split(url, '/') && p != "" ==> p in segs
  {
    NonEmpty(Split(url, '/'))
  }

  /**
   * `parseInt(segments.pop() || '0', 10)`; `None` stands for NaN. It is
   * NaN exactly when the last segment does not start with a digit, and 0
   * when there is no segment.
   */
  function ExtractId(url: string): (id: Option<nat>)
    ensures Segments(url) == [] ==> id == Some(0)
    ensures id.None? <==> Segments(url) != [] && !IsDigit(Segments(url)[|Segments(url)| - 1][0])
  {
    var segs := Segments(url);
    if segs == [] then
      ParseIntOfZero();
      ParseInt("0")
    else
      var last := segs[|segs| - 1];
      assert last != [];
      ParseInt(last)
  }

  /** The fallback "0" parses as 0. */
  lemma ParseIntOfZero()
    ensures ParseInt("0") == Some(0)
  {
    assert "0"[..DigitRun("0")] == "0";
  }

  /** The id is `parseInt` of the last path piece, whatever precedes it. */
  lemma ExtractIdLastSegment(prefix: string, w: string)
    requires w != [] && '/' !in w
    ensures ExtractId(prefix + "/" + w) == ParseInt(w)
  {
    SplitAppendWord(prefix, '/', w);
    var parts := Split(prefix, '/');
    NonEmptyAppend(parts, [w]);
    assert NonEmpty([w]) == [w] by {
      assert [w][..0] == [];
    }
  }

  /** Leading zeros are read past. */
  lemma ExtractIdLeadingZeros(prefix: string)
    ensures ExtractId(prefix + "/" + "025" + "/") == Some(25)
  {
    ExtractIdTrailingSlash(prefix + "/" + "025");
    ExtractIdLastSegment(prefix, "025");
    ParseIntOf025();
  }

  lemma ParseIntOf025()
    ensures ParseInt("025") == Some(25)
  {
    ParseIntDigits("025");
    assert "025"[..2] == "02" && "02"[..1] == "0" && "0"[..0] == "";
    assert DigitsValue("02") == 2;
  }

  lemma ParseIntOf12abc()
    ensures ParseInt("12abc") == Some(12)
  {
    assert AllDigits("12abc"[..2]) by {
      assert "12abc"[..2] == "12";
    }
    DigitRunExact("12abc", 2);
    assert "12abc"[..2] == "12" && "12"[..1] == "1" && "1"[..0] == "";
  }

  /** A name in place of a number gives NaN. */
  lemma ExtractIdOfName(prefix: string)
    ensures ExtractId(prefix + "/" + "pikachu" + "/") == None
  {
    ExtractIdTrailingSlash(prefix + "/" + "pikachu");
    ExtractIdLastSegment(prefix, "pikachu");
  }

  /** Only the leading digits of the last piece count. */
  lemma ExtractIdDigitPrefix(prefix: string)
    ensures ExtractId(prefix + "/" + "12abc") == Some(12)
  {
    ExtractIdLastSegment(prefix, "12abc");
    ParseIntOf12abc();
  }

  /** A trailing slash does not change the id. */
  lemma ExtractIdTrailingSlash(url: string)
    ensures ExtractId(url + "/") == ExtractId(url)
  {
    SplitTrailingSeparator(url, '/');
    var parts := Split(url, '/');
    assert (parts + [""])[..|parts|] == parts;
  }

  /** A URL made of slashes only (or empty) has no segment, so its id is `parseInt('0')`, 0. */
  lemma {:induction false} ExtractIdWithoutSegments(url: string)
    requires forall i :: 0 <= i < |url| ==> url[i] == '/'
    ensures Segments(url) == []
    ensures ExtractId(url) == Some(0)
  {
    OnlySlashesSplitEmpty(url);
    assert "0"[..DigitRun("0")] == "0";
  }

  lemma {:induction false} OnlySlashesSplitEmpty(url: string)
    requires forall i :: 0 <= i < |url| ==> url[i] == '/'
    ensures NonEmpty(Split(url, '/')) == []
    decreases |url|
  {
    if url != [] {
      var init := url[..|url| - 1];
      OnlySlashesSplitEmpty(init);
      var parts := Split(init, '/');
      assert Split(url, '/') == parts + [""];
      assert (parts + [""])[..|parts|] == parts;
    }
  }

  /** The id in a detail URL ".../<n>/" is `n`: reading the id back inverts writing it. */
  lemma ExtractIdOfDetailUrl(prefix: string, n: nat)
    ensures ExtractId(prefix + "/" + NatToString(n) + "/") == Some(n)
  {
    var digits := NatToString(n);
    ExtractIdTrailingSlash(prefix + "/" + digits);
    SplitAppendWord(prefix, '/', digits);
    var parts := Split(prefix, '/');
    assert (parts + [digits])[..|parts|] == parts;
    ParseIntDigits(digits);
    NatToStringRoundTrip(n);
  }

  /** The card's label: `id.toString().padStart(4, '0')`, where NaN prints as "NaN". */
  function IdLabel(id: Option<nat>): (caption: string)
    ensures id.Some? ==> |caption| == Max(4, |NatToString(id.value)|)
    ensures id.Some? ==> caption[|caption| - |NatToString(id.value)|..] == NatToString(id.value)
    ensures id.None? ==> caption == "0NaN"
    ensures forall i :: 0 <= i < |caption| - (if id.Some? then |NatToString(id.value)| else 3) ==> caption[i] == '0'
  {
    PadStart(if id.Some? then NatToString(id.value) else "NaN", 4, '0')
  }

  // ---------------------------------------------------------------------
  // Offset state
  // ---------------------------------------------------------------------

  /** `disabled={!data.previous || isLoading}` on the Previous button. */
  predicate PreviousDisabled(data: ResourceList, isLoading: bool) {
    !TruthyString(data.previous) || isLoading
  }

  /** `disabled={!data.next || isLoading}` on the Next button. */
  predicate NextDisabled(data: ResourceList, isLoading: bool) {
    !TruthyString(data.next) || isLoading
  }

  /** "Showing first - last of count" for the current offset. */
  function ShownRange(offset: int, data: ResourceList): (range: (int, int))
    ensures range.0 == offset + 1
    ensures range.1 == data.count || range.1 == offset + Limit
    ensures range.1 <= data.count && range.1 <= offset + Limit
    ensures range.1 - range.0 < Limit
    ensures 0 <= offset < data.count ==> range.0 <= range.1
  {
    Paging.ShownRange(offset, Limit, data.count)
  }

  class PokemonListView {
    var offset: int

    ghost predicate Valid()
      reads this
    {
      offset >= 0 && offset % Limit == 0
    }

    constructor ()
      ensures offset == 0 && Valid()
    {
      offset := 0;
    }

    /** A click on Previous, which the page only allows while it is enabled. */
    method ClickPrevious(data: ResourceList, isLoading: bool)
      requires Valid()
      requires !PreviousDisabled(data, isLoading)
      modifies this
      ensures offset == Max(0, old(offset) - Limit)
      ensures Valid()
    {
      offset := Max(0, offset - Limit);
    }

    /** A click on Next, which the page only allows while it is enabled. */
    method ClickNext(data: ResourceList, isLoading: bool)
      requires Valid()
      requires !NextDisabled(data, isLoading)
      modifies this
      ensures offset == old(offset) + Limit
      ensures Valid()
    {
      offset := offset + Limit;
    }
  }
}
