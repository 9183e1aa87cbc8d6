/**
 * The case-insensitive name search of the list pages:
 * `items.filter(x => x.name.toLowerCase().includes(query.toLowerCase()))`.
 */
module Search {
  import opened Text

  /**
   * `name.toLowerCase().includes(query.toLowerCase())`. The empty query
   * matches every name, and no query longer than the name matches it.
   */
  predicate NameMatches(name: string, query: string)
    ensures query == "" ==> NameMatches(name, query)
    ensures NameMatches(name, query) ==> |query| <= |name|
  {
    IncludesEmpty(Lower(name));
    if Includes(Lower(name), Lower(query)) then
      IncludesBounds(Lower(name), Lower(query));
      true
    else false
  }

  /** A match means the lower-cased query occurs somewhere in the lower-cased name. */
  lemma NameMatchesIff(name: string, query: string)
    ensures NameMatches(name, query) <==> exists i :: OccursAt(Lower(name), Lower(query), i)
  {
    IncludesIff(Lower(name), Lower(query));
  }

  /** `Array.prototype.filter`: the items `keep` accepts, in the order of `items`. */
  function Keep<T>(items: seq<T>, keep: T -> bool): (kept: seq<T>)
    ensures |kept| <= |items|
    ensures forall i :: 0 <= i < |kept| ==> keep(kept[i])
    decreases |items|
  {
    if items == [] then []
    else (if keep(items[0]) then [items[0]] else []) + Keep(items[1..], keep)
  }

  /**
   * `filter` keeps exactly the accepted items, in their original order:
   * the kept items sit at strictly increasing positions of `items`, and a
   * position is among them exactly when its item is accepted.
   */
  lemma {:induction false} KeepPositions<T>(items: seq<T>, keep: T -> bool) returns (idx: seq<nat>)
    ensures |idx| == |Keep(items, keep)|
    ensures forall i, j :: 0 <= i < j < |idx| ==> idx[i] < idx[j]
    ensures forall i :: 0 <= i < |idx| ==> idx[i] < |items| && Keep(items, keep)[i] == items[idx[i]]
    ensures forall j :: 0 <= j < |items| ==> (keep(items[j]) <==> j in idx)
    decreases |items|
  {
    if items == [] {
      idx := [];
    } else {
      var rest := KeepPositions(items[1..], keep);
      var shifted := ShiftPositions(rest, |items| - 1);
      var head: seq<nat> := if keep(items[0]) then [0] else [];
      idx := head + shifted;
      PrependSorted(head, shifted);
      ConsKeepValues(items, keep, rest, shifted, idx);
      ConsKeepMembers(items, keep, rest, shifted, idx);
    }
  }

  /** Positions in a list's tail, moved to positions in the whole list. */
  lemma ShiftPositions(rest: seq<nat>, n: nat) returns (shifted: seq<nat>)
    requires forall i :: 0 <= i < |rest| ==> rest[i] < n
    requires forall i, j :: 0 <= i < j < |rest| ==> rest[i] < rest[j]
    ensures |shifted| == |rest|
    ensures forall i :: 0 <= i < |rest| ==> shifted[i] == rest[i] + 1
    ensures forall i :: 0 <= i < |shifted| ==> shifted[i] > 0
    ensures forall i, j :: 0 <= i < j < |shifted| ==> shifted[i] < shifted[j]
    ensures forall j :: 1 <= j <= n ==> (j in shifted <==> j - 1 in rest)
    ensures 0 !in shifted
  {
    shifted := seq(|rest|, i requires 0 <= i < |rest| => rest[i] + 1);
    forall j | 1 <= j <= n ensures j in shifted <==> j - 1 in rest {
      if j - 1 in rest {
        var i :| 0 <= i < |rest| && rest[i] == j - 1;
        assert shifted[i] == j;
      }
    }
  }

  /** Putting position 0 (or nothing) in front of increasing positive positions keeps them increasing. */
  lemma PrependSorted(head: seq<nat>, shifted: seq<nat>)
    requires head == [] || head == [0]
    requires forall i :: 0 <= i < |shifted| ==> shifted[i] > 0
    requires forall i, j :: 0 <= i < j < |shifted| ==> shifted[i] < shifted[j]
    ensures forall i, j :: 0 <= i < j < |head + shifted| ==> (head + shifted)[i] < (head + shifted)[j]
  {
  }

  /** The kept items of a non-empty list sit at the positions built from those of its tail. */
  lemma ConsKeepValues<T>(items: seq<T>, keep: T -> bool, rest: seq<nat>, shifted: seq<nat>, idx: seq<nat>)
    requires items != []
    requires |rest| == |Keep(items[1..], keep)|
    requires forall i :: 0 <= i < |rest| ==> rest[i] < |items[1..]| && Keep(items[1..], keep)[i] == items[1..][rest[i]]
    requires |shifted| == |rest| && forall i :: 0 <= i < |rest| ==> shifted[i] == rest[i] + 1
    requires idx == (if keep(items[0]) then [0] else []) + shifted
    ensures |idx| == |Keep(items, keep)|
    ensures forall i :: 0 <= i < |idx| ==> idx[i] < |items| && Keep(items, keep)[i] == items[idx[i]]
  {
    var tail := items[1..];
    var kept := Keep(items, keep);
    var keptTail := Keep(tail, keep);
    if keep(items[0]) {
      assert kept == [items[0]] + keptTail;
      assert idx == [0] + shifted;
      forall i | 0 <= i < |idx| ensures idx[i] < |items| && kept[i] == items[idx[i]] {
        if i > 0 {
          assert idx[i] == rest[i - 1] + 1 && kept[i] == keptTail[i - 1];
          assert tail[rest[i - 1]] == items[rest[i - 1] + 1];
        }
      }
    } else {
      assert kept == keptTail;
      assert idx == shifted;
      forall i | 0 <= i < |idx| ensures idx[i] < |items| && kept[i] == items[idx[i]] {
        assert idx[i] == rest[i] + 1;
        assert tail[rest[i]] == items[rest[i] + 1];
      }
    }
  }

  /** A position of a non-empty list is kept exactly when its item is accepted. */
  lemma ConsKeepMembers<T>(items: seq<T>, keep: T -> bool, rest: seq<nat>, shifted: seq<nat>, idx: seq<nat>)
    requires items != []
    requires forall j :: 0 <= j < |items[1..]| ==> (keep(items[1..][j]) <==> j in rest)
    requires forall j :: 1 <= j <= |items| - 1 ==> (j in shifted <==> j - 1 in rest)
    requires 0 !in shifted
    requires idx == (if keep(items[0]) then [0] else []) + shifted
    ensures forall j :: 0 <= j < |items| ==> (keep(items[j]) <==> j in idx)
  {
    forall j | 0 <= j < |items| ensures keep(items[j]) <==> j in idx {
      if j > 0 {
        assert items[j] == items[1..][j - 1];
        assert j in idx <==> j in shifted;
      }
    }
  }

  /** A filter that accepts every item returns the list unchanged. */
  lemma {:induction false} KeepAll<T>(items: seq<T>, keep: T -> bool)
    requires forall i :: 0 <= i < |items| ==> keep(items[i])
    ensures Keep(items, keep) == items
    decreases |items|
  {
    if items != [] {
      KeepAll(items[1..], keep);
    }
  }

  /** Filtering a concatenation is concatenating the filtered parts. */
  lemma {:induction false} KeepAppend<T>(a: seq<T>, b: seq<T>, keep: T -> bool)
    ensures Keep(a + b, keep) == Keep(a, keep) + Keep(b, keep)
    decreases |a|
  {
    if a != [] {
      assert (a + b)[1..] == a[1..] + b;
      KeepAppend(a[1..], b, keep);
    } else {
      assert a + b == b;
    }
  }

  /** The name test as a callback: `(x) => nameOf(x).toLowerCase().includes(query.toLowerCase())`. */
  function Matcher<T>(nameOf: T -> string, query: string): T -> bool {
    x => NameMatches(nameOf(x), query)
  }

  /** `items.filter` with the name test. */
  function Filter<T>(items: seq<T>, nameOf: T -> string, query: string): (kept: seq<T>)
    ensures |kept| <= |items|
    ensures forall i :: 0 <= i < |kept| ==> NameMatches(nameOf(kept[i]), query)
  {
    Keep(items, Matcher(nameOf, query))
  }

  /**
   * The name filter keeps exactly the matching items, in their original
   * order, at strictly increasing positions of `items`.
   */
  lemma FilterPositions<T>(items: seq<T>, nameOf: T -> string, query: string) returns (idx: seq<nat>)
    ensures |idx| == |Filter(items, nameOf, query)|
    ensures forall i, j :: 0 <= i < j < |idx| ==> idx[i] < idx[j]
    ensures forall i :: 0 <= i < |idx| ==> idx[i] < |items| && Filter(items, nameOf, query)[i] == items[idx[i]]
    ensures forall j :: 0 <= j < |items| ==> (NameMatches(nameOf(items[j]), query) <==> j in idx)
  {
    idx := KeepPositions(items, Matcher(nameOf, query));
  }

  /** Every matching item is kept. */
  lemma FilterKeepsMatches<T>(items: seq<T>, nameOf: T -> string, query: string)
    ensures forall j :: 0 <= j < |items| && NameMatches(nameOf(items[j]), query) ==> items[j] in Filter(items, nameOf, query)
  {
    var idx := FilterPositions(items, nameOf, query);
    forall j | 0 <= j < |items| && NameMatches(nameOf(items[j]), query) ensures items[j] in Filter(items, nameOf, query) {
      var i :| 0 <= i < |idx| && idx[i] == j;
      assert Filter(items, nameOf, query)[i] == items[j];
    }
  }

  /** With an empty query the filter returns the list unchanged. */
  lemma FilterEmptyQuery<T>(items: seq<T>, nameOf: T -> string)
    ensures Filter(items, nameOf, "") == items
  {
    KeepAll(items, Matcher(nameOf, ""));
  }

  /** Filtering the concatenation of two lists is concatenating their filtered lists. */
  lemma FilterAppend<T>(a: seq<T>, b: seq<T>, nameOf: T -> string, query: string)
    ensures Filter(a + b, nameOf, query) == Filter(a, nameOf, query) + Filter(b, nameOf, query)
  {
    KeepAppend(a, b, Matcher(nameOf, query));
  }
}
