/**
 * What the `FieldError` component shows: its children when it has any;
 * otherwise nothing for a missing or empty error list; otherwise the
 * errors de-duplicated by message (a `Map` from message to error), shown
 * as one message when one is left and as a list of the messages present
 * when several are left. The component renders nothing when that
 * content is falsy.
 */
module FieldError {
  import opened Js

  /** One form error, `{ message?: string }`. */
  datatype Issue = Issue(message: Option<string>)

  /** An entry of `errors`: an issue, or `undefined`. */
  type ErrorEntry = Option<Issue>

  /** `error?.message`. */
  function MessageOf(e: ErrorEntry): Option<string> {
    if e.Some? then e.value.message else None
  }

  // ---------------------------------------------------------------------
  // A JavaScript Map: keys in insertion order, one value per key
  // ---------------------------------------------------------------------

  /** The `Map` built from `[error?.message, error]` pairs. */
  datatype InsertionMap = InsertionMap(keys: seq<Option<string>>, values: map<Option<string>, ErrorEntry>)

  /** Keys are distinct and are exactly the map's domain. */
  predicate WellFormed(m: InsertionMap) {
    && (forall i, j :: 0 <= i < j < |m.keys| ==> m.keys[i] != m.keys[j])
    && m.values.Keys == set k | k in m.keys
  }

  /** `map.set(k, v)`: a new key goes to the end, an existing key keeps its place and takes the new value. */
  function MapSet(m: InsertionMap, k: Option<string>, v: ErrorEntry): (m': InsertionMap)
    requires WellFormed(m)
    ensures WellFormed(m')
    ensures k in m.values ==> m'.keys == m.keys
    ensures k !in m.values ==> m'.keys == m.keys + [k]
    ensures m'.values == m.values[k := v]
  {
    InsertionMap(if k in m.values then m.keys else m.keys + [k], m.values[k := v])
  }

  /** `new Map(errors.map((error) => [error?.message, error]))`. */
  function MessageMap(errors: seq<ErrorEntry>): (m: InsertionMap)
    ensures WellFormed(m)
    decreases |errors|
  {
    if errors == [] then InsertionMap([], map[])
    else
      var last := errors[|errors| - 1];
      MapSet(MessageMap(errors[..|errors| - 1]), MessageOf(last), last)
  }

  /** `[...map.values()]`: the values in key order. */
  function MapValues(m: InsertionMap): (vs: seq<ErrorEntry>)
    requires WellFormed(m)
    ensures |vs| == |m.keys|
    ensures forall i :: 0 <= i < |vs| ==> vs[i] == m.values[m.keys[i]]
  {
    seq(|m.keys|, i requires 0 <= i < |m.keys| => m.values[m.keys[i]])
  }

  /**
   * `uniqueErrors`: one error per distinct message, in key order, each
   * taken from `errors`, and every message of `errors` represented.
   */
  function UniqueErrors(errors: seq<ErrorEntry>): (unique: seq<ErrorEntry>)
    ensures |unique| == |MessageMap(errors).keys|
    ensures forall i :: 0 <= i < |unique| ==> MessageOf(unique[i]) == MessageMap(errors).keys[i] && unique[i] in errors
    ensures forall i, j :: 0 <= i < j < |unique| ==> MessageOf(unique[i]) != MessageOf(unique[j])
  {
    MapValuesCarryKeys(errors);
    MapValues(MessageMap(errors))
  }

  /** Every message of `errors` is represented among the unique errors. */
  lemma UniqueErrorsCover(errors: seq<ErrorEntry>)
    ensures forall j :: 0 <= j < |errors| ==>
              exists i :: 0 <= i < |UniqueErrors(errors)| && MessageOf(UniqueErrors(errors)[i]) == MessageOf(errors[j])
  {
    MessageMapKeys(errors);
    var unique := UniqueErrors(errors);
    var keys := MessageMap(errors).keys;
    forall j | 0 <= j < |errors| ensures exists i :: 0 <= i < |unique| && MessageOf(unique[i]) == MessageOf(errors[j]) {
      assert MessageOf(errors[j]) in keys;
      var i :| 0 <= i < |keys| && keys[i] == MessageOf(errors[j]);
      assert MessageOf(unique[i]) == MessageOf(errors[j]);
    }
  }

  /** Some error of the list carries message `k`. */
  predicate Occurs(errors: seq<ErrorEntry>, k: Option<string>) {
    exists j :: 0 <= j < |errors| && MessageOf(errors[j]) == k
  }

  /** A message occurs in a list exactly when it occurs before its last error or is that error's message. */
  lemma OccursStep(errors: seq<ErrorEntry>, k: Option<string>)
    requires errors != []
    ensures Occurs(errors, k) <==> Occurs(errors[..|errors| - 1], k) || k == MessageOf(errors[|errors| - 1])
  {
    var n := |errors| - 1;
    var init := errors[..n];
    if Occurs(errors, k) && k != MessageOf(errors[n]) {
      var j :| 0 <= j < |errors| && MessageOf(errors[j]) == k;
      assert MessageOf(init[j]) == k;
    }
    if Occurs(init, k) {
      var j :| 0 <= j < |init| && MessageOf(init[j]) == k;
      assert MessageOf(errors[j]) == k;
    }
    if k == MessageOf(errors[n]) {
      assert MessageOf(errors[n]) == k;
    }
  }

  /** The map's keys are exactly the messages that occur (undefined counts as one). */
  lemma {:induction false} MessageMapKeys(errors: seq<ErrorEntry>)
    ensures forall k :: k in MessageMap(errors).keys <==> Occurs(errors, k)
    decreases |errors|
  {
    if errors != [] {
      var init := errors[..|errors| - 1];
      MessageMapKeys(init);
      MessageMapKeysStep(errors);
      forall k ensures k in MessageMap(errors).keys <==> Occurs(errors, k) {
        OccursStep(errors, k);
      }
    }
  }

  /** Adding one error adds its message to the keys, if it is not there yet, and nothing else. */
  lemma MessageMapKeysStep(errors: seq<ErrorEntry>)
    requires errors != []
    ensures forall k :: k in MessageMap(errors).keys <==>
              k in MessageMap(errors[..|errors| - 1]).keys || k == MessageOf(errors[|errors| - 1])
  {
  }

  /** `errors[j]` is the last error whose message is `k`. */
  predicate IsLastWith(errors: seq<ErrorEntry>, j: int, k: Option<string>) {
    && 0 <= j < |errors|
    && MessageOf(errors[j]) == k
    && forall j' :: j < j' < |errors| ==> MessageOf(errors[j']) != k
  }

  /** `e` is the last error of the list whose message is `k`. */
  ghost predicate HoldsLast(errors: seq<ErrorEntry>, k: Option<string>, e: ErrorEntry) {
    exists j :: IsLastWith(errors, j, k) && errors[j] == e
  }

  /** Each key holds the last error that carries that message. */
  lemma {:induction false} MessageMapLastWins(errors: seq<ErrorEntry>)
    ensures forall k :: k in MessageMap(errors).values ==> HoldsLast(errors, k, MessageMap(errors).values[k])
    decreases |errors|
  {
    if errors != [] {
      var n := |errors| - 1;
      var init := errors[..n];
      MessageMapLastWins(init);
      var m0 := MessageMap(init);
      var m := MessageMap(errors);
      assert m.values == m0.values[MessageOf(errors[n]) := errors[n]];
      forall key | key in m.values ensures HoldsLast(errors, key, m.values[key]) {
        LastWinsStep(errors, init, m0.values, m.values, key);
      }
    }
  }

  /** One step of the last-wins argument, for one key. */
  lemma LastWinsStep(errors: seq<ErrorEntry>, init: seq<ErrorEntry>, values0: map<Option<string>, ErrorEntry>,
                     values: map<Option<string>, ErrorEntry>, key: Option<string>)
    requires errors != [] && init == errors[..|errors| - 1]
    requires values == values0[MessageOf(errors[|errors| - 1]) := errors[|errors| - 1]]
    requires forall k :: k in values0 ==> HoldsLast(init, k, values0[k])
    requires key in values
    ensures HoldsLast(errors, key, values[key])
  {
    var n := |errors| - 1;
    if key == MessageOf(errors[n]) {
      assert IsLastWith(errors, n, key) && errors[n] == values[key];
    } else {
      assert key in values0 && values[key] == values0[key];
      LastWithKept(init, errors[n], key, values0[key]);
      assert init + [errors[n]] == errors;
    }
  }

  /** Appending an error with another message keeps the last holder of `k`. */
  lemma LastWithKept(errors: seq<ErrorEntry>, x: ErrorEntry, k: Option<string>, e: ErrorEntry)
    requires HoldsLast(errors, k, e) && MessageOf(x) != k
    ensures HoldsLast(errors + [x], k, e)
  {
    var j :| IsLastWith(errors, j, k) && errors[j] == e;
    assert forall j' :: 0 <= j' < |errors| ==> (errors + [x])[j'] == errors[j'];
    assert IsLastWith(errors + [x], j, k) && (errors + [x])[j] == e;
  }

  /** Some error before position `j` carries message `k`. */
  predicate OccursBefore(errors: seq<ErrorEntry>, j: int, k: Option<string>) {
    exists i :: 0 <= i < j && i < |errors| && MessageOf(errors[i]) == k
  }

  /** Keys are in the order their messages first occur. */
  lemma {:induction false} MessageMapFirstOccurrenceOrder(errors: seq<ErrorEntry>)
    ensures forall a, b, j ::
              (0 <= a < b < |MessageMap(errors).keys| && 0 <= j < |errors| && MessageOf(errors[j]) == MessageMap(errors).keys[b]) ==>
              OccursBefore(errors, j, MessageMap(errors).keys[a])
    decreases |errors|
  {
    if errors != [] {
      var n := |errors| - 1;
      var init := errors[..n];
      MessageMapFirstOccurrenceOrder(init);
      MessageMapKeys(init);
      var m0 := MessageMap(init);
      var m := MessageMap(errors);
      assert m.keys == m0.keys || m.keys == m0.keys + [MessageOf(errors[n])];
      forall a, b, j | 0 <= a < b < |m.keys| && 0 <= j < |errors| && MessageOf(errors[j]) == m.keys[b]
        ensures OccursBefore(errors, j, m.keys[a])
      {
        FirstOccurrenceStep(errors, init, m0.keys, m.keys, a, b, j);
      }
    }
  }

  /** One step of the first-occurrence argument, for one pair of keys and one position. */
  lemma FirstOccurrenceStep(errors: seq<ErrorEntry>, init: seq<ErrorEntry>, keys0: seq<Option<string>>, keys: seq<Option<string>>,
                            a: int, b: int, j: int)
    requires errors != [] && init == errors[..|errors| - 1]
    requires keys == keys0 || keys == keys0 + [MessageOf(errors[|errors| - 1])]
    requires forall k :: k in keys0 <==> Occurs(init, k)
    requires forall a', b', j' ::
               (0 <= a' < b' < |keys0| && 0 <= j' < |init| && MessageOf(init[j']) == keys0[b']) ==>
               OccursBefore(init, j', keys0[a'])
    requires forall i, i' :: 0 <= i < i' < |keys| ==> keys[i] != keys[i']
    requires 0 <= a < b < |keys| && 0 <= j < |errors| && MessageOf(errors[j]) == keys[b]
    ensures OccursBefore(errors, j, keys[a])
  {
    var n := |errors| - 1;
    assert keys[a] == keys0[a] && keys0[a] in keys0;
    var i0 :| 0 <= i0 < |init| && MessageOf(init[i0]) == keys0[a];
    assert errors[i0] == init[i0];
    if j < n {
      assert errors[j] == init[j];
      assert MessageOf(init[j]) == keys[b];
      assert keys[b] in keys0;
      var c :| 0 <= c < |keys0| && keys0[c] == keys[b];
      assert keys[c] == keys[b];
      assert b == c;
      assert MessageOf(init[j]) == keys0[b];
      assert OccursBefore(init, j, keys0[a]);
      var i :| 0 <= i < j && i < |init| && MessageOf(init[i]) == keys0[a];
      assert errors[i] == init[i];
    } else {
      assert OccursBefore(errors, j, keys[a]);
    }
  }

  /** The value stored under each key is an error of the list carrying that key's message. */
  lemma MapValuesCarryKeys(errors: seq<ErrorEntry>)
    ensures forall i :: 0 <= i < |MessageMap(errors).keys| ==>
              MessageOf(MessageMap(errors).values[MessageMap(errors).keys[i]]) == MessageMap(errors).keys[i]
              && MessageMap(errors).values[MessageMap(errors).keys[i]] in errors
  {
    MessageMapLastWins(errors);
    var m := MessageMap(errors);
    forall i | 0 <= i < |m.keys| ensures MessageOf(m.values[m.keys[i]]) == m.keys[i] && m.values[m.keys[i]] in errors {
      var k := m.keys[i];
      assert k in m.values;
      assert HoldsLast(errors, k, m.values[k]);
      var j :| IsLastWith(errors, j, k) && errors[j] == m.values[k];
      assert errors[j] in errors;
    }
  }

  // ---------------------------------------------------------------------
  // Content
  // ---------------------------------------------------------------------

  /** What `content` evaluates to. */
  datatype Content =
    | ChildrenContent(children: string)
    | NoContent
    | MessageContent(message: Option<string>)
    | ListContent(items: seq<string>)

  /** `!!content`: a list element is always truthy, a message only when present and non-empty. */
  predicate Truthy(c: Content) {
    match c
    case ChildrenContent(s) => s != ""
    case NoContent => false
    case MessageContent(m) => TruthyString(m)
    case ListContent(_) => true
  }

  /** The `<li>` texts: the messages of the entries that have one, in order. */
  function ListItems(unique: seq<ErrorEntry>): (items: seq<string>)
    ensures forall i :: 0 <= i < |items| ==> items[i] != ""
    ensures forall i :: 0 <= i < |items| ==> exists j :: 0 <= j < |unique| && MessageOf(unique[j]) == Some(items[i])
    ensures forall j :: 0 <= j < |unique| && TruthyString(MessageOf(unique[j])) ==> MessageOf(unique[j]).value in items
    decreases |unique|
  {
    if unique == [] then []
    else
      var m := MessageOf(unique[0]);
      (if TruthyString(m) then [m.value] else []) + ListItems(unique[1..])
  }

  /** The list keeps the order of the entries: items of a concatenation are the concatenated items. */
  lemma {:induction false} ListItemsAppend(a: seq<ErrorEntry>, b: seq<ErrorEntry>)
    ensures ListItems(a + b) == ListItems(a) + ListItems(b)
    decreases |a|
  {
    if a == [] {
      assert a + b == b;
    } else {
      assert (a + b)[1..] == a[1..] + b;
      ListItemsAppend(a[1..], b);
    }
  }

  /**
   * The `useMemo` computation of `content`. Children win; no errors give
   * nothing; a single message means every error carries it; a list means
   * two errors carry different messages, and its items are distinct.
   */
  function ErrorContent(children: Option<string>, errors: Option<seq<ErrorEntry>>): (c: Content)
    ensures TruthyString(children) ==> c == ChildrenContent(children.value)
    ensures c == NoContent <==> !TruthyString(children) && (errors.None? || errors.value == [])
    ensures c.MessageContent? ==>
              errors.Some? && errors.value != [] && forall j :: 0 <= j < |errors.value| ==> MessageOf(errors.value[j]) == c.message
    ensures c.ListContent? ==>
              errors.Some? && exists j, k :: 0 <= j < |errors.value| && 0 <= k < |errors.value| && MessageOf(errors.value[j]) != MessageOf(errors.value[k])
    ensures c.ListContent? ==> forall i, j :: 0 <= i < j < |c.items| ==> c.items[i] != c.items[j]
  {
    if TruthyString(children) then ChildrenContent(children.value)
    else if errors.None? || errors.value == [] then NoContent
    else
      var unique := UniqueErrors(errors.value);
      if |unique| == 1 then
        UniqueErrorsCover(errors.value);
        MessageContent(MessageOf(unique[0]))
      else
        ListItemsDistinct(unique);
        assert unique[0] in errors.value && unique[1] in errors.value;
        ListContent(ListItems(unique))
  }

  /** Every error carries the same message, and it is missing or empty. */
  predicate SilentErrors(errors: seq<ErrorEntry>) {
    forall j :: 0 <= j < |errors| ==> MessageOf(errors[j]) == MessageOf(errors[0]) && !TruthyString(MessageOf(errors[j]))
  }

  /** The content is falsy exactly without children and with errors that are absent or all silent. */
  lemma FalsyContentIff(children: Option<string>, errors: Option<seq<ErrorEntry>>)
    ensures !Truthy(ErrorContent(children, errors)) <==> !TruthyString(children) && (errors.None? || SilentErrors(errors.value))
  {
    if !TruthyString(children) && errors.Some? && errors.value != [] && SilentErrors(errors.value) {
      SameMessageOneKey(errors.value, MessageOf(errors.value[0]));
    }
  }

  /**
   * What the component renders: `None` for `null`, otherwise the alert's
   * content. It renders nothing exactly when there are no children and the
   * errors are absent or all carry one missing or empty message.
   */
  function Rendered(children: Option<string>, errors: Option<seq<ErrorEntry>>): (r: Option<Content>)
    ensures r.Some? ==> r.value == ErrorContent(children, errors) && Truthy(r.value)
    ensures r.None? <==> !TruthyString(children) && (errors.None? || SilentErrors(errors.value))
  {
    FalsyContentIff(children, errors);
    var c := ErrorContent(children, errors);
    if Truthy(c) then Some(c) else None
  }

  /** Children, when given, are shown and the errors are ignored. */
  lemma ChildrenWin(children: Option<string>, errors: Option<seq<ErrorEntry>>, otherErrors: Option<seq<ErrorEntry>>)
    requires TruthyString(children)
    ensures Rendered(children, errors) == Some(ChildrenContent(children.value))
    ensures Rendered(children, errors) == Rendered(children, otherErrors)
  {
  }

  /** Without children, a missing or empty error list renders nothing. */
  lemma NoErrorsRenderNothing(children: Option<string>, errors: Option<seq<ErrorEntry>>)
    requires !TruthyString(children)
    requires errors.None? || errors.value == []
    ensures Rendered(children, errors) == None
  {
  }

  /**
   * Without children, errors that all carry the same message show that
   * one message, and show nothing when it is missing or empty.
   */
  lemma {:induction false} OneMessageShown(children: Option<string>, errors: seq<ErrorEntry>, msg: Option<string>)
    requires !TruthyString(children)
    requires errors != []
    requires forall j :: 0 <= j < |errors| ==> MessageOf(errors[j]) == msg
    ensures Rendered(children, Some(errors)) == if TruthyString(msg) then Some(MessageContent(msg)) else None
  {
    SameMessageOneKey(errors, msg);
  }

  /** Errors that all carry the same message leave one key. */
  lemma {:induction false} SameMessageOneKey(errors: seq<ErrorEntry>, msg: Option<string>)
    requires errors != []
    requires forall j :: 0 <= j < |errors| ==> MessageOf(errors[j]) == msg
    ensures MessageMap(errors).keys == [msg]
    decreases |errors|
  {
    var n := |errors| - 1;
    if n > 0 {
      SameMessageOneKey(errors[..n], msg);
      assert msg in MessageMap(errors[..n]).values;
    }
  }

  /**
   * Without children and with two or more distinct messages, the list
   * shows one item per distinct present message, in order of first
   * occurrence, and it is shown even when no message is present.
   */
  lemma SeveralMessagesListed(children: Option<string>, errors: seq<ErrorEntry>)
    requires !TruthyString(children)
    requires |UniqueErrors(errors)| >= 2
    ensures Rendered(children, Some(errors)) == Some(ListContent(ListItems(UniqueErrors(errors))))
    ensures forall i, j :: 0 <= i < j < |ListItems(UniqueErrors(errors))| ==>
              ListItems(UniqueErrors(errors))[i] != ListItems(UniqueErrors(errors))[j]
  {
    ListItemsDistinct(UniqueErrors(errors));
  }

  lemma {:induction false} ListItemsDistinct(unique: seq<ErrorEntry>)
    requires forall i, j :: 0 <= i < j < |unique| ==> MessageOf(unique[i]) != MessageOf(unique[j])
    ensures forall i, j :: 0 <= i < j < |ListItems(unique)| ==> ListItems(unique)[i] != ListItems(unique)[j]
    decreases |unique|
  {
    if unique != [] {
      ListItemsDistinct(unique[1..]);
      var m := MessageOf(unique[0]);
      if TruthyString(m) {
        var rest := ListItems(unique[1..]);
        forall i | 0 <= i < |rest| ensures rest[i] != m.value {
          var j :| 0 <= j < |unique[1..]| && MessageOf(unique[1..][j]) == Some(rest[i]);
          assert MessageOf(unique[j + 1]) != m;
        }
      }
    }
  }

  /** Two copies of "Required" around one "Too short" leave two unique errors, in first-occurrence order. */
  lemma DuplicateMessagesUnique(r: ErrorEntry, t: ErrorEntry)
    requires r == Some(Issue(Some("Required"))) && t == Some(Issue(Some("Too short")))
    ensures UniqueErrors([r, t, r]) == [r, t]
  {
    assert [r, t, r][..2] == [r, t] && [r, t][..1] == [r] && [r][..0] == [];
    assert MessageMap([r]) == InsertionMap([Some("Required")], map[Some("Required") := r]);
    assert MessageMap([r, t]) == InsertionMap([Some("Required"), Some("Too short")], map[Some("Required") := r, Some("Too short") := t]);
  }

  /** ... and the component lists the two messages once each. */
  lemma DuplicateMessagesExample(r: ErrorEntry, t: ErrorEntry)
    requires r == Some(Issue(Some("Required"))) && t == Some(Issue(Some("Too short")))
    ensures Rendered(None, Some([r, t, r])) == Some(ListContent(["Required", "Too short"]))
  {
    DuplicateMessagesUnique(r, t);
    assert [r, t][1..] == [t] && [t][1..] == [];
    assert ListItems([t]) == ["Too short"];
    assert ListItems([r, t]) == ["Required"] + ListItems([t]);
    assert ["Required"] + ["Too short"] == ["Required", "Too short"];
    assert ErrorContent(None, Some([r, t, r])) == ListContent(ListItems([r, t]));
  }

  /** A missing message and an empty one are two distinct keys, so both errors stay. */
  lemma MissingAndEmptyUnique(u: ErrorEntry, e: ErrorEntry)
    requires u == Some(Issue(None)) && e == Some(Issue(Some("")))
    ensures UniqueErrors([u, e]) == [u, e]
  {
    assert [u, e][..1] == [u] && [u][..0] == [];
    assert MessageMap([u]) == InsertionMap([None], map[None := u]);
    assert MessageMap([u, e]) == InsertionMap([None, Some("")], map[None := u, Some("") := e]);
  }

  /**
   * With those two errors the list branch is taken; it has no items but,
   * being an element, is still shown.
   */
  lemma EmptyListStillShown(u: ErrorEntry, e: ErrorEntry)
    requires u == Some(Issue(None)) && e == Some(Issue(Some("")))
    ensures Rendered(None, Some([u, e])) == Some(ListContent([]))
  {
    MissingAndEmptyUnique(u, e);
    assert [u, e][1..] == [e] && [e][1..] == [];
    assert ListItems([e]) == [];
    assert ListItems([u, e]) == [];
    assert ErrorContent(None, Some([u, e])) == ListContent([]);
  }
}
