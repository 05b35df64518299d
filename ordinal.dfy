/**
 * The ordinal workaround on the wrapper's child list. A child is only
 * told apart by its kind:
 * - a marker `<span role="option">`;
 * - the `.k-dropdown-wrap` generated-input wrapper;
 * - the source element;
 * - any other child.
 * Positions are 0-based here. CSS `:nth-child(n)` is 1-based, so it picks
 * index n - 1.
 */
module Ordinal {
  import opened Wrappers

  datatype Node = Marker | GeneratedWrap | SourceElement | Other

  function Count(s: seq<Node>, x: Node): nat {
    multiset(s)[x]
  }

  function Markers(n: nat): (m: seq<Node>)
    ensures |m| == n && forall i :: 0 <= i < n ==> m[i] == Marker
  {
    seq(n, _ => Marker)
  }

  /** The first child of kind `x` (jQuery `:first` over the matching children). */
  function FirstIndex(s: seq<Node>, x: Node): (i: nat)
    requires x in s
    ensures i < |s| && s[i] == x && forall j :: 0 <= j < i ==> s[j] != x
  {
    if s[0] == x then 0
    else
      1 + FirstIndex(s[1..], x)
  }

  /** The last child of kind `x` (jQuery `:last` over the matching children). */
  function LastIndex(s: seq<Node>, x: Node): (i: nat)
    requires x in s
    ensures i < |s| && s[i] == x && forall j :: i < j < |s| ==> s[j] != x
  {
    if s[|s| - 1] == x then |s| - 1
    else
      var init := s[..|s| - 1];
      assert x in init by { assert s == init + [s[|s| - 1]]; }
      LastIndex(init, x)
  }

  /** Takes the child at `i` out of the list. */
  function Remove(s: seq<Node>, i: nat): (r: seq<Node>)
    requires i < |s|
    ensures |r| == |s| - 1
  {
    s[..i] + s[i + 1..]
  }

  /** Puts `x` into the list so that it becomes the child at `i`. */
  function Insert(s: seq<Node>, i: nat, x: Node): (r: seq<Node>)
    requires i <= |s|
    ensures |r| == |s| + 1
  {
    s[..i] + [x] + s[i..]
  }

  /** Where the child at `target` sits once the child at `from` has been taken out. */
  function Shifted(from: nat, target: nat): nat
    requires from != target
  {
    if target < from then target else target - 1
  }

  /** The child at `from` taken out and put back so that it becomes the child at `j`. */
  function Move(s: seq<Node>, from: nat, j: nat): seq<Node>
    requires from < |s| && j < |s|
  {
    Insert(Remove(s, from), j, s[from])
  }

  /** jQuery `$(s[from]).insertBefore(s[target])`. */
  function MoveBefore(s: seq<Node>, from: nat, target: nat): seq<Node>
    requires from < |s| && target < |s| && from != target
  {
    Move(s, from, Shifted(from, target))
  }

  /** jQuery `$(s[from]).insertAfter(s[target])`. */
  function MoveAfter(s: seq<Node>, from: nat, target: nat): seq<Node>
    requires from < |s| && target < |s| && from != target
  {
    Move(s, from, Shifted(from, target) + 1)
  }

  /**
   * `children("span[role=option]:nth-child(n)")`: the child at 1-based
   * position `n` among all children, provided it is a marker.
   */
  function NthChildMarker(s: seq<Node>, n: int): Option<nat> {
    if 1 <= n <= |s| && s[n - 1] == Marker then Some(n - 1) else None
  }

  /**
   * `_reorderOptions` on the child list, for the previously recorded index
   * `prev` and the newly selected index `selected`. An empty jQuery target
   * moves nothing.
   */
  function Reorder(s: seq<Node>, prev: int, selected: int): seq<Node> {
    if selected == prev || GeneratedWrap !in s then s
    else
      var g := FirstIndex(s, GeneratedWrap);
      if selected == 0 then
        if Marker in s then MoveBefore(s, g, FirstIndex(s, Marker)) else s
      else
        match NthChildMarker(s, selected + 1)
        case None => s
        case Some(target) => if prev < selected then MoveAfter(s, g, target) else MoveBefore(s, g, target)
  }

  /**
   * Line 153 of the construction step: the source element moves right after
   * the last `span[role=option]` below the wrapper. With no marker, that
   * span is the generated `.k-input` inside `.k-dropdown-wrap`. The source
   * element then leaves the wrapper's child list.
   */
  function PlaceSource(s: seq<Node>): seq<Node>
    requires SourceElement in s
  {
    var e := FirstIndex(s, SourceElement);
    if Marker in s then MoveAfter(s, e, LastIndex(s, Marker)) else Remove(s, e)
  }

  // ---------------------------------------------------------------------
  // The children other than a given kind, in order
  // ---------------------------------------------------------------------

  function Without(s: seq<Node>, x: Node): seq<Node> {
    if s == [] then []
    else (if s[0] == x then [] else [s[0]]) + Without(s[1..], x)
  }

  lemma {:induction false} WithoutConcat(a: seq<Node>, b: seq<Node>, x: Node)
    ensures Without(a + b, x) == Without(a, x) + Without(b, x)
  {
    if a == [] {
      assert a + b == b;
    } else {
      assert (a + b)[0] == a[0];
      assert (a + b)[1..] == a[1..] + b;
      WithoutConcat(a[1..], b, x);
    }
  }

  lemma WithoutRemove(s: seq<Node>, i: nat, x: Node)
    requires i < |s| && s[i] == x
    ensures Without(Remove(s, i), x) == Without(s, x)
    ensures multiset(Remove(s, i)) + multiset{x} == multiset(s)
  {
    assert s == s[..i] + [x] + s[i + 1..];
    WithoutConcat(s[..i] + [x], s[i + 1..], x);
    WithoutConcat(s[..i], [x], x);
    WithoutConcat(s[..i], s[i + 1..], x);
    assert Without([x], x) == [];
  }

  lemma WithoutInsert(r: seq<Node>, j: nat, x: Node)
    requires j <= |r|
    ensures Without(Insert(r, j, x), x) == Without(r, x)
    ensures multiset(Insert(r, j, x)) == multiset(r) + multiset{x}
  {
    assert r == r[..j] + r[j..];
    WithoutConcat(r[..j] + [x], r[j..], x);
    WithoutConcat(r[..j], [x], x);
    WithoutConcat(r[..j], r[j..], x);
    assert Without([x], x) == [];
  }

  /** The child at `k` after a move: the moved child at `j`, the others shifted around the gap. */
  lemma MoveAt(s: seq<Node>, from: nat, j: nat, k: nat)
    requires from < |s| && j < |s| && k < |s|
    ensures |Move(s, from, j)| == |s|
    ensures var i := if k < j then k else k - 1;
            Move(s, from, j)[k] == if k == j then s[from] else if i < from then s[i] else s[i + 1]
  {
  }

  /** Moving one child keeps every kind's count and the order of the children of the other kinds. */
  lemma MoveKeepsOthers(s: seq<Node>, from: nat, j: nat)
    requires from < |s| && j < |s|
    ensures multiset(Move(s, from, j)) == multiset(s)
    ensures Without(Move(s, from, j), s[from]) == Without(s, s[from])
  {
    WithoutRemove(s, from, s[from]);
    WithoutInsert(Remove(s, from), j, s[from]);
  }

  // ---------------------------------------------------------------------
  // Properties of _reorderOptions
  // ---------------------------------------------------------------------

  /**
   * Reordering is a permutation that moves only the `.k-dropdown-wrap`:
   * every kind keeps its count (the markers in particular), and the other
   * children keep their relative order.
   */
  lemma ReorderPermutes(s: seq<Node>, prev: int, selected: int)
    ensures multiset(Reorder(s, prev, selected)) == multiset(s)
    ensures Count(Reorder(s, prev, selected), Marker) == Count(s, Marker)
    ensures Without(Reorder(s, prev, selected), GeneratedWrap) == Without(s, GeneratedWrap)
  {
    if selected != prev && GeneratedWrap in s {
      var g := FirstIndex(s, GeneratedWrap);
      if selected == 0 {
        if Marker in s {
          var t := FirstIndex(s, Marker);
          MoveKeepsOthers(s, g, Shifted(g, t));
        }
      } else if NthChildMarker(s, selected + 1).Some? {
        var target := NthChildMarker(s, selected + 1).value;
        if prev < selected {
          MoveKeepsOthers(s, g, Shifted(g, target) + 1);
        } else {
          MoveKeepsOthers(s, g, Shifted(g, target));
        }
      }
    }
  }

  /**
   * The list is left alone when the index did not change, when no
   * `.k-dropdown-wrap` is found, when index 0 finds no marker, or when the
   * (selected+1)-th child is not a marker.
   */
  lemma ReorderNoMove(s: seq<Node>, prev: int, selected: int)
    requires selected == prev || GeneratedWrap !in s
          || (selected == 0 && Marker !in s)
          || (selected != 0 && !(0 <= selected < |s| && s[selected] == Marker))
    ensures Reorder(s, prev, selected) == s
  {
  }

  /** The child right before the first marker is the wrap. */
  predicate WrapBeforeFirstMarker(r: seq<Node>) {
    Marker in r && 0 < FirstIndex(r, Marker) && r[FirstIndex(r, Marker) - 1] == GeneratedWrap
  }

  /** With a new index of 0, the wrap ends immediately before the first marker child. */
  lemma ReorderToFirst(s: seq<Node>, prev: int)
    requires prev != 0 && Count(s, GeneratedWrap) == 1 && Marker in s
    ensures WrapBeforeFirstMarker(Reorder(s, prev, 0))
  {
    var g := FirstIndex(s, GeneratedWrap);
    var t := FirstIndex(s, Marker);
    var j := Shifted(g, t);
    var r := Reorder(s, prev, 0);
    assert r == Insert(Remove(s, g), j, GeneratedWrap);
    assert r[j + 1] == Marker;
    forall k | 0 <= k < j + 1 ensures r[k] != Marker {
      if k < j {
        if k < g { assert r[k] == s[k] && k < t; }
        else { assert r[k] == s[k + 1] && k + 1 < t; }
      }
    }
    assert FirstIndex(r, Marker) == j + 1;
  }

  /**
   * Moving to a higher index: the wrap ends immediately after the marker
   * that was the (selected+1)-th child.
   */
  lemma ReorderForward(s: seq<Node>, prev: int, selected: int)
    requires 0 < selected && prev < selected < |s| && s[selected] == Marker && GeneratedWrap in s
    ensures var r := Reorder(s, prev, selected);
            var j := Shifted(FirstIndex(s, GeneratedWrap), selected);
            j + 1 < |r| && r[j] == Marker && r[j + 1] == GeneratedWrap
  {
    var g := FirstIndex(s, GeneratedWrap);
    var j := Shifted(g, selected);
    assert NthChildMarker(s, selected + 1) == Some(selected);
    assert Reorder(s, prev, selected) == Move(s, g, j + 1);
    MoveAt(s, g, j + 1, j);
    MoveAt(s, g, j + 1, j + 1);
  }

  /**
   * Moving to a lower index: the wrap ends immediately before the marker
   * that was the (selected+1)-th child.
   */
  lemma ReorderBackward(s: seq<Node>, prev: int, selected: int)
    requires 0 < selected < prev && selected < |s| && s[selected] == Marker && GeneratedWrap in s
    ensures var r := Reorder(s, prev, selected);
            var j := Shifted(FirstIndex(s, GeneratedWrap), selected);
            j + 1 < |r| && r[j] == GeneratedWrap && r[j + 1] == Marker
  {
    var g := FirstIndex(s, GeneratedWrap);
    var j := Shifted(g, selected);
    assert NthChildMarker(s, selected + 1) == Some(selected);
    assert Reorder(s, prev, selected) == Move(s, g, j);
    MoveAt(s, g, j, j);
    MoveAt(s, g, j, j + 1);
  }

  // ---------------------------------------------------------------------
  // When the ordinal does line up
  // ---------------------------------------------------------------------

  /** The layout the ordinal workaround aims for: markers, the wrap, markers, then the rest. */
  function Layout(a: nat, b: nat, rest: seq<Node>): seq<Node> {
    Markers(a) + [GeneratedWrap] + Markers(b) + rest
  }

  lemma LayoutWrapAt(a: nat, b: nat, rest: seq<Node>)
    ensures GeneratedWrap in Layout(a, b, rest) && FirstIndex(Layout(a, b, rest), GeneratedWrap) == a
    ensures Remove(Layout(a, b, rest), a) == Markers(a + b) + rest
    ensures forall k :: 0 <= k <= a + b && k != a ==> Layout(a, b, rest)[k] == Marker
  {
    var s := Layout(a, b, rest);
    assert s[a] == GeneratedWrap;
    assert forall i :: 0 <= i < a ==> s[i] == Marker;
    assert s[..a] == Markers(a);
    assert s[a + 1..] == Markers(b) + rest;
    assert Markers(a) + Markers(b) == Markers(a + b);
  }

  lemma InsertIntoMarkers(m: nat, rest: seq<Node>, k: nat)
    requires k <= m
    ensures Insert(Markers(m) + rest, k, GeneratedWrap) == Layout(k, m - k, rest)
  {
    var r := Markers(m) + rest;
    assert r[..k] == Markers(k);
    assert r[k..] == Markers(m - k) + rest;
  }

  /**
   * If the wrap stands at index `prev` with only markers before it and at
   * least `selected - prev` markers after it, then reordering moves it to
   * index `selected`, again with only markers around it.
   */
  lemma ReorderTracksSelection(a: nat, b: nat, rest: seq<Node>, selected: int)
    requires 0 <= selected <= a + b && selected != a
    ensures Reorder(Layout(a, b, rest), a, selected) == Layout(selected, a + b - selected, rest)
  {
    LayoutWrapAt(a, b, rest);
    ReorderLandsAt(Layout(a, b, rest), a, selected);
    InsertIntoMarkers(a + b, rest, selected);
  }

  /**
   * When `prev` is the wrap's actual index and the (selected+1)-th child is
   * a marker, the wrap ends up at index `selected`.
   */
  lemma ReorderLandsAt(s: seq<Node>, prev: nat, selected: nat)
    requires GeneratedWrap in s && FirstIndex(s, GeneratedWrap) == prev
    requires selected < |s| && selected != prev && s[selected] == Marker
    ensures Reorder(s, prev, selected) == Insert(Remove(s, prev), selected, GeneratedWrap)
  {
    assert s[prev] == GeneratedWrap;
    if selected == 0 {
      assert FirstIndex(s, Marker) == 0;
      assert Reorder(s, prev, selected) == MoveBefore(s, prev, 0);
    } else if prev < selected {
      assert NthChildMarker(s, selected + 1) == Some(selected);
      assert Reorder(s, prev, selected) == MoveAfter(s, prev, selected);
    } else {
      assert NthChildMarker(s, selected + 1) == Some(selected);
      assert Reorder(s, prev, selected) == MoveBefore(s, prev, selected);
    }
  }

  /**
   * Construction leaves the wrap in front of the markers, whatever the
   * selected index. When that index is not 0, the next reorder misplaces
   * the wrap. Example: the index recorded at construction is 2, and the
   * user then selects index 1. The wrap stays at index 0.
   */
  lemma ReorderAfterNonZeroStart()
    ensures var s := [GeneratedWrap, Marker, Marker, Marker, SourceElement];
            Reorder(s, 2, 1) == s && FirstIndex(Reorder(s, 2, 1), GeneratedWrap) != 1
  {
    var s := [GeneratedWrap, Marker, Marker, Marker, SourceElement];
    assert FirstIndex(s, GeneratedWrap) == 0;
    assert Reorder(s, 2, 1) == Insert(Remove(s, 0), 0, GeneratedWrap);
  }

  /**
   * Construction leaves the wrap at index 0 whatever index it records. From
   * there, a move up to a marker index lands the wrap on that index, but a
   * move down to an index above 0 lands it one place short, at selected - 1.
   */
  lemma ReorderFromStart(n: nat, rest: seq<Node>, prev: int, selected: nat)
    requires 0 < selected <= n && selected != prev
    ensures Reorder(Layout(0, n, rest), prev, selected)
            == if prev < selected then Layout(selected, n - selected, rest)
               else Layout(selected - 1, n - selected + 1, rest)
  {
    var t := Markers(n) + rest;
    assert Layout(0, n, rest) == [GeneratedWrap] + t by {
      assert Markers(0) == [];
    }
    ReorderFromFront(t, prev, selected);
    if prev < selected {
      InsertIntoMarkers(n, rest, selected);
    } else {
      InsertIntoMarkers(n, rest, selected - 1);
      assert n - (selected - 1) == n - selected + 1;
    }
  }

  /** A reorder from a list that starts with the wrap, towards a marker at index `selected`. */
  lemma ReorderFromFront(t: seq<Node>, prev: int, selected: nat)
    requires 0 < selected <= |t| && t[selected - 1] == Marker && selected != prev
    ensures Reorder([GeneratedWrap] + t, prev, selected)
            == Insert(t, if prev < selected then selected else selected - 1, GeneratedWrap)
  {
    var s := [GeneratedWrap] + t;
    assert s[0] == GeneratedWrap && s[selected] == Marker;
    assert FirstIndex(s, GeneratedWrap) == 0;
    assert NthChildMarker(s, selected + 1) == Some(selected);
    assert Remove(s, 0) == t;
    if prev < selected {
      assert Reorder(s, prev, selected) == MoveAfter(s, 0, selected);
    } else {
      assert Reorder(s, prev, selected) == MoveBefore(s, 0, selected);
    }
  }

  /**
   * An index one past the last marker names a child that is no marker, so
   * `nth-child` finds nothing and the wrap stays where it is.
   */
  lemma ReorderPastLastMarker(a: nat, b: nat, rest: seq<Node>, prev: int, selected: int)
    requires selected == a + b + 1 && |rest| > 0 && rest[0] != Marker
    ensures Reorder(Layout(a, b, rest), prev, selected) == Layout(a, b, rest)
  {
    var s := Layout(a, b, rest);
    assert s[a + b + 1] == rest[0];
    assert NthChildMarker(s, selected + 1).None?;
  }

  // ---------------------------------------------------------------------
  // Construction layout
  // ---------------------------------------------------------------------

  /**
   * The child list after construction: n markers are appended to the base
   * children. The source element then moves to the very end, behind the
   * last marker. When n is 0 it leaves the list instead.
   */
  lemma ConstructionLayout(base: seq<Node>, n: nat)
    requires SourceElement in base && Marker !in base
    ensures var e := FirstIndex(base, SourceElement);
            PlaceSource(base + Markers(n)) == if n > 0 then Remove(base, e) + Markers(n) + [SourceElement]
                                              else Remove(base, e)
  {
    var s := base + Markers(n);
    var e := FirstIndex(base, SourceElement);
    AppendKeepsSource(base, n);
    AppendedLastMarker(base, n);
    var r := Remove(s, e);
    if n > 0 {
      assert Shifted(e, |s| - 1) + 1 == |r|;
      assert PlaceSource(s) == Insert(r, |r|, SourceElement);
      assert Insert(r, |r|, SourceElement) == r + [SourceElement];
    } else {
      assert s == base;
    }
  }

  /** Appending markers leaves the source element, and what precedes it, where it was. */
  lemma AppendKeepsSource(base: seq<Node>, n: nat)
    requires SourceElement in base && Marker !in base
    ensures var s := base + Markers(n);
            var e := FirstIndex(base, SourceElement);
            && FirstIndex(s, SourceElement) == e
            && Remove(s, e) == Remove(base, e) + Markers(n)
  {
    var s := base + Markers(n);
    var e := FirstIndex(base, SourceElement);
    assert s[e] == SourceElement;
    forall j | 0 <= j < e ensures s[j] != SourceElement {
      assert s[j] == base[j];
    }
    assert s[..e] == base[..e];
    assert s[e + 1..] == base[e + 1..] + Markers(n);
  }

  /** After appending n markers, the last child is a marker exactly when n > 0. */
  lemma AppendedLastMarker(base: seq<Node>, n: nat)
    requires Marker !in base
    ensures var s := base + Markers(n);
            && (Marker in s <==> n > 0)
            && (n > 0 ==> LastIndex(s, Marker) == |s| - 1)
  {
    var s := base + Markers(n);
    if n > 0 {
      assert s[|s| - 1] == Marker;
    } else {
      assert s == base;
    }
  }

  /**
   * On a wrapper whose children are the wrap followed by the source element,
   * construction with n > 0 markers gives the wrap at index 0, the markers
   * behind it and the source element last.
   */
  lemma ConstructionStartsLayout(n: nat)
    requires n > 0
    ensures PlaceSource([GeneratedWrap, SourceElement] + Markers(n)) == Layout(0, n, [SourceElement])
  {
    var base := [GeneratedWrap, SourceElement];
    assert FirstIndex(base, SourceElement) == 1;
    assert Remove(base, 1) == [GeneratedWrap];
    ConstructionLayout(base, n);
    assert Markers(0) == [];
  }

  /**
   * The construction layout holds n markers, the base's wraps, and the
   * source element once when n > 0 and not at all otherwise.
   */
  lemma CountsAfterConstruction(base: seq<Node>, n: nat)
    requires SourceElement in base && Marker !in base
    ensures var r := PlaceSource(base + Markers(n));
            && Count(r, Marker) == n
            && Count(r, GeneratedWrap) == Count(base, GeneratedWrap)
            && Count(r, SourceElement) == Count(base, SourceElement) - (if n > 0 then 0 else 1)
  {
    var e := FirstIndex(base, SourceElement);
    var removed := Remove(base, e);
    ConstructionLayout(base, n);
    WithoutRemove(base, e, SourceElement);
    MarkersCount(n);
    var r := PlaceSource(base + Markers(n));
    if n > 0 {
      assert r == removed + Markers(n) + [SourceElement];
      assert multiset(r) == multiset(removed) + multiset(Markers(n)) + multiset{SourceElement};
      assert multiset(r) == multiset(base) + multiset(Markers(n));
    } else {
      assert r == removed;
    }
  }

  /** Markers(n) consists of n markers and nothing else. */
  lemma {:induction false} MarkersCount(n: nat)
    ensures multiset(Markers(n))[Marker] == n
    ensures multiset(Markers(n))[GeneratedWrap] == 0 && multiset(Markers(n))[SourceElement] == 0
  {
    if n > 0 {
      assert Markers(n) == Markers(n - 1) + [Marker];
      MarkersCount(n - 1);
    }
  }

  /**
   * The child-list part of `_generateOptionCountWorkaround`: append n
   * markers one by one, then move the source element behind the last
   * `span[role=option]`.
   */
  method BuildOptionSet(base: seq<Node>, n: nat) returns (kids: seq<Node>)
    requires Count(base, SourceElement) > 0 && Count(base, Marker) == 0
    ensures kids == PlaceSource(base + Markers(n))
    ensures Count(kids, Marker) == n && Count(kids, GeneratedWrap) == Count(base, GeneratedWrap)
    ensures Count(kids, SourceElement) == Count(base, SourceElement) - (if n > 0 then 0 else 1)
  {
    kids := base;
    var i := 0;
    while i < n
      invariant 0 <= i <= n
      invariant kids == base + Markers(i)
    {
      kids := kids + [Marker];
      i := i + 1;
    }
    CountsAfterConstruction(base, n);
    kids := PlaceSource(kids);
  }
}
