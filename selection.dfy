/**
 * The multi-select editor's selection, `selectedItems`: a JavaScript `Set` of
 * frame ids, kept here as a sequence in insertion order (the order
 * `Array.from(selectedItems)` yields, which becomes the drag payload's order).
 */
module Selection {
  import opened Common
  import opened Frames

  /** `set.delete(x)`: the other members keep their insertion order. */
  function Delete(s: seq<Id>, x: Id): (r: seq<Id>)
    ensures x !in r && |r| <= |s|
    ensures forall y :: y != x ==> (y in r <==> y in s)
  {
    if s == [] then []
    else
      assert s == [s[0]] + s[1..];
      (if s[0] == x then [] else [s[0]]) + Delete(s[1..], x)
  }

  /** Deleting from a set without repetitions leaves one without repetitions, and a missing member changes nothing. */
  lemma {:induction false} DeleteDistinct(s: seq<Id>, x: Id)
    requires Distinct(s)
    ensures Distinct(Delete(s, x))
    ensures x !in s ==> Delete(s, x) == s
  {
    if s != [] {
      assert Distinct(s[1..]);
      DeleteDistinct(s[1..], x);
      assert s[0] !in s[1..];
    }
  }

  /** Deleting works piece by piece, so the remaining members keep their insertion order. */
  lemma {:induction false} DeleteAppend(a: seq<Id>, b: seq<Id>, x: Id)
    ensures Delete(a + b, x) == Delete(a, x) + Delete(b, x)
  {
    if a == [] {
      assert a + b == b;
    } else {
      assert (a + b)[0] == a[0] && (a + b)[1..] == a[1..] + b;
      DeleteAppend(a[1..], b, x);
    }
  }

  /** On one member, `delete` drops it exactly when it is the deleted id. */
  lemma DeleteOne(y: Id, x: Id)
    ensures Delete([y], x) == if y == x then [] else [y]
  {
    assert [y][1..] == [];
  }

  /** `set.add(x)`: appended unless already a member. */
  function Add(s: seq<Id>, x: Id): (r: seq<Id>)
    ensures x in r
    ensures forall y :: y != x ==> (y in r <==> y in s)
    ensures Distinct(s) ==> Distinct(r)
    ensures x in s ==> r == s
    ensures x !in s ==> r == s + [x]
  {
    if x in s then s else s + [x]
  }

  /**
   * `handleSelectClick`: a shift-click toggles the clicked id's membership; a plain
   * click makes the clicked id the whole selection.
   */
  function Clicked(s: seq<Id>, x: Id, shift: bool): (r: seq<Id>)
    ensures !shift ==> r == [x]
    ensures shift ==> (x in r <==> x !in s)
    ensures shift ==> forall y :: y != x ==> (y in r <==> y in s)
  {
    if shift then (if x in s then Delete(s, x) else Add(s, x)) else [x]
  }

  /** A click keeps the selection free of repetitions. */
  lemma ClickedDistinct(s: seq<Id>, x: Id, shift: bool)
    requires Distinct(s)
    ensures Distinct(Clicked(s, x, shift))
  {
    DeleteDistinct(s, x);
  }

  /** Two shift-clicks on the same frame restore the selection's membership (a re-added id moves to the end). */
  lemma ShiftClickTwice(s: seq<Id>, x: Id)
    ensures forall y :: y in Clicked(Clicked(s, x, true), x, true) <==> y in s
  {
  }

  /**
   * `handleDragStart` without shift: dragging a selected frame drags the whole
   * selection; dragging an unselected frame first makes it the only selection.
   */
  function DragSelection(s: seq<Id>, x: Id): (r: seq<Id>)
    ensures x in r && (x in s ==> r == s)
    ensures x !in s ==> r == [x]
    ensures forall y :: y in r ==> y == x || y in s
    ensures Distinct(s) ==> Distinct(r)
  {
    if x in s then s else [x]
  }
}
