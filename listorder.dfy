/**
 * The multi-select editor's frame list (`#frames-list`) as a sequence of entries,
 * and the order computations behind its drag gestures: where the placeholder
 * goes, where a dropped payload lands, and how `syncFramesFromDOM` rebuilds the
 * frame list from the entries' order.
 */
module ListOrder {
  import opened Common
  import opened Frames

  /** A list element: the `<li>` of a frame (identified by its `data-id`) or the dashed placeholder. */
  datatype Entry = Item(id: Id) | Placeholder

  /** The frame ids of the entries, in list order (what `querySelectorAll('.frame-item')` finds frames for). */
  function Items(list: seq<Entry>): (ids: seq<Id>)
    ensures |ids| <= |list|
  {
    if list == [] then []
    else (if list[0].Item? then [list[0].id] else []) + Items(list[1..])
  }

  /** The entries `renderFramesList` creates: one item per frame, no placeholder. */
  function Render(frames: seq<Frame>): (list: seq<Entry>)
    ensures |list| == |frames| && Placeholder !in list
    ensures forall i :: 0 <= i < |frames| ==> list[i] == Item(frames[i].id)
  {
    seq(|frames|, i requires 0 <= i < |frames| => Item(frames[i].id))
  }

  /** The entries for a list of ids. */
  function ItemsOf(ids: seq<Id>): (list: seq<Entry>)
    ensures |list| == |ids| && Placeholder !in list
    ensures forall i :: 0 <= i < |ids| ==> list[i] == Item(ids[i])
  {
    seq(|ids|, i requires 0 <= i < |ids| => Item(ids[i]))
  }

  /** The ids not in `p`, in order. */
  function Without(ids: seq<Id>, p: seq<Id>): (r: seq<Id>)
  {
    if ids == [] then [] else (if ids[0] in p then [] else [ids[0]]) + Without(ids[1..], p)
  }

  /** The entries other than the items of `p` (the placeholder is kept). */
  function Strip(list: seq<Entry>, p: seq<Id>): (r: seq<Entry>)
    ensures Placeholder in r <==> Placeholder in list
  {
    if list == [] then []
    else (if list[0].Item? && list[0].id in p then [] else [list[0]]) + Strip(list[1..], p)
  }

  /** How many placeholders the list holds. */
  function PlaceholderCount(list: seq<Entry>): (n: nat)
    ensures n == 0 <==> Placeholder !in list
  {
    if list == [] then 0 else (if list[0] == Placeholder then 1 else 0) + PlaceholderCount(list[1..])
  }

  /** The position of the first placeholder. */
  function PlaceholderIndex(list: seq<Entry>): (k: nat)
    requires Placeholder in list
    ensures k < |list| && list[k] == Placeholder && Placeholder !in list[..k]
  {
    if list[0] == Placeholder then 0
    else
      assert list == [list[0]] + list[1..];
      var k := PlaceholderIndex(list[1..]);
      assert list[..k + 1] == [list[0]] + list[1..][..k];
      k + 1
  }

  /** The position of the item with id `x`. */
  function ItemIndex(list: seq<Entry>, x: Id): (k: nat)
    requires Item(x) in list
    ensures k < |list| && list[k] == Item(x)
  {
    if list[0] == Item(x) then 0
    else
      assert list == [list[0]] + list[1..];
      ItemIndex(list[1..], x) + 1
  }

  // ----- Append laws -----

  lemma {:induction false} ItemsAppend(a: seq<Entry>, b: seq<Entry>)
    ensures Items(a + b) == Items(a) + Items(b)
  {
    if a == [] {
      assert a + b == b;
    } else {
      assert (a + b)[0] == a[0];
      assert (a + b)[1..] == a[1..] + b;
      ItemsAppend(a[1..], b);
    }
  }

  lemma {:induction false} WithoutAppend(a: seq<Id>, b: seq<Id>, p: seq<Id>)
    ensures Without(a + b, p) == Without(a, p) + Without(b, p)
  {
    if a == [] {
      assert a + b == b;
    } else {
      assert (a + b)[1..] == a[1..] + b;
      WithoutAppend(a[1..], b, p);
    }
  }

  lemma {:induction false} StripAppend(a: seq<Entry>, b: seq<Entry>, p: seq<Id>)
    ensures Strip(a + b, p) == Strip(a, p) + Strip(b, p)
  {
    if a == [] {
      assert a + b == b;
    } else {
      var head := if a[0].Item? && a[0].id in p then [] else [a[0]];
      assert (a + b)[0] == a[0] && (a + b)[1..] == a[1..] + b;
      assert Strip(a + b, p) == head + Strip(a[1..] + b, p);
      StripAppend(a[1..], b, p);
      assert Strip(a, p) == head + Strip(a[1..], p);
    }
  }

  lemma {:induction false} PlaceholderCountAppend(a: seq<Entry>, b: seq<Entry>)
    ensures PlaceholderCount(a + b) == PlaceholderCount(a) + PlaceholderCount(b)
  {
    if a == [] {
      assert a + b == b;
    } else {
      assert (a + b)[1..] == a[1..] + b;
      PlaceholderCountAppend(a[1..], b);
    }
  }

  lemma {:induction false} ItemsOfRender(frames: seq<Frame>)
    ensures Items(Render(frames)) == Ids(frames)
  {
    if frames != [] {
      assert Render(frames) == [Item(frames[0].id)] + Render(frames[1..]);
      ItemsOfRender(frames[1..]);
    }
  }

  lemma {:induction false} ItemsOfItemsOf(ids: seq<Id>)
    ensures Items(ItemsOf(ids)) == ids
  {
    if ids != [] {
      assert ItemsOf(ids) == [Item(ids[0])] + ItemsOf(ids[1..]);
      ItemsOfItemsOf(ids[1..]);
    }
  }

  lemma {:induction false} ItemsOfStrip(list: seq<Entry>, p: seq<Id>)
    ensures Items(Strip(list, p)) == Without(Items(list), p)
  {
    if list != [] {
      ItemsOfStrip(list[1..], p);
      var head := if list[0].Item? && list[0].id in p then [] else [list[0]];
      ItemsAppend(head, Strip(list[1..], p));
      assert Items([list[0]]) == (if list[0].Item? then [list[0].id] else []);
      assert list[0].Item? ==> Items(list)[0] == list[0].id && Items(list)[1..] == Items(list[1..]);
      assert !list[0].Item? ==> Items(list) == Items(list[1..]);
    }
  }

  /** Removing the items of `p` and then the item of `x` removes the items of `p + [x]`. */
  lemma {:induction false} StripTwice(list: seq<Entry>, p: seq<Id>, x: Id)
    ensures Strip(Strip(list, p), [x]) == Strip(list, p + [x])
  {
    if list != [] {
      StripTwice(list[1..], p, x);
      var head := if list[0].Item? && list[0].id in p then [] else [list[0]];
      StripAppend(head, Strip(list[1..], p), [x]);
    }
  }

  lemma {:induction false} StripAbsent(list: seq<Entry>, p: seq<Id>)
    requires forall x :: x in p ==> Item(x) !in list
    ensures Strip(list, p) == list
  {
    if list != [] {
      StripAbsent(list[1..], p);
    }
  }

  lemma {:induction false} StripNoPlaceholder(list: seq<Entry>, p: seq<Id>)
    requires Placeholder !in list
    ensures Placeholder !in Strip(list, p)
  {
  }

  // ----- Counting -----

  /** In a list without repetitions every element is counted once. */
  lemma {:induction false} DistinctCount(s: seq<Id>, x: Id)
    requires Distinct(s)
    ensures multiset(s)[x] == if x in s then 1 else 0
  {
    if s != [] {
      assert s == [s[0]] + s[1..];
      assert Distinct(s[1..]);
      DistinctCount(s[1..], x);
      assert s[0] !in s[1..];
    }
  }

  /** A list in which nothing is counted twice has no repetitions. */
  lemma CountsDistinct(s: seq<Id>)
    requires forall x :: multiset(s)[x] <= 1
    ensures Distinct(s)
  {
    forall i, j | 0 <= i < j < |s| ensures s[i] != s[j] {
      assert s == s[..j] + s[j..];
      assert multiset(s)[s[j]] == multiset(s[..j])[s[j]] + multiset(s[j..])[s[j]];
      assert s[j] in s[j..] && s[i] in s[..j];
    }
  }

  lemma {:induction false} WithoutCount(s: seq<Id>, p: seq<Id>, x: Id)
    ensures multiset(Without(s, p))[x] == if x in p then 0 else multiset(s)[x]
  {
    if s != [] {
      assert s == [s[0]] + s[1..];
      WithoutCount(s[1..], p, x);
    }
  }

  // ----- Placeholder moves -----

  /** `placeholder.remove()`: the list without its placeholder. */
  function RemovePlaceholder(list: seq<Entry>): (r: seq<Entry>)
    requires PlaceholderCount(list) <= 1
    ensures Placeholder !in r
    ensures Items(r) == Items(list)
  {
    if Placeholder in list then
      var k := PlaceholderIndex(list);
      assert list == list[..k] + [list[k]] + list[k + 1..];
      PlaceholderCountAppend(list[..k] + [list[k]], list[k + 1..]);
      PlaceholderCountAppend(list[..k], [list[k]]);
      ItemsAppend(list[..k] + [list[k]], list[k + 1..]);
      ItemsAppend(list[..k], [list[k]]);
      ItemsAppend(list[..k], list[k + 1..]);
      assert Items([Placeholder]) == [];
      list[..k] + list[k + 1..]
    else list
  }

  /** `parent.insertBefore(e, reference)` where the reference is at position `k` (or `k == |list|` for none). */
  function InsertAt(list: seq<Entry>, k: nat, e: Entry): (r: seq<Entry>)
    requires k <= |list|
    ensures |r| == |list| + 1 && r[k] == e
    ensures r[..k] == list[..k] && r[k + 1..] == list[k..]
  {
    list[..k] + [e] + list[k..]
  }

  lemma {:induction false} InsertPlaceholderFacts(list: seq<Entry>, k: nat)
    requires k <= |list| && Placeholder !in list
    ensures Items(InsertAt(list, k, Placeholder)) == Items(list)
    ensures PlaceholderCount(InsertAt(list, k, Placeholder)) == 1
    ensures Placeholder in InsertAt(list, k, Placeholder) && PlaceholderIndex(InsertAt(list, k, Placeholder)) == k
  {
    PlaceholderAt(list, k);
    var x, y := list[..k], list[k..];
    assert list == x + y;
    InsertBetween(x, y);
  }

  lemma InsertBetween(x: seq<Entry>, y: seq<Entry>)
    requires Placeholder !in x + y
    ensures Items(x + [Placeholder] + y) == Items(x + y)
    ensures PlaceholderCount(x + [Placeholder] + y) == 1
  {
    assert Placeholder !in x && Placeholder !in y;
    ItemsAppend(x + [Placeholder], y);
    ItemsAppend(x, [Placeholder]);
    ItemsAppend(x, y);
    PlaceholderCountAppend(x + [Placeholder], y);
    PlaceholderCountAppend(x, [Placeholder]);
    assert Items([Placeholder]) == [];
  }

  lemma PlaceholderAt(list: seq<Entry>, k: nat)
    requires k <= |list| && Placeholder !in list
    ensures Placeholder in InsertAt(list, k, Placeholder) && PlaceholderIndex(InsertAt(list, k, Placeholder)) == k
  {
    var r := InsertAt(list, k, Placeholder);
    assert Placeholder !in r[..k] by {
      assert r[..k] == list[..k];
      assert forall e :: e in list[..k] ==> e in list;
    }
    PlaceholderIndexIs(r, k);
  }

  /** The first placeholder is the one with no placeholder before it. */
  lemma {:induction false} PlaceholderIndexIs(list: seq<Entry>, k: nat)
    requires k < |list| && list[k] == Placeholder && Placeholder !in list[..k]
    ensures Placeholder in list && PlaceholderIndex(list) == k
  {
    if k != 0 {
      assert list[..k][0] == list[0];
      assert list[1..][..k - 1] == list[..k][1..];
      PlaceholderIndexIs(list[1..], k - 1);
    }
  }

  lemma {:induction false} ItemInItems(list: seq<Entry>, x: Id)
    ensures Item(x) in list <==> x in Items(list)
  {
    if list != [] {
      ItemInItems(list[1..], x);
      assert list == [list[0]] + list[1..];
    }
  }

  /** The placeholder inserted by `handleDragStart`: immediately before the dragged item. */
  function PlaceholderBefore(list: seq<Entry>, x: Id): (r: seq<Entry>)
    requires Placeholder !in list && x in Items(list)
    ensures Items(r) == Items(list) && PlaceholderCount(r) == 1
    ensures var k := PlaceholderIndex(r); k + 1 < |r| && r[k + 1] == Item(x)
  {
    ItemInItems(list, x);
    var k := ItemIndex(list, x);
    InsertPlaceholderFacts(list, k);
    var r := InsertAt(list, k, Placeholder);
    r
  }

  /** `(e.clientY - rect.top) / rect.height > 0.5`, including the division by a zero height. */
  function InLowerHalf(y: real, top: real, height: real): bool
    requires height >= 0.0
  {
    if height == 0.0 then y > top else (y - top) / height > 0.5
  }

  /** For a visible item the test compares the pointer with the item's vertical midpoint. */
  lemma InLowerHalfIsBelowMidpoint(y: real, top: real, height: real)
    requires height > 0.0
    ensures InLowerHalf(y, top, height) <==> y > top + height / 2.0
  {
    if (y - top) / height > 0.5 {
      assert y - top == ((y - top) / height) * height;
    } else {
      assert y - top == ((y - top) / height) * height;
    }
  }

  /**
   * The dragover rule: the single placeholder moves to just after the target item
   * when the pointer is in its lower half, else to just before it.
   */
  function PlacePlaceholder(list: seq<Entry>, t: Id, below: bool): (r: seq<Entry>)
    requires PlaceholderCount(list) <= 1 && t in Items(list)
    ensures Items(r) == Items(list) && PlaceholderCount(r) == 1
    ensures var k := PlaceholderIndex(r);
      if below then 0 < k && r[k - 1] == Item(t) else k + 1 < |r| && r[k + 1] == Item(t)
  {
    var s := RemovePlaceholder(list);
    ItemInItems(s, t);
    var j := ItemIndex(s, t);
    var k := if below then j + 1 else j;
    InsertPlaceholderFacts(s, k);
    var r := InsertAt(s, k, Placeholder);
    r
  }

  // ----- The drop -----

  /** `framesList.insertBefore(item, placeholder)` for the item with id `x`. */
  function MoveBefore(list: seq<Entry>, x: Id): (r: seq<Entry>)
    requires Placeholder in list
    ensures Placeholder in r
    ensures var k := PlaceholderIndex(r); 0 < k && r[k - 1] == Item(x)
    ensures Strip(r, [x]) == Strip(list, [x])
    ensures |r| == |Strip(list, [x])| + 1
  {
    var s := Strip(list, [x]);
    MoveBeforeFacts(s, PlaceholderIndex(s), x, list);
    InsertAt(s, PlaceholderIndex(s), Item(x))
  }

  /** Stripping removes every item of `p`. */
  lemma {:induction false} StripRemoves(list: seq<Entry>, p: seq<Id>, y: Id)
    requires y in p
    ensures Item(y) !in Strip(list, p)
  {
    if list != [] {
      StripRemoves(list[1..], p, y);
    }
  }

  lemma MoveBeforeFacts(s: seq<Entry>, j: nat, x: Id, list: seq<Entry>)
    requires s == Strip(list, [x]) && Placeholder in s && j == PlaceholderIndex(s)
    ensures var r := InsertAt(s, j, Item(x));
      && Placeholder in r && PlaceholderIndex(r) == j + 1
      && Strip(r, [x]) == s
  {
    StripRemoves(list, [x], x);
    SplitAt(s, j);
    MovedInFront(s[..j], s[j + 1..], x);
  }

  lemma SplitAt<T>(s: seq<T>, j: nat)
    requires j < |s|
    ensures s == s[..j] + [s[j]] + s[j + 1..]
  {
  }

  /** Inserting the item in front of the placeholder of a list that lacks it. */
  lemma MovedInFront(b: seq<Entry>, a: seq<Entry>, x: Id)
    requires Placeholder !in b && Item(x) !in b && Item(x) !in a
    ensures var r := InsertAt(b + [Placeholder] + a, |b|, Item(x));
      && Placeholder in r && PlaceholderIndex(r) == |b| + 1
      && Strip(r, [x]) == b + [Placeholder] + a
  {
    InsertedAt(b, a, Item(x));
    IndexOfPlaceholderIn(b + [Item(x)], a);
    StripInserted(b, a, x);
  }

  lemma InsertedAt(b: seq<Entry>, a: seq<Entry>, e: Entry)
    ensures InsertAt(b + [Placeholder] + a, |b|, e) == b + [e] + [Placeholder] + a
  {
    var s := b + [Placeholder] + a;
    assert s[..|b|] == b;
    assert s[|b|..] == [Placeholder] + a;
  }

  lemma StripInserted(b: seq<Entry>, a: seq<Entry>, x: Id)
    requires Item(x) !in b && Item(x) !in a
    ensures Strip(b + [Item(x)] + [Placeholder] + a, [x]) == b + [Placeholder] + a
  {
    StripInsertedPrefix(b, x);
    StripAppend(b + [Item(x)] + [Placeholder], a, [x]);
    StripAbsent(a, [x]);
  }

  lemma StripInsertedPrefix(b: seq<Entry>, x: Id)
    requires Item(x) !in b
    ensures Strip(b + [Item(x)] + [Placeholder], [x]) == b + [Placeholder]
  {
    StripLastItem(b, x);
    StripAppend(b + [Item(x)], [Placeholder], [x]);
    StripOne(Placeholder, [x]);
  }

  lemma StripLastItem(b: seq<Entry>, x: Id)
    requires Item(x) !in b
    ensures Strip(b + [Item(x)], [x]) == b
  {
    StripAppend(b, [Item(x)], [x]);
    StripOne(Item(x), [x]);
    StripAbsent(b, [x]);
  }

  lemma StripOne(e: Entry, p: seq<Id>)
    ensures Strip([e], p) == if e.Item? && e.id in p then [] else [e]
  {
    assert [e][1..] == [];
  }

  /** The list after the first `k` payload items have been moved before the placeholder. */
  function Moved(before: seq<Entry>, after: seq<Entry>, p: seq<Id>, k: nat): seq<Entry>
    requires k <= |p|
  {
    Strip(before, p[..k]) + ItemsOf(p[..k]) + [Placeholder] + Strip(after, p[..k])
  }

  lemma {:induction false} IndexOfPlaceholderIn(x: seq<Entry>, y: seq<Entry>)
    requires Placeholder !in x
    ensures PlaceholderIndex(x + [Placeholder] + y) == |x|
  {
    var l := x + [Placeholder] + y;
    assert l[|x|] == Placeholder;
    assert l[..|x|] == x;
  }

  /** Removing the item of `x` from a list of the shape `b + m + [Placeholder] + a`, where `m` lacks `x`. */
  lemma StripFromMoved(b: seq<Entry>, m: seq<Entry>, a: seq<Entry>, x: Id)
    requires Item(x) !in m
    ensures Strip(b + m + [Placeholder] + a, [x]) == Strip(b, [x]) + m + [Placeholder] + Strip(a, [x])
  {
    StripAppend(b + m + [Placeholder], a, [x]);
    StripAppend(b + m, [Placeholder], [x]);
    StripAppend(b, m, [x]);
    assert Strip([Placeholder], [x]) == [Placeholder];
    StripAbsent(m, [x]);
  }

  lemma ItemsOfPrefixLacks(p: seq<Id>, k: nat)
    requires Distinct(p) && k < |p|
    ensures Item(p[k]) !in ItemsOf(p[..k])
    ensures ItemsOf(p[..k + 1]) == ItemsOf(p[..k]) + [Item(p[k])]
  {
    var m := ItemsOf(p[..k]);
    forall i | 0 <= i < |m| ensures m[i] != Item(p[k]) {
      assert p[..k][i] == p[i];
    }
  }

  lemma InsertBeforePlaceholder(b: seq<Entry>, m: seq<Entry>, a: seq<Entry>, e: Entry)
    ensures InsertAt(b + m + [Placeholder] + a, |b + m|, e) == b + (m + [e]) + [Placeholder] + a
  {
    var r := b + m + [Placeholder] + a;
    assert r[..|b + m|] == b + m;
    assert r[|b + m|..] == [Placeholder] + a;
  }

  /** One step of the drop loop. */
  lemma MoveBeforeStep(before: seq<Entry>, after: seq<Entry>, p: seq<Id>, k: nat)
    requires Placeholder !in before && Placeholder !in after
    requires Distinct(p) && k < |p|
    ensures Placeholder in Moved(before, after, p, k)
    ensures MoveBefore(Moved(before, after, p, k), p[k]) == Moved(before, after, p, k + 1)
  {
    var x := p[k];
    var b, m, a := Strip(before, p[..k]), ItemsOf(p[..k]), Strip(after, p[..k]);
    ItemsOfPrefixLacks(p, k);
    StripFromMoved(b, m, a, x);
    var b', a' := Strip(b, [x]), Strip(a, [x]);
    StripTwice(before, p[..k], x);
    StripTwice(after, p[..k], x);
    assert p[..k + 1] == p[..k] + [x];
    assert b' == Strip(before, p[..k + 1]) && a' == Strip(after, p[..k + 1]);
    StripNoPlaceholder(before, p[..k + 1]);
    IndexOfPlaceholderIn(b' + m, a');
    var r := b' + m + [Placeholder] + a';
    assert MoveBefore(Moved(before, after, p, k), x) == InsertAt(r, |b' + m|, Item(x));
    InsertBeforePlaceholder(b', m, a', Item(x));
  }

  /** Before the drop loop nothing has moved: the list is the split around its placeholder. */
  lemma MovedAtStart(list: seq<Entry>, p: seq<Id>)
    requires PlaceholderCount(list) == 1
    ensures var k := PlaceholderIndex(list);
      && Placeholder !in list[..k] && Placeholder !in list[k + 1..]
      && list == Moved(list[..k], list[k + 1..], p, 0)
  {
    var k := PlaceholderIndex(list);
    SplitAtPlaceholder(list);
    MovedNothing(list[..k], list[k + 1..], p);
  }

  lemma MovedNothing(before: seq<Entry>, after: seq<Entry>, p: seq<Id>)
    ensures Moved(before, after, p, 0) == before + [Placeholder] + after
  {
    StripAbsent(before, []);
    StripAbsent(after, []);
    assert p[..0] == [];
    assert ItemsOf([]) == [];
  }

  /** The ids of the frame list after a drop: the payload as one block where the placeholder was. */
  function DropOrder(list: seq<Entry>, p: seq<Id>): (r: seq<Id>)
    requires Placeholder in list
    ensures forall y :: y in r <==> y in p || y in Items(list)
  {
    var k := PlaceholderIndex(list);
    DropOrderMembers(list, p, k);
    Without(Items(list[..k]), p) + p + Without(Items(list[k + 1..]), p)
  }

  /** `Without` keeps exactly the ids outside `p`. */
  lemma {:induction false} WithoutMembers(ids: seq<Id>, p: seq<Id>, y: Id)
    ensures y in Without(ids, p) <==> y in ids && y !in p
  {
    if ids != [] {
      WithoutMembers(ids[1..], p, y);
      assert ids == [ids[0]] + ids[1..];
    }
  }

  lemma DropOrderMembers(list: seq<Entry>, p: seq<Id>, k: nat)
    requires k < |list| && list[k] == Placeholder
    ensures forall y :: y in Without(Items(list[..k]), p) + p + Without(Items(list[k + 1..]), p) <==> y in p || y in Items(list)
  {
    assert list == list[..k] + [Placeholder] + list[k + 1..];
    AroundPlaceholder(list[..k], list[k + 1..]);
    forall y
      ensures y in Without(Items(list[..k]), p) + p + Without(Items(list[k + 1..]), p) <==> y in p || y in Items(list)
    {
      WithoutMembers(Items(list[..k]), p, y);
      WithoutMembers(Items(list[k + 1..]), p, y);
    }
  }

  /** Counting placeholders and items across a placeholder between two parts. */
  lemma AroundPlaceholder(x: seq<Entry>, y: seq<Entry>)
    ensures PlaceholderCount(x + [Placeholder] + y) == PlaceholderCount(x) + 1 + PlaceholderCount(y)
    ensures Items(x + [Placeholder] + y) == Items(x) + Items(y)
  {
    PlaceholderCountAppend(x + [Placeholder], y);
    PlaceholderCountAppend(x, [Placeholder]);
    ItemsAppend(x + [Placeholder], y);
    ItemsAppend(x, [Placeholder]);
    assert Items([Placeholder]) == [];
  }

  /** The entries on either side of the only placeholder hold no placeholder, and all the items. */
  lemma SplitAtPlaceholder(list: seq<Entry>)
    requires PlaceholderCount(list) == 1
    ensures var k := PlaceholderIndex(list);
      && Placeholder !in list[..k] && Placeholder !in list[k + 1..]
      && Items(list) == Items(list[..k]) + Items(list[k + 1..])
      && list == list[..k] + [Placeholder] + list[k + 1..]
  {
    var k := PlaceholderIndex(list);
    var x, y := list[..k], list[k + 1..];
    assert list == x + [Placeholder] + y;
    AroundPlaceholder(x, y);
  }

  /** The list once the whole payload has been moved. */
  lemma MovedAll(before: seq<Entry>, after: seq<Entry>, p: seq<Id>)
    requires Placeholder !in before && Placeholder !in after
    ensures var done := Moved(before, after, p, |p|);
      && PlaceholderCount(done) == 1
      && Items(done) == Without(Items(before), p) + p + Without(Items(after), p)
  {
    assert p[..|p|] == p;
    var b, m, a := Strip(before, p), ItemsOf(p), Strip(after, p);
    StripNoPlaceholder(before, p);
    StripNoPlaceholder(after, p);
    AroundPlaceholder(b + m, a);
    PlaceholderCountAppend(b, m);
    ItemsAppend(b, m);
    ItemsOfItemsOf(p);
    ItemsOfStrip(before, p);
    ItemsOfStrip(after, p);
  }

  /** Moving the whole payload and removing the placeholder gives the drop order. */
  lemma DropListOrder(list: seq<Entry>, p: seq<Id>)
    requires PlaceholderCount(list) == 1
    ensures var k := PlaceholderIndex(list);
      var done := Moved(list[..k], list[k + 1..], p, |p|);
      PlaceholderCount(done) == 1 && Items(RemovePlaceholder(done)) == DropOrder(list, p)
  {
    SplitAtPlaceholder(list);
    var k := PlaceholderIndex(list);
    MovedAll(list[..k], list[k + 1..], p);
  }

  lemma {:induction false} WithoutAll(s: seq<Id>, p: seq<Id>)
    requires forall x :: x in s ==> x in p
    ensures Without(s, p) == []
  {
    if s != [] {
      WithoutAll(s[1..], p);
    }
  }

  lemma {:induction false} WithoutTwice(s: seq<Id>, p: seq<Id>)
    ensures Without(Without(s, p), p) == Without(s, p)
  {
    if s != [] {
      WithoutTwice(s[1..], p);
      var head := if s[0] in p then [] else [s[0]];
      WithoutAppend(head, Without(s[1..], p), p);
    }
  }

  /** The block-move shape on ids: a permutation without repetitions. */
  lemma BlockMovePermutation(before: seq<Id>, after: seq<Id>, p: seq<Id>)
    requires Distinct(before + after) && Distinct(p)
    requires forall x :: x in p ==> x in before + after
    ensures multiset(Without(before, p) + p + Without(after, p)) == multiset(before + after)
    ensures Distinct(Without(before, p) + p + Without(after, p))
  {
    var r := Without(before, p) + p + Without(after, p);
    forall x ensures multiset(r)[x] == multiset(before + after)[x] {
      WithoutCount(before, p, x);
      WithoutCount(after, p, x);
      DistinctCount(p, x);
      DistinctCount(before + after, x);
    }
    assert multiset(r) == multiset(before + after);
    forall x ensures multiset(r)[x] <= 1 {
      DistinctCount(before + after, x);
    }
    CountsDistinct(r);
  }

  /** The block-move shape on ids: the ids outside the payload keep their order. */
  lemma BlockMoveKeepsOthers(before: seq<Id>, after: seq<Id>, p: seq<Id>)
    ensures Without(Without(before, p) + p + Without(after, p), p) == Without(before + after, p)
  {
    var b, a := Without(before, p), Without(after, p);
    WithoutAll(p, p);
    WithoutTwice(before, p);
    WithoutAppend(b, p, p);
    assert Without(b + p, p) == b;
    WithoutTwice(after, p);
    WithoutAppend(b + p, a, p);
    WithoutAppend(before, after, p);
  }

  /**
   * A drop is an order-preserving block move: the result is a permutation of the
   * old ids without repetitions, the payload appears contiguously and in payload
   * order at the placeholder's position, and the other ids keep their relative order.
   */
  lemma DropOrderIsBlockMove(list: seq<Entry>, p: seq<Id>)
    requires PlaceholderCount(list) == 1
    requires Distinct(Items(list)) && Distinct(p)
    requires forall x :: x in p ==> x in Items(list)
    ensures var r := DropOrder(list, p);
      && multiset(r) == multiset(Items(list))
      && Distinct(r)
      && Without(r, p) == Without(Items(list), p)
      && var n := |Without(Items(list[..PlaceholderIndex(list)]), p)|;
         n + |p| <= |r| && r[n..n + |p|] == p
  {
    SplitAtPlaceholder(list);
    var k := PlaceholderIndex(list);
    var before, after := Items(list[..k]), Items(list[k + 1..]);
    BlockMovePermutation(before, after, p);
    BlockMoveKeepsOthers(before, after, p);
    var r := DropOrder(list, p);
    var n := |Without(before, p)|;
    assert r[n..n + |p|] == p;
  }

  // ----- Rebuilding the frame list -----

  /** `syncFramesFromDOM`: for each entry in order, the frame `frames.find` gives for its id, if any. */
  function Resync(frames: seq<Frame>, list: seq<Entry>): (r: seq<Frame>)
    ensures |r| <= |list|
  {
    if list == [] then []
    else
      var head := if list[0].Item? then Find(frames, list[0].id) else None;
      (if head.Some? then [head.value] else []) + Resync(frames, list[1..])
  }

  lemma {:induction false} ResyncAppend(frames: seq<Frame>, a: seq<Entry>, b: seq<Entry>)
    ensures Resync(frames, a + b) == Resync(frames, a) + Resync(frames, b)
  {
    if a == [] {
      assert a + b == b;
    } else {
      assert (a + b)[0] == a[0] && (a + b)[1..] == a[1..] + b;
      ResyncCons(frames, a + b);
      ResyncCons(frames, a);
      ResyncAppend(frames, a[1..], b);
    }
  }

  /** Re-reading the first entry, then the rest. */
  lemma ResyncCons(frames: seq<Frame>, list: seq<Entry>)
    requires list != []
    ensures Resync(frames, list) == Resync(frames, [list[0]]) + Resync(frames, list[1..])
  {
    ResyncOne(frames, list[0]);
  }

  /** Re-reading one entry: the record with the item's id, if there is one. */
  lemma ResyncOne(frames: seq<Frame>, e: Entry)
    ensures Resync(frames, [e]) == (var found := if e.Item? then Find(frames, e.id) else None;
      if found.Some? then [found.value] else [])
  {
    assert [e][1..] == [];
  }

  /** Re-reading one more entry appends the record with its id, if there is one. */
  lemma ResyncExtend(frames: seq<Frame>, list: seq<Entry>, i: nat)
    requires i < |list|
    ensures var e := list[i];
      var found := if e.Item? then Find(frames, e.id) else None;
      Resync(frames, list[..i + 1]) == Resync(frames, list[..i]) + (if found.Some? then [found.value] else [])
  {
    assert list[..i + 1] == list[..i] + [list[i]];
    ResyncAppend(frames, list[..i], [list[i]]);
    ResyncOne(frames, list[i]);
  }

  /** Re-reading only ever yields records that are in `frames`. */
  lemma {:induction false} ResyncMembers(frames: seq<Frame>, list: seq<Entry>, f: Frame)
    requires f in Resync(frames, list)
    ensures f in frames
  {
    if list != [] {
      var head := if list[0].Item? then Find(frames, list[0].id) else None;
      if !(head.Some? && f == head.value) {
        ResyncMembers(frames, list[1..], f);
      }
    }
  }

  /** Without a placeholder, the list is determined by its ids: it is what rendering them produces. */
  lemma {:induction false} ListOfItems(list: seq<Entry>)
    requires Placeholder !in list
    ensures list == ItemsOf(Items(list))
  {
    if list != [] {
      ListOfItems(list[1..]);
      assert ItemsOf(Items(list)) == [list[0]] + ItemsOf(Items(list[1..]));
    }
  }

  lemma {:induction false} FindSkip(frames: seq<Frame>, k: nat, y: Id)
    requires k < |frames| && frames[k].id != y
    ensures Find(frames, y) == Find(frames[..k] + frames[k + 1..], y)
  {
    var rest := frames[..k] + frames[k + 1..];
    if k == 0 {
      assert rest == frames[1..];
    } else {
      CutAfterHead(frames, k);
      var tail := frames[1..][..k - 1] + frames[1..][k..];
      assert rest[0] == frames[0] && rest[1..] == tail;
      if frames[0].id != y {
        FindSkip(frames[1..], k - 1, y);
      }
    }
  }

  lemma {:induction false} ResyncSkip(frames: seq<Frame>, k: nat, list: seq<Entry>)
    requires k < |frames| && frames[k].id !in Items(list)
    ensures Resync(frames, list) == Resync(frames[..k] + frames[k + 1..], list)
  {
    if list != [] {
      assert list == [list[0]] + list[1..];
      ItemsAppend([list[0]], list[1..]);
      ResyncSkip(frames, k, list[1..]);
      if list[0].Item? {
        FindSkip(frames, k, list[0].id);
      }
    }
  }

  /** The ids around position `k`, and the ids once the frame at `k` is taken out. */
  lemma IdsAround(frames: seq<Frame>, k: nat)
    requires k < |frames|
    ensures Ids(frames) == Ids(frames[..k]) + [frames[k].id] + Ids(frames[k + 1..])
    ensures Ids(frames[..k] + frames[k + 1..]) == Ids(frames[..k]) + Ids(frames[k + 1..])
    ensures multiset(frames) == multiset{frames[k]} + multiset(frames[..k] + frames[k + 1..])
  {
    var a, b := frames[..k], frames[k + 1..];
    assert frames == a + [frames[k]] + b;
    IdsAroundOne(a, frames[k], b);
  }

  lemma IdsAroundOne(a: seq<Frame>, f: Frame, b: seq<Frame>)
    ensures Ids(a + [f] + b) == Ids(a) + [f.id] + Ids(b)
    ensures Ids(a + b) == Ids(a) + Ids(b)
    ensures multiset(a + [f] + b) == multiset{f} + multiset(a + b)
  {
    IdsAppend(a, b);
    IdsAppend(a + [f], b);
    IdsAppend(a, [f]);
  }

  /** Taking one id out of a list without repetitions leaves a list without repetitions. */
  lemma DistinctAfterTakingOut(ids: seq<Id>, x: Id, rest: seq<Id>)
    requires Distinct(ids) && multiset(rest) == multiset(ids) - multiset{x}
    ensures Distinct(rest)
  {
    forall y ensures multiset(rest)[y] <= 1 {
      DistinctCount(ids, y);
    }
    CountsDistinct(rest);
  }

  /** The facts about the entries after a leading item. */
  lemma ItemHead(list: seq<Entry>)
    requires list != [] && list[0].Item? && Distinct(Items(list))
    ensures Items(list) == [list[0].id] + Items(list[1..])
    ensures list[0].id !in Items(list[1..]) && Distinct(Items(list[1..]))
    ensures multiset(Items(list[1..])) == multiset(Items(list)) - multiset{list[0].id}
  {
    var x, tail := list[0].id, Items(list[1..]);
    assert Items(list) == [x] + tail;
    forall i | 0 <= i < |tail| ensures tail[i] != x {
      assert Items(list)[0] == x && Items(list)[i + 1] == tail[i];
    }
    forall i, j | 0 <= i < j < |tail| ensures tail[i] != tail[j] {
      assert Items(list)[i + 1] == tail[i] && Items(list)[j + 1] == tail[j];
    }
  }

  /** The frame with id `x` taken out of a list with distinct ids. */
  lemma TakeOut(frames: seq<Frame>, x: Id) returns (k: nat)
    requires Distinct(Ids(frames)) && x in Ids(frames)
    ensures k < |frames| && frames[k].id == x && Find(frames, x) == Some(frames[k])
    ensures var rest := frames[..k] + frames[k + 1..];
      && multiset(Ids(rest)) == multiset(Ids(frames)) - multiset{x}
      && Distinct(Ids(rest))
      && multiset(frames) == multiset{frames[k]} + multiset(rest)
  {
    k :| 0 <= k < |frames| && Ids(frames)[k] == x;
    var rest := frames[..k] + frames[k + 1..];
    IdsAround(frames, k);
    MultisetAround(Ids(frames[..k]), x, Ids(frames[k + 1..]));
    DistinctAfterTakingOut(Ids(frames), x, Ids(rest));
    FindUnique(frames, k);
  }

  lemma MultisetAround(a: seq<Id>, x: Id, b: seq<Id>)
    ensures multiset(a + b) == multiset(a + [x] + b) - multiset{x}
  {
  }

  /** With unique ids, `find` by a frame's id yields that frame. */
  lemma {:induction false} FindUnique(frames: seq<Frame>, k: nat)
    requires Distinct(Ids(frames)) && k < |frames|
    ensures Find(frames, frames[k].id) == Some(frames[k])
    decreases k
  {
    if k != 0 {
      DistinctIdsTail(frames);
      assert frames[0].id != frames[k].id by {
        assert Ids(frames)[0] != Ids(frames)[k];
      }
      FindUnique(frames[1..], k - 1);
    }
  }

  /** Resynchronising past a leading item whose frame is `f`. */
  lemma ResyncItemHead(frames: seq<Frame>, list: seq<Entry>, f: Frame)
    requires list != [] && list[0].Item?
    requires Find(frames, list[0].id) == Some(f)
    ensures Resync(frames, list) == [f] + Resync(frames, list[1..])
  {
  }

  /** The ids and the multiset after a leading item whose frame is `f`, the other frames being `rest`. */
  lemma ResyncItemStep(frames: seq<Frame>, list: seq<Entry>, f: Frame, rest: seq<Frame>)
    requires list != [] && Items(list) == [f.id] + Items(list[1..])
    requires Resync(frames, list) == [f] + Resync(rest, list[1..])
    requires multiset(frames) == multiset{f} + multiset(rest)
    requires Ids(Resync(rest, list[1..])) == Items(list[1..])
    requires multiset(Resync(rest, list[1..])) == multiset(rest)
    ensures Ids(Resync(frames, list)) == Items(list)
    ensures multiset(Resync(frames, list)) == multiset(frames)
  {
    IdsAppend([f], Resync(rest, list[1..]));
  }

  /**
   * When the entries' items are exactly the frames' ids (in any order, each once),
   * resynchronising yields a permutation of the frames whose ids follow the entries.
   */
  lemma {:induction false} ResyncIsPermutation(frames: seq<Frame>, list: seq<Entry>)
    requires Distinct(Ids(frames))
    requires Distinct(Items(list))
    requires multiset(Items(list)) == multiset(Ids(frames))
    ensures Ids(Resync(frames, list)) == Items(list)
    ensures multiset(Resync(frames, list)) == multiset(frames)
    decreases |list|, 1
  {
    if list == [] {
      NoItemsNoFrames(frames, list);
    } else if list[0] == Placeholder {
      PastPlaceholder(frames, list);
      ResyncIsPermutation(frames, list[1..]);
    } else {
      ResyncIsPermutationAtItem(frames, list);
    }
  }

  lemma NoItemsNoFrames(frames: seq<Frame>, list: seq<Entry>)
    requires list == [] && multiset(Items(list)) == multiset(Ids(frames))
    ensures frames == [] && Resync(frames, list) == []
  {
    assert |multiset(Ids(frames))| == 0;
  }

  lemma PastPlaceholder(frames: seq<Frame>, list: seq<Entry>)
    requires list != [] && list[0] == Placeholder
    ensures Items(list) == Items(list[1..])
    ensures Resync(frames, list) == Resync(frames, list[1..])
  {
  }

  /** The inductive step of `ResyncIsPermutation` for a leading item. */
  lemma {:induction false} ResyncIsPermutationAtItem(frames: seq<Frame>, list: seq<Entry>)
    requires list != [] && list[0].Item?
    requires Distinct(Ids(frames))
    requires Distinct(Items(list))
    requires multiset(Items(list)) == multiset(Ids(frames))
    ensures Ids(Resync(frames, list)) == Items(list)
    ensures multiset(Resync(frames, list)) == multiset(frames)
    decreases |list|, 0
  {
    var x := list[0].id;
    ItemHead(list);
    assert x in multiset(Ids(frames));
    var f, rest := TakeOutLeading(frames, list);
    ResyncIsPermutation(rest, list[1..]);
    ResyncItemHead(frames, list, f);
    ResyncItemStep(frames, list, f, rest);
  }

  /** The frame of the leading item taken out of the frames, and what that does to the rest of the resync. */
  lemma TakeOutLeading(frames: seq<Frame>, list: seq<Entry>) returns (f: Frame, rest: seq<Frame>)
    requires list != [] && list[0].Item? && list[0].id in Ids(frames)
    requires Distinct(Ids(frames)) && list[0].id !in Items(list[1..])
    ensures Find(frames, list[0].id) == Some(f) && f.id == list[0].id
    ensures multiset(frames) == multiset{f} + multiset(rest)
    ensures multiset(Ids(rest)) == multiset(Ids(frames)) - multiset{list[0].id}
    ensures Distinct(Ids(rest))
    ensures Resync(frames, list[1..]) == Resync(rest, list[1..])
  {
    var k := TakeOut(frames, list[0].id);
    f, rest := frames[k], frames[..k] + frames[k + 1..];
    ResyncSkip(frames, k, list[1..]);
  }
}
