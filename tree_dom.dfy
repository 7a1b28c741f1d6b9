/**
 * The rendered tree as the client drag engine sees it.  Every `[data-tree-item]`
 * element carries its record id (`data-item-id`), its nesting level (`data-depth`)
 * and its parent's id (`data-parent-id`); when the item has children it holds a
 * `.filament-tree-children` container with the child items in document order.
 * The root items sit directly in the tree container.  A document is the sequence
 * of root items.
 *
 * The functions here are the queries the engine makes (`isDescendantOf`,
 * `getSubtreeDepth`, `querySelector` by id) and, as values, the DOM edits that
 * `applyMoveToDOM` performs (detach, append into a container, insert beside a
 * sibling, `updateItemDepth`, `cleanupEmptyContainers`), with the lemmas saying
 * which invariants of the rendered tree each edit keeps.
 */
module TreeDom {
  import opened PhpValues

  /** The `.filament-tree-children` element under an item: absent, or holding child items. */
  datatype Children = NoContainer | Container(items: seq<Item>)

  /** A `[data-tree-item]` element: id, `data-depth`, `data-parent-id` ("" when unset) and children. */
  datatype Item = Item(id: string, depth: int, parentAttr: string, children: Children)

  /** The `depth` and `parentId` attributes of one item, as a flat lookup keeps them. */
  datatype Attrs = Attrs(depth: int, parentAttr: string)

  /** The direct child items of `n` (none when it has no container). */
  function KidsOf(n: Item): seq<Item>
  {
    match n.children
    case NoContainer => []
    case Container(items) => items
  }

  // ---------------------------------------------------------------------------
  // Ids, lookup by id and the invariants of a rendered tree

  function IdsOf(cs: seq<Item>): set<string>
    decreases cs
  {
    if cs == [] then {} else IdsOfItem(cs[0]) + IdsOf(cs[1..])
  }

  /** The ids of `n` and of every item below it. */
  function IdsOfItem(n: Item): set<string>
    decreases n
  {
    {n.id} + match n.children
      case NoContainer => {}
      case Container(items) => IdsOf(items)
  }

  /** No id occurs twice (the server renders one element per record). */
  predicate Unique(cs: seq<Item>)
    decreases cs
  {
    cs == [] || (UniqueItem(cs[0]) && Unique(cs[1..]) && IdsOfItem(cs[0]) !! IdsOf(cs[1..]))
  }

  predicate UniqueItem(n: Item)
    decreases n
  {
    match n.children
    case NoContainer => true
    case Container(items) => n.id !in IdsOf(items) && Unique(items)
  }

  /** Items at the top of `cs` have depth `d`, and each child is one deeper than its parent. */
  predicate DepthsFrom(cs: seq<Item>, d: int)
    decreases cs
  {
    cs == [] || (DepthsAt(cs[0], d) && DepthsFrom(cs[1..], d))
  }

  predicate DepthsAt(n: Item, d: int)
    decreases n
  {
    n.depth == d &&
    match n.children
    case NoContainer => true
    case Container(items) => DepthsFrom(items, d + 1)
  }

  /**
   * Every nested item's `parentId` is the id of the item whose container holds it;
   * `p` is that id for the items at the top of `cs`, or `None` at the root level,
   * where the attribute holds whatever the server rendered for a root.
   */
  predicate LinkedFrom(cs: seq<Item>, p: Option<string>)
    decreases cs
  {
    cs == [] || (LinkedAt(cs[0], p) && LinkedFrom(cs[1..], p))
  }

  predicate LinkedAt(n: Item, p: Option<string>)
    decreases n
  {
    (p.Some? ==> n.parentAttr == p.value) &&
    match n.children
    case NoContainer => true
    case Container(items) => LinkedFrom(items, Some(n.id))
  }

  /** What the server renders and every edit below keeps. */
  predicate Valid(dom: seq<Item>)
  {
    Unique(dom) && DepthsFrom(dom, 0) && LinkedFrom(dom, None) && "" !in IdsOf(dom)
  }

  /** `document.querySelector('[data-item-id="id"]')`: the first item with that id in document order. */
  function Find(cs: seq<Item>, id: string): Option<Item>
    decreases cs
  {
    if cs == [] then None
    else match FindIn(cs[0], id)
      case Some(x) => Some(x)
      case None => Find(cs[1..], id)
  }

  function FindIn(n: Item, id: string): Option<Item>
    decreases n
  {
    if n.id == id then Some(n)
    else match n.children
      case NoContainer => None
      case Container(items) => Find(items, id)
  }

  /** The attributes of every item, keyed by id. */
  function Flat(cs: seq<Item>): map<string, Attrs>
    decreases cs
  {
    if cs == [] then map[] else FlatItem(cs[0]) + Flat(cs[1..])
  }

  function FlatItem(n: Item): map<string, Attrs>
    decreases n
  {
    (match n.children
     case NoContainer => map[]
     case Container(items) => Flat(items))[n.id := Attrs(n.depth, n.parentAttr)]
  }

  lemma {:induction false} FindFacts(cs: seq<Item>, id: string)
    ensures Find(cs, id).Some? <==> id in IdsOf(cs)
    ensures Find(cs, id).Some? ==> Find(cs, id).value.id == id && IdsOfItem(Find(cs, id).value) <= IdsOf(cs)
    ensures Find(cs, id).Some? && Unique(cs) ==> UniqueItem(Find(cs, id).value)
    ensures Find(cs, id).Some? && LinkedFrom(cs, None) ==> LinkedAt(Find(cs, id).value, None)
    ensures forall d :: Find(cs, id).Some? && DepthsFrom(cs, d) ==> DepthsAt(Find(cs, id).value, Find(cs, id).value.depth)
    decreases cs
  {
    if cs != [] {
      FindInFacts(cs[0], id);
      FindFacts(cs[1..], id);
      if FindIn(cs[0], id).Some? && LinkedFrom(cs, None) {
        assert LinkedAt(cs[0], None);
      }
    }
  }

  lemma {:induction false} FindInFacts(n: Item, id: string)
    ensures FindIn(n, id).Some? <==> id in IdsOfItem(n)
    ensures FindIn(n, id).Some? ==> FindIn(n, id).value.id == id && IdsOfItem(FindIn(n, id).value) <= IdsOfItem(n)
    ensures FindIn(n, id).Some? && UniqueItem(n) ==> UniqueItem(FindIn(n, id).value)
    ensures FindIn(n, id).Some? && LinkedAt(n, None) ==> LinkedAt(FindIn(n, id).value, None)
    ensures forall d :: FindIn(n, id).Some? && DepthsAt(n, d) ==> DepthsAt(FindIn(n, id).value, FindIn(n, id).value.depth)
    decreases n
  {
    if n.id != id {
      match n.children
      case NoContainer =>
      case Container(items) =>
        FindFacts(items, id);
        if Find(items, id).Some? && LinkedAt(n, None) {
          LinkedAnyParent(items, n.id);
        }
    }
  }

  /** Linkage below the top level does not depend on what the top level's parent is. */
  lemma LinkedAnyParent(cs: seq<Item>, p: string)
    requires LinkedFrom(cs, Some(p))
    ensures LinkedFrom(cs, None)
    decreases cs
  {
    if cs != [] {
      LinkedAnyParent(cs[1..], p);
    }
  }

  lemma {:induction false} FlatKeys(cs: seq<Item>)
    ensures Flat(cs).Keys == IdsOf(cs)
    decreases cs
  {
    if cs != [] {
      FlatItemKeys(cs[0]);
      FlatKeys(cs[1..]);
    }
  }

  lemma {:induction false} FlatItemKeys(n: Item)
    ensures FlatItem(n).Keys == IdsOfItem(n)
    decreases n
  {
    match n.children
    case NoContainer =>
    case Container(items) => FlatKeys(items);
  }

  // ---------------------------------------------------------------------------
  // Concatenation of item sequences

  lemma {:induction false} IdsAppend(a: seq<Item>, b: seq<Item>)
    ensures IdsOf(a + b) == IdsOf(a) + IdsOf(b)
    decreases a
  {
    if a != [] {
      assert (a + b)[1..] == a[1..] + b;
      IdsAppend(a[1..], b);
    } else {
      assert a + b == b;
    }
  }

  lemma {:induction false} UniqueAppend(a: seq<Item>, b: seq<Item>)
    ensures Unique(a + b) <==> Unique(a) && Unique(b) && IdsOf(a) !! IdsOf(b)
    decreases a
  {
    if a != [] {
      assert (a + b)[1..] == a[1..] + b;
      UniqueAppend(a[1..], b);
      IdsAppend(a[1..], b);
    } else {
      assert a + b == b;
    }
  }

  lemma {:induction false} DepthsAppend(a: seq<Item>, b: seq<Item>, d: int)
    ensures DepthsFrom(a + b, d) <==> DepthsFrom(a, d) && DepthsFrom(b, d)
    decreases a
  {
    if a != [] {
      assert (a + b)[1..] == a[1..] + b;
      DepthsAppend(a[1..], b, d);
    } else {
      assert a + b == b;
    }
  }

  lemma {:induction false} LinkedAppend(a: seq<Item>, b: seq<Item>, p: Option<string>)
    ensures LinkedFrom(a + b, p) <==> LinkedFrom(a, p) && LinkedFrom(b, p)
    decreases a
  {
    if a != [] {
      assert (a + b)[1..] == a[1..] + b;
      LinkedAppend(a[1..], b, p);
    } else {
      assert a + b == b;
    }
  }

  lemma {:induction false} FlatAppend(a: seq<Item>, b: seq<Item>)
    ensures Flat(a + b) == Flat(a) + Flat(b)
    decreases a
  {
    if a != [] {
      assert (a + b)[1..] == a[1..] + b;
      FlatAppend(a[1..], b);
    } else {
      assert a + b == b;
    }
  }

  // ---------------------------------------------------------------------------
  // Detaching an item: the DOM removes the element, with its subtree, from the
  // container that held it; the container itself stays, possibly empty.

  function Remove(cs: seq<Item>, id: string): seq<Item>
    decreases cs
  {
    if cs == [] then []
    else (if cs[0].id == id then [] else [RemoveIn(cs[0], id)]) + Remove(cs[1..], id)
  }

  function RemoveIn(n: Item, id: string): Item
    decreases n
  {
    match n.children
    case NoContainer => n
    case Container(items) => n.(children := Container(Remove(items, id)))
  }

  lemma {:induction false} RemoveAbsent(cs: seq<Item>, id: string)
    requires id !in IdsOf(cs)
    ensures Remove(cs, id) == cs
    decreases cs
  {
    if cs != [] {
      RemoveInAbsent(cs[0], id);
      RemoveAbsent(cs[1..], id);
    }
  }

  lemma {:induction false} RemoveInAbsent(n: Item, id: string)
    requires id !in IdsOfItem(n)
    ensures RemoveIn(n, id) == n
    decreases n
  {
    match n.children
    case NoContainer =>
    case Container(items) => RemoveAbsent(items, id);
  }

  /** Detaching keeps the depth and parent-link invariants of what remains. */
  lemma {:induction false} RemoveKeeps(cs: seq<Item>, id: string, d: int, p: Option<string>)
    ensures DepthsFrom(cs, d) ==> DepthsFrom(Remove(cs, id), d)
    ensures LinkedFrom(cs, p) ==> LinkedFrom(Remove(cs, id), p)
    decreases cs
  {
    if cs != [] {
      RemoveInKeeps(cs[0], id, d, p);
      RemoveKeeps(cs[1..], id, d, p);
      RemoveCons(cs, id);
    }
  }

  lemma RemoveCons(cs: seq<Item>, id: string)
    requires cs != []
    ensures cs[0].id == id ==> Remove(cs, id) == Remove(cs[1..], id)
    ensures cs[0].id != id ==> Remove(cs, id) == [RemoveIn(cs[0], id)] + Remove(cs[1..], id)
    ensures cs[0].id != id ==> (Remove(cs, id)[0] == RemoveIn(cs[0], id) && Remove(cs, id)[1..] == Remove(cs[1..], id))
  {
  }

  lemma {:induction false} RemoveInKeeps(n: Item, id: string, d: int, p: Option<string>)
    ensures DepthsAt(n, d) ==> DepthsAt(RemoveIn(n, id), d)
    ensures LinkedAt(n, p) ==> LinkedAt(RemoveIn(n, id), p)
    decreases n
  {
    match n.children
    case NoContainer =>
    case Container(items) => RemoveKeeps(items, id, d + 1, Some(n.id));
  }

  /** Detaching the item `id` takes exactly its subtree out of the tree. */
  lemma {:induction false} RemoveTakesSubtree(cs: seq<Item>, id: string)
    requires Unique(cs) && id in IdsOf(cs)
    ensures Find(cs, id).Some?
    ensures IdsOf(Remove(cs, id)) == IdsOf(cs) - IdsOfItem(Find(cs, id).value)
    ensures Unique(Remove(cs, id))
    decreases cs
  {
    FindFacts(cs, id);
    var x, rest := cs[0], cs[1..];
    FindInFacts(x, id);
    RemoveCons(cs, id);
    if x.id == id {
      RemoveAbsent(rest, id);
    } else if id in IdsOfItem(x) {
      RemoveAbsent(rest, id);
      RemoveInTakesSubtree(x, id);
    } else {
      RemoveInAbsent(x, id);
      RemoveTakesSubtree(rest, id);
      FindFacts(rest, id);
    }
  }

  lemma {:induction false} RemoveInTakesSubtree(n: Item, id: string)
    requires UniqueItem(n) && id in IdsOfItem(n) && id != n.id
    ensures FindIn(n, id).Some?
    ensures IdsOfItem(RemoveIn(n, id)) == IdsOfItem(n) - IdsOfItem(FindIn(n, id).value)
    ensures UniqueItem(RemoveIn(n, id))
    decreases n
  {
    match n.children
    case Container(items) =>
      RemoveTakesSubtree(items, id);
      FindFacts(items, id);
  }

  /** Detaching leaves every other item's attributes as they were. */
  lemma {:induction false} RemoveFlat(cs: seq<Item>, id: string)
    requires Unique(cs) && id in IdsOf(cs)
    ensures Find(cs, id).Some?
    ensures Flat(Remove(cs, id)) == Flat(cs) - IdsOfItem(Find(cs, id).value)
    decreases cs
  {
    FindFacts(cs, id);
    var x, rest := cs[0], cs[1..];
    FindInFacts(x, id);
    RemoveCons(cs, id);
    FlatItemKeys(x);
    FlatKeys(rest);
    if x.id == id {
      RemoveAbsent(rest, id);
      MinusLeft(FlatItem(x), Flat(rest));
    } else if id in IdsOfItem(x) {
      RemoveAbsent(rest, id);
      RemoveInFlat(x, id);
      MinusInLeft(FlatItem(x), Flat(rest), IdsOfItem(Find(cs, id).value));
    } else {
      RemoveInAbsent(x, id);
      RemoveFlat(rest, id);
      FindFacts(rest, id);
      MinusInRight(FlatItem(x), Flat(rest), IdsOfItem(Find(cs, id).value));
    }
  }

  lemma MinusLeft<K, V>(a: map<K, V>, b: map<K, V>)
    requires a.Keys !! b.Keys
    ensures (a + b) - a.Keys == b
  {
  }

  lemma MinusInLeft<K, V>(a: map<K, V>, b: map<K, V>, k: set<K>)
    requires k <= a.Keys && a.Keys !! b.Keys
    ensures (a - k) + b == (a + b) - k
  {
  }

  lemma MinusInRight<K, V>(a: map<K, V>, b: map<K, V>, k: set<K>)
    requires k <= b.Keys && a.Keys !! b.Keys
    ensures a + (b - k) == (a + b) - k
  {
  }

  lemma {:induction false} RemoveInFlat(n: Item, id: string)
    requires UniqueItem(n) && id in IdsOfItem(n) && id != n.id
    ensures FindIn(n, id).Some?
    ensures FlatItem(RemoveIn(n, id)) == FlatItem(n) - IdsOfItem(FindIn(n, id).value)
    decreases n
  {
    match n.children
    case Container(items) =>
      RemoveFlat(items, id);
      FindFacts(items, id);
  }

  // ---------------------------------------------------------------------------
  // The container an item sits in

  /**
   * The id of the item whose children container holds `id`, or `p` when `id` sits
   * at the top of `cs` (`None` when it does not occur).
   */
  function ParentOf(cs: seq<Item>, id: string, p: Option<string>): Option<string>
    decreases cs
  {
    if cs == [] then None
    else if cs[0].id == id then p
    else if id in IdsOfItem(cs[0]) then ParentOfIn(cs[0], id)
    else ParentOf(cs[1..], id, p)
  }

  function ParentOfIn(n: Item, id: string): Option<string>
    decreases n
  {
    match n.children
    case NoContainer => None
    case Container(items) => ParentOf(items, id, Some(n.id))
  }

  /** `parentElement` of an item, as an item id, or `None` for a root item. */
  function Parent(dom: seq<Item>, id: string): Option<string>
  {
    ParentOf(dom, id, None)
  }

  /** In a linked tree the `parentId` attribute of a nested item names its container's owner. */
  lemma {:induction false} LinkedParent(cs: seq<Item>, id: string, p: Option<string>)
    requires Unique(cs) && LinkedFrom(cs, p) && id in IdsOf(cs)
    ensures Find(cs, id).Some?
    ensures ParentOf(cs, id, p).Some? ==> Find(cs, id).value.parentAttr == ParentOf(cs, id, p).value
    ensures ParentOf(cs, id, p).Some? ==> ParentOf(cs, id, p) == p || ParentOf(cs, id, p).value in IdsOf(cs)
    ensures p.Some? ==> ParentOf(cs, id, p).Some?
    decreases cs
  {
    FindFacts(cs, id);
    var x, rest := cs[0], cs[1..];
    FindInFacts(x, id);
    if x.id != id {
      if id in IdsOfItem(x) {
        LinkedParentIn(x, id, p);
      } else {
        LinkedParent(rest, id, p);
      }
    }
  }

  lemma {:induction false} LinkedParentIn(n: Item, id: string, p: Option<string>)
    requires UniqueItem(n) && LinkedAt(n, p) && id in IdsOfItem(n) && id != n.id
    ensures FindIn(n, id).Some? && ParentOfIn(n, id).Some?
    ensures FindIn(n, id).value.parentAttr == ParentOfIn(n, id).value
    ensures ParentOfIn(n, id).value in IdsOfItem(n)
    decreases n
  {
    match n.children
    case Container(items) =>
      LinkedParent(items, id, Some(n.id));
  }

  // ---------------------------------------------------------------------------
  // Replacing one item (with its subtree) where it stands

  function Replace(cs: seq<Item>, id: string, y: Item): seq<Item>
    decreases cs
  {
    if cs == [] then [] else [ReplaceIn(cs[0], id, y)] + Replace(cs[1..], id, y)
  }

  function ReplaceIn(n: Item, id: string, y: Item): Item
    decreases n
  {
    if n.id == id then y
    else match n.children
      case NoContainer => n
      case Container(items) => n.(children := Container(Replace(items, id, y)))
  }

  lemma ReplaceCons(cs: seq<Item>, id: string, y: Item)
    requires cs != []
    ensures Replace(cs, id, y) == [ReplaceIn(cs[0], id, y)] + Replace(cs[1..], id, y)
    ensures Replace(cs, id, y)[0] == ReplaceIn(cs[0], id, y) && Replace(cs, id, y)[1..] == Replace(cs[1..], id, y)
  {
  }

  lemma {:induction false} ReplaceAbsent(cs: seq<Item>, id: string, y: Item)
    requires id !in IdsOf(cs)
    ensures Replace(cs, id, y) == cs
    decreases cs
  {
    if cs != [] {
      ReplaceInAbsent(cs[0], id, y);
      ReplaceAbsent(cs[1..], id, y);
    }
  }

  lemma {:induction false} ReplaceInAbsent(n: Item, id: string, y: Item)
    requires id !in IdsOfItem(n)
    ensures ReplaceIn(n, id, y) == n
    decreases n
  {
    match n.children
    case NoContainer =>
    case Container(items) => ReplaceAbsent(items, id, y);
  }

  /** The replaced subtree's ids leave and the new one's arrive; ids stay unique. */
  lemma {:induction false} ReplaceIds(cs: seq<Item>, id: string, y: Item)
    requires Unique(cs) && id in IdsOf(cs) && Find(cs, id).Some?
    requires IdsOfItem(y) !! (IdsOf(cs) - IdsOfItem(Find(cs, id).value))
    ensures IdsOf(Replace(cs, id, y)) == (IdsOf(cs) - IdsOfItem(Find(cs, id).value)) + IdsOfItem(y)
    ensures UniqueItem(y) ==> Unique(Replace(cs, id, y))
    decreases cs
  {
    FindFacts(cs, id);
    var x, rest := cs[0], cs[1..];
    FindInFacts(x, id);
    ReplaceCons(cs, id, y);
    if id in IdsOfItem(x) {
      ReplaceAbsent(rest, id, y);
      ReplaceInIds(x, id, y);
    } else {
      ReplaceInAbsent(x, id, y);
      FindFacts(rest, id);
      ReplaceIds(rest, id, y);
    }
  }

  lemma {:induction false} ReplaceInIds(n: Item, id: string, y: Item)
    requires UniqueItem(n) && id in IdsOfItem(n) && FindIn(n, id).Some?
    requires IdsOfItem(y) !! (IdsOfItem(n) - IdsOfItem(FindIn(n, id).value))
    ensures IdsOfItem(ReplaceIn(n, id, y)) == (IdsOfItem(n) - IdsOfItem(FindIn(n, id).value)) + IdsOfItem(y)
    ensures UniqueItem(y) ==> UniqueItem(ReplaceIn(n, id, y))
    decreases n
  {
    if n.id != id {
      match n.children
      case Container(items) =>
        FindFacts(items, id);
        ReplaceIds(items, id, y);
    }
  }

  /** The attributes of everything outside the replaced subtree are kept. */
  lemma {:induction false} ReplaceFlat(cs: seq<Item>, id: string, y: Item)
    requires Unique(cs) && id in IdsOf(cs) && Find(cs, id).Some?
    requires IdsOfItem(y) !! (IdsOf(cs) - IdsOfItem(Find(cs, id).value))
    ensures Flat(Replace(cs, id, y)) == (Flat(cs) - IdsOfItem(Find(cs, id).value)) + FlatItem(y)
    decreases cs
  {
    FindFacts(cs, id);
    var x, rest := cs[0], cs[1..];
    FindInFacts(x, id);
    ReplaceCons(cs, id, y);
    FlatItemKeys(x);
    FlatItemKeys(y);
    FlatKeys(rest);
    var t := IdsOfItem(Find(cs, id).value);
    if id in IdsOfItem(x) {
      ReplaceAbsent(rest, id, y);
      ReplaceInFlat(x, id, y);
      ShuffleRight(FlatItem(x), Flat(rest), FlatItem(y), t);
    } else {
      ReplaceInAbsent(x, id, y);
      FindFacts(rest, id);
      ReplaceFlat(rest, id, y);
      ShuffleLeft(FlatItem(x), Flat(rest), FlatItem(y), t);
    }
  }

  lemma {:induction false} ReplaceInFlat(n: Item, id: string, y: Item)
    requires UniqueItem(n) && id in IdsOfItem(n) && FindIn(n, id).Some?
    requires IdsOfItem(y) !! (IdsOfItem(n) - IdsOfItem(FindIn(n, id).value))
    ensures FlatItem(ReplaceIn(n, id, y)) == (FlatItem(n) - IdsOfItem(FindIn(n, id).value)) + FlatItem(y)
    decreases n
  {
    FlatItemKeys(n);
    FlatItemKeys(y);
    if n.id != id {
      match n.children
      case Container(items) =>
        FindFacts(items, id);
        ReplaceFlat(items, id, y);
    }
  }

  /** A replacement that fits its slot keeps the depth and parent-link invariants. */
  lemma {:induction false} ReplaceKeeps(cs: seq<Item>, id: string, y: Item, d: int, p: Option<string>)
    requires Unique(cs) && id in IdsOf(cs) && Find(cs, id).Some?
    ensures DepthsFrom(cs, d) && DepthsAt(y, Find(cs, id).value.depth) ==> DepthsFrom(Replace(cs, id, y), d)
    ensures LinkedFrom(cs, p) && LinkedAt(y, ParentOf(cs, id, p)) ==> LinkedFrom(Replace(cs, id, y), p)
    decreases cs
  {
    FindFacts(cs, id);
    var x, rest := cs[0], cs[1..];
    FindInFacts(x, id);
    ReplaceCons(cs, id, y);
    if id in IdsOfItem(x) {
      ReplaceAbsent(rest, id, y);
      ReplaceInKeeps(x, id, y, d, p);
    } else {
      ReplaceInAbsent(x, id, y);
      FindFacts(rest, id);
      ReplaceKeeps(rest, id, y, d, p);
    }
  }

  lemma {:induction false} ReplaceInKeeps(n: Item, id: string, y: Item, d: int, p: Option<string>)
    requires UniqueItem(n) && id in IdsOfItem(n) && FindIn(n, id).Some?
    ensures DepthsAt(n, d) && DepthsAt(y, FindIn(n, id).value.depth) ==> DepthsAt(ReplaceIn(n, id, y), d)
    ensures LinkedAt(n, p) && LinkedAt(y, if n.id == id then p else ParentOfIn(n, id)) ==> LinkedAt(ReplaceIn(n, id, y), p)
    decreases n
  {
    if n.id != id {
      match n.children
      case Container(items) =>
        FindFacts(items, id);
        ReplaceKeeps(items, id, y, d + 1, Some(n.id));
    }
  }

  lemma ShuffleRight<K, V>(a: map<K, V>, b: map<K, V>, c: map<K, V>, x: set<K>)
    requires b.Keys !! x && b.Keys !! c.Keys
    ensures ((a - x) + c) + b == ((a + b) - x) + c
  {
  }

  lemma ShuffleLeft<K, V>(a: map<K, V>, b: map<K, V>, c: map<K, V>, x: set<K>)
    requires a.Keys !! x && a.Keys !! c.Keys
    ensures a + ((b - x) + c) == ((a + b) - x) + c
  {
  }

  // ---------------------------------------------------------------------------
  // Inserting an item next to a sibling (`insertBefore` on the sibling's container)

  function InsertBeside(cs: seq<Item>, tid: string, x: Item, after: bool): seq<Item>
    decreases cs
  {
    if cs == [] then []
    else (if cs[0].id == tid then (if after then [cs[0], x] else [x, cs[0]])
          else [InsertBesideIn(cs[0], tid, x, after)]) + InsertBeside(cs[1..], tid, x, after)
  }

  function InsertBesideIn(n: Item, tid: string, x: Item, after: bool): Item
    decreases n
  {
    match n.children
    case NoContainer => n
    case Container(items) => n.(children := Container(InsertBeside(items, tid, x, after)))
  }

  /** `a` and `b` are consecutive items of one container, `a` first. */
  predicate Adjacent(cs: seq<Item>, a: string, b: string)
    decreases cs
  {
    cs != [] && ((|cs| >= 2 && cs[0].id == a && cs[1].id == b) || AdjacentIn(cs[0], a, b) || Adjacent(cs[1..], a, b))
  }

  predicate AdjacentIn(n: Item, a: string, b: string)
    decreases n
  {
    match n.children
    case NoContainer => false
    case Container(items) => Adjacent(items, a, b)
  }

  lemma {:induction false} InsertBesideAbsent(cs: seq<Item>, tid: string, x: Item, after: bool)
    requires tid !in IdsOf(cs)
    ensures InsertBeside(cs, tid, x, after) == cs
    decreases cs
  {
    if cs != [] {
      InsertBesideInAbsent(cs[0], tid, x, after);
      InsertBesideAbsent(cs[1..], tid, x, after);
    }
  }

  lemma {:induction false} InsertBesideInAbsent(n: Item, tid: string, x: Item, after: bool)
    requires tid !in IdsOfItem(n)
    ensures InsertBesideIn(n, tid, x, after) == n
    decreases n
  {
    match n.children
    case NoContainer =>
    case Container(items) => InsertBesideAbsent(items, tid, x, after);
  }

  /** The three shapes of an insertion, with `tid` occurring once. */
  lemma InsertBesideCons(cs: seq<Item>, tid: string, x: Item, after: bool)
    requires Unique(cs) && tid in IdsOf(cs)
    ensures var r := InsertBeside(cs, tid, x, after);
      if cs[0].id == tid then
        (after ==> r == [cs[0], x] + cs[1..] && r[0] == cs[0] && r[1..] == [x] + cs[1..])
        && (!after ==> r == [x, cs[0]] + cs[1..] && r[0] == x && r[1..] == [cs[0]] + cs[1..])
      else if tid in IdsOfItem(cs[0]) then
        r == [InsertBesideIn(cs[0], tid, x, after)] + cs[1..] && r[0] == InsertBesideIn(cs[0], tid, x, after) && r[1..] == cs[1..]
      else
        r == [cs[0]] + InsertBeside(cs[1..], tid, x, after) && r[0] == cs[0] && r[1..] == InsertBeside(cs[1..], tid, x, after)
  {
    if tid in IdsOfItem(cs[0]) {
      InsertBesideAbsent(cs[1..], tid, x, after);
    } else {
      InsertBesideInAbsent(cs[0], tid, x, after);
    }
  }

  /** Inserting adds exactly the new subtree's ids; ids stay unique. */
  lemma {:induction false} InsertBesideIds(cs: seq<Item>, tid: string, x: Item, after: bool)
    requires Unique(cs) && tid in IdsOf(cs)
    requires UniqueItem(x) && IdsOfItem(x) !! IdsOf(cs)
    ensures IdsOf(InsertBeside(cs, tid, x, after)) == IdsOf(cs) + IdsOfItem(x)
    ensures Unique(InsertBeside(cs, tid, x, after))
    decreases cs
  {
    InsertBesideCons(cs, tid, x, after);
    var x0, rest := cs[0], cs[1..];
    if x0.id == tid {
    } else if tid in IdsOfItem(x0) {
      InsertBesideInIds(x0, tid, x, after);
    } else {
      InsertBesideIds(rest, tid, x, after);
    }
  }

  lemma {:induction false} InsertBesideInIds(n: Item, tid: string, x: Item, after: bool)
    requires UniqueItem(n) && tid in IdsOfItem(n) && tid != n.id
    requires UniqueItem(x) && IdsOfItem(x) !! IdsOfItem(n)
    ensures IdsOfItem(InsertBesideIn(n, tid, x, after)) == IdsOfItem(n) + IdsOfItem(x)
    ensures UniqueItem(InsertBesideIn(n, tid, x, after))
    decreases n
  {
    match n.children
    case Container(items) => InsertBesideIds(items, tid, x, after);
  }

  /** Inserting keeps every existing attribute and adds the new subtree's. */
  lemma {:induction false} InsertBesideFlat(cs: seq<Item>, tid: string, x: Item, after: bool)
    requires Unique(cs) && tid in IdsOf(cs) && IdsOfItem(x) !! IdsOf(cs)
    ensures Flat(InsertBeside(cs, tid, x, after)) == Flat(cs) + FlatItem(x)
    decreases cs
  {
    InsertBesideCons(cs, tid, x, after);
    var x0, rest := cs[0], cs[1..];
    FlatItemKeys(x0);
    FlatItemKeys(x);
    FlatKeys(rest);
    if x0.id == tid {
      InsertBesideFlatHere(cs, tid, x, after);
    } else if tid in IdsOfItem(x0) {
      InsertBesideInFlat(x0, tid, x, after);
      Swap(FlatItem(x0), Flat(rest), FlatItem(x));
    } else {
      InsertBesideFlat(rest, tid, x, after);
    }
  }

  /** The attributes of two leading items and the rest. */
  lemma FlatPair(a: Item, b: Item, rest: seq<Item>)
    ensures Flat([a, b] + rest) == FlatItem(a) + (FlatItem(b) + Flat(rest))
  {
    assert ([a, b] + rest)[0] == a && ([a, b] + rest)[1..] == [b] + rest;
    assert ([b] + rest)[0] == b && ([b] + rest)[1..] == rest;
  }

  /** Inserting beside the first item adds the new subtree's attributes. */
  lemma InsertBesideFlatHere(cs: seq<Item>, tid: string, x: Item, after: bool)
    requires Unique(cs) && cs != [] && cs[0].id == tid && IdsOfItem(x) !! IdsOf(cs)
    ensures Flat(InsertBeside(cs, tid, x, after)) == Flat(cs) + FlatItem(x)
  {
    InsertBesideCons(cs, tid, x, after);
    var x0, rest := cs[0], cs[1..];
    FlatItemKeys(x0);
    FlatItemKeys(x);
    FlatKeys(rest);
    if after {
      FlatPair(x0, x, rest);
      Swap(FlatItem(x0), FlatItem(x), Flat(rest));
    } else {
      FlatPair(x, x0, rest);
      Rotate(FlatItem(x), FlatItem(x0), Flat(rest));
    }
  }

  lemma {:induction false} InsertBesideInFlat(n: Item, tid: string, x: Item, after: bool)
    requires UniqueItem(n) && tid in IdsOfItem(n) && tid != n.id && IdsOfItem(x) !! IdsOfItem(n)
    ensures FlatItem(InsertBesideIn(n, tid, x, after)) == FlatItem(n) + FlatItem(x)
    decreases n
  {
    FlatItemKeys(x);
    match n.children
    case Container(items) =>
      InsertBesideFlat(items, tid, x, after);
  }

  lemma Swap<K, V>(a: map<K, V>, b: map<K, V>, c: map<K, V>)
    requires b.Keys !! c.Keys
    ensures a + (b + c) == (a + c) + b
  {
  }

  lemma Rotate<K, V>(a: map<K, V>, b: map<K, V>, c: map<K, V>)
    requires a.Keys !! b.Keys && a.Keys !! c.Keys
    ensures a + (b + c) == (b + c) + a
  {
  }

  /** An inserted item that fits its slot keeps the depth and parent-link invariants. */
  lemma {:induction false} InsertBesideKeeps(cs: seq<Item>, tid: string, x: Item, after: bool, d: int, p: Option<string>)
    requires Unique(cs) && tid in IdsOf(cs) && Find(cs, tid).Some?
    ensures DepthsFrom(cs, d) && DepthsAt(x, Find(cs, tid).value.depth) ==> DepthsFrom(InsertBeside(cs, tid, x, after), d)
    ensures LinkedFrom(cs, p) && LinkedAt(x, ParentOf(cs, tid, p)) ==> LinkedFrom(InsertBeside(cs, tid, x, after), p)
    decreases cs
  {
    FindFacts(cs, tid);
    InsertBesideCons(cs, tid, x, after);
    var x0, rest := cs[0], cs[1..];
    FindInFacts(x0, tid);
    if x0.id == tid {
      assert ([x] + rest)[0] == x && ([x] + rest)[1..] == rest;
      assert ([x0] + rest)[0] == x0 && ([x0] + rest)[1..] == rest;
      if DepthsFrom(cs, d) && DepthsAt(x, Find(cs, tid).value.depth) {
        assert Find(cs, tid) == Some(x0);
        assert DepthsAt(x0, d) && DepthsFrom(rest, d);
        assert DepthsAt(x, d);
        assert DepthsFrom([x] + rest, d) && DepthsFrom([x0] + rest, d);
      }
    } else if tid in IdsOfItem(x0) {
      InsertBesideInKeeps(x0, tid, x, after, d, p);
    } else {
      FindFacts(rest, tid);
      InsertBesideKeeps(rest, tid, x, after, d, p);
    }
  }

  lemma {:induction false} InsertBesideInKeeps(n: Item, tid: string, x: Item, after: bool, d: int, p: Option<string>)
    requires UniqueItem(n) && tid in IdsOfItem(n) && tid != n.id && FindIn(n, tid).Some?
    ensures DepthsAt(n, d) && DepthsAt(x, FindIn(n, tid).value.depth) ==> DepthsAt(InsertBesideIn(n, tid, x, after), d)
    ensures LinkedAt(n, p) && LinkedAt(x, ParentOfIn(n, tid)) ==> LinkedAt(InsertBesideIn(n, tid, x, after), p)
    decreases n
  {
    match n.children
    case Container(items) =>
      FindFacts(items, tid);
      InsertBesideKeeps(items, tid, x, after, d + 1, Some(n.id));
  }

  /** The inserted item lands right after (or right before) the reference item, in its container. */
  lemma {:induction false} InsertBesidePlaces(cs: seq<Item>, tid: string, x: Item, after: bool, p: Option<string>)
    requires Unique(cs) && tid in IdsOf(cs) && x.id !in IdsOf(cs)
    ensures after ==> Adjacent(InsertBeside(cs, tid, x, after), tid, x.id)
    ensures !after ==> Adjacent(InsertBeside(cs, tid, x, after), x.id, tid)
    ensures ParentOf(InsertBeside(cs, tid, x, after), x.id, p) == ParentOf(cs, tid, p)
    decreases cs
  {
    InsertBesideCons(cs, tid, x, after);
    var x0, rest := cs[0], cs[1..];
    if x0.id == tid {
      assert ([x] + rest)[0] == x;
    } else if tid in IdsOfItem(x0) {
      InsertBesideInPlaces(x0, tid, x, after);
    } else {
      InsertBesidePlaces(rest, tid, x, after, p);
    }
  }

  lemma {:induction false} InsertBesideInPlaces(n: Item, tid: string, x: Item, after: bool)
    requires UniqueItem(n) && tid in IdsOfItem(n) && tid != n.id && x.id !in IdsOfItem(n)
    ensures after ==> AdjacentIn(InsertBesideIn(n, tid, x, after), tid, x.id)
    ensures !after ==> AdjacentIn(InsertBesideIn(n, tid, x, after), x.id, tid)
    ensures x.id in IdsOfItem(InsertBesideIn(n, tid, x, after))
    ensures ParentOfIn(InsertBesideIn(n, tid, x, after), x.id) == ParentOfIn(n, tid)
    decreases n
  {
    match n.children
    case Container(items) =>
      InsertBesidePlaces(items, tid, x, after, Some(n.id));
      InsertBesideHas(items, tid, x, after);
  }

  lemma {:induction false} InsertBesideHas(cs: seq<Item>, tid: string, x: Item, after: bool)
    requires tid in IdsOf(cs)
    ensures x.id in IdsOf(InsertBeside(cs, tid, x, after))
    decreases cs
  {
    var x0, rest := cs[0], cs[1..];
    if x0.id == tid {
      assert InsertBeside(cs, tid, x, after) == (if after then [x0, x] else [x, x0]) + InsertBeside(rest, tid, x, after);
      IdsAppend(if after then [x0, x] else [x, x0], InsertBeside(rest, tid, x, after));
      assert IdsOf([x0, x]) == IdsOfItem(x0) + IdsOf([x]);
      assert IdsOf([x, x0]) == IdsOfItem(x) + IdsOf([x0]);
    } else {
      assert InsertBeside(cs, tid, x, after) == [InsertBesideIn(x0, tid, x, after)] + InsertBeside(rest, tid, x, after);
      IdsAppend([InsertBesideIn(x0, tid, x, after)], InsertBeside(rest, tid, x, after));
      if tid in IdsOfItem(x0) {
        InsertBesideInHas(x0, tid, x, after);
      } else {
        InsertBesideHas(rest, tid, x, after);
      }
    }
  }

  lemma {:induction false} InsertBesideInHas(n: Item, tid: string, x: Item, after: bool)
    requires tid in IdsOfItem(n) && tid != n.id
    ensures x.id in IdsOfItem(InsertBesideIn(n, tid, x, after))
    decreases n
  {
    match n.children
    case Container(items) => InsertBesideHas(items, tid, x, after);
  }

  // ---------------------------------------------------------------------------
  // `updateItemDepth`: the item gets the new depth, each child one more

  function WithDepth(n: Item, d: int): Item
    decreases n
  {
    n.(depth := d, children := match n.children
      case NoContainer => NoContainer
      case Container(items) => Container(WithDepthAll(items, d + 1)))
  }

  function WithDepthAll(cs: seq<Item>, d: int): seq<Item>
    decreases cs
  {
    if cs == [] then [] else [WithDepth(cs[0], d)] + WithDepthAll(cs[1..], d)
  }

  lemma WithDepthAllAppend(cs: seq<Item>, x: Item, d: int)
    ensures WithDepthAll(cs + [x], d) == WithDepthAll(cs, d) + [WithDepth(x, d)]
    decreases cs
  {
    if cs != [] {
      assert (cs + [x])[1..] == cs[1..] + [x];
    }
  }

  /**
   * Re-stamping depths makes them consistent from `d` down and changes nothing
   * else: same ids, same parent attributes, same shape.
   */
  lemma {:induction false} WithDepthFacts(n: Item, d: int, p: Option<string>)
    ensures DepthsAt(WithDepth(n, d), d)
    ensures IdsOfItem(WithDepth(n, d)) == IdsOfItem(n)
    ensures UniqueItem(n) ==> UniqueItem(WithDepth(n, d))
    ensures LinkedAt(n, p) ==> LinkedAt(WithDepth(n, d), p)
    ensures SubtreeDepth(WithDepth(n, d)) == SubtreeDepth(n)
    ensures FlatItem(WithDepth(n, d)).Keys == FlatItem(n).Keys
    ensures forall k :: k in FlatItem(n) ==> FlatItem(WithDepth(n, d))[k].parentAttr == FlatItem(n)[k].parentAttr
    decreases n
  {
    FlatItemKeys(n);
    FlatItemKeys(WithDepth(n, d));
    match n.children
    case NoContainer =>
    case Container(items) => WithDepthAllFacts(items, d + 1, Some(n.id));
  }

  lemma {:induction false} WithDepthAllFacts(cs: seq<Item>, d: int, p: Option<string>)
    ensures DepthsFrom(WithDepthAll(cs, d), d)
    ensures IdsOf(WithDepthAll(cs, d)) == IdsOf(cs)
    ensures Unique(cs) ==> Unique(WithDepthAll(cs, d))
    ensures LinkedFrom(cs, p) ==> LinkedFrom(WithDepthAll(cs, d), p)
    ensures MaxSubtreeDepth(WithDepthAll(cs, d)) == MaxSubtreeDepth(cs)
    ensures (WithDepthAll(cs, d) == []) == (cs == [])
    ensures Flat(WithDepthAll(cs, d)).Keys == Flat(cs).Keys
    ensures forall k :: k in Flat(cs) ==> Flat(WithDepthAll(cs, d))[k].parentAttr == Flat(cs)[k].parentAttr
    decreases cs
  {
    FlatKeys(cs);
    FlatKeys(WithDepthAll(cs, d));
    if cs != [] {
      var w := WithDepthAll(cs, d);
      assert w[0] == WithDepth(cs[0], d) && w[1..] == WithDepthAll(cs[1..], d);
      WithDepthFacts(cs[0], d, p);
      WithDepthAllFacts(cs[1..], d, p);
    }
  }

  // ---------------------------------------------------------------------------
  // `getSubtreeDepth` and the levels below an item

  function Max(a: nat, b: nat): nat
  {
    if a < b then b else a
  }

  /** 0 without a container or with an empty one, else 1 + the deepest child subtree; some item sits that many levels below `n`. */
  function SubtreeDepth(n: Item): (r: nat)
    ensures Reaches(n, r)
    decreases n
  {
    match n.children
    case NoContainer => 0
    case Container(items) => if items == [] then 0 else 1 + MaxSubtreeDepth(items)
  }

  /** The largest `SubtreeDepth` among `cs` (0 for none), as the `forEach`/`Math.max` fold computes. */
  function MaxSubtreeDepth(cs: seq<Item>): (r: nat)
    ensures cs != [] ==> ReachesIn(cs, r)
    decreases cs
  {
    if cs == [] then 0 else Max(SubtreeDepth(cs[0]), MaxSubtreeDepth(cs[1..]))
  }

  /** Some item sits exactly `k` levels below `n` (`k == 0` is `n` itself). */
  predicate Reaches(n: Item, k: nat)
    decreases n
  {
    k == 0 || match n.children
      case NoContainer => false
      case Container(items) => ReachesIn(items, k - 1)
  }

  predicate ReachesIn(cs: seq<Item>, k: nat)
    decreases cs
  {
    cs != [] && (Reaches(cs[0], k) || ReachesIn(cs[1..], k))
  }

  /** `getSubtreeDepth` is the height of the subtree: no descendant sits deeper (and, by its contract, one sits that deep). */
  lemma {:induction false} SubtreeDepthIsHeight(n: Item)
    ensures forall k: nat :: Reaches(n, k) ==> k <= SubtreeDepth(n)
    decreases n
  {
    match n.children
    case NoContainer =>
    case Container(items) =>
      forall k: nat | Reaches(n, k) ensures k <= SubtreeDepth(n) {
        if k > 0 {
          assert ReachesIn(items, k - 1);
          MaxSubtreeDepthIsHeight(items);
          assert k - 1 <= MaxSubtreeDepth(items);
        }
      }
  }

  lemma {:induction false} MaxSubtreeDepthIsHeight(cs: seq<Item>)
    ensures forall k: nat :: ReachesIn(cs, k) ==> k <= MaxSubtreeDepth(cs)
    decreases cs
  {
    if cs != [] {
      SubtreeDepthIsHeight(cs[0]);
      MaxSubtreeDepthIsHeight(cs[1..]);
    }
  }

  /** Every item of `n`'s subtree has a depth below `b`. */
  predicate DepthsBelow(n: Item, b: int)
    decreases n
  {
    n.depth < b && match n.children
      case NoContainer => true
      case Container(items) => AllDepthsBelow(items, b)
  }

  predicate AllDepthsBelow(cs: seq<Item>, b: int)
    decreases cs
  {
    cs == [] || (DepthsBelow(cs[0], b) && AllDepthsBelow(cs[1..], b))
  }

  /** With consistent depths, the deepest item under `n` is at `n.depth + SubtreeDepth(n)`. */
  lemma {:induction false} DepthBound(n: Item, d: int, b: int)
    requires DepthsAt(n, d) && d + SubtreeDepth(n) < b
    ensures DepthsBelow(n, b)
    decreases n
  {
    match n.children
    case NoContainer =>
    case Container(items) =>
      if items != [] {
        AllDepthBound(items, d + 1, b);
      }
  }

  lemma {:induction false} AllDepthBound(cs: seq<Item>, d: int, b: int)
    requires DepthsFrom(cs, d) && d + MaxSubtreeDepth(cs) < b
    ensures AllDepthsBelow(cs, b)
    decreases cs
  {
    if cs != [] {
      DepthBound(cs[0], d, b);
      AllDepthBound(cs[1..], d, b);
    }
  }

  // ---------------------------------------------------------------------------
  // `isDescendantOf`

  /**
   * An item with `element`'s id occurs somewhere inside `ancestor`'s children
   * container: a descendant's id is in `ancestor`'s subtree, and every id of that
   * subtree other than `ancestor`'s own is a descendant's.
   */
  predicate IsDescendantOf(element: Item, ancestor: Item): (r: bool)
    ensures r ==> element.id in IdsOfItem(ancestor)
    ensures element.id in IdsOfItem(ancestor) && element.id != ancestor.id ==> r
  {
    match ancestor.children
    case NoContainer => false
    case Container(items) => element.id in IdsOf(items)
  }

  /**
   * Dragging `source` away takes with it exactly the items `isDescendantOf` reports
   * under it, and `source` itself.
   */
  lemma DescendantsLeaveWithSource(dom: seq<Item>, source: Item, e: Item)
    requires Unique(dom) && Find(dom, source.id) == Some(source)
    ensures e.id in IdsOf(Remove(dom, source.id)) <==> e.id in IdsOf(dom) && e.id != source.id && !IsDescendantOf(e, source)
  {
    FindFacts(dom, source.id);
    RemoveTakesSubtree(dom, source.id);
    match source.children
    case NoContainer =>
    case Container(items) =>
  }

  // ---------------------------------------------------------------------------
  // `cleanupEmptyContainers`: a container with no item inside is removed

  function Prune(cs: seq<Item>): seq<Item>
    decreases cs
  {
    if cs == [] then [] else [PruneItem(cs[0])] + Prune(cs[1..])
  }

  function PruneItem(n: Item): Item
    decreases n
  {
    match n.children
    case NoContainer => n
    case Container(items) =>
      if items == [] then n.(children := NoContainer) else n.(children := Container(Prune(items)))
  }

  /** No children container is empty. */
  predicate NoEmpty(cs: seq<Item>)
    decreases cs
  {
    cs == [] || (NoEmptyItem(cs[0]) && NoEmpty(cs[1..]))
  }

  predicate NoEmptyItem(n: Item)
    decreases n
  {
    match n.children
    case NoContainer => true
    case Container(items) => items != [] && NoEmpty(items)
  }

  lemma PruneCons(cs: seq<Item>)
    requires cs != []
    ensures Prune(cs)[0] == PruneItem(cs[0]) && Prune(cs)[1..] == Prune(cs[1..])
  {
  }

  lemma {:induction false} PruneAppend(a: seq<Item>, b: seq<Item>)
    ensures Prune(a + b) == Prune(a) + Prune(b)
    decreases a
  {
    if a != [] {
      assert (a + b)[1..] == a[1..] + b;
      PruneAppend(a[1..], b);
    } else {
      assert a + b == b;
    }
  }

  /** Pruning leaves no empty container, and does nothing to a tree that has none. */
  lemma {:induction false} PruneCleans(cs: seq<Item>)
    ensures NoEmpty(Prune(cs))
    ensures NoEmpty(cs) ==> Prune(cs) == cs
    ensures |Prune(cs)| == |cs| && (forall i :: 0 <= i < |cs| ==> Prune(cs)[i].id == cs[i].id)
    decreases cs
  {
    if cs != [] {
      PruneCons(cs);
      PruneItemCleans(cs[0]);
      PruneCleans(cs[1..]);
      assert forall i :: 1 <= i < |cs| ==> Prune(cs)[i] == Prune(cs[1..])[i - 1];
    }
  }

  lemma {:induction false} PruneItemCleans(n: Item)
    ensures NoEmptyItem(PruneItem(n))
    ensures NoEmptyItem(n) ==> PruneItem(n) == n
    ensures PruneItem(n).id == n.id && PruneItem(n).depth == n.depth && PruneItem(n).parentAttr == n.parentAttr
    decreases n
  {
    match n.children
    case NoContainer =>
    case Container(items) =>
      PruneCleans(items);
  }

  /** Pruning keeps every item, its attributes and the invariants. */
  lemma {:induction false} PruneKeeps(cs: seq<Item>, d: int, p: Option<string>)
    ensures IdsOf(Prune(cs)) == IdsOf(cs)
    ensures Flat(Prune(cs)) == Flat(cs)
    ensures Unique(cs) ==> Unique(Prune(cs))
    ensures DepthsFrom(cs, d) ==> DepthsFrom(Prune(cs), d)
    ensures LinkedFrom(cs, p) ==> LinkedFrom(Prune(cs), p)
    decreases cs
  {
    if cs != [] {
      PruneCons(cs);
      PruneItemKeeps(cs[0], d, p);
      PruneKeeps(cs[1..], d, p);
    }
  }

  lemma {:induction false} PruneItemKeeps(n: Item, d: int, p: Option<string>)
    ensures IdsOfItem(PruneItem(n)) == IdsOfItem(n)
    ensures FlatItem(PruneItem(n)) == FlatItem(n)
    ensures UniqueItem(n) ==> UniqueItem(PruneItem(n))
    ensures DepthsAt(n, d) ==> DepthsAt(PruneItem(n), d)
    ensures LinkedAt(n, p) ==> LinkedAt(PruneItem(n), p)
    decreases n
  {
    match n.children
    case NoContainer =>
    case Container(items) =>
      PruneKeeps(items, d + 1, Some(n.id));
  }

  /** Pruning keeps which items are neighbours and which container holds each item. */
  lemma {:induction false} PruneKeepsPlaces(cs: seq<Item>, a: string, b: string, id: string, p: Option<string>)
    ensures Adjacent(cs, a, b) ==> Adjacent(Prune(cs), a, b)
    ensures ParentOf(Prune(cs), id, p) == ParentOf(cs, id, p)
    ensures Find(Prune(cs), id) == if Find(cs, id).Some? then Some(PruneItem(Find(cs, id).value)) else None
    decreases cs
  {
    if cs != [] {
      PruneCons(cs);
      PruneItemCleans(cs[0]);
      PruneItemKeeps(cs[0], 0, None);
      PruneItemKeepsPlaces(cs[0], a, b, id);
      PruneKeepsPlaces(cs[1..], a, b, id, p);
      if |cs| >= 2 {
        PruneCons(cs[1..]);
        PruneItemCleans(cs[1]);
      }
    }
  }

  lemma {:induction false} PruneItemKeepsPlaces(n: Item, a: string, b: string, id: string)
    ensures AdjacentIn(n, a, b) ==> AdjacentIn(PruneItem(n), a, b)
    ensures ParentOfIn(PruneItem(n), id) == ParentOfIn(n, id)
    ensures FindIn(PruneItem(n), id) == if FindIn(n, id).Some? then Some(PruneItem(FindIn(n, id).value)) else None
    decreases n
  {
    match n.children
    case NoContainer =>
    case Container(items) =>
      PruneKeepsPlaces(items, a, b, id, Some(n.id));
  }

  // ---------------------------------------------------------------------------
  // Lookups after an edit

  /** Every entry of `a` is in `b`, with the same value. */
  predicate Within(a: map<string, Attrs>, b: map<string, Attrs>)
  {
    forall k :: k in a ==> k in b && b[k] == a[k]
  }

  /** The attributes under a found item are the tree's own. */
  lemma {:induction false} FindFlat(cs: seq<Item>, id: string)
    requires Unique(cs) && Find(cs, id).Some?
    ensures Within(FlatItem(Find(cs, id).value), Flat(cs))
    decreases cs
  {
    var x0, rest := cs[0], cs[1..];
    FlatItemKeys(x0);
    FlatKeys(rest);
    if FindIn(x0, id).Some? {
      FindInFlat(x0, id);
    } else {
      FindFlat(rest, id);
    }
  }

  lemma {:induction false} FindInFlat(n: Item, id: string)
    requires UniqueItem(n) && FindIn(n, id).Some?
    ensures Within(FlatItem(FindIn(n, id).value), FlatItem(n))
    decreases n
  {
    if n.id != id {
      match n.children
      case Container(items) =>
        FlatKeys(items);
        FindFlat(items, id);
    }
  }

  /** Replacing an item by one with the same id makes the lookup find the replacement. */
  lemma {:induction false} ReplaceFind(cs: seq<Item>, id: string, y: Item)
    requires Unique(cs) && id in IdsOf(cs) && y.id == id
    ensures Find(Replace(cs, id, y), id) == Some(y)
    decreases cs
  {
    var x0, rest := cs[0], cs[1..];
    ReplaceCons(cs, id, y);
    FindInFacts(x0, id);
    if id in IdsOfItem(x0) {
      ReplaceInFind(x0, id, y);
    } else {
      ReplaceInAbsent(x0, id, y);
      ReplaceFind(rest, id, y);
    }
  }

  lemma {:induction false} ReplaceInFind(n: Item, id: string, y: Item)
    requires UniqueItem(n) && id in IdsOfItem(n) && y.id == id
    ensures FindIn(ReplaceIn(n, id, y), id) == Some(y)
    decreases n
  {
    if n.id != id {
      match n.children
      case Container(items) => ReplaceFind(items, id, y);
    }
  }

  /** Below the replacement, items sit in the containers the replacement gives them. */
  lemma {:induction false} ReplaceParent(cs: seq<Item>, id: string, y: Item, k: string, p: Option<string>)
    requires Unique(cs) && id in IdsOf(cs) && Find(cs, id).Some? && y.id == id
    requires k in IdsOfItem(y) && k != id && IdsOfItem(y) !! (IdsOf(cs) - IdsOfItem(Find(cs, id).value))
    ensures ParentOf(Replace(cs, id, y), k, p) == ParentOfIn(y, k)
    decreases cs
  {
    FindFacts(cs, id);
    var x0, rest := cs[0], cs[1..];
    FindInFacts(x0, id);
    ReplaceCons(cs, id, y);
    if id in IdsOfItem(x0) {
      ReplaceAbsent(rest, id, y);
      if x0.id != id {
        ReplaceInParent(x0, id, y, k);
      }
    } else {
      ReplaceInAbsent(x0, id, y);
      FindFacts(rest, id);
      ReplaceParent(rest, id, y, k, p);
    }
  }

  lemma {:induction false} ReplaceInParent(n: Item, id: string, y: Item, k: string)
    requires UniqueItem(n) && id in IdsOfItem(n) && id != n.id && FindIn(n, id).Some? && y.id == id
    requires k in IdsOfItem(y) && k != id && IdsOfItem(y) !! (IdsOfItem(n) - IdsOfItem(FindIn(n, id).value))
    ensures k in IdsOfItem(ReplaceIn(n, id, y)) && k != n.id
    ensures ParentOfIn(ReplaceIn(n, id, y), k) == ParentOfIn(y, k)
    decreases n
  {
    match n.children
    case Container(items) =>
      FindFacts(items, id);
      ReplaceIds(items, id, y);
      ReplaceParent(items, id, y, k, Some(n.id));
  }

  /** Detaching one subtree leaves every other item in its container. */
  lemma {:induction false} RemoveParent(cs: seq<Item>, sid: string, k: string, p: Option<string>)
    requires Unique(cs) && sid in IdsOf(cs) && Find(cs, sid).Some?
    requires k in IdsOf(cs) && k !in IdsOfItem(Find(cs, sid).value)
    ensures ParentOf(Remove(cs, sid), k, p) == ParentOf(cs, k, p)
    decreases cs
  {
    FindFacts(cs, sid);
    var x0, rest := cs[0], cs[1..];
    FindInFacts(x0, sid);
    RemoveCons(cs, sid);
    if x0.id == sid {
      RemoveAbsent(rest, sid);
    } else if sid in IdsOfItem(x0) {
      RemoveAbsent(rest, sid);
      RemoveInTakesSubtree(x0, sid);
      if k in IdsOfItem(x0) && k != x0.id {
        RemoveInParent(x0, sid, k);
      }
    } else {
      RemoveInAbsent(x0, sid);
      if k !in IdsOfItem(x0) {
        FindFacts(rest, sid);
        RemoveParent(rest, sid, k, p);
      }
    }
  }

  lemma {:induction false} RemoveInParent(n: Item, sid: string, k: string)
    requires UniqueItem(n) && sid in IdsOfItem(n) && sid != n.id && FindIn(n, sid).Some?
    requires k in IdsOfItem(n) && k != n.id && k !in IdsOfItem(FindIn(n, sid).value)
    ensures ParentOfIn(RemoveIn(n, sid), k) == ParentOfIn(n, k)
    decreases n
  {
    match n.children
    case Container(items) =>
      FindFacts(items, sid);
      RemoveParent(items, sid, k, Some(n.id));
  }

  lemma {:induction false} ParentOfAppend(a: seq<Item>, b: seq<Item>, k: string, p: Option<string>)
    ensures ParentOf(a + b, k, p) == if k in IdsOf(a) then ParentOf(a, k, p) else ParentOf(b, k, p)
    decreases a
  {
    if a != [] {
      assert (a + b)[0] == a[0] && (a + b)[1..] == a[1..] + b;
      ParentOfAppend(a[1..], b, k, p);
    } else {
      assert a + b == b;
    }
  }

  // ---------------------------------------------------------------------------
  // `applyMoveToDOM`

  /** The instruction the hitbox library reports for a drop on an item. */
  datatype Operation = Combine | ReorderBefore | ReorderAfter

  /** `targetElement.dataset.parentId || '-1'`. */
  function ParentAttrOrRoot(t: Item): string
  {
    if t.parentAttr == "" then "-1" else t.parentAttr
  }

  /** The dragged subtree after `updateItemDepth(source, depth)` and the `parentId` write. */
  function Restamped(s: Item, depth: int, parentAttr: string): Item
  {
    WithDepth(s, depth).(parentAttr := parentAttr)
  }

  /** `childrenContainer.appendChild(x)`, creating the container when `t` has none. */
  function AppendChild(t: Item, x: Item): Item
  {
    t.(children := Container(KidsOf(t) + [x]))
  }

  /**
   * The moves `applyMoveToDOM` is given: both items are rendered and the target is
   * not inside the dragged subtree (only a reorder may name the source itself: the
   * drop-at-end zone does so when the dragged item is the last root item).
   */
  predicate CanApply(dom: seq<Item>, sid: string, tid: string, op: Operation)
  {
    Valid(dom) && Find(dom, sid).Some? && Find(dom, tid).Some? &&
    (tid !in IdsOfItem(Find(dom, sid).value) || (tid == sid && op != Combine))
  }

  /** The dragged subtree as `applyMoveToDOM` leaves it: new depths, new `parentId`. */
  function MovedSubtree(dom: seq<Item>, sid: string, tid: string, op: Operation, newParentAttr: string): Item
    requires CanApply(dom, sid, tid, op)
  {
    var source, target := Find(dom, sid).value, Find(dom, tid).value;
    if op == Combine then Restamped(source, target.depth + 1, newParentAttr)
    else Restamped(source, target.depth, ParentAttrOrRoot(target))
  }

  /** The target item as it sits once the dragged subtree is detached (the target is not inside it). */
  function RemainingTarget(dom: seq<Item>, sid: string, tid: string): Item
    requires Valid(dom) && Find(dom, sid).Some? && Find(dom, tid).Some? && tid !in IdsOfItem(Find(dom, sid).value)
  {
    FindFacts(dom, sid);
    FindFacts(dom, tid);
    RemoveTakesSubtree(dom, sid);
    FindFacts(Remove(dom, sid), tid);
    Find(Remove(dom, sid), tid).value
  }

  /** The tree after the element moves and before the empty containers are cleaned up. */
  function Relocated(dom: seq<Item>, sid: string, tid: string, op: Operation, newParentAttr: string): seq<Item>
    requires CanApply(dom, sid, tid, op)
  {
    var x := MovedSubtree(dom, sid, tid, op, newParentAttr);
    if op == Combine then Replace(Remove(dom, sid), tid, AppendChild(RemainingTarget(dom, sid, tid), x))
    else if sid == tid then Replace(dom, sid, x)
    else InsertBeside(Remove(dom, sid), tid, x, op == ReorderAfter)
  }

  /** `applyMoveToDOM(source, target, operation, moveData)` on the rendered tree. */
  function ApplyMove(dom: seq<Item>, sid: string, tid: string, op: Operation, newParentAttr: string): seq<Item>
    requires CanApply(dom, sid, tid, op)
  {
    Prune(Relocated(dom, sid, tid, op, newParentAttr))
  }

  /** What re-stamping does to the dragged subtree. */
  lemma RestampedFacts(s: Item, depth: int, parentAttr: string, x: Item)
    requires UniqueItem(s) && LinkedAt(s, None) && x == Restamped(s, depth, parentAttr)
    ensures x.id == s.id && x.parentAttr == parentAttr && x.depth == depth
    ensures IdsOfItem(x) == IdsOfItem(s) && UniqueItem(x) && DepthsAt(x, depth)
    ensures LinkedAt(x, None) && LinkedAt(x, Some(parentAttr)) && SubtreeDepth(x) == SubtreeDepth(s)
    ensures FlatItem(x).Keys == IdsOfItem(s) && FlatItem(x)[s.id] == Attrs(depth, parentAttr)
    ensures forall k :: k in FlatItem(s) && k != s.id ==> k in FlatItem(x) && FlatItem(x)[k].parentAttr == FlatItem(s)[k].parentAttr
  {
    WithDepthFacts(s, depth, None);
    var w := WithDepth(s, depth);
    FlatItemKeys(s);
    assert FlatItem(x) == FlatItem(w)[s.id := Attrs(depth, parentAttr)];
  }

  /** What appending a child does to the target item. */
  lemma AppendChildFacts(t: Item, x: Item, q: Option<string>, y: Item)
    requires t.id !in IdsOfItem(x) && IdsOfItem(t) !! IdsOfItem(x) && y == AppendChild(t, x)
    ensures y.id == t.id && y.depth == t.depth && y.parentAttr == t.parentAttr
    ensures IdsOfItem(y) == IdsOfItem(t) + IdsOfItem(x)
    ensures UniqueItem(t) && UniqueItem(x) ==> UniqueItem(y)
    ensures DepthsAt(t, t.depth) && DepthsAt(x, t.depth + 1) ==> DepthsAt(y, t.depth)
    ensures LinkedAt(t, q) && LinkedAt(x, Some(t.id)) ==> LinkedAt(y, q)
    ensures FlatItem(y) == FlatItem(t) + FlatItem(x)
    ensures ParentOfIn(y, x.id) == Some(t.id)
    ensures KidsOf(y) == KidsOf(t) + [x]
  {
    var ks := KidsOf(t);
    IdsAppend(ks, [x]);
    UniqueAppend(ks, [x]);
    DepthsAppend(ks, [x], t.depth + 1);
    LinkedAppend(ks, [x], Some(t.id));
    FlatAppend(ks, [x]);
    ParentOfAppend(ks, [x], x.id, Some(t.id));
    FlatItemKeys(x);
    assert Flat([x]) == FlatItem(x);
    assert IdsOf([x]) == IdsOfItem(x);
  }

  lemma Restore(m: map<string, Attrs>, a: map<string, Attrs>, b: map<string, Attrs>)
    requires Within(a, m)
    ensures (m - a.Keys) + (a + b) == m + b
  {
  }

  /** Detaching the dragged subtree: what remains is well formed and still holds the target. */
  lemma DetachFacts(dom: seq<Item>, sid: string, tid: string, rest: seq<Item>, t2: Item)
    requires Valid(dom) && Find(dom, sid).Some? && Find(dom, tid).Some? && tid !in IdsOfItem(Find(dom, sid).value)
    requires rest == Remove(dom, sid) && t2 == RemainingTarget(dom, sid, tid)
    ensures Find(rest, tid) == Some(t2) && t2.id == tid
    ensures t2.depth == Find(dom, tid).value.depth && t2.parentAttr == Find(dom, tid).value.parentAttr
    ensures Unique(rest) && DepthsFrom(rest, 0) && LinkedFrom(rest, None) && tid in IdsOf(rest)
    ensures IdsOf(rest) == IdsOf(dom) - IdsOfItem(Find(dom, sid).value)
    ensures Flat(rest) == Flat(dom) - IdsOfItem(Find(dom, sid).value)
    ensures Within(FlatItem(t2), Flat(rest))
    ensures IdsOfItem(t2) <= IdsOf(rest) && FlatItem(t2).Keys == IdsOfItem(t2)
    ensures ParentOf(rest, tid, None) == Parent(dom, tid)
  {
    var target := Find(dom, tid).value;
    FindFacts(dom, sid);
    FindFacts(dom, tid);
    RemoveTakesSubtree(dom, sid);
    RemoveFlat(dom, sid);
    RemoveKeeps(dom, sid, 0, None);
    RemoveParent(dom, sid, tid, None);
    FindFacts(rest, tid);
    FindFlat(rest, tid);
    FindFlat(dom, tid);
    FlatItemKeys(t2);
    FlatItemKeys(target);
  }

  /** The last pieces of a combine: the re-stamped source, and the target with it appended. */
  lemma {:induction false} CombineAppend(dom: seq<Item>, sid: string, tid: string, newParentAttr: string, rest: seq<Item>, t2: Item, x: Item, y: Item)
    requires CanApply(dom, sid, tid, Combine)
    requires rest == Remove(dom, sid) && t2 == RemainingTarget(dom, sid, tid)
    requires x == MovedSubtree(dom, sid, tid, Combine, newParentAttr) && y == AppendChild(t2, x)
    requires Find(rest, tid) == Some(t2) && t2.id == tid && t2.depth == Find(dom, tid).value.depth
    requires Unique(rest) && DepthsFrom(rest, 0) && LinkedFrom(rest, None)
    requires IdsOf(rest) == IdsOf(dom) - IdsOfItem(Find(dom, sid).value) && IdsOfItem(t2) <= IdsOf(rest)
    ensures Relocated(dom, sid, tid, Combine, newParentAttr) == Replace(rest, tid, y)
    ensures IdsOfItem(y) == IdsOfItem(t2) + IdsOfItem(Find(dom, sid).value)
    ensures UniqueItem(y) && DepthsAt(y, t2.depth) && y.id == tid
    ensures newParentAttr == tid ==> LinkedAt(y, ParentOf(rest, tid, None))
    ensures FlatItem(y) == FlatItem(t2) + FlatItem(x)
    ensures sid in IdsOfItem(y) && sid != tid && ParentOfIn(y, sid) == Some(tid)
    ensures KidsOf(y) == KidsOf(t2) + [x]
  {
    var source, target := Find(dom, sid).value, Find(dom, tid).value;
    FindFacts(dom, sid);
    FindFacts(dom, tid);
    FindFacts(rest, tid);
    assert x == Restamped(source, target.depth + 1, newParentAttr);
    RestampedFacts(source, target.depth + 1, newParentAttr, x);
    assert IdsOfItem(x) == IdsOfItem(source);
    assert t2.id !in IdsOfItem(x) && IdsOfItem(t2) !! IdsOfItem(x);
    assert DepthsAt(t2, t2.depth) && DepthsAt(x, t2.depth + 1);
    LinkedParent(rest, tid, None);
    AppendChildFacts(t2, x, Parent(rest, tid), y);
  }

  /**
   * Combine, before cleanup: the dragged subtree becomes the target's last child,
   * every other item keeps its attributes, and the tree stays well formed.
   */
  lemma CombineRelocates(dom: seq<Item>, sid: string, tid: string, newParentAttr: string, c: seq<Item>, x: Item)
    requires CanApply(dom, sid, tid, Combine)
    requires c == Relocated(dom, sid, tid, Combine, newParentAttr) && x == MovedSubtree(dom, sid, tid, Combine, newParentAttr)
    ensures IdsOf(c) == IdsOf(dom) && Unique(c) && DepthsFrom(c, 0)
    ensures newParentAttr == tid ==> LinkedFrom(c, None)
    ensures Flat(c) == (Flat(dom) - IdsOfItem(Find(dom, sid).value)) + FlatItem(x)
    ensures Parent(c, sid) == Some(tid)
    ensures Find(c, tid).Some? && KidsOf(Find(c, tid).value) != [] && KidsOf(Find(c, tid).value)[|KidsOf(Find(c, tid).value)| - 1] == x
  {
    var rest, t2 := Remove(dom, sid), RemainingTarget(dom, sid, tid);
    var y := AppendChild(t2, x);
    DetachFacts(dom, sid, tid, rest, t2);
    CombineAppend(dom, sid, tid, newParentAttr, rest, t2, x, y);
    FindFacts(dom, sid);
    ReplaceIds(rest, tid, y);
    ReplaceKeeps(rest, tid, y, 0, None);
    ReplaceFlat(rest, tid, y);
    ReplaceFind(rest, tid, y);
    ReplaceParent(rest, tid, y, sid, None);
    Restore(Flat(rest), FlatItem(t2), FlatItem(x));
  }

  /** `parentId || '-1'` of a target is the id of its container's owner when it is nested. */
  lemma ReorderSlot(cs: seq<Item>, tid: string, t: Item, x: Item)
    requires Unique(cs) && LinkedFrom(cs, None) && "" !in IdsOf(cs) && Find(cs, tid) == Some(t)
    requires LinkedAt(x, None) && x.parentAttr == ParentAttrOrRoot(t)
    ensures Parent(cs, tid).Some? ==> Parent(cs, tid).value == t.parentAttr == ParentAttrOrRoot(t)
    ensures LinkedAt(x, Parent(cs, tid))
  {
    FindFacts(cs, tid);
    LinkedParent(cs, tid, None);
  }

  /** The pieces of a reorder onto another item. */
  lemma ReorderPieces(dom: seq<Item>, sid: string, tid: string, op: Operation, rest: seq<Item>, t2: Item, x: Item)
    requires CanApply(dom, sid, tid, op) && op != Combine && sid != tid
    requires rest == Remove(dom, sid) && t2 == RemainingTarget(dom, sid, tid) && x == MovedSubtree(dom, sid, tid, op, "")
    ensures x.id == sid
    ensures Relocated(dom, sid, tid, op, "") == InsertBeside(rest, tid, x, op == ReorderAfter)
    ensures IdsOfItem(x) == IdsOfItem(Find(dom, sid).value) && IdsOfItem(x) !! IdsOf(rest) && sid !in IdsOf(rest)
    ensures UniqueItem(x) && DepthsAt(x, t2.depth) && LinkedAt(x, ParentOf(rest, tid, None))
  {
    var source, target := Find(dom, sid).value, Find(dom, tid).value;
    FindFacts(dom, sid);
    FindFacts(dom, tid);
    DetachFacts(dom, sid, tid, rest, t2);
    assert x == Restamped(source, target.depth, ParentAttrOrRoot(target));
    RestampedFacts(source, target.depth, ParentAttrOrRoot(target), x);
    ReorderSlot(rest, tid, t2, x);
  }

  /**
   * Reorder onto another item, before cleanup: the dragged subtree lands right
   * before or after the target, in the target's container, and the tree stays well formed.
   */
  lemma ReorderRelocates(dom: seq<Item>, sid: string, tid: string, op: Operation, c: seq<Item>, x: Item)
    requires CanApply(dom, sid, tid, op) && op != Combine && sid != tid
    requires c == Relocated(dom, sid, tid, op, "") && x == MovedSubtree(dom, sid, tid, op, "")
    ensures IdsOf(c) == IdsOf(dom) && Unique(c) && DepthsFrom(c, 0) && LinkedFrom(c, None)
    ensures Flat(c) == (Flat(dom) - IdsOfItem(Find(dom, sid).value)) + FlatItem(x)
    ensures op == ReorderAfter ==> Adjacent(c, tid, sid)
    ensures op == ReorderBefore ==> Adjacent(c, sid, tid)
    ensures Parent(c, sid) == Parent(dom, tid)
  {
    var rest, t2 := Remove(dom, sid), RemainingTarget(dom, sid, tid);
    DetachFacts(dom, sid, tid, rest, t2);
    ReorderPieces(dom, sid, tid, op, rest, t2, x);
    FindFacts(dom, sid);
    var after := op == ReorderAfter;
    InsertBesideIds(rest, tid, x, after);
    InsertBesideFlat(rest, tid, x, after);
    InsertBesideKeeps(rest, tid, x, after, 0, None);
    InsertBesidePlaces(rest, tid, x, after, None);
  }

  /** Replacing an item by one with the same id leaves it in its container. */
  lemma {:induction false} ReplaceKeepsSlot(cs: seq<Item>, id: string, y: Item, p: Option<string>)
    requires Unique(cs) && id in IdsOf(cs) && y.id == id
    ensures ParentOf(Replace(cs, id, y), id, p) == ParentOf(cs, id, p)
    decreases cs
  {
    var x0, rest := cs[0], cs[1..];
    ReplaceCons(cs, id, y);
    if id in IdsOfItem(x0) {
      if x0.id != id {
        ReplaceInKeepsSlot(x0, id, y);
      }
    } else {
      ReplaceInAbsent(x0, id, y);
      ReplaceKeepsSlot(rest, id, y, p);
    }
  }

  lemma {:induction false} ReplaceInKeepsSlot(n: Item, id: string, y: Item)
    requires UniqueItem(n) && id in IdsOfItem(n) && id != n.id && y.id == id
    ensures id in IdsOfItem(ReplaceIn(n, id, y))
    ensures ParentOfIn(ReplaceIn(n, id, y), id) == ParentOfIn(n, id)
    decreases n
  {
    match n.children
    case Container(items) =>
      ReplaceKeepsSlot(items, id, y, Some(n.id));
      ReplaceHas(items, id, y);
  }

  lemma {:induction false} ReplaceHas(cs: seq<Item>, id: string, y: Item)
    requires id in IdsOf(cs) && y.id == id
    ensures id in IdsOf(Replace(cs, id, y))
    decreases cs
  {
    var x0, rest := cs[0], cs[1..];
    ReplaceCons(cs, id, y);
    if id in IdsOfItem(x0) {
      if x0.id != id {
        match x0.children
        case Container(items) => ReplaceHas(items, id, y);
      }
    } else {
      ReplaceHas(rest, id, y);
    }
  }

  /**
   * Reorder onto the dragged item itself (the drop-at-end zone with the dragged
   * item last): it stays in place and only its attributes are rewritten.
   */
  lemma SelfRelocates(dom: seq<Item>, sid: string, op: Operation, c: seq<Item>, x: Item)
    requires CanApply(dom, sid, sid, op) && op != Combine
    requires c == Relocated(dom, sid, sid, op, "") && x == MovedSubtree(dom, sid, sid, op, "")
    ensures c == Replace(dom, sid, x)
    ensures IdsOf(c) == IdsOf(dom) && Unique(c) && DepthsFrom(c, 0) && LinkedFrom(c, None)
    ensures Flat(c) == (Flat(dom) - IdsOfItem(Find(dom, sid).value)) + FlatItem(x)
    ensures Parent(c, sid) == Parent(dom, sid)
  {
    var source := Find(dom, sid).value;
    FindFacts(dom, sid);
    FlatItemKeys(source);
    assert x == Restamped(source, source.depth, ParentAttrOrRoot(source));
    RestampedFacts(source, source.depth, ParentAttrOrRoot(source), x);
    ReorderSlot(dom, sid, source, x);
    ReplaceIds(dom, sid, x);
    ReplaceKeeps(dom, sid, x, 0, None);
    ReplaceFlat(dom, sid, x);
    ReplaceKeepsSlot(dom, sid, x, None);
  }

  // ---------------------------------------------------------------------------
  // What `applyMoveToDOM` guarantees

  /** The relocated tree before cleanup, whichever operation was dropped. */
  lemma Relocates(dom: seq<Item>, sid: string, tid: string, op: Operation, newParentAttr: string, c: seq<Item>)
    requires CanApply(dom, sid, tid, op) && (op == Combine ==> newParentAttr == tid)
    requires c == Relocated(dom, sid, tid, op, newParentAttr)
    ensures IdsOf(c) == IdsOf(dom) && Unique(c) && DepthsFrom(c, 0) && LinkedFrom(c, None)
    ensures Flat(c) == (Flat(dom) - IdsOfItem(Find(dom, sid).value)) + FlatItem(MovedSubtree(dom, sid, tid, op, newParentAttr))
  {
    var x := MovedSubtree(dom, sid, tid, op, newParentAttr);
    if op == Combine {
      CombineRelocates(dom, sid, tid, newParentAttr, c, x);
    } else if sid == tid {
      SelfRelocates(dom, sid, op, c, x);
    } else {
      ReorderRelocates(dom, sid, tid, op, c, x);
    }
  }

  /**
   * The tree `applyMoveToDOM` leaves is well formed again (unique ids, `data-depth`
   * one more than the enclosing item's, `data-parent-id` naming the enclosing item),
   * shows the same items, and has no empty children container.
   */
  lemma ApplyMoveValid(dom: seq<Item>, sid: string, tid: string, op: Operation, newParentAttr: string)
    requires CanApply(dom, sid, tid, op) && (op == Combine ==> newParentAttr == tid)
    ensures Valid(ApplyMove(dom, sid, tid, op, newParentAttr))
    ensures NoEmpty(ApplyMove(dom, sid, tid, op, newParentAttr))
    ensures IdsOf(ApplyMove(dom, sid, tid, op, newParentAttr)) == IdsOf(dom)
    ensures Flat(ApplyMove(dom, sid, tid, op, newParentAttr)) ==
      (Flat(dom) - IdsOfItem(Find(dom, sid).value)) + FlatItem(MovedSubtree(dom, sid, tid, op, newParentAttr))
  {
    var c := Relocated(dom, sid, tid, op, newParentAttr);
    Relocates(dom, sid, tid, op, newParentAttr, c);
    PruneKeeps(c, 0, None);
    PruneCleans(c);
  }

  /**
   * Attributes after the move: the dragged item takes the new depth and parent
   * attribute, items outside the dragged subtree keep both, and items inside it
   * keep their parent attribute.
   */
  lemma ApplyMoveAttributes(dom: seq<Item>, sid: string, tid: string, op: Operation, newParentAttr: string)
    requires CanApply(dom, sid, tid, op) && (op == Combine ==> newParentAttr == tid)
    ensures sid in Flat(ApplyMove(dom, sid, tid, op, newParentAttr))
    ensures op == Combine ==> Flat(ApplyMove(dom, sid, tid, op, newParentAttr))[sid] == Attrs(Find(dom, tid).value.depth + 1, tid)
    ensures op != Combine ==> Flat(ApplyMove(dom, sid, tid, op, newParentAttr))[sid] == Attrs(Find(dom, tid).value.depth, ParentAttrOrRoot(Find(dom, tid).value))
    ensures forall k :: k in Flat(dom) && k !in IdsOfItem(Find(dom, sid).value) ==>
      k in Flat(ApplyMove(dom, sid, tid, op, newParentAttr)) && Flat(ApplyMove(dom, sid, tid, op, newParentAttr))[k] == Flat(dom)[k]
    ensures forall k :: k in Flat(dom) && k != sid ==>
      k in Flat(ApplyMove(dom, sid, tid, op, newParentAttr)) && Flat(ApplyMove(dom, sid, tid, op, newParentAttr))[k].parentAttr == Flat(dom)[k].parentAttr
  {
    var source, target := Find(dom, sid).value, Find(dom, tid).value;
    FindFacts(dom, sid);
    FindFlat(dom, sid);
    FlatItemKeys(source);
    ApplyMoveValid(dom, sid, tid, op, newParentAttr);
    var d := if op == Combine then target.depth + 1 else target.depth;
    var pa := if op == Combine then newParentAttr else ParentAttrOrRoot(target);
    var x := Restamped(source, d, pa);
    assert x == MovedSubtree(dom, sid, tid, op, newParentAttr);
    RestampedFacts(source, d, pa, x);
  }

  /** A combine puts the dragged item last in the target's children container. */
  lemma CombineOutcome(dom: seq<Item>, sid: string, tid: string)
    requires CanApply(dom, sid, tid, Combine)
    ensures Parent(ApplyMove(dom, sid, tid, Combine, tid), sid) == Some(tid)
    ensures Find(ApplyMove(dom, sid, tid, Combine, tid), tid).Some?
    ensures KidsOf(Find(ApplyMove(dom, sid, tid, Combine, tid), tid).value) != []
    ensures Last(KidsOf(Find(ApplyMove(dom, sid, tid, Combine, tid), tid).value)).id == sid
  {
    var c, x := Relocated(dom, sid, tid, Combine, tid), MovedSubtree(dom, sid, tid, Combine, tid);
    CombineRelocates(dom, sid, tid, tid, c, x);
    FindFacts(dom, sid);
    PruneKeepsPlaces(c, sid, sid, sid, None);
    PruneKeepsPlaces(c, sid, sid, tid, None);
    var n := Find(c, tid).value;
    PruneCleans(KidsOf(n));
  }

  function Last(cs: seq<Item>): Item
    requires cs != []
  {
    cs[|cs| - 1]
  }

  /**
   * A reorder puts the dragged item right before or after the target, in the
   * target's container.
   */
  lemma ReorderOutcome(dom: seq<Item>, sid: string, tid: string, op: Operation)
    requires CanApply(dom, sid, tid, op) && op != Combine
    ensures Parent(ApplyMove(dom, sid, tid, op, ""), sid) == Parent(dom, tid)
    ensures sid != tid && op == ReorderAfter ==> Adjacent(ApplyMove(dom, sid, tid, op, ""), tid, sid)
    ensures sid != tid && op == ReorderBefore ==> Adjacent(ApplyMove(dom, sid, tid, op, ""), sid, tid)
  {
    var c, x := Relocated(dom, sid, tid, op, ""), MovedSubtree(dom, sid, tid, op, "");
    if sid == tid {
      SelfRelocates(dom, sid, op, c, x);
      PruneKeepsPlaces(c, sid, sid, sid, None);
    } else {
      ReorderRelocates(dom, sid, tid, op, c, x);
      PruneKeepsPlaces(c, tid, sid, sid, None);
      PruneKeepsPlaces(c, sid, tid, sid, None);
    }
  }

  // ---------------------------------------------------------------------------
  // The depth bound behind the `maxDepth` rule

  /** With consistent depths, an item `k` levels below `n` has depth `d + k`, so it is below any bound all depths respect. */
  lemma {:induction false} ReachesBelow(n: Item, d: int, k: nat, b: int)
    requires DepthsAt(n, d) && DepthsBelow(n, b) && Reaches(n, k)
    ensures d + k < b
    decreases n
  {
    if k > 0 {
      match n.children
      case Container(items) => ReachesInBelow(items, d + 1, k - 1, b);
    }
  }

  lemma {:induction false} ReachesInBelow(cs: seq<Item>, d: int, k: nat, b: int)
    requires DepthsFrom(cs, d) && AllDepthsBelow(cs, b) && ReachesIn(cs, k)
    ensures d + k < b
    decreases cs
  {
    if Reaches(cs[0], k) {
      ReachesBelow(cs[0], d, k, b);
    } else {
      ReachesInBelow(cs[1..], d, k, b);
    }
  }

  /** All depths of a subtree placed at depth `d` stay below `b` exactly when `d + SubtreeDepth(n) < b`. */
  lemma ShallowEnough(n: Item, d: int, b: int)
    requires DepthsAt(n, d)
    ensures DepthsBelow(n, b) <==> d + SubtreeDepth(n) < b
  {
    if d + SubtreeDepth(n) < b {
      DepthBound(n, d, b);
    }
    if DepthsBelow(n, b) {
      SubtreeDepthIsHeight(n);
      ReachesBelow(n, d, SubtreeDepth(n), b);
    }
  }

  // ---------------------------------------------------------------------------
  // The drop-at-end zone: a reorder after the last root item

  lemma {:induction false} RemoveAppend(a: seq<Item>, b: seq<Item>, id: string)
    ensures Remove(a + b, id) == Remove(a, id) + Remove(b, id)
    decreases a
  {
    if a != [] {
      assert (a + b)[0] == a[0] && (a + b)[1..] == a[1..] + b;
      RemoveAppend(a[1..], b, id);
    } else {
      assert a + b == b;
    }
  }

  lemma {:induction false} ReplaceAppend(a: seq<Item>, b: seq<Item>, id: string, y: Item)
    ensures Replace(a + b, id, y) == Replace(a, id, y) + Replace(b, id, y)
    decreases a
  {
    if a != [] {
      assert (a + b)[0] == a[0] && (a + b)[1..] == a[1..] + b;
      ReplaceAppend(a[1..], b, id, y);
    } else {
      assert a + b == b;
    }
  }

  lemma {:induction false} InsertBesideAppend(a: seq<Item>, b: seq<Item>, tid: string, x: Item, after: bool)
    ensures InsertBeside(a + b, tid, x, after) == InsertBeside(a, tid, x, after) + InsertBeside(b, tid, x, after)
    decreases a
  {
    if a != [] {
      var h := if a[0].id == tid then (if after then [a[0], x] else [x, a[0]])
               else [InsertBesideIn(a[0], tid, x, after)];
      assert (a + b)[0] == a[0] && (a + b)[1..] == a[1..] + b;
      assert InsertBeside(a + b, tid, x, after) == h + InsertBeside(a[1..] + b, tid, x, after);
      assert InsertBeside(a, tid, x, after) == h + InsertBeside(a[1..], tid, x, after);
      InsertBesideAppend(a[1..], b, tid, x, after);
    } else {
      assert a + b == b;
    }
  }

  /** A top-level item's container is the one `p` names. */
  lemma {:induction false} TopLevelParent(cs: seq<Item>, j: nat, p: Option<string>)
    requires Unique(cs) && j < |cs|
    ensures ParentOf(cs, cs[j].id, p) == p
    decreases cs
  {
    if j > 0 {
      assert cs[j] == cs[1..][j - 1];
      assert cs[j].id in IdsOf(cs[1..]) by {
        FindFacts(cs[1..], cs[j].id);
        TopLevelFound(cs[1..], j - 1);
      }
      TopLevelParent(cs[1..], j - 1, p);
    }
  }

  lemma {:induction false} TopLevelFound(cs: seq<Item>, j: nat)
    requires j < |cs|
    ensures cs[j].id in IdsOf(cs)
    decreases cs
  {
    if j > 0 {
      assert cs[j] == cs[1..][j - 1];
      TopLevelFound(cs[1..], j - 1);
    }
  }

  /** A top-level item is never strictly inside another item's subtree. */
  lemma {:induction false} TopLevelNotBelow(cs: seq<Item>, j: nat, sid: string)
    requires Unique(cs) && j < |cs| && Find(cs, sid).Some? && sid != cs[j].id
    ensures cs[j].id !in IdsOfItem(Find(cs, sid).value)
    decreases cs
  {
    var x0, rest := cs[0], cs[1..];
    FindInFacts(x0, sid);
    FindFacts(rest, sid);
    if j > 0 {
      assert cs[j] == rest[j - 1];
      TopLevelFound(rest, j - 1);
    }
    if FindIn(x0, sid).Some? {
      if j == 0 {
        match x0.children
        case Container(items) => FindFacts(items, sid);
      }
    } else {
      if j > 0 {
        TopLevelNotBelow(rest, j - 1, sid);
      }
    }
  }

  /** The drop-at-end zone with the dragged item last at the root: it stays last. */
  lemma EndSelfLast(dom: seq<Item>, sid: string, c: seq<Item>)
    requires CanApply(dom, sid, sid, ReorderAfter) && dom != [] && Last(dom).id == sid
    requires c == Relocated(dom, sid, sid, ReorderAfter, "")
    ensures c != [] && Last(c).id == sid
  {
    var x := MovedSubtree(dom, sid, sid, ReorderAfter, "");
    SelfRelocates(dom, sid, ReorderAfter, c, x);
    FindFacts(dom, sid);
    assert x.id == sid;
    var j := |dom| - 1;
    var init, l := dom[..j], dom[j];
    assert dom == init + [l];
    ReplaceAppend(init, [l], sid, x);
    assert Replace([l], sid, x) == [x];
    assert Last(c) == x;
  }

  /** Inserting after the last top-level item, once another item is detached, puts the new item last. */
  lemma InsertAfterLastEnds(init: seq<Item>, l: Item, sid: string, x: Item)
    requires l.id != sid
    ensures InsertBeside(Remove(init + [l], sid), l.id, x, true) != []
    ensures Last(InsertBeside(Remove(init + [l], sid), l.id, x, true)) == x
  {
    RemoveAppend(init, [l], sid);
    assert Remove([l], sid) == [RemoveIn(l, sid)];
    var l2 := RemoveIn(l, sid);
    InsertBesideAppend(Remove(init, sid), [l2], l.id, x, true);
    assert InsertBeside([l2], l.id, x, true) == [l2, x];
  }

  /** The drop-at-end zone with another item last at the root: the dragged item goes after it. */
  lemma EndOtherLast(dom: seq<Item>, sid: string, c: seq<Item>)
    requires dom != [] && sid != Last(dom).id && CanApply(dom, sid, Last(dom).id, ReorderAfter)
    requires c == Relocated(dom, sid, Last(dom).id, ReorderAfter, "")
    ensures c != [] && Last(c).id == sid
  {
    var j := |dom| - 1;
    var init, l := dom[..j], dom[j];
    var x := MovedSubtree(dom, sid, l.id, ReorderAfter, "");
    ReorderRelocates(dom, sid, l.id, ReorderAfter, c, x);
    FindFacts(dom, sid);
    assert x.id == sid;
    assert dom == init + [l];
    assert c == InsertBeside(Remove(init + [l], sid), l.id, x, true);
    InsertAfterLastEnds(init, l, sid, x);
  }

  /** Cleaning up containers keeps the last item's id. */
  lemma {:induction false} PruneLast(cs: seq<Item>)
    requires cs != []
    ensures Prune(cs) != [] && Last(Prune(cs)).id == Last(cs).id
    decreases cs
  {
    if |cs| > 1 {
      PruneLast(cs[1..]);
    }
  }

  /**
   * Dropping on the zone below the tree, with items rendered, is a reorder after the
   * last root item that may always be applied, and the dragged item ends up as the
   * last root item.
   */
  lemma DropAtEndOutcome(dom: seq<Item>, sid: string)
    requires Valid(dom) && Find(dom, sid).Some?
    ensures dom != [] && CanApply(dom, sid, Last(dom).id, ReorderAfter)
    ensures Parent(ApplyMove(dom, sid, Last(dom).id, ReorderAfter, ""), sid) == None
    ensures ApplyMove(dom, sid, Last(dom).id, ReorderAfter, "") != []
    ensures Last(ApplyMove(dom, sid, Last(dom).id, ReorderAfter, "")).id == sid
  {
    FindFacts(dom, sid);
    var j := |dom| - 1;
    var l := dom[j];
    TopLevelFound(dom, j);
    FindFacts(dom, l.id);
    if sid != l.id {
      TopLevelNotBelow(dom, j, sid);
    }
    assert CanApply(dom, sid, l.id, ReorderAfter);
    TopLevelParent(dom, j, None);
    ReorderOutcome(dom, sid, l.id, ReorderAfter);
    var c := Relocated(dom, sid, l.id, ReorderAfter, "");
    if sid == l.id {
      EndSelfLast(dom, sid, c);
    } else {
      EndOtherLast(dom, sid, c);
    }
    PruneLast(c);
  }
}
