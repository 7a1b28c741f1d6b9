/**
 * The client half of the reorder engine: the `FilamentTree` class of
 * resources/js/filament-tree.js. It decides which drops are allowed, turns an
 * allowed drop into a move record, applies the move to the rendered tree at once
 * and, depending on the save mode, queues the record or sends it to the server.
 *
 * The rendered tree is the value `dom` of the TreeDom module. The hitbox
 * library's choice of operation is an input (`Option<Operation>`, `None` when it
 * reports no instruction). Calls into Livewire are appends to `sent` (one entry per
 * `reorderTree` call) and a count of `$refresh` calls.
 */
module DragEngine {
  import opened PhpValues
  import opened TreeDom
  import MoveSemantics

  /**
   * The record sent to `reorderTree`; JSON strings, numbers and null arrive as `Str`,
   * `Int` and `Null`. The client always sends `nodeId`.
   */
  type ClientMove = MoveSemantics.MoveData

  /** An entry of the constructor's `options` object: left out, `null`, or a value. */
  datatype OptionValue<T> = Unset | SetToNull | SetTo(value: T)

  // ---------------------------------------------------------------------------
  // Constructor defaults

  /** `options.maxDepth ?? 10`, as written: `null` falls back to 10 like a missing entry. */
  function MaxDepthAsWritten(o: OptionValue<int>): (r: Option<int>)
    ensures r.Some?
  {
    match o
    case SetTo(v) => Some(v)
    case _ => Some(10)
  }

  /** The documented reading: default 10, and `null` for unlimited (`None`). */
  function MaxDepthCorrected(o: OptionValue<int>): (r: Option<int>)
    ensures r.None? <==> o == SetToNull
    ensures o != SetToNull ==> r == MaxDepthAsWritten(o)
  {
    match o
    case Unset => Some(10)
    case SetToNull => None
    case SetTo(v) => Some(v)
  }

  /** An explicit `null` never switches the depth limit off as written, although the drop rule checks for it. */
  lemma NullMaxDepthIsTen()
    ensures MaxDepthAsWritten(SetToNull) == Some(10)
    ensures MaxDepthCorrected(SetToNull) == None
  {
  }

  /** `options.autoSave ?? true`. */
  function AutoSaveOption(o: OptionValue<bool>): (r: bool)
    ensures r <==> o != SetTo(false)
  {
    match o
    case SetTo(v) => v
    case _ => true
  }

  // ---------------------------------------------------------------------------
  // `getData`: which operations a drop target offers

  /** The availability `getData` attaches for each operation; `true` stands for 'blocked'. */
  datatype Availability = Availability(reorderBefore: bool, reorderAfter: bool, combine: bool)

  /**
   * `getData` of the drop target `target` while `source` is dragged (`None` when the
   * drag carries no element). `target.depth` is `parseInt(dataset.depth) || 0`.
   * Nothing is blocked without a dragged element; both reorders are blocked
   * exactly when the target lies in the dragged subtree, and then so is a
   * combine, which without a depth limit is blocked in no other case.
   */
  function Blocking(source: Option<Item>, target: Item, maxDepth: Option<int>): (r: Availability)
    ensures source.None? ==> !r.reorderBefore && !r.reorderAfter && !r.combine
    ensures source.Some? ==> (r.reorderBefore <==> target.id in IdsOfItem(source.value))
    ensures r.reorderAfter == r.reorderBefore
    ensures r.reorderBefore ==> r.combine
    ensures maxDepth.None? ==> r.combine == r.reorderBefore
  {
    match source
    case None => Availability(false, false, false)
    case Some(s) =>
      var droppingOnSelf := s.id == target.id;
      var isDescendant := IsDescendantOf(target, s);
      var exceedsDepth := maxDepth.Some? && target.depth + 1 + SubtreeDepth(s) >= maxDepth.value;
      Availability(droppingOnSelf || isDescendant, droppingOnSelf || isDescendant,
                   droppingOnSelf || isDescendant || exceedsDepth)
  }

  function IsBlocked(a: Availability, op: Operation): bool
  {
    match op
    case Combine => a.combine
    case ReorderBefore => a.reorderBefore
    case ReorderAfter => a.reorderAfter
  }

  /** Without a dragged element nothing is blocked. */
  lemma NoSourceBlocksNothing(target: Item, maxDepth: Option<int>, op: Operation)
    ensures !IsBlocked(Blocking(None, target, maxDepth), op)
  {
  }

  /**
   * A reorder is blocked exactly when the target lies in the dragged subtree (the
   * dragged item itself or one of its descendants); the depth limit plays no part.
   */
  lemma ReorderBlockedIff(s: Item, target: Item, maxDepth: Option<int>)
    ensures IsBlocked(Blocking(Some(s), target, maxDepth), ReorderBefore) <==> target.id in IdsOfItem(s)
    ensures IsBlocked(Blocking(Some(s), target, maxDepth), ReorderAfter) <==> target.id in IdsOfItem(s)
    ensures Blocking(Some(s), target, maxDepth).reorderBefore == Blocking(Some(s), target, None).reorderBefore
    ensures Blocking(Some(s), target, maxDepth).reorderAfter == Blocking(Some(s), target, None).reorderAfter
  {
  }

  /**
   * A combine is blocked exactly when the target lies in the dragged subtree, or a
   * depth limit is set and the dragged subtree, re-stamped under the target, would
   * hold an item whose depth reaches it.
   */
  lemma CombineBlockedIff(s: Item, target: Item, maxDepth: Option<int>)
    requires DepthsAt(s, s.depth)
    ensures IsBlocked(Blocking(Some(s), target, maxDepth), Combine) <==>
      target.id in IdsOfItem(s) ||
      (maxDepth.Some? && !DepthsBelow(Restamped(s, target.depth + 1, target.id), maxDepth.value))
  {
    var x := Restamped(s, target.depth + 1, target.id);
    WithDepthFacts(s, target.depth + 1, None);
    assert DepthsAt(x, target.depth + 1) && SubtreeDepth(x) == SubtreeDepth(s);
    if maxDepth.Some? {
      ShallowEnough(x, target.depth + 1, maxDepth.value);
    }
  }

  // ---------------------------------------------------------------------------
  // `onDrop` of an item: whether it acts, and the record it builds

  /**
   * The drop reaches the handler (`canDrop`: the target is not the dragged element),
   * the hitbox reported an instruction, and that instruction is not blocked.
   */
  predicate Accepted(dom: seq<Item>, sid: string, tid: string, instruction: Option<Operation>, maxDepth: Option<int>)
    requires Find(dom, sid).Some? && Find(dom, tid).Some?
  {
    sid != tid && instruction.Some? &&
    !IsBlocked(Blocking(Some(Find(dom, sid).value), Find(dom, tid).value, maxDepth), instruction.value)
  }

  /** An accepted drop is one `applyMoveToDOM` can carry out. */
  lemma AcceptedCanApply(dom: seq<Item>, sid: string, tid: string, instruction: Option<Operation>, maxDepth: Option<int>)
    requires Valid(dom) && Find(dom, sid).Some? && Find(dom, tid).Some?
    requires Accepted(dom, sid, tid, instruction, maxDepth)
    ensures CanApply(dom, sid, tid, instruction.value)
  {
    FindFacts(dom, sid);
    FindFacts(dom, tid);
    ReorderBlockedIff(Find(dom, sid).value, Find(dom, tid).value, maxDepth);
  }

  /**
   * The `moveData` `onDrop` builds for an unblocked instruction: it names the
   * dragged item; a combine asks for the target as parent, position `inside` and
   * no reference; a reorder names the target as reference and the target's own
   * container (or the root marker) as parent.
   */
  function DropMove(dom: seq<Item>, sid: string, tid: string, op: Operation): (r: ClientMove)
    requires Find(dom, tid).Some?
    ensures r.nodeId == Some(Str(sid))
    ensures r.position == Str("inside") <==> op == Combine
    ensures r.position == Str("before") <==> op == ReorderBefore
    ensures r.position == Str("after") <==> op == ReorderAfter
    ensures r.referenceId == Null <==> op == Combine
    ensures op == Combine ==> r.newParentId == Str(tid)
    ensures op != Combine ==> r.referenceId == Str(tid) && r.newParentId == Str(ParentAttrOrRoot(Find(dom, tid).value))
  {
    match op
    case Combine => MoveSemantics.MoveData(Some(Str(sid)), Str(tid), Str("inside"), Null)
    case ReorderBefore => MoveSemantics.MoveData(Some(Str(sid)), Str(ParentAttrOrRoot(Find(dom, tid).value)), Str("before"), Str(tid))
    case ReorderAfter => MoveSemantics.MoveData(Some(Str(sid)), Str(ParentAttrOrRoot(Find(dom, tid).value)), Str("after"), Str(tid))
  }

  /** The tree after an accepted drop has been applied. */
  function Dropped(dom: seq<Item>, sid: string, tid: string, op: Operation): seq<Item>
    requires CanApply(dom, sid, tid, op)
  {
    ApplyMove(dom, sid, tid, op, tid)
  }

  /**
   * The record an accepted drop sends describes what the drop did to the tree: it
   * names the dragged item; for a combine, the target as the new parent, which is
   * now the item's container; for a reorder, the target as the neighbour the item
   * now sits beside, on the side the position names, and as new parent the id of
   * the item's new container (or the target's root marker at the top level).
   */
  lemma DropMoveDescribesDrop(dom: seq<Item>, sid: string, tid: string, op: Operation, maxDepth: Option<int>)
    requires Valid(dom) && Find(dom, sid).Some? && Find(dom, tid).Some?
    requires Accepted(dom, sid, tid, Some(op), maxDepth)
    ensures CanApply(dom, sid, tid, op)
    ensures DropMove(dom, sid, tid, op).nodeId == Some(Str(sid))
    ensures op == Combine ==>
      DropMove(dom, sid, tid, op).newParentId == Str(tid) && Parent(Dropped(dom, sid, tid, op), sid) == Some(tid) &&
      DropMove(dom, sid, tid, op).position == Str("inside") && DropMove(dom, sid, tid, op).referenceId == Null
    ensures op != Combine ==> DropMove(dom, sid, tid, op).referenceId == Str(tid)
    ensures op == ReorderBefore <==> DropMove(dom, sid, tid, op).position == Str("before")
    ensures op == ReorderAfter <==> DropMove(dom, sid, tid, op).position == Str("after")
    ensures op == ReorderBefore ==> Adjacent(Dropped(dom, sid, tid, op), sid, tid)
    ensures op == ReorderAfter ==> Adjacent(Dropped(dom, sid, tid, op), tid, sid)
    ensures op != Combine && Parent(Dropped(dom, sid, tid, op), sid).Some? ==>
      DropMove(dom, sid, tid, op).newParentId == Str(Parent(Dropped(dom, sid, tid, op), sid).value)
    ensures op != Combine && Parent(Dropped(dom, sid, tid, op), sid).None? ==>
      DropMove(dom, sid, tid, op).newParentId == Str(ParentAttrOrRoot(Find(dom, tid).value))
  {
    AcceptedCanApply(dom, sid, tid, Some(op), maxDepth);
    if op == Combine {
      CombineOutcome(dom, sid, tid);
    } else {
      ReorderOutcome(dom, sid, tid, op);
      FindFacts(dom, tid);
      LinkedParent(dom, tid, None);
    }
  }

  /**
   * After an accepted combine with a depth limit, every item of the dragged subtree,
   * in its new place, has a depth below the limit.
   */
  lemma AcceptedCombineRespectsMaxDepth(dom: seq<Item>, sid: string, tid: string, limit: int)
    requires Valid(dom) && Find(dom, sid).Some? && Find(dom, tid).Some?
    requires Accepted(dom, sid, tid, Some(Combine), Some(limit))
    ensures CanApply(dom, sid, tid, Combine)
    ensures DepthsBelow(MovedSubtree(dom, sid, tid, Combine, tid), limit)
    ensures Within(FlatItem(MovedSubtree(dom, sid, tid, Combine, tid)), Flat(Dropped(dom, sid, tid, Combine)))
  {
    AcceptedCanApply(dom, sid, tid, Some(Combine), Some(limit));
    FindFacts(dom, sid);
    CombineBlockedIff(Find(dom, sid).value, Find(dom, tid).value, Some(limit));
    ApplyMoveValid(dom, sid, tid, Combine, tid);
  }

  // ---------------------------------------------------------------------------
  // The drop-at-end zone

  /** `lastRootItem?.dataset.itemId || '-1'`: the last root item's id when it has one, else the root marker. */
  function EndReference(dom: seq<Item>): (r: string)
    ensures r != ""
    ensures r == "-1" || (dom != [] && r == Last(dom).id)
    ensures dom != [] && Last(dom).id != "" ==> r == Last(dom).id
  {
    if dom == [] || Last(dom).id == "" then "-1" else Last(dom).id
  }

  /**
   * The `moveData` the drop-at-end zone builds: the record of a reorder after the
   * last root item, except that the parent is the integer root marker.
   */
  function EndMove(dom: seq<Item>, sid: string): (r: ClientMove)
    ensures r.nodeId == Some(Str(sid)) && r.newParentId == Int(-1)
    ensures dom != [] && Last(dom).id != "" && Find(dom, Last(dom).id).Some? ==>
      r == DropMove(dom, sid, Last(dom).id, ReorderAfter).(newParentId := Int(-1))
  {
    MoveSemantics.MoveData(Some(Str(sid)), Int(-1), Str("after"), Str(EndReference(dom)))
  }

  /** The tree after a drop on the zone: a reorder after the last root item, when there is one. */
  function DroppedAtEnd(dom: seq<Item>, sid: string): seq<Item>
    requires Valid(dom) && Find(dom, sid).Some?
  {
    DropAtEndOutcome(dom, sid);
    ApplyMove(dom, sid, Last(dom).id, ReorderAfter, "")
  }

  /**
   * The zone's record names the item that was last at the root level as reference,
   * and the tree shows the dragged item after it, as the new last root item.
   */
  lemma EndMoveDescribesDrop(dom: seq<Item>, sid: string)
    requires Valid(dom) && Find(dom, sid).Some?
    ensures EndMove(dom, sid).referenceId == Str(Last(dom).id)
    ensures EndMove(dom, sid).newParentId == Int(-1) && EndMove(dom, sid).position == Str("after")
    ensures DroppedAtEnd(dom, sid) != [] && Last(DroppedAtEnd(dom, sid)).id == sid
    ensures Parent(DroppedAtEnd(dom, sid), sid) == None
    ensures sid != Last(dom).id ==> Adjacent(DroppedAtEnd(dom, sid), Last(dom).id, sid)
  {
    DropAtEndOutcome(dom, sid);
    FindFacts(dom, Last(dom).id);
    ReorderOutcome(dom, sid, Last(dom).id, ReorderAfter);
  }

  /** With nothing rendered the zone names the root marker. */
  lemma EndReferenceEmpty()
    ensures EndReference([]) == "-1"
  {
  }

  // ---------------------------------------------------------------------------
  // The component

  class FilamentTree {
    /** `options.maxDepth`; `None` is no limit. */
    const maxDepth: Option<int>
    /** `options.livewireComponent` is set. */
    const livewire: bool
    /** `options.autoSave`. */
    const autoSave: bool

    var pendingMoves: seq<ClientMove>
    var hasUnsavedChanges: bool
    var isDragging: bool
    var needsReinit: bool
    /** The rendered tree. */
    var dom: seq<Item>
    /** The batches passed to `reorderTree`, oldest first. */
    var sent: seq<seq<ClientMove>>
    /** How many times `$refresh` was called. */
    var refreshes: nat

    /**
     * The rendered tree is well formed, the unsaved-changes flag says whether moves
     * are queued, and autoSave mode never queues.
     */
    predicate Valid()
      reads this
    {
      TreeDom.Valid(dom) && (hasUnsavedChanges <==> pendingMoves != []) && (autoSave ==> pendingMoves == [])
    }

    constructor (maxDepthOption: OptionValue<int>, livewireComponent: bool, autoSaveOption: OptionValue<bool>, rendered: seq<Item>)
      requires TreeDom.Valid(rendered)
      ensures maxDepth == MaxDepthCorrected(maxDepthOption) && livewire == livewireComponent
      ensures autoSave == AutoSaveOption(autoSaveOption)
      ensures pendingMoves == [] && !hasUnsavedChanges && !isDragging && !needsReinit
      ensures dom == rendered && sent == [] && refreshes == 0
      ensures Valid()
    {
      maxDepth := MaxDepthCorrected(maxDepthOption);
      livewire := livewireComponent;
      autoSave := AutoSaveOption(autoSaveOption);
      pendingMoves := [];
      hasUnsavedChanges := false;
      isDragging := false;
      needsReinit := false;
      dom := rendered;
      sent := [];
      refreshes := 0;
    }

    /** `getSubtreeDepth`: the recursion with its `forEach`/`Math.max` fold over the direct children. */
    method GetSubtreeDepth(n: Item) returns (r: nat)
      ensures r == SubtreeDepth(n)
      ensures Reaches(n, r) && forall k: nat :: Reaches(n, k) ==> k <= r
      decreases n
    {
      SubtreeDepthIsHeight(n);
      match n.children {
        case NoContainer =>
          return 0;
        case Container(items) =>
          if items == [] {
            return 0;
          }
          var maxChildDepth: nat := 0;
          var i := 0;
          while i < |items|
            invariant 0 <= i <= |items|
            invariant maxChildDepth == MaxSubtreeDepth(items[..i])
          {
            assert items[i] in items;
            var childSubtreeDepth := GetSubtreeDepth(items[i]);
            MaxSubtreeDepthAppend(items[..i], items[i]);
            assert items[..i + 1] == items[..i] + [items[i]];
            maxChildDepth := Max(maxChildDepth, childSubtreeDepth);
            i := i + 1;
          }
          assert items[..i] == items;
          return 1 + maxChildDepth;
      }
    }

    /** `updateItemDepth(item, newDepth)`: the item takes the depth, each child one more, recursively. */
    method UpdateItemDepth(n: Item, newDepth: int) returns (r: Item)
      ensures r == WithDepth(n, newDepth)
      ensures DepthsAt(r, newDepth) && IdsOfItem(r) == IdsOfItem(n) && r.parentAttr == n.parentAttr
      decreases n
    {
      WithDepthFacts(n, newDepth, None);
      match n.children {
        case NoContainer =>
          r := n.(depth := newDepth);
        case Container(items) =>
          var children: seq<Item> := [];
          var i := 0;
          while i < |items|
            invariant 0 <= i <= |items|
            invariant children == WithDepthAll(items[..i], newDepth + 1)
          {
            assert items[i] in items;
            var child := UpdateItemDepth(items[i], newDepth + 1);
            WithDepthAllAppend(items[..i], items[i], newDepth + 1);
            assert items[..i + 1] == items[..i] + [items[i]];
            children := children + [child];
            i := i + 1;
          }
          assert items[..i] == items;
          r := n.(depth := newDepth, children := Container(children));
      }
    }

    /** `cleanupEmptyContainers` below one item: its container goes if empty, then the same inside. */
    method CleanupItem(n: Item) returns (r: Item)
      ensures r == PruneItem(n)
      ensures NoEmptyItem(r) && IdsOfItem(r) == IdsOfItem(n) && FlatItem(r) == FlatItem(n)
      decreases n
    {
      PruneItemCleans(n);
      PruneItemKeeps(n, 0, None);
      match n.children {
        case NoContainer =>
          r := n;
        case Container(items) =>
          if items == [] {
            r := n.(children := NoContainer);
          } else {
            var kept := CleanupContainers(items);
            r := n.(children := Container(kept));
          }
      }
    }

    /** `cleanupEmptyContainers`: every empty children container, in document order, is removed. */
    method CleanupContainers(cs: seq<Item>) returns (r: seq<Item>)
      ensures r == Prune(cs)
      ensures NoEmpty(r) && IdsOf(r) == IdsOf(cs) && Flat(r) == Flat(cs)
      decreases cs
    {
      PruneCleans(cs);
      PruneKeeps(cs, 0, None);
      r := [];
      var i := 0;
      while i < |cs|
        invariant 0 <= i <= |cs|
        invariant r == Prune(cs[..i])
      {
        assert cs[i] in cs;
        var item := CleanupItem(cs[i]);
        PruneAppend(cs[..i], [cs[i]]);
        assert cs[..i + 1] == cs[..i] + [cs[i]];
        r := r + [item];
        i := i + 1;
      }
      assert cs[..i] == cs;
    }

    /**
     * `applyMoveToDOM(source, target, operation, moveData)`: move the dragged element
     * (appended to the target's children container, created if missing, or inserted
     * before or after the target), re-stamp its depths and `parentId`, then remove
     * empty containers. `newParentAttr` is `moveData.newParentId`, which only a
     * combine reads; for it the caller passes the target's id.
     */
    method ApplyMoveToDOM(sid: string, tid: string, op: Operation, newParentAttr: string)
      requires CanApply(dom, sid, tid, op) && (op == Combine ==> newParentAttr == tid)
      modifies this`dom
      ensures dom == ApplyMove(old(dom), sid, tid, op, newParentAttr)
      ensures TreeDom.Valid(dom) && NoEmpty(dom) && IdsOf(dom) == IdsOf(old(dom))
    {
      var source, target := Find(dom, sid).value, Find(dom, tid).value;
      var moved;
      if op == Combine {
        moved := UpdateItemDepth(source, target.depth + 1);
        moved := moved.(parentAttr := newParentAttr);
      } else {
        moved := UpdateItemDepth(source, target.depth);
        moved := moved.(parentAttr := ParentAttrOrRoot(target));
      }
      assert moved == MovedSubtree(dom, sid, tid, op, newParentAttr);
      var relocated;
      if op == Combine {
        var rest := Remove(dom, sid);
        FindFacts(dom, sid);
        FindFacts(dom, tid);
        RemoveTakesSubtree(dom, sid);
        FindFacts(rest, tid);
        relocated := Replace(rest, tid, AppendChild(Find(rest, tid).value, moved));
      } else if sid == tid {
        relocated := Replace(dom, sid, moved);
      } else {
        relocated := InsertBeside(Remove(dom, sid), tid, moved, op == ReorderAfter);
      }
      assert relocated == Relocated(dom, sid, tid, op, newParentAttr);
      ApplyMoveValid(dom, sid, tid, op, newParentAttr);
      dom := CleanupContainers(relocated);
    }

    /**
     * `onDrop` of the item `tid` while `sid` is dragged. An unaccepted drop changes
     * nothing. An accepted one, in manual mode, queues its record, raises the flag
     * and updates the tree; in autoSave mode with a Livewire component it updates the
     * tree and sends the record alone; in autoSave mode without one it does nothing.
     */
    method OnDrop(sid: string, tid: string, instruction: Option<Operation>)
      requires Valid() && Find(dom, sid).Some? && Find(dom, tid).Some?
      modifies this`dom, this`pendingMoves, this`hasUnsavedChanges, this`needsReinit, this`sent
      ensures Valid()
      ensures !Accepted(old(dom), sid, tid, instruction, maxDepth) || (autoSave && !livewire) ==>
        dom == old(dom) && pendingMoves == old(pendingMoves) && hasUnsavedChanges == old(hasUnsavedChanges) &&
        needsReinit == old(needsReinit) && sent == old(sent)
      ensures Accepted(old(dom), sid, tid, instruction, maxDepth) && !autoSave ==>
        CanApply(old(dom), sid, tid, instruction.value) &&
        dom == Dropped(old(dom), sid, tid, instruction.value) &&
        pendingMoves == old(pendingMoves) + [DropMove(old(dom), sid, tid, instruction.value)] &&
        hasUnsavedChanges && needsReinit && sent == old(sent)
      ensures Accepted(old(dom), sid, tid, instruction, maxDepth) && autoSave && livewire ==>
        CanApply(old(dom), sid, tid, instruction.value) &&
        dom == Dropped(old(dom), sid, tid, instruction.value) &&
        sent == old(sent) + [[DropMove(old(dom), sid, tid, instruction.value)]] &&
        needsReinit && pendingMoves == old(pendingMoves) && hasUnsavedChanges == old(hasUnsavedChanges)
    {
      var source := Find(dom, sid).value;
      var target := Find(dom, tid).value;
      if sid == tid || instruction.None? || IsBlocked(Blocking(Some(source), target, maxDepth), instruction.value) {
        return;
      }
      var op := instruction.value;
      AcceptedCanApply(dom, sid, tid, instruction, maxDepth);
      var moveData := DropMove(dom, sid, tid, op);
      if !autoSave {
        pendingMoves := pendingMoves + [moveData];
        hasUnsavedChanges := true;
        ApplyMoveToDOM(sid, tid, op, tid);
        needsReinit := true;
      } else if livewire {
        ApplyMoveToDOM(sid, tid, op, tid);
        needsReinit := true;
        sent := sent + [[moveData]];
      }
    }

    /**
     * `onDrop` of the drop-at-end zone while `sid` is dragged: like an accepted drop,
     * with the zone's record and a reorder after the last root item.
     */
    method OnDropAtEnd(sid: string)
      requires Valid() && Find(dom, sid).Some?
      modifies this`dom, this`pendingMoves, this`hasUnsavedChanges, this`needsReinit, this`sent
      ensures Valid()
      ensures !autoSave ==>
        dom == DroppedAtEnd(old(dom), sid) && pendingMoves == old(pendingMoves) + [EndMove(old(dom), sid)] &&
        hasUnsavedChanges && needsReinit && sent == old(sent)
      ensures autoSave && livewire ==>
        dom == DroppedAtEnd(old(dom), sid) && sent == old(sent) + [[EndMove(old(dom), sid)]] &&
        needsReinit && pendingMoves == old(pendingMoves) && hasUnsavedChanges == old(hasUnsavedChanges)
      ensures autoSave && !livewire ==>
        dom == old(dom) && pendingMoves == old(pendingMoves) && hasUnsavedChanges == old(hasUnsavedChanges) &&
        needsReinit == old(needsReinit) && sent == old(sent)
    {
      DropAtEndOutcome(dom, sid);
      var moveData := EndMove(dom, sid);
      var hasLastRoot := dom != [];
      var lastRootId := if hasLastRoot then Last(dom).id else "";
      if !autoSave {
        pendingMoves := pendingMoves + [moveData];
        hasUnsavedChanges := true;
        if hasLastRoot {
          ApplyMoveToDOM(sid, lastRootId, ReorderAfter, "");
        }
        needsReinit := true;
      } else if livewire {
        if hasLastRoot {
          ApplyMoveToDOM(sid, lastRootId, ReorderAfter, "");
        }
        needsReinit := true;
        sent := sent + [[moveData]];
      }
    }

    /**
     * `saveChanges`: in manual mode with moves queued and a Livewire component, send
     * the whole queue in order as one batch and clear it; otherwise do nothing.
     */
    method SaveChanges()
      requires Valid()
      modifies this`pendingMoves, this`hasUnsavedChanges, this`sent
      ensures Valid()
      ensures !autoSave && old(pendingMoves) != [] && livewire ==>
        sent == old(sent) + [old(pendingMoves)] && pendingMoves == [] && !hasUnsavedChanges
      ensures autoSave || old(pendingMoves) == [] || !livewire ==>
        sent == old(sent) && pendingMoves == old(pendingMoves) && hasUnsavedChanges == old(hasUnsavedChanges)
    {
      if autoSave || |pendingMoves| == 0 {
        return;
      }
      if livewire {
        sent := sent + [pendingMoves];
        pendingMoves := [];
        hasUnsavedChanges := false;
      }
    }

    /**
     * `cancelChanges`: in manual mode, drop the queue, clear the flag and, with a
     * Livewire component, ask for a refresh (which re-renders the tree from the
     * server); in autoSave mode do nothing.
     */
    method CancelChanges()
      requires Valid()
      modifies this`pendingMoves, this`hasUnsavedChanges, this`refreshes
      ensures Valid()
      ensures !autoSave ==>
        pendingMoves == [] && !hasUnsavedChanges && refreshes == old(refreshes) + (if livewire then 1 else 0)
      ensures autoSave ==>
        pendingMoves == old(pendingMoves) && hasUnsavedChanges == old(hasUnsavedChanges) && refreshes == old(refreshes)
    {
      if autoSave {
        return;
      }
      pendingMoves := [];
      hasUnsavedChanges := false;
      if livewire {
        refreshes := refreshes + 1;
      }
    }

    /** The monitor's `onDragStart`. */
    method DragStarted()
      modifies this`isDragging
      ensures isDragging
    {
      isDragging := true;
    }

    /** The monitor's `onDrop` (the delayed `reinit` it schedules is not modelled). */
    method DragEnded()
      modifies this`isDragging
      ensures !isDragging
    {
      isDragging := false;
    }
  }

  lemma {:induction false} MaxSubtreeDepthAppend(cs: seq<Item>, x: Item)
    ensures MaxSubtreeDepth(cs + [x]) == Max(MaxSubtreeDepth(cs), SubtreeDepth(x))
    decreases cs
  {
    if cs != [] {
      assert (cs + [x])[0] == cs[0] && (cs + [x])[1..] == cs[1..] + [x];
      MaxSubtreeDepthAppend(cs[1..], x);
    } else {
      assert [] + [x] == [x];
    }
  }
}
