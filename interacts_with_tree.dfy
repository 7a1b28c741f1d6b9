/**
 * The server half of the tree page: a component that holds the tree table, applies
 * a batch of client moves with the loops of `reorderTree`, `processSingleMove`,
 * `reorderSiblings` and `reorderSiblingsWithInsert`, builds the nested tree for
 * display and remembers which nodes are expanded. Every state-changing method is
 * proved against the pure semantics in MoveSemantics (corrected variant).
 */
module InteractsWithTree {
  import opened PhpValues
  import opened SiblingOrder
  import opened MoveSemantics

  /** A record as `buildNestedArray` sees it: its id and parent pointer. */
  datatype TreeRecord = TreeRecord(id: Value, parent: Value)

  /** A record with its `children` relation set. */
  datatype Nested = Nested(record: TreeRecord, children: seq<Nested>)

  /** Whether a record belongs to the level `parentId` (null: the top level). */
  predicate IsMatch(x: TreeRecord, parentId: Value, rootValue: Value)
  {
    if parentId == Null then LooseEq(x.parent, rootValue) else LooseEq(x.parent, parentId)
  }

  /**
   * The branch `buildNestedArray($nodes, $parentId)` builds after visiting the
   * records `part` of `all`; `fuel` bounds the nesting depth (children below it are
   * left empty).
   */
  function Branch(all: seq<TreeRecord>, part: seq<TreeRecord>, parentId: Value, rootValue: Value, fuel: nat): seq<Nested>
    decreases fuel, |part|
  {
    if part == [] then []
    else
      var x := part[|part| - 1];
      Branch(all, part[..|part| - 1], parentId, rootValue, fuel)
        + if IsMatch(x, parentId, rootValue) then
            [Nested(x, if fuel == 0 then [] else Branch(all, all, x.id, rootValue, fuel - 1))]
          else []
  }

  /**
   * A branch holds exactly the records of its level, each with the branch one
   * level down as its children.
   */
  lemma {:induction false} BranchLevel(all: seq<TreeRecord>, part: seq<TreeRecord>, parentId: Value, rootValue: Value, fuel: nat)
    ensures forall t :: t in Branch(all, part, parentId, rootValue, fuel) ==>
      t.record in part && IsMatch(t.record, parentId, rootValue)
      && t.children == (if fuel == 0 then [] else Branch(all, all, t.record.id, rootValue, fuel - 1))
    ensures forall x :: x in part && IsMatch(x, parentId, rootValue) ==>
      exists t :: t in Branch(all, part, parentId, rootValue, fuel) && t.record == x
    decreases |part|
  {
    if part != [] {
      var prefix := part[..|part| - 1];
      var x := part[|part| - 1];
      BranchLevel(all, prefix, parentId, rootValue, fuel);
      assert forall y :: y in prefix ==> y in part;
      assert part == prefix + [x];
      var b := Branch(all, part, parentId, rootValue, fuel);
      forall y | y in part && IsMatch(y, parentId, rootValue)
        ensures exists t :: t in b && t.record == y
      {
        if y != x {
          assert y in prefix;
          var t :| t in Branch(all, prefix, parentId, rootValue, fuel) && t.record == y;
          assert t in b;
        } else {
          assert b[|b| - 1].record == x;
        }
      }
    }
  }

  /** Every child in the nested tree belongs under its parent, at every depth. */
  predicate Linked(t: Nested, rootValue: Value)
  {
    forall c :: c in t.children ==> IsMatch(c.record, t.record.id, rootValue) && Linked(c, rootValue)
  }

  lemma {:induction false} BranchLinked(all: seq<TreeRecord>, parentId: Value, rootValue: Value, fuel: nat)
    ensures forall t :: t in Branch(all, all, parentId, rootValue, fuel) ==>
      IsMatch(t.record, parentId, rootValue) && Linked(t, rootValue)
    decreases fuel
  {
    BranchLevel(all, all, parentId, rootValue, fuel);
    forall t | t in Branch(all, all, parentId, rootValue, fuel)
      ensures Linked(t, rootValue)
    {
      if fuel > 0 {
        BranchLinked(all, t.record.id, rootValue, fuel - 1);
      }
    }
  }

  /**
   * The construction of `$newOrder`: the moved record (or `null`) is put next to the
   * reference record, or last when there is no usable reference.
   */
  method BuildNewOrder(siblings: seq<Value>, node: Value, position: string, referenceId: Value)
    returns (newOrder: seq<Option<Value>>)
    ensures newOrder == NewOrder(siblings, node, position, referenceId)
  {
    var movedNode := FirstWhere(siblings, node);
    var otherSiblings := Reject(siblings, node);
    if position == "inside" || !Truthy(referenceId) {
      newOrder := Wrap(otherSiblings) + [movedNode];
    } else {
      var referenceItem := FirstWhere(otherSiblings, referenceId);
      if referenceItem.None? {
        newOrder := Wrap(otherSiblings) + [movedNode];
      } else {
        newOrder := SpliceAround(otherSiblings, movedNode, position, referenceId);
      }
    }
  }

  /**
   * The `foreach ($otherSiblings ...)` loop of `reorderSiblingsWithInsert`: the
   * siblings in order, with the moved node put before or after the reference.
   */
  method SpliceAround(others: seq<Value>, moved: Option<Value>, position: string, ref: Value)
    returns (newOrder: seq<Option<Value>>)
    ensures newOrder == Spliced(others, moved, position, ref)
  {
    ghost var place := PlaceOf(position);
    newOrder := [];
    AppendNil(Spliced(others, moved, position, ref));
    var i := 0;
    while i < |others|
      invariant 0 <= i <= |others|
      invariant newOrder + SpliceFrom(others, i, moved, place, ref) == Spliced(others, moved, position, ref)
    {
      var sibling := others[i];
      ghost var done, rest := newOrder, SpliceFrom(others, i + 1, moved, place, ref);
      ghost var a := if position == "before" && sibling == ref then [moved] else [];
      ghost var c := if position == "after" && sibling == ref then [moved] else [];
      EmitParts(sibling, moved, position, ref, a, c);
      AppendNil(done);
      if position == "before" && sibling == ref {
        newOrder := newOrder + [moved];
      }
      assert newOrder == done + a;
      newOrder := newOrder + [Some(sibling)];
      if position == "after" && sibling == ref {
        newOrder := newOrder + [moved];
      }
      AppendNil(done + a + [Some(sibling)]);
      assert newOrder == done + a + [Some(sibling)] + c;
      Assoc(done, a, [Some(sibling)]);
      Assoc(done, a + [Some(sibling)], c);
      Assoc(done, Emit(sibling, moved, place, ref), rest);
      i := i + 1;
    }
    AppendNil(newOrder);
  }

  class TreeComponent {
    /** The records the tree query returns. */
    var rows: Rows
    /** The `save()` calls made, by key. */
    var saved: seq<Value>
    /** The browser events dispatched. */
    var events: seq<string>
    /** `$treeState`: the expanded flag of each record id the user toggled. */
    var treeState: map<string, bool>

    /** `getParentKeyDefaultValue()` of the tree's model. */
    const rootValue: Value
    /** Whether ids and parent ids are integer columns (text columns otherwise). */
    const intColumns: bool
    /** `isDefaultExpanded()` of the tree. */
    const defaultExpanded: bool

    predicate Valid()
      reads this
    {
      Typed(rows, intColumns)
    }

    function Cfg(): Config
    {
      Config(rootValue, intColumns)
    }

    function State(): Db
      reads this
    {
      Db(rows, saved)
    }

    constructor (rows0: Rows, rootValue: Value, intColumns: bool, defaultExpanded: bool)
      requires Typed(rows0, intColumns)
      ensures Valid()
      ensures rows == rows0 && saved == [] && events == [] && treeState == map[]
      ensures this.rootValue == rootValue && this.intColumns == intColumns
      ensures this.defaultExpanded == defaultExpanded
    {
      rows := rows0;
      saved := [];
      events := [];
      treeState := map[];
      this.rootValue := rootValue;
      this.intColumns := intColumns;
      this.defaultExpanded := defaultExpanded;
    }

    /**
     * `isRootValue`: with root value null, exactly the values PHP compares equal
     * to null; with an integer root value, that int, every integer-numeric string
     * denoting it (so -1 and "-1" alike), the boolean of its truthiness and, for 0,
     * null; in every case the root value itself.
     */
    function IsRootValue(v: Value): (r: bool)
      ensures rootValue == Null ==> (r <==> v == Null || v == Bool(false) || v == Int(0) || v == Str(""))
      ensures rootValue.Int? ==>
        (r <==> v == rootValue || (v.Str? && ParseDecimal(v.s) == Some(rootValue.i)) || v == Bool(rootValue.i != 0)
                || (v == Null && rootValue.i == 0))
      ensures rootValue.Int? && v == Str(IntToString(rootValue.i)) ==> r
      ensures v == rootValue ==> r
    {
      if rootValue.Int? then
        ParseRendered(rootValue.i);
        MoveSemantics.IsRootValue(v, Cfg())
      else MoveSemantics.IsRootValue(v, Cfg())
    }

    /**
     * `buildNestedArray($nodes, $parentId)`: the records of one level in input
     * order, each with its children built the same way.
     */
    method BuildNestedArray(nodes: seq<TreeRecord>, parentId: Value, fuel: nat) returns (branch: seq<Nested>)
      ensures branch == Branch(nodes, nodes, parentId, rootValue, fuel)
      decreases fuel
    {
      branch := [];
      var i := 0;
      while i < |nodes|
        invariant 0 <= i <= |nodes|
        invariant branch == Branch(nodes, nodes[..i], parentId, rootValue, fuel)
      {
        var node := nodes[i];
        var isMatch := if parentId == Null then IsRootValue(node.parent) else LooseEq(node.parent, parentId);
        if isMatch {
          var children := [];
          if fuel > 0 {
            children := BuildNestedArray(nodes, node.id, fuel - 1);
          }
          branch := branch + [Nested(node, children)];
        }
        assert nodes[..i + 1][..i] == nodes[..i];
        i := i + 1;
      }
      assert nodes[..|nodes|] == nodes;
    }

    /** `reorderSiblings($parentId)` with its `?int` parameter bound to `parentId`. */
    method ReorderSiblings(parentId: Value)
      requires Valid()
      modifies this
      ensures Valid()
      ensures State() == RenumberGroup(old(State()), OldGroup(parentId, Cfg(), Corrected), Cfg())
      ensures events == old(events) && treeState == old(treeState)
    {
      TypedIsHomogeneous(rows, intColumns);
      var g := OldGroup(parentId, Cfg(), Corrected);
      var siblings := Siblings(rows, g, rootValue);
      SiblingsInRows(rows, g, rootValue);
      Renumber(siblings);
    }

    /** Setting the parent key column of the record `key` and saving it. */
    method SaveParent(key: Value, parent: Value)
      requires Valid() && key in rows
      modifies this
      ensures Valid()
      ensures rows == old(rows)[key := old(rows)[key].(parent := parent)] && saved == old(saved) + [key]
      ensures events == old(events) && treeState == old(treeState)
    {
      rows := rows[key := rows[key].(parent := parent)];
      saved := saved + [key];
    }

    /** `$item->order = $order; $item->save()` on the record `key`. */
    method SaveOrder(key: Value, order: int)
      requires key in rows
      modifies this
      ensures rows == old(rows)[key := old(rows)[key].(order := order)] && saved == old(saved) + [key]
      ensures events == old(events) && treeState == old(treeState)
    {
      rows := rows[key := rows[key].(order := order)];
      saved := saved + [key];
    }

    /** The loop of `reorderSiblings`: each record of `keys` gets its position plus one as `order`. */
    method Renumber(keys: seq<Value>)
      requires AllIn(rows, keys)
      modifies this
      ensures rows == Renumbered(old(rows), keys) && saved == old(saved) + Writes(old(rows), keys)
      ensures events == old(events) && treeState == old(treeState)
    {
      ghost var rows0, saved0 := rows, saved;
      var order := 1;
      var i := 0;
      while i < |keys|
        invariant 0 <= i <= |keys| && order == i + 1
        invariant rows == Renumbered(rows0, keys[..i])
        invariant saved == saved0 + Writes(rows0, keys[..i])
        invariant events == old(events) && treeState == old(treeState)
      {
        var key := keys[i];
        RenumberLoopStep(rows0, keys, i, rows);
        if rows[key].order != order {
          SaveOrder(key, order);
        }
        order := order + 1;
        i := i + 1;
      }
      assert keys[..|keys|] == keys;
    }

    /**
     * `reorderSiblingsWithInsert($parentId, $nodeId, $position, $referenceId)` with
     * its parameters bound: build `$newOrder`, then renumber it from 1.
     */
    method ReorderSiblingsWithInsert(parentId: Value, node: Value, position: string, referenceId: Value)
      returns (o: Outcome)
      requires Valid()
      modifies this
      ensures Valid()
      ensures Effect(State(), o) == InsertStep(old(State()), parentId, node, position, referenceId, Cfg(), Corrected)
      ensures events == old(events) && treeState == old(treeState)
    {
      TypedIsHomogeneous(rows, intColumns);
      var g := NewGroup(parentId, Cfg(), Corrected);
      var siblings := Siblings(rows, g, rootValue);
      SiblingsInRows(rows, g, rootValue);
      var newOrder := BuildNewOrder(siblings, node, position, referenceId);
      NewOrderFromSiblings(siblings, node, position, referenceId);
      ghost var k := NullIndex(newOrder);
      ghost var keys := Present(newOrder[..k]);
      FirstNull(State(), newOrder, k, keys);
      o := RenumberItemsLoop(newOrder, k, keys);
    }

    /**
     * The loop over `$newOrder`: each entry gets its position plus one as `order`;
     * the first `null` entry, at `k` (the moved node was not among the siblings),
     * fails. `keys` are the records before it.
     */
    method RenumberItemsLoop(items: seq<Option<Value>>, ghost k: nat, ghost keys: seq<Value>) returns (o: Outcome)
      requires k <= |items| && |keys| == k && AllIn(rows, keys)
      requires forall j :: 0 <= j < k ==> items[j] == Some(keys[j])
      requires k < |items| ==> items[k] == None
      modifies this
      ensures rows == Renumbered(old(rows), keys) && saved == old(saved) + Writes(old(rows), keys)
      ensures o == if k < |items| then NullAccess else Completed
      ensures events == old(events) && treeState == old(treeState)
    {
      ghost var rows0, saved0 := rows, saved;
      var order := 1;
      var i := 0;
      while i < |items|
        invariant 0 <= i <= k && order == i + 1
        invariant rows == Renumbered(rows0, keys[..i])
        invariant saved == saved0 + Writes(rows0, keys[..i])
        invariant events == old(events) && treeState == old(treeState)
      {
        var item := items[i];
        if item.None? {
          // reading or writing `order` on the missing record fails
          assert i == k && keys[..i] == keys;
          return NullAccess;
        }
        var key := item.value;
        assert i < k && key == keys[i];
        RenumberLoopStep(rows0, keys, i, rows);
        if rows[key].order != order {
          SaveOrder(key, order);
        }
        order := order + 1;
        i := i + 1;
      }
      assert keys[..i] == keys;
      return Completed;
    }

    /** `processSingleMove($data)`. */
    method ProcessSingleMove(data: MoveData) returns (o: Outcome)
      requires Valid()
      modifies this
      ensures Valid()
      ensures Effect(State(), o) == Step(old(State()), data, Cfg(), Corrected)
      ensures events == old(events) && treeState == old(treeState)
    {
      TypedIsHomogeneous(rows, intColumns);
      if data.nodeId.None? {
        // reading the missing `nodeId` key raises before anything is queried or saved
        return UndefinedKey;
      }
      var nodeId := data.nodeId.value;
      var newParentId := if data.newParentId == Null then Int(-1) else data.newParentId;
      var position := if data.position == Null then Str("after") else data.position;
      var referenceId := data.referenceId;
      var node := Find(rows, nodeId);
      if node.None? {
        return Completed;
      }
      var key := node.value;
      var oldParentId := rows[key].parent;
      ghost var db1 := Reparented(State(), key, data, Cfg(), Corrected);
      SaveParent(key, StoredParent(newParentId, Cfg(), Corrected));
      assert State() == db1;
      if oldParentId != newParentId {
        var p := NullableIdParam(oldParentId, Cfg(), Corrected);
        if p.None? {
          return TypeError;
        }
        ReorderSiblings(p.value);
      }
      assert State() == LeftOldGroup(db1, oldParentId, data, Cfg(), Corrected).db;
      var parentArg := IdParam(newParentId, Cfg(), Corrected);
      var nodeArg := IdParam(nodeId, Cfg(), Corrected);
      var positionArg := ToStringParam(position);
      var referenceArg := NullableIdParam(referenceId, Cfg(), Corrected);
      if parentArg.None? || nodeArg.None? || positionArg.None? || referenceArg.None? {
        return TypeError;
      }
      o := ReorderSiblingsWithInsert(parentArg.value, nodeArg.value, positionArg.value, referenceArg.value);
    }

    /**
     * `reorderTree($moves)`: nothing for an empty batch; otherwise the moves in
     * order, and `tree-reordered` once all of them completed.
     */
    method ReorderTree(moves: seq<MoveData>) returns (o: Outcome)
      requires Valid()
      modifies this
      ensures Valid()
      ensures moves == [] ==> State() == old(State()) && events == old(events) && o == Completed
      ensures moves != [] ==> Effect(State(), o) == Run(old(State()), moves, Cfg(), Corrected)
      ensures moves != [] ==> events == old(events) + if o == Completed then ["tree-reordered"] else []
      ensures treeState == old(treeState)
    {
      TypedIsHomogeneous(rows, intColumns);
      if |moves| == 0 {
        return Completed;
      }
      var i := 0;
      while i < |moves|
        invariant 0 <= i <= |moves| && Valid()
        invariant Run(old(State()), moves, Cfg(), Corrected) == Run(State(), moves[i..], Cfg(), Corrected)
        invariant events == old(events) && treeState == old(treeState)
      {
        TypedIsHomogeneous(rows, intColumns);
        o := ProcessSingleMove(moves[i]);
        assert moves[i..][1..] == moves[i + 1..];
        if o != Completed {
          return o;
        }
        i := i + 1;
      }
      events := events + ["tree-reordered"];
      return Completed;
    }

    /** `isExpanded($recordId)`: the stored flag, or the tree's default. */
    function IsExpanded(recordId: string): (r: bool)
      reads this
      ensures recordId in treeState ==> r == treeState[recordId]
      ensures recordId !in treeState ==> r == defaultExpanded
    {
      if recordId in treeState then treeState[recordId] else defaultExpanded
    }

    /** `toggleExpanded($recordId)`: flips what `isExpanded` reports for that record only. */
    method ToggleExpanded(recordId: string)
      modifies this
      ensures treeState == old(treeState)[recordId := !old(IsExpanded(recordId))]
      ensures IsExpanded(recordId) == !old(IsExpanded(recordId))
      ensures forall id :: id != recordId ==> IsExpanded(id) == old(IsExpanded(id))
      ensures rows == old(rows) && saved == old(saved) && events == old(events)
    {
      treeState := treeState[recordId := !IsExpanded(recordId)];
    }
  }
}
