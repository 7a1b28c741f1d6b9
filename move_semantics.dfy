/**
 * What one batch of client moves does to the tree table: the pure semantics behind
 * `reorderTree`, `processSingleMove`, `reorderSiblings` and
 * `reorderSiblingsWithInsert` of the InteractsWithTree component.
 *
 * Two variants are kept side by side. `AsWritten` follows the source exactly.
 * `Corrected` differs in two places only: the client's string "-1" is taken
 * for the root as well as the int -1, and for a table with text keys (UUIDs)
 * the ids are passed on as strings instead of being coerced to `int`.
 */
module MoveSemantics {
  import opened PhpValues
  import opened SiblingOrder

  /**
   * How a call ends: normally, with a TypeError from a typed parameter, writing to
   * null, or reading an array key that is not there.
   */
  datatype Outcome = Completed | TypeError | NullAccess | UndefinedKey

  /** The table and the log of `save()` calls, by primary key. */
  datatype Db = Db(rows: Rows, saved: seq<Value>)

  datatype Effect = Effect(db: Db, outcome: Outcome)

  /** The model's parent-key default value and whether keys and parent keys are integer columns. */
  datatype Config = Config(rootValue: Value, intColumns: bool)

  datatype Variant = AsWritten | Corrected

  /**
   * One entry of `$moves`. `nodeId` is `None` when the client left that key out;
   * the other three keys are read with `??`, so a missing key and a null are the
   * same and both are `Null` here.
   */
  datatype MoveData = MoveData(nodeId: Option<Value>, newParentId: Value, position: Value, referenceId: Value)

  /** The table's keys have the column type the configuration says. */
  predicate Typed(rows: Rows, intColumns: bool)
  {
    forall k :: k in rows ==> if intColumns then k.Int? else k.Str?
  }

  lemma TypedIsHomogeneous(rows: Rows, intColumns: bool)
    requires Typed(rows, intColumns)
    ensures Homogeneous(rows)
  {
  }

  /**
   * The value a column holds after `save()` and a fresh read: a numeric string
   * written to an integer column reads back as that integer, an integer written to
   * a text column reads back as its decimal rendering.
   */
  function Persist(v: Value, intColumns: bool): Value
  {
    if intColumns && v.Str? && ParseDecimal(v.s).Some? then Int(ParseDecimal(v.s).value)
    else if !intColumns && v.Int? then Str(IntToString(v.i))
    else v
  }

  /** The client's "root level" marker. */
  predicate IsClientRoot(v: Value, variant: Variant)
  {
    v == Int(-1) || (variant == Corrected && v == Str("-1"))
  }

  /** The parent pointer `processSingleMove` stores for the requested new parent. */
  function StoredParent(newParentId: Value, cfg: Config, variant: Variant): Value
  {
    Persist(if IsClientRoot(newParentId, variant) then cfg.rootValue else newParentId, cfg.intColumns)
  }

  /**
   * An id passed on to a typed parameter: coerced to `int` as written (`None` is
   * the TypeError), kept as a string for a text-keyed table when corrected.
   */
  function IdParam(v: Value, cfg: Config, variant: Variant): Option<Value>
  {
    if variant == AsWritten || cfg.intColumns then
      match ToIntParam(v)
      case None => None
      case Some(i) => Some(Int(i))
    else if v == Null then None
    else Some(Str(StrCast(v)))
  }

  function NullableIdParam(v: Value, cfg: Config, variant: Variant): Option<Value>
  {
    if v == Null then Some(Null) else IdParam(v, cfg, variant)
  }

  /** `isRootValue`: loose comparison with the model's root value. */
  predicate IsRootValue(v: Value, cfg: Config)
  {
    LooseEq(v, cfg.rootValue)
  }

  /** The group `reorderSiblings($parentId)` renumbers. */
  function OldGroup(parentId: Value, cfg: Config, variant: Variant): Group
  {
    if IsClientRoot(parentId, variant) || parentId == Null || IsRootValue(parentId, cfg) then RootGroup
    else ChildrenOf(parentId)
  }

  /** The group `reorderSiblingsWithInsert($parentId, ...)` renumbers. */
  function NewGroup(parentId: Value, cfg: Config, variant: Variant): Group
  {
    if IsClientRoot(parentId, variant) || IsRootValue(parentId, cfg) then RootGroup
    else ChildrenOf(parentId)
  }

  lemma SiblingsInRows(rows: Rows, g: Group, rootValue: Value)
    requires Homogeneous(rows)
    ensures AllIn(rows, Siblings(rows, g, rootValue))
    ensures forall k :: k in Siblings(rows, g, rootValue) ==> k in rows
  {
  }

  /** `reorderSiblings` after its parameter is bound: close the gaps of one group. */
  function RenumberGroup(db: Db, g: Group, cfg: Config): (r: Db)
    requires Homogeneous(db.rows)
    ensures r.rows.Keys == db.rows.Keys
  {
    var s := Siblings(db.rows, g, cfg.rootValue);
    SiblingsInRows(db.rows, g, cfg.rootValue);
    Db(Renumbered(db.rows, s), db.saved + Writes(db.rows, s))
  }

  /** `reorderSiblings($oldParentId)`: bind the `?int` parameter, then renumber. */
  function ReorderSiblingsStep(db: Db, parentId: Value, cfg: Config, variant: Variant): (e: Effect)
    requires Homogeneous(db.rows)
    ensures e.db.rows.Keys == db.rows.Keys
  {
    match NullableIdParam(parentId, cfg, variant)
    case None => Effect(db, TypeError)
    case Some(p) => Effect(RenumberGroup(db, OldGroup(p, cfg, variant), cfg), Completed)
  }

  /** The index of the first missing record (`null`) in `$newOrder`, or its length. */
  function NullIndex(items: seq<Option<Value>>): (k: nat)
    ensures k <= |items|
    ensures k < |items| ==> items[k].None?
    ensures forall i :: 0 <= i < k ==> items[i].Some?
    decreases |items|
  {
    if items == [] then 0
    else if items[0].None? then 0
    else 1 + NullIndex(items[1..])
  }

  lemma NullIndexIs(items: seq<Option<Value>>, k: nat)
    requires k <= |items| && (k < |items| ==> items[k].None?)
    requires forall i :: 0 <= i < k ==> items[i].Some?
    ensures NullIndex(items) == k
  {
  }

  function Present(items: seq<Option<Value>>): (r: seq<Value>)
    requires forall i :: 0 <= i < |items| ==> items[i].Some?
    ensures |r| == |items| && forall i :: 0 <= i < |items| ==> items[i] == Some(r[i])
  {
    seq(|items|, i requires 0 <= i < |items| => items[i].value)
  }

  /**
   * The renumbering loop over `$newOrder`: records get order 1, 2, ... until the
   * first `null` entry, whose property write fails.
   */
  function RenumberItems(db: Db, items: seq<Option<Value>>): (e: Effect)
    requires forall x :: x in items && x.Some? ==> x.value in db.rows
    ensures e.db.rows.Keys == db.rows.Keys
    ensures e.outcome == (if None in items then NullAccess else Completed)
  {
    var k := NullIndex(items);
    var keys := Present(items[..k]);
    assert AllIn(db.rows, keys) by {
      forall i | 0 <= i < |keys|
        ensures keys[i] in db.rows
      {
        assert items[i] in items;
      }
    }
    Effect(Db(Renumbered(db.rows, keys), db.saved + Writes(db.rows, keys)),
           if k < |items| then NullAccess else Completed)
  }

  /**
   * `RenumberItems` spelled out: the records `keys` before the first `null`
   * entry at `k` are renumbered, and the outcome says whether there was one.
   */
  lemma FirstNull(db: Db, items: seq<Option<Value>>, k: nat, keys: seq<Value>)
    requires forall x :: x in items && x.Some? ==> x.value in db.rows
    requires k == NullIndex(items) && keys == Present(items[..k])
    ensures k <= |items| && |keys| == k && AllIn(db.rows, keys)
    ensures forall j :: 0 <= j < k ==> items[j] == Some(keys[j])
    ensures k < |items| ==> items[k] == None
    ensures RenumberItems(db, items)
      == Effect(Db(Renumbered(db.rows, keys), db.saved + Writes(db.rows, keys)),
                if k < |items| then NullAccess else Completed)
  {
    forall j | 0 <= j < |keys|
      ensures keys[j] in db.rows
    {
      assert items[j] in items;
    }
  }

  /**
   * `reorderSiblingsWithInsert` after its parameters are bound: it keeps the
   * table's keys, and fails, with the write to null, exactly when `$newOrder`
   * holds a null entry.
   */
  function InsertStep(db: Db, parentId: Value, node: Value, position: string, referenceId: Value,
                      cfg: Config, variant: Variant): (e: Effect)
    requires Homogeneous(db.rows)
    ensures e.db.rows.Keys == db.rows.Keys
    ensures e.outcome == Completed || e.outcome == NullAccess
    ensures e.outcome == NullAccess <==>
      None in NewOrder(Siblings(db.rows, NewGroup(parentId, cfg, variant), cfg.rootValue), node, position, referenceId)
  {
    var siblings := Siblings(db.rows, NewGroup(parentId, cfg, variant), cfg.rootValue);
    SiblingsInRows(db.rows, NewGroup(parentId, cfg, variant), cfg.rootValue);
    NewOrderFromSiblings(siblings, node, position, referenceId);
    RenumberItems(db, NewOrder(siblings, node, position, referenceId))
  }

  /** The defaults `processSingleMove` applies to an absent or null entry. */
  function NewParentOf(m: MoveData): Value
  {
    if m.newParentId == Null then Int(-1) else m.newParentId
  }

  function PositionOf(m: MoveData): Value
  {
    if m.position == Null then Str("after") else m.position
  }

  /** The database after the node's new parent pointer is saved. */
  function Reparented(db: Db, key: Value, m: MoveData, cfg: Config, variant: Variant): (r: Db)
    requires key in db.rows
    ensures r.rows.Keys == db.rows.Keys
  {
    Db(db.rows[key := db.rows[key].(parent := StoredParent(NewParentOf(m), cfg, variant))], db.saved + [key])
  }

  /** The database after the old parent's group is renumbered, when the parent changed. */
  function LeftOldGroup(db: Db, oldParentId: Value, m: MoveData, cfg: Config, variant: Variant): (e: Effect)
    requires Homogeneous(db.rows)
    ensures e.db.rows.Keys == db.rows.Keys
  {
    if oldParentId != NewParentOf(m) then ReorderSiblingsStep(db, oldParentId, cfg, variant)
    else Effect(db, Completed)
  }

  /** The final insert, once its four parameters are bound. */
  function Placed(db: Db, m: MoveData, cfg: Config, variant: Variant): (e: Effect)
    requires Homogeneous(db.rows) && m.nodeId.Some?
    ensures e.db.rows.Keys == db.rows.Keys
  {
    var p := IdParam(NewParentOf(m), cfg, variant);
    var n := IdParam(m.nodeId.value, cfg, variant);
    var pos := ToStringParam(PositionOf(m));
    var ref := NullableIdParam(m.referenceId, cfg, variant);
    if p.Some? && n.Some? && pos.Some? && ref.Some? then
      InsertStep(db, p.value, n.value, pos.value, ref.value, cfg, variant)
    else Effect(db, TypeError)
  }

  /** `processSingleMove($data)`. */
  function Step(db: Db, m: MoveData, cfg: Config, variant: Variant): (e: Effect)
    requires Homogeneous(db.rows)
    ensures e.db.rows.Keys == db.rows.Keys
  {
    if m.nodeId.None? then Effect(db, UndefinedKey)
    else match Find(db.rows, m.nodeId.value)
    case None => Effect(db, Completed)
    case Some(key) =>
      var db1 := Reparented(db, key, m, cfg, variant);
      var e2 := LeftOldGroup(db1, db.rows[key].parent, m, cfg, variant);
      if e2.outcome != Completed then e2 else Placed(e2.db, m, cfg, variant)
  }

  /** The `foreach ($moves ...)` loop of `reorderTree`: moves in order, stopping at an error. */
  function Run(db: Db, moves: seq<MoveData>, cfg: Config, variant: Variant): (e: Effect)
    requires Homogeneous(db.rows)
    ensures e.db.rows.Keys == db.rows.Keys
    decreases |moves|
  {
    if moves == [] then Effect(db, Completed)
    else
      var e := Step(db, moves[0], cfg, variant);
      if e.outcome != Completed then e else Run(e.db, moves[1..], cfg, variant)
  }

  // ---------------------------------------------------------------------------
  // Properties of a batch and of one move

  /** A batch runs as its first part followed, if that completed, by its second part. */
  lemma {:induction false} RunSplit(db: Db, a: seq<MoveData>, b: seq<MoveData>, cfg: Config, variant: Variant)
    requires Homogeneous(db.rows)
    ensures var ea := Run(db, a, cfg, variant);
      Run(db, a + b, cfg, variant) == if ea.outcome == Completed then Run(ea.db, b, cfg, variant) else ea
    decreases |a|
  {
    if a == [] {
      assert a + b == b;
    } else {
      assert (a + b)[0] == a[0];
      assert (a + b)[1..] == a[1..] + b;
      var e := Step(db, a[0], cfg, variant);
      if e.outcome == Completed {
        RunSplit(e.db, a[1..], b, cfg, variant);
      }
    }
  }

  /** A move whose node the query does not find changes nothing. */
  lemma StepMissingNode(db: Db, m: MoveData, cfg: Config, variant: Variant)
    requires Homogeneous(db.rows)
    requires m.nodeId.Some? && forall k :: k in db.rows ==> !SqlEq(k, m.nodeId.value)
    ensures Step(db, m, cfg, variant) == Effect(db, Completed)
  {
  }

  /** A move without a `nodeId` key raises at once and changes nothing. */
  lemma StepWithoutNodeId(db: Db, m: MoveData, cfg: Config, variant: Variant)
    requires Homogeneous(db.rows) && m.nodeId.None?
    ensures Step(db, m, cfg, variant) == Effect(db, UndefinedKey)
  {
  }

  /**
   * A batch with a move that lacks `nodeId` never gets past it: the moves before it
   * run as usual, and if they all completed the batch ends there with
   * `UndefinedKey`, so no later move is applied.
   */
  lemma {:induction false} RunStopsAtMissingNodeId(db: Db, moves: seq<MoveData>, cfg: Config, variant: Variant, i: nat)
    requires Homogeneous(db.rows) && i < |moves| && moves[i].nodeId.None?
    ensures var e := Run(db, moves[..i], cfg, variant);
      Run(db, moves, cfg, variant) == if e.outcome == Completed then Effect(e.db, UndefinedKey) else e
  {
    assert moves == moves[..i] + moves[i..];
    RunSplit(db, moves[..i], moves[i..], cfg, variant);
    var e := Run(db, moves[..i], cfg, variant);
    if e.outcome == Completed {
      assert moves[i..][0] == moves[i];
      StepWithoutNodeId(e.db, moves[i], cfg, variant);
    }
  }

  /** Hence a batch that completes had a `nodeId` in every move. */
  lemma CompletedRunHadNodeIds(db: Db, moves: seq<MoveData>, cfg: Config, variant: Variant)
    requires Homogeneous(db.rows) && Run(db, moves, cfg, variant).outcome == Completed
    ensures forall i :: 0 <= i < |moves| ==> moves[i].nodeId.Some?
  {
    forall i | 0 <= i < |moves|
      ensures moves[i].nodeId.Some?
    {
      if moves[i].nodeId.None? {
        RunStopsAtMissingNodeId(db, moves, cfg, variant, i);
      }
    }
  }

  lemma {:induction false} RenumberedKeepsParents(rows: Rows, keys: seq<Value>)
    requires AllIn(rows, keys)
    ensures forall k :: k in rows ==> Renumbered(rows, keys)[k].parent == rows[k].parent
    decreases |keys|
  {
    if keys != [] {
      RenumberedKeepsParents(rows, keys[..|keys| - 1]);
    }
  }

  lemma RenumberGroupKeepsParents(db: Db, g: Group, cfg: Config)
    requires Homogeneous(db.rows)
    ensures forall k :: k in db.rows ==> RenumberGroup(db, g, cfg).rows[k].parent == db.rows[k].parent
    ensures RenumberGroup(db, g, cfg).saved[..|db.saved|] == db.saved
  {
    SiblingsInRows(db.rows, g, cfg.rootValue);
    RenumberedKeepsParents(db.rows, Siblings(db.rows, g, cfg.rootValue));
  }

  lemma InsertKeepsParents(db: Db, parentId: Value, node: Value, position: string, referenceId: Value,
                           cfg: Config, variant: Variant)
    requires Homogeneous(db.rows)
    ensures var e := InsertStep(db, parentId, node, position, referenceId, cfg, variant);
      (forall k :: k in db.rows ==> e.db.rows[k].parent == db.rows[k].parent) && e.db.saved[..|db.saved|] == db.saved
  {
    var siblings := Siblings(db.rows, NewGroup(parentId, cfg, variant), cfg.rootValue);
    SiblingsInRows(db.rows, NewGroup(parentId, cfg, variant), cfg.rootValue);
    NewOrderFromSiblings(siblings, node, position, referenceId);
    var items := NewOrder(siblings, node, position, referenceId);
    var k := NullIndex(items);
    var keys := Present(items[..k]);
    assert AllIn(db.rows, keys) by {
      forall i | 0 <= i < |keys|
        ensures keys[i] in db.rows
      {
        assert items[i] in items;
      }
    }
    RenumberedKeepsParents(db.rows, keys);
  }

  /**
   * Whatever the outcome, a move of a found node saves that node first with its
   * new parent pointer and changes no other record's parent; renumbering only
   * touches `order`.
   */
  lemma StepStoresParent(db: Db, m: MoveData, cfg: Config, variant: Variant, key: Value)
    requires Homogeneous(db.rows)
    requires m.nodeId.Some? && Find(db.rows, m.nodeId.value) == Some(key)
    ensures var e := Step(db, m, cfg, variant);
      && e.db.rows[key].parent == StoredParent(NewParentOf(m), cfg, variant)
      && (forall k :: k in db.rows && k != key ==> e.db.rows[k].parent == db.rows[k].parent)
      && e.db.saved[..|db.saved| + 1] == db.saved + [key]
  {
    var db1 := Reparented(db, key, m, cfg, variant);
    var e2 := LeftOldGroup(db1, db.rows[key].parent, m, cfg, variant);
    LeftOldGroupKeepsParents(db1, db.rows[key].parent, m, cfg, variant);
    assert Step(db, m, cfg, variant) == if e2.outcome != Completed then e2 else Placed(e2.db, m, cfg, variant);
    if e2.outcome == Completed {
      var e3 := Placed(e2.db, m, cfg, variant);
      PlacedKeepsParents(e2.db, m, cfg, variant);
      PrefixOfPrefix(e3.db.saved, e2.db.saved, db1.saved);
    }
  }

  lemma LeftOldGroupKeepsParents(db: Db, oldParentId: Value, m: MoveData, cfg: Config, variant: Variant)
    requires Homogeneous(db.rows)
    ensures var e := LeftOldGroup(db, oldParentId, m, cfg, variant);
      (forall k :: k in db.rows ==> e.db.rows[k].parent == db.rows[k].parent) && e.db.saved[..|db.saved|] == db.saved
  {
    if oldParentId != NewParentOf(m) {
      match NullableIdParam(oldParentId, cfg, variant)
      case None =>
      case Some(p) => RenumberGroupKeepsParents(db, OldGroup(p, cfg, variant), cfg);
    }
  }

  lemma PlacedKeepsParents(db: Db, m: MoveData, cfg: Config, variant: Variant)
    requires Homogeneous(db.rows) && m.nodeId.Some?
    ensures var e := Placed(db, m, cfg, variant);
      (forall k :: k in db.rows ==> e.db.rows[k].parent == db.rows[k].parent) && e.db.saved[..|db.saved|] == db.saved
  {
    var p := IdParam(NewParentOf(m), cfg, variant);
    var n := IdParam(m.nodeId.value, cfg, variant);
    var pos := ToStringParam(PositionOf(m));
    var ref := NullableIdParam(m.referenceId, cfg, variant);
    if p.Some? && n.Some? && pos.Some? && ref.Some? {
      InsertKeepsParents(db, p.value, n.value, pos.value, ref.value, cfg, variant);
    }
  }

  lemma PrefixOfPrefix<T>(a: seq<T>, b: seq<T>, c: seq<T>)
    requires |c| <= |b| <= |a| && a[..|b|] == b && b[..|c|] == c
    ensures a[..|c|] == c
  {
    assert a[..|c|] == a[..|b|][..|c|];
  }

  // ---------------------------------------------------------------------------
  // Where the moved node lands

  /** Renumbering a `$newOrder` without nulls gives entry i order i + 1 and touches nothing else. */
  lemma RenumberPlacement(db: Db, placed: seq<Value>)
    requires Distinct(placed) && AllIn(db.rows, placed)
    ensures var e := RenumberItems(db, Wrap(placed));
      && e.outcome == Completed
      && (forall i :: 0 <= i < |placed| ==> e.db.rows[placed[i]] == db.rows[placed[i]].(order := i + 1))
      && (forall k :: k in db.rows && k !in placed ==> e.db.rows[k] == db.rows[k])
  {
    var items := Wrap(placed);
    assert forall x :: x in items && x.Some? ==> x.value in db.rows;
    NullIndexIs(items, |items|);
    assert items[..|items|] == items;
    assert Present(items) == placed;
    RenumberedAt(db.rows, placed);
  }

  lemma PlacedInRows(db: Db, s: seq<Value>, placed: seq<Value>)
    requires forall k :: k in s ==> k in db.rows
    requires forall y :: y in placed <==> y in s
    ensures AllIn(db.rows, placed)
    ensures forall k :: k !in s ==> k !in placed
  {
    forall i | 0 <= i < |placed|
      ensures placed[i] in db.rows
    {
      assert placed[i] in placed;
    }
  }

  /** An insert whose `$newOrder` holds exactly the records `placed`. */
  lemma InsertOf(db: Db, parentId: Value, s: seq<Value>, node: Value, position: string, referenceId: Value,
                 cfg: Config, variant: Variant, placed: seq<Value>)
    requires Homogeneous(db.rows) && s == Siblings(db.rows, NewGroup(parentId, cfg, variant), cfg.rootValue)
    requires Distinct(placed) && (forall y :: y in placed <==> y in s)
    requires NewOrder(s, node, position, referenceId) == Wrap(placed)
    ensures var e := InsertStep(db, parentId, node, position, referenceId, cfg, variant);
      && e.outcome == Completed
      && (forall i :: 0 <= i < |placed| ==> placed[i] in e.db.rows && e.db.rows[placed[i]].order == i + 1)
      && (forall k :: k in db.rows && k !in s ==> e.db.rows[k] == db.rows[k])
  {
    SiblingsInRows(db.rows, NewGroup(parentId, cfg, variant), cfg.rootValue);
    PlacedInRows(db, s, placed);
    RenumberPlacement(db, placed);
  }

  /**
   * Position `before`/`after` next to a reference found among the other siblings:
   * the moved node ends immediately before/after the reference, the other
   * siblings keep their relative order, the group's orders become 1..N, and no
   * record outside the group changes; `placed` is that group in its new order.
   */
  lemma InsertNextToReference(db: Db, parentId: Value, s: seq<Value>, j: nat, position: string, r: nat,
                              cfg: Config, variant: Variant, placed: seq<Value>)
    requires Homogeneous(db.rows)
    requires s == Siblings(db.rows, NewGroup(parentId, cfg, variant), cfg.rootValue)
    requires j < |s| && LooseIsStrict(s, s[j]) && (position == "before" || position == "after")
    requires var others := s[..j] + s[j + 1..]; r < |others| && Truthy(others[r]) && LooseIsStrict(s, others[r])
    requires var others := s[..j] + s[j + 1..];
      var cut := if position == "before" then r else r + 1;
      placed == others[..cut] + [s[j]] + others[cut..]
    ensures var e := InsertStep(db, parentId, s[j], position, (s[..j] + s[j + 1..])[r], cfg, variant);
      && e.outcome == Completed
      && (forall i :: 0 <= i < |placed| ==> placed[i] in e.db.rows && e.db.rows[placed[i]].order == i + 1)
      && (forall k :: k in db.rows && k !in s ==> e.db.rows[k] == db.rows[k])
  {
    var others := s[..j] + s[j + 1..];
    var cut := if position == "before" then r else r + 1;
    SortedIsDistinct(db.rows, s);
    NewOrderPlacesNextTo(s, j, position, r);
    InsertOf(db, parentId, s, s[j], position, others[r], cfg, variant, placed);
  }

  /**
   * Position `inside`, no reference, or a reference that is not another sibling:
   * the moved node becomes the last of its group, the other siblings keep their
   * relative order, and the group's orders become 1..N; `placed` is that group in
   * its new order.
   */
  lemma InsertAppends(db: Db, parentId: Value, s: seq<Value>, j: nat, position: string, referenceId: Value,
                      cfg: Config, variant: Variant, placed: seq<Value>)
    requires Homogeneous(db.rows)
    requires s == Siblings(db.rows, NewGroup(parentId, cfg, variant), cfg.rootValue)
    requires j < |s| && LooseIsStrict(s, s[j])
    requires position == "inside" || !Truthy(referenceId)
      || (LooseIsStrict(s, referenceId) && (referenceId !in s || referenceId == s[j]))
    requires placed == s[..j] + s[j + 1..] + [s[j]]
    ensures var e := InsertStep(db, parentId, s[j], position, referenceId, cfg, variant);
      && e.outcome == Completed
      && (forall i :: 0 <= i < |placed| ==> placed[i] in e.db.rows && e.db.rows[placed[i]].order == i + 1)
      && (forall k :: k in db.rows && k !in s ==> e.db.rows[k] == db.rows[k])
  {
    SortedIsDistinct(db.rows, s);
    NewOrderPlacesLast(s, j, position, referenceId);
    InsertOf(db, parentId, s, s[j], position, referenceId, cfg, variant, placed);
  }

  // ---------------------------------------------------------------------------
  // The root marker "-1" sent as a string

  lemma NoneInItems(db: Db, items: seq<Option<Value>>)
    requires forall x :: x in items && x.Some? ==> x.value in db.rows
    requires None in items
    ensures RenumberItems(db, items).outcome == NullAccess
  {
  }

  lemma NoNoneInItems(db: Db, items: seq<Option<Value>>)
    requires forall x :: x in items && x.Some? ==> x.value in db.rows
    requires None !in items
    ensures RenumberItems(db, items).outcome == Completed
  {
  }

  lemma ParseMinusOne()
    ensures ParseDecimal("-1") == Some(-1)
  {
    assert "-1"[1..] == "1";
  }

  /** The moved node is among a group's sibling sequence exactly when its parent pointer is in the group. */
  lemma InSiblings(rows: Rows, g: Group, rootValue: Value, key: Value)
    requires Homogeneous(rows) && key in rows
    ensures key in Siblings(rows, g, rootValue) <==> InGroup(rows[key].parent, g, rootValue)
  {
  }

  /** Leaving the old group completes when the old parent coerces, and keeps every parent pointer. */
  lemma LeftOldGroupCompletes(db: Db, oldParentId: Value, m: MoveData, cfg: Config, variant: Variant)
    requires Homogeneous(db.rows)
    requires NullableIdParam(oldParentId, cfg, variant).Some?
    ensures var e := LeftOldGroup(db, oldParentId, m, cfg, variant);
      e.outcome == Completed && forall k :: k in db.rows ==> e.db.rows[k].parent == db.rows[k].parent
  {
    if oldParentId != NewParentOf(m) {
      RenumberGroupKeepsParents(db, OldGroup(NullableIdParam(oldParentId, cfg, variant).value, cfg, variant), cfg);
    }
  }

  /**
   * As written: in an integer-keyed table whose root value is null, a move sent
   * with `newParentId` "-1" (what a reorder among root nodes sends) stores -1
   * as the parent, so the node is missing from the root group the insert
   * renumbers, and the renumbering writes to the missing record.
   */
  lemma RootStringAsWrittenFails(db: Db, m: MoveData, cfg: Config, key: Value)
    requires cfg == Config(Null, true) && Typed(db.rows, true)
    requires m.nodeId.Some? && Find(db.rows, m.nodeId.value) == Some(key)
    requires db.rows[key].parent == Null || db.rows[key].parent.Int?
    requires m.newParentId == Str("-1")
    requires PositionOf(m) == Str("before") || PositionOf(m) == Str("after") || PositionOf(m) == Str("inside")
    requires ToNullableIntParam(m.referenceId).Some?
    ensures Step(db, m, cfg, AsWritten).outcome == NullAccess
    ensures Step(db, m, cfg, AsWritten).db.rows[key].parent == Int(-1)
  {
    ParseMinusOne();
    var db1 := Reparented(db, key, m, cfg, AsWritten);
    LeftOldGroupCompletes(db1, db.rows[key].parent, m, cfg, AsWritten);
    var e2 := LeftOldGroup(db1, db.rows[key].parent, m, cfg, AsWritten);
    assert e2.db.rows[key].parent == Int(-1);
    var ref := NullableIdParam(m.referenceId, cfg, AsWritten).value;
    var pos := ToStringParam(PositionOf(m)).value;
    assert IdParam(m.nodeId.value, cfg, AsWritten) == Some(key);
    assert IdParam(NewParentOf(m), cfg, AsWritten) == Some(Int(-1));
    assert Step(db, m, cfg, AsWritten) == InsertStep(e2.db, Int(-1), key, pos, ref, cfg, AsWritten);
    RootInsertOfMissingNode(e2.db, key, pos, ref, cfg);
    StepStoresParent(db, m, cfg, AsWritten, key);
  }

  /** As written, an insert at the root of a node whose stored parent is -1 writes to null. */
  lemma RootInsertOfMissingNode(db: Db, key: Value, position: string, referenceId: Value, cfg: Config)
    requires cfg == Config(Null, true) && Typed(db.rows, true)
    requires key in db.rows && db.rows[key].parent == Int(-1)
    requires position == "before" || position == "after" || position == "inside"
    requires referenceId == Null || referenceId.Int?
    ensures InsertStep(db, Int(-1), key, position, referenceId, cfg, AsWritten).outcome == NullAccess
  {
    assert NewGroup(Int(-1), cfg, AsWritten) == RootGroup;
    var s := Siblings(db.rows, RootGroup, Null);
    SiblingsInRows(db.rows, RootGroup, Null);
    assert forall i :: 0 <= i < |s| ==> s[i].Int?;
    IntKeysLooseIsStrict(s, key.i);
    if Truthy(referenceId) {
      IntKeysLooseIsStrict(s, referenceId.i);
    }
    InsertOfMissingNode(db, Int(-1), key, position, referenceId, cfg, AsWritten);
  }

  /** Corrected: the same move completes and puts the node at the root. */
  lemma RootStringCorrectedCompletes(db: Db, m: MoveData, cfg: Config, key: Value)
    requires cfg == Config(Null, true) && Typed(db.rows, true)
    requires m.nodeId.Some? && Find(db.rows, m.nodeId.value) == Some(key)
    requires db.rows[key].parent == Null || db.rows[key].parent.Int?
    requires m.newParentId == Str("-1")
    requires ToNullableIntParam(m.referenceId).Some?
    ensures Step(db, m, cfg, Corrected).outcome == Completed
    ensures Step(db, m, cfg, Corrected).db.rows[key].parent == Null
  {
    ParseMinusOne();
    var db1 := Reparented(db, key, m, cfg, Corrected);
    LeftOldGroupCompletes(db1, db.rows[key].parent, m, cfg, Corrected);
    var e2 := LeftOldGroup(db1, db.rows[key].parent, m, cfg, Corrected);
    assert e2.db.rows[key].parent == Null;
    var ref := NullableIdParam(m.referenceId, cfg, Corrected).value;
    var pos := ToStringParam(PositionOf(m)).value;
    assert IdParam(m.nodeId.value, cfg, Corrected) == Some(key);
    assert IdParam(NewParentOf(m), cfg, Corrected) == Some(Int(-1));
    assert Step(db, m, cfg, Corrected) == InsertStep(e2.db, Int(-1), key, pos, ref, cfg, Corrected);
    RootInsertOfPresentNode(e2.db, key, pos, ref, cfg);
    StepStoresParent(db, m, cfg, Corrected, key);
  }

  /** An insert at the root of a node whose stored parent is null completes. */
  lemma RootInsertOfPresentNode(db: Db, key: Value, position: string, referenceId: Value, cfg: Config)
    requires cfg == Config(Null, true) && Typed(db.rows, true)
    requires key in db.rows && db.rows[key].parent == Null
    ensures InsertStep(db, Int(-1), key, position, referenceId, cfg, Corrected).outcome == Completed
  {
    assert NewGroup(Int(-1), cfg, Corrected) == RootGroup;
    var s := Siblings(db.rows, RootGroup, Null);
    SiblingsInRows(db.rows, RootGroup, Null);
    assert forall i :: 0 <= i < |s| ==> s[i].Int?;
    IntKeysLooseIsStrict(s, key.i);
    InsertOfPresentNode(db, Int(-1), key, position, referenceId, cfg, Corrected);
  }

  // ---------------------------------------------------------------------------
  // Text (UUID) keys

  /**
   * As written: in a text-keyed table, moving a record whose key is not an
   * integer string always ends in a TypeError, because its id is passed to an
   * `int` parameter.
   */
  lemma TextKeysAsWrittenFail(db: Db, m: MoveData, cfg: Config, key: Value)
    requires !cfg.intColumns && Typed(db.rows, false)
    requires m.nodeId.Some? && Find(db.rows, m.nodeId.value) == Some(key)
    requires ParseDecimal(key.s).None?
    ensures Step(db, m, cfg, AsWritten).outcome == TypeError
  {
    if m.nodeId.value.Int? {
      ParseRendered(m.nodeId.value.i);
    }
    assert IdParam(m.nodeId.value, cfg, AsWritten).None?;
  }

  /**
   * An insert into a group that does not hold the node fails on the `null` entry
   * when keys compare strictly and the position is one the client sends.
   */
  lemma InsertOfMissingNode(db: Db, p: Value, key: Value, position: string, referenceId: Value,
                            cfg: Config, variant: Variant)
    requires Homogeneous(db.rows) && key in db.rows
    requires !InGroup(db.rows[key].parent, NewGroup(p, cfg, variant), cfg.rootValue)
    requires LooseIsStrict(Siblings(db.rows, NewGroup(p, cfg, variant), cfg.rootValue), key)
    requires position == "before" || position == "after" || position == "inside"
    requires !Truthy(referenceId) || LooseIsStrict(Siblings(db.rows, NewGroup(p, cfg, variant), cfg.rootValue), referenceId)
    ensures InsertStep(db, p, key, position, referenceId, cfg, variant).outcome == NullAccess
  {
    var g := NewGroup(p, cfg, variant);
    var s := Siblings(db.rows, g, cfg.rootValue);
    InSiblings(db.rows, g, cfg.rootValue, key);
    SiblingsInRows(db.rows, g, cfg.rootValue);
    FirstWhereMisses(s, key);
    NewOrderKeepsMissingNode(s, key, position, referenceId);
    NewOrderFromSiblings(s, key, position, referenceId);
    NoneInItems(db, NewOrder(s, key, position, referenceId));
  }

  /** An insert into the group that holds the node completes when keys compare strictly. */
  lemma InsertOfPresentNode(db: Db, p: Value, key: Value, position: string, referenceId: Value,
                            cfg: Config, variant: Variant)
    requires Homogeneous(db.rows) && key in db.rows
    requires InGroup(db.rows[key].parent, NewGroup(p, cfg, variant), cfg.rootValue)
    requires LooseIsStrict(Siblings(db.rows, NewGroup(p, cfg, variant), cfg.rootValue), key)
    ensures InsertStep(db, p, key, position, referenceId, cfg, variant).outcome == Completed
  {
    var g := NewGroup(p, cfg, variant);
    var s := Siblings(db.rows, g, cfg.rootValue);
    InSiblings(db.rows, g, cfg.rootValue, key);
    SiblingsInRows(db.rows, g, cfg.rootValue);
    FirstWhereFinds(s, key);
    NewOrderFindsNode(s, key, position, referenceId);
    NewOrderFromSiblings(s, key, position, referenceId);
    NoNoneInItems(db, NewOrder(s, key, position, referenceId));
  }

  /**
   * Corrected: in a text-keyed table with non-numeric keys and root value null,
   * moving a record under an existing record (or to the root, "-1") completes and
   * stores the requested parent.
   */
  lemma TextKeysCorrectedComplete(db: Db, m: MoveData, cfg: Config, key: Value)
    requires cfg == Config(Null, false) && Typed(db.rows, false)
    requires forall k :: k in db.rows ==> ParseDecimal(k.s).None? && k.s != ""
    requires key in db.rows && m.nodeId == Some(key)
    requires m.newParentId == Str("-1") || m.newParentId in db.rows
    ensures Step(db, m, cfg, Corrected).outcome == Completed
    ensures Step(db, m, cfg, Corrected).db.rows[key].parent == if m.newParentId == Str("-1") then Null else m.newParentId
  {
    SqlMatchUnique(db.rows, key);
    var p := IdParam(NewParentOf(m), cfg, Corrected).value;
    var ref := NullableIdParam(m.referenceId, cfg, Corrected).value;
    var pos := ToStringParam(PositionOf(m)).value;
    var db2 := LeftOldGroup(Reparented(db, key, m, cfg, Corrected), db.rows[key].parent, m, cfg, Corrected).db;
    StepReachesInsert(db, m, cfg, Corrected, key, db2);
    TextGroupHoldsNode(m.newParentId, p, db2.rows[key].parent, cfg);
    TextInsertOfPresentNode(db2, p, key, pos, ref, cfg);
  }

  /**
   * A move of a found node whose ids all bind reaches the insert, on the table
   * with the node's new parent saved and its old group renumbered.
   */
  lemma StepReachesInsert(db: Db, m: MoveData, cfg: Config, variant: Variant, key: Value, db2: Db)
    requires Homogeneous(db.rows) && m.nodeId.Some? && Find(db.rows, m.nodeId.value) == Some(key)
    requires NullableIdParam(db.rows[key].parent, cfg, variant).Some?
    requires IdParam(NewParentOf(m), cfg, variant).Some? && IdParam(m.nodeId.value, cfg, variant) == Some(key)
    requires ToStringParam(PositionOf(m)).Some? && NullableIdParam(m.referenceId, cfg, variant).Some?
    requires db2 == LeftOldGroup(Reparented(db, key, m, cfg, variant), db.rows[key].parent, m, cfg, variant).db
    ensures Homogeneous(db2.rows) && db2.rows.Keys == db.rows.Keys
    ensures db2.rows[key].parent == StoredParent(NewParentOf(m), cfg, variant)
    ensures forall k :: k in db.rows ==> (db2.rows[k].parent == if k == key then StoredParent(NewParentOf(m), cfg, variant) else db.rows[k].parent)
    ensures Step(db, m, cfg, variant)
      == InsertStep(db2, IdParam(NewParentOf(m), cfg, variant).value, key, ToStringParam(PositionOf(m)).value,
                    NullableIdParam(m.referenceId, cfg, variant).value, cfg, variant)
  {
    var db1 := Reparented(db, key, m, cfg, variant);
    LeftOldGroupCompletes(db1, db.rows[key].parent, m, cfg, variant);
  }

  /** Corrected, text keys: an insert into the group that holds the node completes and keeps parents. */
  lemma TextInsertOfPresentNode(db: Db, p: Value, key: Value, position: string, referenceId: Value, cfg: Config)
    requires cfg == Config(Null, false) && Typed(db.rows, false)
    requires forall k :: k in db.rows ==> ParseDecimal(k.s).None?
    requires key in db.rows && InGroup(db.rows[key].parent, NewGroup(p, cfg, Corrected), Null)
    ensures var e := InsertStep(db, p, key, position, referenceId, cfg, Corrected);
      e.outcome == Completed && forall k :: k in db.rows ==> e.db.rows[k].parent == db.rows[k].parent
  {
    var s := Siblings(db.rows, NewGroup(p, cfg, Corrected), Null);
    SiblingsInRows(db.rows, NewGroup(p, cfg, Corrected), Null);
    assert forall i :: 0 <= i < |s| ==> s[i].Str? && ParseDecimal(s[i].s).None?;
    StrKeysLooseIsStrict(s, key.s);
    InsertOfPresentNode(db, p, key, position, referenceId, cfg, Corrected);
    InsertKeepsParents(db, p, key, position, referenceId, cfg, Corrected);
  }

  lemma TextGroupHoldsNode(newParentId: Value, p: Value, parent: Value, cfg: Config)
    requires cfg == Config(Null, false)
    requires newParentId == Str("-1") || (newParentId.Str? && ParseDecimal(newParentId.s).None? && newParentId.s != "")
    requires IdParam(newParentId, cfg, Corrected) == Some(p)
    requires parent == if newParentId == Str("-1") then Null else newParentId
    ensures InGroup(parent, NewGroup(p, cfg, Corrected), Null)
  {
  }

  // ---------------------------------------------------------------------------
  // The corrected variant against the source

  lemma ReorderSiblingsAgreesForIntKeys(db: Db, parentId: Value, cfg: Config)
    requires Homogeneous(db.rows) && cfg.intColumns
    ensures ReorderSiblingsStep(db, parentId, cfg, Corrected) == ReorderSiblingsStep(db, parentId, cfg, AsWritten)
  {
    var p := NullableIdParam(parentId, cfg, AsWritten);
    assert NullableIdParam(parentId, cfg, Corrected) == p;
    if p.Some? {
      assert OldGroup(p.value, cfg, Corrected) == OldGroup(p.value, cfg, AsWritten);
    }
  }

  lemma InsertAgreesForIntKeys(db: Db, parentId: int, node: Value, position: string, referenceId: Value, cfg: Config)
    requires Homogeneous(db.rows)
    ensures InsertStep(db, Int(parentId), node, position, referenceId, cfg, Corrected)
      == InsertStep(db, Int(parentId), node, position, referenceId, cfg, AsWritten)
  {
    assert NewGroup(Int(parentId), cfg, Corrected) == NewGroup(Int(parentId), cfg, AsWritten);
  }

  /** For an integer-keyed table the two variants differ only on the string "-1". */
  lemma CorrectedAgreesForIntKeys(db: Db, m: MoveData, cfg: Config)
    requires Homogeneous(db.rows) && cfg.intColumns && NewParentOf(m) != Str("-1")
    ensures Step(db, m, cfg, Corrected) == Step(db, m, cfg, AsWritten)
  {
    if m.nodeId.Some? {
      match Find(db.rows, m.nodeId.value)
      case None =>
      case Some(key) =>
        assert Reparented(db, key, m, cfg, Corrected) == Reparented(db, key, m, cfg, AsWritten);
        var db1 := Reparented(db, key, m, cfg, AsWritten);
        ReorderSiblingsAgreesForIntKeys(db1, db.rows[key].parent, cfg);
        var e2 := LeftOldGroup(db1, db.rows[key].parent, m, cfg, AsWritten);
        assert LeftOldGroup(db1, db.rows[key].parent, m, cfg, Corrected) == e2;
        PlacedAgreesForIntKeys(e2.db, m, cfg);
    }
  }

  lemma PlacedAgreesForIntKeys(db: Db, m: MoveData, cfg: Config)
    requires Homogeneous(db.rows) && cfg.intColumns && m.nodeId.Some?
    ensures Placed(db, m, cfg, Corrected) == Placed(db, m, cfg, AsWritten)
  {
    var p := IdParam(NewParentOf(m), cfg, AsWritten);
    var n := IdParam(m.nodeId.value, cfg, AsWritten);
    var pos := ToStringParam(PositionOf(m));
    var ref := NullableIdParam(m.referenceId, cfg, AsWritten);
    assert IdParam(NewParentOf(m), cfg, Corrected) == p;
    assert IdParam(m.nodeId.value, cfg, Corrected) == n;
    assert NullableIdParam(m.referenceId, cfg, Corrected) == ref;
    if p.Some? && n.Some? && pos.Some? && ref.Some? {
      InsertAgreesForIntKeys(db, p.value.i, n.value, pos.value, ref.value, cfg);
    }
  }

  /** The same for a whole batch. */
  lemma {:induction false} RunCorrectedAgreesForIntKeys(db: Db, moves: seq<MoveData>, cfg: Config)
    requires Homogeneous(db.rows) && cfg.intColumns
    requires forall i :: 0 <= i < |moves| ==> NewParentOf(moves[i]) != Str("-1")
    ensures Run(db, moves, cfg, Corrected) == Run(db, moves, cfg, AsWritten)
    decreases |moves|
  {
    if moves != [] {
      CorrectedAgreesForIntKeys(db, moves[0], cfg);
      var e := Step(db, moves[0], cfg, AsWritten);
      if e.outcome == Completed {
        RunCorrectedAgreesForIntKeys(e.db, moves[1..], cfg);
      }
    }
  }

  // ---------------------------------------------------------------------------
  // One move and one batch from end to end: sibling orders stay dense

  /**
   * An auto-increment table whose parent column holds null for the root level:
   * positive integer keys, and every parent pointer null or a positive integer.
   */
  predicate PositiveTree(rows: Rows)
  {
    forall k :: k in rows ==> k.Int? && k.i > 0 && (rows[k].parent == Null || (rows[k].parent.Int? && rows[k].parent.i > 0))
  }

  /** The records whose parent pointer is `p`. */
  function Members(rows: Rows, p: Value): (ks: set<Value>)
    ensures ks <= rows.Keys
  {
    set k | k in rows && rows[k].parent == p
  }

  /** The orders of `ks` are exactly 1..|ks|: each in range, no two equal. */
  predicate DenseSet(rows: Rows, ks: set<Value>)
    requires ks <= rows.Keys
  {
    (forall k :: k in ks ==> 1 <= rows[k].order <= |ks|)
    && (forall a, b :: a in ks && b in ks && rows[a].order == rows[b].order ==> a == b)
  }

  /** Every sibling group of the table is dense. */
  predicate AllDense(rows: Rows)
  {
    forall k :: k in rows ==> DenseSet(rows, Members(rows, rows[k].parent))
  }

  /** The group a stored parent pointer puts a record in. */
  function GroupOfParent(v: Value): Group
  {
    if v == Null then RootGroup else ChildrenOf(v)
  }

  /**
   * A move as the client sends it: the node id is present, the new parent is the
   * root marker or a positive id, the position is one of the three the client
   * uses, and the reference binds to `?int`.
   */
  predicate WellFormedMove(m: MoveData, variant: Variant)
  {
    var np := NewParentOf(m);
    && m.nodeId.Some?
    && (IsClientRoot(np, variant) || ((np.Int? || np.Str?) && ToIntParam(np).Some? && ToIntParam(np).value > 0))
    && (PositionOf(m) == Str("before") || PositionOf(m) == Str("after") || PositionOf(m) == Str("inside"))
    && ToNullableIntParam(m.referenceId).Some?
  }

  /** The table after the moved node's parent is saved and the group it left is renumbered. */
  function Detached(db: Db, m: MoveData, cfg: Config, variant: Variant, key: Value): (r: Db)
    requires Homogeneous(db.rows) && key in db.rows
    ensures r.rows.Keys == db.rows.Keys
  {
    LeftOldGroup(Reparented(db, key, m, cfg, variant), db.rows[key].parent, m, cfg, variant).db
  }

  /** The `$newOrder` the insert of a well-formed move builds on the detached table. */
  function InsertedOrder(db: Db, m: MoveData, cfg: Config, variant: Variant, key: Value): seq<Option<Value>>
    requires Homogeneous(db.rows) && key in db.rows && WellFormedMove(m, variant)
  {
    var rows2 := Detached(db, m, cfg, variant, key).rows;
    var g := GroupOfParent(StoredParent(NewParentOf(m), cfg, variant));
    NewOrder(Siblings(rows2, g, cfg.rootValue), key, PositionOf(m).s, ToNullableIntParam(m.referenceId).value)
  }

  /** A duplicate-free sequence has as many entries as the set of its elements. */
  lemma {:induction false} DistinctCard(s: seq<Value>, ks: set<Value>)
    requires Distinct(s) && forall y :: y in s <==> y in ks
    ensures |s| == |ks|
    decreases |s|
  {
    if s != [] {
      assert s[0] !in s[1..] by {
        forall i | 0 <= i < |s[1..]|
          ensures s[1..][i] != s[0]
        {
          assert s[1..][i] == s[i + 1];
        }
      }
      forall y
        ensures y in s[1..] <==> y in ks - {s[0]}
      {
        if y in s && y != s[0] {
          var i :| 0 <= i < |s| && s[i] == y;
          assert s[1..][i - 1] == y;
        }
      }
      DistinctCard(s[1..], ks - {s[0]});
    } else {
      assert forall y :: y !in ks;
      assert ks == {};
    }
  }

  /** Orders 1..N along a duplicate-free listing of a group make the group dense. */
  lemma DenseFromListing(rows: Rows, ks: set<Value>, s: seq<Value>)
    requires ks <= rows.Keys && Distinct(s) && (forall y :: y in s <==> y in ks)
    requires forall i :: 0 <= i < |s| ==> rows[s[i]].order == i + 1
    ensures DenseSet(rows, ks)
  {
    DistinctCard(s, ks);
    forall k | k in ks
      ensures 1 <= rows[k].order <= |ks|
    {
      var i :| 0 <= i < |s| && s[i] == k;
    }
    forall a, b | a in ks && b in ks && rows[a].order == rows[b].order
      ensures a == b
    {
      var i :| 0 <= i < |s| && s[i] == a;
      var j :| 0 <= j < |s| && s[j] == b;
    }
  }

  /** For null-or-integer parent pointers, a group's query selects the records with that pointer. */
  lemma GroupIsMembers(rows: Rows, v: Value)
    requires forall k :: k in rows ==> rows[k].parent == Null || rows[k].parent.Int?
    requires v == Null || v.Int?
    ensures GroupKeys(rows, GroupOfParent(v), Null) == Members(rows, v)
  {
  }

  /** A well-formed move binds its ids, and its new group is the one its stored parent selects. */
  lemma WellFormedBinds(db: Db, m: MoveData, cfg: Config, variant: Variant, key: Value)
    requires cfg == Config(Null, true) && PositiveTree(db.rows) && WellFormedMove(m, variant)
    requires m.nodeId.Some? && Find(db.rows, m.nodeId.value) == Some(key)
    ensures IdParam(m.nodeId.value, cfg, variant) == Some(key)
    ensures NullableIdParam(db.rows[key].parent, cfg, variant) == Some(db.rows[key].parent)
    ensures OldGroup(db.rows[key].parent, cfg, variant) == GroupOfParent(db.rows[key].parent)
    ensures IdParam(NewParentOf(m), cfg, variant).Some?
    ensures NewGroup(IdParam(NewParentOf(m), cfg, variant).value, cfg, variant)
      == GroupOfParent(StoredParent(NewParentOf(m), cfg, variant))
    ensures var sp := StoredParent(NewParentOf(m), cfg, variant); sp == Null || (sp.Int? && sp.i > 0)
    ensures ToStringParam(PositionOf(m)) == Some(PositionOf(m).s)
    ensures NullableIdParam(m.referenceId, cfg, variant) == ToNullableIntParam(m.referenceId)
  {
    ParseMinusOne();
  }

  /** Renumbering the group of parent pointer `op` makes it dense and changes nothing else. */
  lemma RenumberedGroupDense(db: Db, op: Value)
    requires forall k :: k in db.rows ==> k.Int? && (db.rows[k].parent == Null || db.rows[k].parent.Int?)
    requires op == Null || op.Int?
    ensures var r := RenumberGroup(db, GroupOfParent(op), Config(Null, true)).rows;
      DenseSet(r, Members(r, op))
    ensures var r := RenumberGroup(db, GroupOfParent(op), Config(Null, true)).rows;
      forall k :: k in db.rows && db.rows[k].parent != op ==> r[k] == db.rows[k]
    ensures var r := RenumberGroup(db, GroupOfParent(op), Config(Null, true)).rows;
      forall k :: k in db.rows ==> r[k].parent == db.rows[k].parent
  {
    var ks := Members(db.rows, op);
    GroupIsMembers(db.rows, op);
    DenseRenumbering(db.rows, ks);
    var s := SortedKeys(db.rows, ks);
    SortedIsDistinct(db.rows, s);
    var r := Renumbered(db.rows, s);
    assert Members(r, op) == ks;
    DenseFromListing(r, ks, s);
  }

  /**
   * Leaving the old group: the saved parent pointer is the only pointer that
   * changes, and when the node really changed group the group it left is dense
   * and nothing outside it changed.
   */
  lemma DetachedFacts(db: Db, m: MoveData, cfg: Config, variant: Variant, key: Value, rows2: Rows)
    requires cfg == Config(Null, true) && PositiveTree(db.rows) && WellFormedMove(m, variant)
    requires m.nodeId.Some? && Find(db.rows, m.nodeId.value) == Some(key) && rows2 == Detached(db, m, cfg, variant, key).rows
    ensures LeftOldGroup(Reparented(db, key, m, cfg, variant), db.rows[key].parent, m, cfg, variant).outcome == Completed
    ensures rows2[key].parent == StoredParent(NewParentOf(m), cfg, variant)
    ensures forall k :: k in db.rows && k != key ==> rows2[k].parent == db.rows[k].parent
    ensures db.rows[key].parent != StoredParent(NewParentOf(m), cfg, variant) ==>
      DenseSet(rows2, Members(rows2, db.rows[key].parent))
    ensures forall k :: k in db.rows && k != key && db.rows[k].parent != db.rows[key].parent ==> rows2[k] == db.rows[k]
  {
    WellFormedBinds(db, m, cfg, variant, key);
    var np, op := NewParentOf(m), db.rows[key].parent;
    var db1 := Reparented(db, key, m, cfg, variant);
    LeftOldGroupCompletes(db1, op, m, cfg, variant);
    if op != np {
      assert LeftOldGroup(db1, op, m, cfg, variant).db == RenumberGroup(db1, GroupOfParent(op), cfg);
      RenumberedGroupDense(db1, op);
    }
  }

  /** An element of a sequence other than the one at `j` is among the others. */
  lemma InOthers(s: seq<Value>, j: nat, y: Value)
    requires j < |s| && y in s && y != s[j]
    ensures y in s[..j] + s[j + 1..]
  {
    var i :| 0 <= i < |s| && s[i] == y;
    if i < j {
      assert (s[..j] + s[j + 1..])[i] == y;
    } else {
      assert (s[..j] + s[j + 1..])[i - 1] == y;
    }
  }

  /**
   * The insert into the group the node's stored parent selects completes; that
   * group ends up listed exactly by `$newOrder`, numbered 1..N in its sequence,
   * and no record outside it and no parent pointer changes.
   */
  lemma InsertPlacesGroup(db: Db, p: Value, key: Value, pos: string, ref: Value, variant: Variant, sp: Value)
    requires forall k :: k in db.rows ==> k.Int? && (db.rows[k].parent == Null || db.rows[k].parent.Int?)
    requires (sp == Null || sp.Int?) && NewGroup(p, Config(Null, true), variant) == GroupOfParent(sp)
    requires key in db.rows && db.rows[key].parent == sp
    requires (pos == "before" || pos == "after" || pos == "inside") && (ref == Null || ref.Int?)
    ensures InsertStep(db, p, key, pos, ref, Config(Null, true), variant).outcome == Completed
    ensures var r := InsertStep(db, p, key, pos, ref, Config(Null, true), variant).db.rows;
      var items := NewOrder(Siblings(db.rows, GroupOfParent(sp), Null), key, pos, ref);
      forall i :: 0 <= i < |items| ==> items[i].Some? && items[i].value in r && r[items[i].value].order == i + 1
    ensures var r := InsertStep(db, p, key, pos, ref, Config(Null, true), variant).db.rows;
      var items := NewOrder(Siblings(db.rows, GroupOfParent(sp), Null), key, pos, ref);
      forall k :: k in Members(r, sp) <==> Some(k) in items
    ensures var r := InsertStep(db, p, key, pos, ref, Config(Null, true), variant).db.rows;
      DenseSet(r, Members(r, sp))
    ensures var r := InsertStep(db, p, key, pos, ref, Config(Null, true), variant).db.rows;
      forall k :: k in db.rows ==> r[k].parent == db.rows[k].parent
    ensures var r := InsertStep(db, p, key, pos, ref, Config(Null, true), variant).db.rows;
      forall k :: k in db.rows && db.rows[k].parent != sp ==> r[k] == db.rows[k]
  {
    var cfg := Config(Null, true);
    var g := GroupOfParent(sp);
    var s := Siblings(db.rows, g, Null);
    GroupIsMembers(db.rows, sp);
    SiblingsInRows(db.rows, g, Null);
    SortedIsDistinct(db.rows, s);
    assert key in s;
    IntKeysLooseIsStrict(s, key.i);
    var j :| 0 <= j < |s| && s[j] == key;
    var others := s[..j] + s[j + 1..];
    if (pos == "before" || pos == "after") && Truthy(ref) && ref in others {
      assert GroupPlaced(db.rows, InsertStep(db, p, key, pos, ref, cfg, variant), sp, NewOrder(s, key, pos, ref)) by {
        var r :| 0 <= r < |others| && others[r] == ref;
        IntKeysLooseIsStrict(s, ref.i);
        var cut := if pos == "before" then r else r + 1;
        var placed := others[..cut] + [s[j]] + others[cut..];
        NewOrderPlacesNextTo(s, j, pos, r);
        InsertNextToReference(db, p, s, j, pos, r, cfg, variant, placed);
        PlacedGroup(db, p, key, pos, ref, variant, sp, s, placed);
      }
    } else {
      assert GroupPlaced(db.rows, InsertStep(db, p, key, pos, ref, cfg, variant), sp, NewOrder(s, key, pos, ref)) by {
        if Truthy(ref) {
          IntKeysLooseIsStrict(s, ref.i);
          if ref in s && ref != s[j] {
            InOthers(s, j, ref);
          }
        }
        var placed := s[..j] + s[j + 1..] + [s[j]];
        NewOrderPlacesLast(s, j, pos, ref);
        InsertAppends(db, p, s, j, pos, ref, cfg, variant, placed);
        PlacedGroup(db, p, key, pos, ref, variant, sp, s, placed);
      }
    }
  }

  /**
   * After the insert `e` into group `sp`: it completed, the group is listed
   * exactly by `items`, numbered 1..N along it, and dense; no parent pointer and
   * no record outside the group changed.
   */
  ghost predicate GroupPlaced(rows: Rows, e: Effect, sp: Value, items: seq<Option<Value>>)
  {
    && e.outcome == Completed
    && e.db.rows.Keys == rows.Keys
    && (forall i :: 0 <= i < |items| ==> items[i].Some? && items[i].value in e.db.rows && e.db.rows[items[i].value].order == i + 1)
    && (forall k :: k in Members(e.db.rows, sp) <==> Some(k) in items)
    && DenseSet(e.db.rows, Members(e.db.rows, sp))
    && (forall k :: k in rows ==> e.db.rows[k].parent == rows[k].parent)
    && (forall k :: k in rows && rows[k].parent != sp ==> e.db.rows[k] == rows[k])
  }

  /** The insert completed and numbered the listing `placed` of the group `s`, which `$newOrder` wraps. */
  lemma PlacedGroup(db: Db, p: Value, key: Value, pos: string, ref: Value, variant: Variant, sp: Value,
                    s: seq<Value>, placed: seq<Value>)
    requires Homogeneous(db.rows) && s == Siblings(db.rows, GroupOfParent(sp), Null)
    requires NewGroup(p, Config(Null, true), variant) == GroupOfParent(sp)
    requires forall y :: y in s <==> y in Members(db.rows, sp)
    requires Distinct(placed) && (forall y :: y in placed <==> y in s) && NewOrder(s, key, pos, ref) == Wrap(placed)
    requires var e := InsertStep(db, p, key, pos, ref, Config(Null, true), variant);
      && e.outcome == Completed
      && (forall i :: 0 <= i < |placed| ==> placed[i] in e.db.rows && e.db.rows[placed[i]].order == i + 1)
      && (forall k :: k in db.rows && k !in s ==> e.db.rows[k] == db.rows[k])
    ensures GroupPlaced(db.rows, InsertStep(db, p, key, pos, ref, Config(Null, true), variant), sp, NewOrder(s, key, pos, ref))
  {
    var cfg := Config(Null, true);
    InsertKeepsParents(db, p, key, pos, ref, cfg, variant);
    var r := InsertStep(db, p, key, pos, ref, cfg, variant).db.rows;
    ListingFacts(db.rows, r, sp, s, placed, NewOrder(s, key, pos, ref));
    forall k | k in db.rows && db.rows[k].parent != sp
      ensures r[k] == db.rows[k]
    {
      assert k !in Members(db.rows, sp);
    }
  }

  /**
   * A group listed duplicate-free by `placed` and numbered along it, in a table
   * whose parent pointers did not change: the listing is the group, and the
   * group is dense.
   */
  lemma ListingFacts(rows: Rows, r: Rows, sp: Value, s: seq<Value>, placed: seq<Value>, items: seq<Option<Value>>)
    requires r.Keys == rows.Keys && forall k :: k in rows ==> r[k].parent == rows[k].parent
    requires forall y :: y in s <==> y in Members(rows, sp)
    requires Distinct(placed) && forall y :: y in placed <==> y in s
    requires forall i :: 0 <= i < |placed| ==> placed[i] in r && r[placed[i]].order == i + 1
    requires items == Wrap(placed)
    ensures forall i :: 0 <= i < |items| ==> items[i].Some? && items[i].value in r && r[items[i].value].order == i + 1
    ensures forall k :: k in Members(r, sp) <==> Some(k) in items
    ensures DenseSet(r, Members(r, sp))
  {
    forall k
      ensures k in Members(r, sp) <==> Some(k) in items
    {
      assert k in Members(r, sp) <==> k in Members(rows, sp);
      if k in placed {
        var i :| 0 <= i < |placed| && placed[i] == k;
        assert items[i] == Some(k);
      }
      if Some(k) in items {
        var i :| 0 <= i < |items| && items[i] == Some(k);
        assert placed[i] == k;
      }
    }
    DenseFromListing(r, Members(r, sp), placed);
  }

  /** A group whose records and pointers did not change stays dense. */
  lemma DenseCarries(rows: Rows, r: Rows, v: Value)
    requires r.Keys == rows.Keys && forall k :: k in rows ==> r[k].parent == rows[k].parent
    requires forall k :: k in rows && rows[k].parent == v ==> r[k] == rows[k]
    requires DenseSet(rows, Members(rows, v))
    ensures DenseSet(r, Members(r, v))
  {
    assert Members(r, v) == Members(rows, v);
  }

  /**
   * `processSingleMove` of a well-formed move of a present record, from end to
   * end: it completes; the record's parent pointer becomes the requested parent
   * and no other pointer changes; the record's new group is exactly `$newOrder`,
   * numbered 1..N in that sequence; the group it left is numbered 1..N as well;
   * and every record outside those two groups is untouched.
   */
  lemma StepMovesNode(db: Db, m: MoveData, cfg: Config, variant: Variant, key: Value)
    requires cfg == Config(Null, true) && PositiveTree(db.rows) && WellFormedMove(m, variant)
    requires m.nodeId.Some? && Find(db.rows, m.nodeId.value) == Some(key)
    ensures Step(db, m, cfg, variant).outcome == Completed
    ensures Step(db, m, cfg, variant).db.rows[key].parent == StoredParent(NewParentOf(m), cfg, variant)
    ensures forall k :: k in db.rows && k != key ==> Step(db, m, cfg, variant).db.rows[k].parent == db.rows[k].parent
    ensures var r := Step(db, m, cfg, variant).db.rows; var items := InsertedOrder(db, m, cfg, variant, key);
      forall i :: 0 <= i < |items| ==> items[i].Some? && items[i].value in r && r[items[i].value].order == i + 1
    ensures var r := Step(db, m, cfg, variant).db.rows; var items := InsertedOrder(db, m, cfg, variant, key);
      forall k :: k in Members(r, StoredParent(NewParentOf(m), cfg, variant)) <==> Some(k) in items
    ensures var r := Step(db, m, cfg, variant).db.rows;
      DenseSet(r, Members(r, StoredParent(NewParentOf(m), cfg, variant)))
    ensures var r := Step(db, m, cfg, variant).db.rows;
      DenseSet(r, Members(r, db.rows[key].parent))
    ensures forall k ::
      (k in db.rows && k != key && db.rows[k].parent != db.rows[key].parent
       && db.rows[k].parent != StoredParent(NewParentOf(m), cfg, variant)) ==> Step(db, m, cfg, variant).db.rows[k] == db.rows[k]
  {
    WellFormedBinds(db, m, cfg, variant, key);
    var sp, op := StoredParent(NewParentOf(m), cfg, variant), db.rows[key].parent;
    var db2 := Detached(db, m, cfg, variant, key);
    DetachedFacts(db, m, cfg, variant, key, db2.rows);
    StepReachesInsert(db, m, cfg, variant, key, db2);
    var p, pos, ref := IdParam(NewParentOf(m), cfg, variant).value, PositionOf(m).s, ToNullableIntParam(m.referenceId).value;
    InsertPlacesGroup(db2, p, key, pos, ref, variant, sp);
    var r := InsertStep(db2, p, key, pos, ref, cfg, variant).db.rows;
    if op != sp {
      DenseCarries(db2.rows, r, op);
    }
  }

  /**
   * A table in which one record moved from group `op` to group `sp`: if both of
   * those groups are dense afterwards and nothing outside them changed, every
   * group that was dense still is.
   */
  lemma AllDenseAfterMove(rows: Rows, r: Rows, key: Value, op: Value, sp: Value)
    requires r.Keys == rows.Keys && key in rows && rows[key].parent == op && r[key].parent == sp
    requires forall k :: k in rows && k != key ==> r[k].parent == rows[k].parent
    requires DenseSet(r, Members(r, sp)) && DenseSet(r, Members(r, op))
    requires forall k :: (k in rows && k != key && rows[k].parent != op && rows[k].parent != sp) ==> r[k] == rows[k]
    requires AllDense(rows)
    ensures AllDense(r)
  {
    forall k | k in r
      ensures DenseSet(r, Members(r, r[k].parent))
    {
      var v := r[k].parent;
      if v != sp && v != op {
        assert k != key && rows[k].parent == v;
        UntouchedGroupDense(rows, r, key, v);
      }
    }
  }

  /** A group that neither lost nor gained the moved record, and whose rows are untouched, keeps its numbering. */
  lemma UntouchedGroupDense(rows: Rows, r: Rows, key: Value, v: Value)
    requires r.Keys == rows.Keys && key in rows && rows[key].parent != v && r[key].parent != v
    requires forall k :: k in rows && k != key ==> r[k].parent == rows[k].parent
    requires forall k :: (k in rows && k != key && rows[k].parent == v) ==> r[k] == rows[k]
    requires DenseSet(rows, Members(rows, v))
    ensures DenseSet(r, Members(r, v))
  {
    assert Members(r, v) == Members(rows, v);
  }

  /** The moved-record case of `StepKeepsAllDense`, on the resulting rows `r`. */
  lemma MovedKeepsAllDense(db: Db, m: MoveData, cfg: Config, variant: Variant, key: Value, r: Rows)
    requires cfg == Config(Null, true) && PositiveTree(db.rows) && WellFormedMove(m, variant)
    requires AllDense(db.rows) && m.nodeId.Some? && Find(db.rows, m.nodeId.value) == Some(key)
    requires r == Step(db, m, cfg, variant).db.rows
    ensures PositiveTree(r) && AllDense(r)
  {
    StepMovesNode(db, m, cfg, variant, key);
    WellFormedBinds(db, m, cfg, variant, key);
    var sp := StoredParent(NewParentOf(m), cfg, variant);
    PositiveAfterMove(db.rows, r, key, sp);
    AllDenseAfterMove(db.rows, r, key, db.rows[key].parent, sp);
  }

  /** Re-pointing one record of a positive-keyed table at the root or a positive id keeps it positive-keyed. */
  lemma PositiveAfterMove(rows: Rows, r: Rows, key: Value, sp: Value)
    requires PositiveTree(rows) && r.Keys == rows.Keys && key in rows && r[key].parent == sp
    requires sp == Null || (sp.Int? && sp.i > 0)
    requires forall k :: k in rows && k != key ==> r[k].parent == rows[k].parent
    ensures PositiveTree(r)
  {
  }

  /** One well-formed move keeps an auto-increment table well formed and all its groups dense. */
  lemma StepKeepsAllDense(db: Db, m: MoveData, cfg: Config, variant: Variant)
    requires cfg == Config(Null, true) && PositiveTree(db.rows) && WellFormedMove(m, variant)
    requires AllDense(db.rows)
    ensures Step(db, m, cfg, variant).outcome == Completed
    ensures PositiveTree(Step(db, m, cfg, variant).db.rows) && AllDense(Step(db, m, cfg, variant).db.rows)
  {
    match Find(db.rows, m.nodeId.value)
    case None =>
      StepMissingNode(db, m, cfg, variant);
    case Some(key) =>
      StepMovesNode(db, m, cfg, variant, key);
      MovedKeepsAllDense(db, m, cfg, variant, key, Step(db, m, cfg, variant).db.rows);
  }

  /**
   * `reorderTree` on a batch of well-formed moves over an auto-increment table
   * whose sibling groups are dense: every move completes, so the batch does,
   * and every group is still dense afterwards.
   */
  lemma {:induction false} RunKeepsAllDense(db: Db, moves: seq<MoveData>, cfg: Config, variant: Variant)
    requires cfg == Config(Null, true) && PositiveTree(db.rows) && AllDense(db.rows)
    requires forall i :: 0 <= i < |moves| ==> WellFormedMove(moves[i], variant)
    ensures Run(db, moves, cfg, variant).outcome == Completed
    ensures PositiveTree(Run(db, moves, cfg, variant).db.rows) && AllDense(Run(db, moves, cfg, variant).db.rows)
    decreases |moves|
  {
    if moves != [] {
      StepKeepsAllDense(db, moves[0], cfg, variant);
      var e := Step(db, moves[0], cfg, variant);
      assert forall i :: 0 <= i < |moves[1..]| ==> moves[1..][i] == moves[i + 1];
      RunKeepsAllDense(e.db, moves[1..], cfg, variant);
    }
  }
}
