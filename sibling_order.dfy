/**
 * The tree table as the server-side move processor reads and writes it, and the
 * pure parts of its sibling ordering: the `(order, id)` sort of a sibling group,
 * dense renumbering 1..N, and splicing the moved node next to a reference sibling.
 */
module SiblingOrder {
  import opened PhpValues

  /** One record of the tree table: its parent pointer and its `order` column. */
  datatype Row = Row(parent: Value, order: int)

  /** The records visible through the tree query, by primary key. */
  type Rows = map<Value, Row>

  /** A table's primary keys are all integers or all strings (a column has one type). */
  predicate Homogeneous(rows: Rows)
  {
    (forall k :: k in rows ==> k.Int?) || (forall k :: k in rows ==> k.Str?)
  }

  // ---------------------------------------------------------------------------
  // Looking a record up by id (`find`)

  lemma SqlMatchUnique(rows: Rows, id: Value)
    requires Homogeneous(rows)
    ensures forall a, b :: a in rows && b in rows && SqlEq(a, id) && SqlEq(b, id) ==> a == b
  {
  }

  /** `find($id)`: the record whose key the database matches with `id`, if any. */
  function Find(rows: Rows, id: Value): (r: Option<Value>)
    requires Homogeneous(rows)
    ensures r.Some? ==> r.value in rows && SqlEq(r.value, id)
    ensures r.None? ==> forall k :: k in rows ==> !SqlEq(k, id)
  {
    if exists k :: k in rows && SqlEq(k, id) then
      SqlMatchUnique(rows, id);
      var k :| k in rows && SqlEq(k, id);
      Some(k)
    else
      None
  }

  // ---------------------------------------------------------------------------
  // Sibling groups and their `ORDER BY order, id` sequence

  /** Which sibling group a query selects: the root level, or the children of a parent id. */
  datatype Group = RootGroup | ChildrenOf(parentId: Value)

  /**
   * Whether a parent pointer belongs to the group: `whereNull` when the model's root
   * value is null, otherwise `where(parent, value)`.
   */
  predicate InGroup(parent: Value, g: Group, rootValue: Value)
  {
    match g
    case RootGroup => if rootValue == Null then parent == Null else SqlEq(parent, rootValue)
    case ChildrenOf(p) => SqlEq(parent, p)
  }

  function GroupKeys(rows: Rows, g: Group, rootValue: Value): (ks: set<Value>)
    ensures ks <= rows.Keys
  {
    set k | k in rows && InGroup(rows[k].parent, g, rootValue)
  }

  /** `a` sorts strictly before `b` under `ORDER BY order, id`. */
  predicate Before(rows: Rows, a: Value, b: Value)
    requires a in rows && b in rows
  {
    rows[a].order < rows[b].order || (rows[a].order == rows[b].order && KeyLess(a, b))
  }

  lemma BeforeIrreflexive(rows: Rows, a: Value)
    requires a in rows
    ensures !Before(rows, a, a)
  {
    KeyLessIrreflexive(a);
  }

  lemma BeforeTransitive(rows: Rows, a: Value, b: Value, c: Value)
    requires a in rows && b in rows && c in rows
    requires Before(rows, a, b) && Before(rows, b, c)
    ensures Before(rows, a, c)
  {
    if rows[a].order == rows[b].order == rows[c].order {
      KeyLessTransitive(a, b, c);
    }
  }

  lemma BeforeAsymmetric(rows: Rows, a: Value, b: Value)
    requires a in rows && b in rows && Before(rows, a, b)
    ensures !Before(rows, b, a)
  {
    if Before(rows, b, a) {
      BeforeTransitive(rows, a, b, a);
      BeforeIrreflexive(rows, a);
    }
  }

  lemma BeforeConnected(rows: Rows, a: Value, b: Value)
    requires a in rows && b in rows && IsKey(a) && IsKey(b) && a != b
    ensures Before(rows, a, b) || Before(rows, b, a)
  {
    KeyLessConnected(a, b);
  }

  predicate IsLeast(rows: Rows, m: Value, ks: set<Value>)
    requires ks <= rows.Keys
  {
    m in ks && forall k :: k in ks && k != m ==> Before(rows, m, k)
  }

  lemma LeastExists(rows: Rows, ks: set<Value>)
    requires ks != {} && ks <= rows.Keys && forall k :: k in ks ==> IsKey(k)
    ensures exists m :: IsLeast(rows, m, ks)
    decreases |ks|
  {
    var x :| x in ks;
    if ks == {x} {
      assert IsLeast(rows, x, ks);
    } else {
      var rest := ks - {x};
      LeastExists(rows, rest);
      var m :| IsLeast(rows, m, rest);
      if Before(rows, x, m) {
        forall k | k in ks && k != x
          ensures Before(rows, x, k)
        {
          if k != m {
            BeforeTransitive(rows, x, m, k);
          }
        }
        assert IsLeast(rows, x, ks);
      } else {
        BeforeConnected(rows, x, m);
        assert IsLeast(rows, m, ks);
      }
    }
  }

  lemma LeastUnique(rows: Rows, ks: set<Value>)
    requires ks <= rows.Keys
    ensures forall a, b :: IsLeast(rows, a, ks) && IsLeast(rows, b, ks) ==> a == b
  {
    forall a, b | IsLeast(rows, a, ks) && IsLeast(rows, b, ks)
      ensures a == b
    {
      if a != b {
        BeforeAsymmetric(rows, a, b);
      }
    }
  }

  /**
   * The keys `ks` in `ORDER BY order, id` sequence: every key exactly once, each
   * strictly before the next.
   */
  function SortedKeys(rows: Rows, ks: set<Value>): (r: seq<Value>)
    requires ks <= rows.Keys && forall k :: k in ks ==> IsKey(k)
    ensures |r| == |ks|
    ensures forall k :: k in r <==> k in ks
    ensures forall i, j {:trigger Before(rows, r[i], r[j])} :: 0 <= i < j < |r| ==> Before(rows, r[i], r[j])
    decreases |ks|
  {
    if ks == {} then []
    else
      LeastExists(rows, ks);
      LeastUnique(rows, ks);
      var m :| IsLeast(rows, m, ks);
      [m] + SortedKeys(rows, ks - {m})
  }

  /** The sibling query of the move processor: the group's keys, sorted. */
  function Siblings(rows: Rows, g: Group, rootValue: Value): seq<Value>
    requires Homogeneous(rows)
  {
    SortedKeys(rows, GroupKeys(rows, g, rootValue))
  }

  predicate Distinct(s: seq<Value>)
  {
    forall i, j :: 0 <= i < j < |s| ==> s[i] != s[j]
  }

  lemma SortedIsDistinct(rows: Rows, s: seq<Value>)
    requires forall i :: 0 <= i < |s| ==> s[i] in rows
    requires forall i, j :: 0 <= i < j < |s| ==> Before(rows, s[i], s[j])
    ensures Distinct(s)
  {
    forall i, j | 0 <= i < j < |s|
      ensures s[i] != s[j]
    {
      if s[i] == s[j] {
        BeforeIrreflexive(rows, s[i]);
      }
    }
  }

  // ---------------------------------------------------------------------------
  // Dense renumbering (`$order = 1; foreach ... $order++`)

  predicate AllIn(rows: Rows, keys: seq<Value>)
  {
    forall i :: 0 <= i < |keys| ==> keys[i] in rows
  }

  /** The table after `order` of `keys[i]` was set to `i + 1`, one key after the other. */
  function Renumbered(rows: Rows, keys: seq<Value>): (r: Rows)
    requires AllIn(rows, keys)
    ensures r.Keys == rows.Keys
    decreases |keys|
  {
    if keys == [] then rows
    else
      var r := Renumbered(rows, keys[..|keys| - 1]);
      var k := keys[|keys| - 1];
      r[k := r[k].(order := |keys|)]
  }

  /** The keys `save()` is called for: those whose `order` was not already their position. */
  function Writes(rows: Rows, keys: seq<Value>): seq<Value>
    requires AllIn(rows, keys)
    decreases |keys|
  {
    if keys == [] then []
    else
      var prefix := keys[..|keys| - 1];
      var k := keys[|keys| - 1];
      Writes(rows, prefix) + (if Renumbered(rows, prefix)[k].order != |keys| then [k] else [])
  }

  /** One pass of the renumbering loop: the next key gets the next order, and is saved if that changed it. */
  lemma RenumberedStep(rows: Rows, keys: seq<Value>, i: nat)
    requires AllIn(rows, keys) && i < |keys|
    ensures AllIn(rows, keys[..i]) && AllIn(rows, keys[..i + 1])
    ensures var r := Renumbered(rows, keys[..i]);
      && keys[i] in r
      && Renumbered(rows, keys[..i + 1]) == r[keys[i] := r[keys[i]].(order := i + 1)]
      && Writes(rows, keys[..i + 1]) == Writes(rows, keys[..i]) + (if r[keys[i]].order != i + 1 then [keys[i]] else [])
  {
    assert keys[..i + 1][..i] == keys[..i];
  }

  /**
   * The body of the renumbering loop takes the table renumbered up to `i` to the
   * table renumbered up to `i + 1`: it writes `keys[i]` only if its order differs.
   */
  lemma RenumberLoopStep(rows0: Rows, keys: seq<Value>, i: nat, rows: Rows)
    requires AllIn(rows0, keys) && i < |keys|
    requires rows == Renumbered(rows0, keys[..i])
    ensures AllIn(rows0, keys[..i + 1]) && keys[i] in rows
    ensures rows[keys[i]].order != i + 1 ==>
      Renumbered(rows0, keys[..i + 1]) == rows[keys[i] := rows[keys[i]].(order := i + 1)]
      && Writes(rows0, keys[..i + 1]) == Writes(rows0, keys[..i]) + [keys[i]]
    ensures rows[keys[i]].order == i + 1 ==>
      Renumbered(rows0, keys[..i + 1]) == rows && Writes(rows0, keys[..i + 1]) == Writes(rows0, keys[..i])
  {
    RenumberedStep(rows0, keys, i);
    if rows[keys[i]].order == i + 1 {
      assert rows[keys[i] := rows[keys[i]].(order := i + 1)] == rows;
    }
  }

  /** Renumbering gives the key at position i order i + 1 and leaves everything else alone. */
  lemma {:induction false} RenumberedAt(rows: Rows, keys: seq<Value>)
    requires AllIn(rows, keys) && Distinct(keys)
    ensures forall i :: 0 <= i < |keys| ==> Renumbered(rows, keys)[keys[i]] == rows[keys[i]].(order := i + 1)
    ensures forall k :: k in rows && k !in keys ==> Renumbered(rows, keys)[k] == rows[k]
    decreases |keys|
  {
    if keys != [] {
      var n := |keys| - 1;
      var prefix, last := keys[..n], keys[n];
      RenumberedAt(rows, prefix);
      var r0 := Renumbered(rows, prefix);
      var r := Renumbered(rows, keys);
      assert r == r0[last := r0[last].(order := n + 1)];
      assert last !in prefix by {
        forall i | 0 <= i < n
          ensures prefix[i] != last
        {
          assert prefix[i] == keys[i];
        }
      }
      forall i | 0 <= i < |keys|
        ensures r[keys[i]] == rows[keys[i]].(order := i + 1)
      {
        if i < n {
          assert prefix[i] == keys[i];
        }
      }
      forall k | k in rows && k !in keys
        ensures r[k] == rows[k]
      {
        assert k !in prefix;
      }
    }
  }

  /** Exactly the keys whose order differs from their position are written. */
  lemma {:induction false} WritesAreChanges(rows: Rows, keys: seq<Value>)
    requires AllIn(rows, keys) && Distinct(keys)
    ensures forall i :: 0 <= i < |keys| ==> (keys[i] in Writes(rows, keys) <==> rows[keys[i]].order != i + 1)
    ensures forall k :: k in Writes(rows, keys) ==> k in keys
    decreases |keys|
  {
    if keys != [] {
      var n := |keys| - 1;
      var prefix, last := keys[..n], keys[n];
      WritesAreChanges(rows, prefix);
      RenumberedAt(rows, prefix);
      var w0 := Writes(rows, prefix);
      var w := Writes(rows, keys);
      assert last !in prefix by {
        forall i | 0 <= i < n
          ensures prefix[i] != last
        {
          assert prefix[i] == keys[i];
        }
      }
      assert Renumbered(rows, prefix)[last] == rows[last];
      assert w == w0 + if rows[last].order != n + 1 then [last] else [];
      assert last !in w0;
      forall i | 0 <= i < |keys|
        ensures keys[i] in w <==> rows[keys[i]].order != i + 1
      {
        if i < n {
          assert prefix[i] == keys[i];
          assert keys[i] != last;
        }
      }
      assert forall k :: k in prefix ==> k in keys;
    }
  }

  /**
   * Renumbering a whole group in its `(order, id)` sequence gives the key at
   * position i order i + 1 (so the orders are exactly 1..N), keeps the prior
   * relative order, and touches no other record and no parent pointer.
   */
  lemma DenseRenumbering(rows: Rows, ks: set<Value>)
    requires ks <= rows.Keys && forall k :: k in ks ==> IsKey(k)
    ensures var s := SortedKeys(rows, ks); var r := Renumbered(rows, s);
      && (forall i :: 0 <= i < |s| ==> r[s[i]].order == i + 1)
      && (forall k :: k in ks ==> 1 <= r[k].order <= |ks|)
      && (forall k :: k in rows ==> r[k].parent == rows[k].parent)
      && (forall k :: k in rows && k !in ks ==> r[k] == rows[k])
  {
    var s := SortedKeys(rows, ks);
    SortedIsDistinct(rows, s);
    RenumberedAt(rows, s);
    var r := Renumbered(rows, s);
    forall k | k in rows
      ensures r[k].parent == rows[k].parent && (k in ks ==> 1 <= r[k].order <= |ks|)
    {
      if k in ks {
        var i :| 0 <= i < |s| && s[i] == k;
        assert r[k] == rows[k].(order := i + 1);
      }
    }
  }

  /** Renumbering in `(order, id)` sequence keeps the group's relative order. */
  lemma RenumberingKeepsOrder(rows: Rows, ks: set<Value>, a: Value, b: Value)
    requires ks <= rows.Keys && forall k :: k in ks ==> IsKey(k)
    requires a in ks && b in ks && Before(rows, a, b)
    ensures var r := Renumbered(rows, SortedKeys(rows, ks)); r[a].order < r[b].order
  {
    var s := SortedKeys(rows, ks);
    SortedIsDistinct(rows, s);
    RenumberedAt(rows, s);
    var i :| 0 <= i < |s| && s[i] == a;
    var j :| 0 <= j < |s| && s[j] == b;
    if j < i {
      BeforeAsymmetric(rows, b, a);
    } else if i == j {
      BeforeIrreflexive(rows, a);
    }
  }

  // ---------------------------------------------------------------------------
  // Splicing the moved node into its new group (`$newOrder`)

  /** No element before index `i` is loosely equal to `v`. */
  predicate NoneBefore(s: seq<Value>, i: int, v: Value)
    requires i <= |s|
  {
    forall j :: 0 <= j < i ==> !LooseEq(s[j], v)
  }

  /** `x` is the element at the first index of `s` holding an element loosely equal to `v`. */
  predicate IsFirstMatch(s: seq<Value>, v: Value, x: Value)
  {
    exists i :: 0 <= i < |s| && x == s[i] && LooseEq(s[i], v) && NoneBefore(s, i, v)
  }

  /** `$collection->firstWhere('id', $v)`: the first element loosely equal to `v`. */
  function FirstWhere(s: seq<Value>, v: Value): (r: Option<Value>)
    ensures r.Some? ==> IsFirstMatch(s, v, r.value)
    ensures r.None? ==> forall i {:trigger LooseEq(s[i], v)} :: 0 <= i < |s| ==> !LooseEq(s[i], v)
    decreases |s|
  {
    if s == [] then None
    else if LooseEq(s[0], v) then Some(s[0])
    else FirstWhere(s[1..], v)
  }

  /** `$collection->reject(fn ($item) => $item->id === $v)`. */
  function Reject(s: seq<Value>, v: Value): (r: seq<Value>)
    ensures forall x :: x in r <==> x in s && x != v
    decreases |s|
  {
    if s == [] then [] else (if s[0] == v then [] else [s[0]]) + Reject(s[1..], v)
  }

  /** The sibling records, as entries of `$newOrder`. */
  function Wrap(s: seq<Value>): (r: seq<Option<Value>>)
    ensures |r| == |s| && forall i :: 0 <= i < |s| ==> r[i] == Some(s[i])
  {
    seq(|s|, i requires 0 <= i < |s| => Some(s[i]))
  }

  /**
   * The `foreach ($otherSiblings ...)` loop: every sibling in turn, with `moved`
   * emitted just before (position `before`) or just after (position `after`)
   * each sibling strictly equal to `ref`.
   */
  function Spliced(others: seq<Value>, moved: Option<Value>, position: string, ref: Value): seq<Option<Value>>
  {
    SpliceFrom(others, 0, moved, PlaceOf(position), ref)
  }

  /** Where `$position` puts the moved node relative to the reference sibling. */
  datatype Place = BeforeRef | AfterRef | NotNextToRef

  function PlaceOf(position: string): Place
  {
    if position == "before" then BeforeRef else if position == "after" then AfterRef else NotNextToRef
  }

  /** What that loop appends from the sibling at index `i` on. */
  function SpliceFrom(others: seq<Value>, i: nat, moved: Option<Value>, place: Place, ref: Value): seq<Option<Value>>
    requires i <= |others|
    decreases |others| - i
  {
    if i == |others| then []
    else Emit(others[i], moved, place, ref) + SpliceFrom(others, i + 1, moved, place, ref)
  }

  /** What one pass of that loop appends for the sibling `x`. */
  function Emit(x: Value, moved: Option<Value>, place: Place, ref: Value): seq<Option<Value>>
  {
    (if place == BeforeRef && x == ref then [moved] else [])
      + [Some(x)]
      + (if place == AfterRef && x == ref then [moved] else [])
  }

  /**
   * `$newOrder` of `reorderSiblingsWithInsert` for the sorted `siblings`, the
   * moved node's id `node`, `position` and `referenceId`.
   */
  function NewOrder(siblings: seq<Value>, node: Value, position: string, referenceId: Value): seq<Option<Value>>
  {
    var moved := FirstWhere(siblings, node);
    var others := Reject(siblings, node);
    if position == "inside" || !Truthy(referenceId) then Wrap(others) + [moved]
    else if FirstWhere(others, referenceId).None? then Wrap(others) + [moved]
    else Spliced(others, moved, position, referenceId)
  }

  /** Past the reference, the loop copies the siblings unchanged. */
  lemma {:induction false} SpliceFromWithoutRef(others: seq<Value>, i: nat, moved: Option<Value>, place: Place, ref: Value)
    requires i <= |others| && forall k :: i <= k < |others| ==> others[k] != ref
    ensures SpliceFrom(others, i, moved, place, ref) == Wrap(others[i..])
    decreases |others| - i
  {
    if i < |others| {
      SpliceFromWithoutRef(others, i + 1, moved, place, ref);
      assert others[i] != ref;
      assert Emit(others[i], moved, place, ref) == [Some(others[i])];
      var tail := others[i..];
      assert tail[0] == others[i] && tail[1..] == others[i + 1..];
      WrapCons(tail);
    }
  }

  /** The pieces one pass of the loop appends, as the loop tests `$position`. */
  lemma EmitParts(x: Value, moved: Option<Value>, position: string, ref: Value, a: seq<Option<Value>>, c: seq<Option<Value>>)
    requires a == if position == "before" && x == ref then [moved] else []
    requires c == if position == "after" && x == ref then [moved] else []
    ensures Emit(x, moved, PlaceOf(position), ref) == a + [Some(x)] + c
  {
  }

  /** The loop's output from index `i` on is its output on the first `r` siblings, then the rest. */
  lemma {:induction false} SpliceFromSplit(others: seq<Value>, i: nat, r: nat, moved: Option<Value>, place: Place, ref: Value)
    requires i <= r <= |others|
    ensures SpliceFrom(others, i, moved, place, ref)
      == SpliceFrom(others[..r], i, moved, place, ref) + SpliceFrom(others, r, moved, place, ref)
    decreases r - i
  {
    if i < r {
      SpliceFromSplit(others, i + 1, r, moved, place, ref);
      var e := Emit(others[i], moved, place, ref);
      var a, b := SpliceFrom(others[..r], i + 1, moved, place, ref), SpliceFrom(others, r, moved, place, ref);
      assert others[..r][i] == others[i];
      assert SpliceFrom(others[..r], i, moved, place, ref) == e + a;
      Assoc(e, a, b);
    }
  }

  /** Removing a sibling that occurs once keeps the others in their order. */
  lemma {:induction false} RejectOne(s: seq<Value>, j: nat, v: Value)
    requires Distinct(s) && j < |s| && s[j] == v
    ensures Reject(s, v) == s[..j] + s[j + 1..]
    decreases |s|
  {
    if j == 0 {
      RejectAbsent(s[1..], v);
    } else {
      RejectOne(s[1..], j - 1, v);
      assert s[1..][..j - 1] == s[1..j];
      assert s[1..][j..] == s[j + 1..];
    }
  }

  lemma {:induction false} RejectAbsent(s: seq<Value>, v: Value)
    requires v !in s
    ensures Reject(s, v) == s
    decreases |s|
  {
    if s != [] {
      RejectAbsent(s[1..], v);
    }
  }

  /** Loose and strict comparison with `v` agree on every element of `s`. */
  predicate LooseIsStrict(s: seq<Value>, v: Value)
  {
    forall i {:trigger LooseEq(s[i], v)} :: 0 <= i < |s| ==> (LooseEq(s[i], v) <==> s[i] == v)
  }

  /** Integer keys compare loosely as they compare strictly. */
  lemma IntKeysLooseIsStrict(s: seq<Value>, n: int)
    requires forall i :: 0 <= i < |s| ==> s[i].Int?
    ensures LooseIsStrict(s, Int(n))
  {
  }

  /** String keys compare loosely with a non-numeric string as they compare strictly. */
  lemma StrKeysLooseIsStrict(s: seq<Value>, t: string)
    requires forall i :: 0 <= i < |s| ==> s[i].Str?
    requires ParseDecimal(t).None?
    ensures LooseIsStrict(s, Str(t))
  {
    forall i | 0 <= i < |s|
      ensures LooseEq(s[i], Str(t)) <==> s[i] == Str(t)
    {
      LooseEqNonNumericStrings(s[i].s, t);
    }
  }

  lemma FirstWhereFinds(s: seq<Value>, v: Value)
    requires LooseIsStrict(s, v) && v in s
    ensures FirstWhere(s, v) == Some(v)
  {
    if s[0] != v {
      assert v in s[1..];
      FirstWhereFinds(s[1..], v);
    }
  }

  lemma FirstWhereMisses(s: seq<Value>, v: Value)
    requires LooseIsStrict(s, v) && v !in s
    ensures FirstWhere(s, v) == None
  {
  }

  /** Removing the element at `j` keeps the others distinct and loosely comparable as before. */
  lemma RemoveAtKeeps(s: seq<Value>, j: nat)
    requires Distinct(s) && j < |s|
    ensures var o := s[..j] + s[j + 1..]; Distinct(o) && s[j] !in o
    ensures forall x :: x in s[..j] + s[j + 1..] ==> x in s
    ensures forall v :: LooseIsStrict(s, v) ==> LooseIsStrict(s[..j] + s[j + 1..], v)
  {
    var o := s[..j] + s[j + 1..];
    forall a | 0 <= a < |o|
      ensures o[a] == s[if a < j then a else a + 1]
    {
    }
  }

  /** Every entry of `$newOrder` that is a record is one of the siblings. */
  lemma NewOrderFromSiblings(siblings: seq<Value>, node: Value, position: string, referenceId: Value)
    ensures forall e :: e in NewOrder(siblings, node, position, referenceId) && e.Some? ==> e.value in siblings
  {
    var others := Reject(siblings, node);
    var moved := FirstWhere(siblings, node);
    SplicedFrom(others, moved, position, referenceId);
    var items := NewOrder(siblings, node, position, referenceId);
    forall e | e in items && e.Some?
      ensures e.value in siblings
    {
      if e != moved {
        assert e in Wrap(others) || e in Spliced(others, moved, position, referenceId);
        if e in Wrap(others) {
          var i :| 0 <= i < |Wrap(others)| && Wrap(others)[i] == e;
          assert others[i] in others;
        }
      }
    }
  }

  lemma SplicedFrom(others: seq<Value>, moved: Option<Value>, position: string, ref: Value)
    ensures forall e :: e in Spliced(others, moved, position, ref) && e.Some? ==> e == moved || e.value in others
  {
    SpliceFromEntries(others, 0, moved, PlaceOf(position), ref);
  }

  lemma {:induction false} SpliceFromEntries(others: seq<Value>, i: nat, moved: Option<Value>, place: Place, ref: Value)
    requires i <= |others|
    ensures forall e :: e in SpliceFrom(others, i, moved, place, ref) && e.Some? ==> e == moved || e.value in others
    decreases |others| - i
  {
    if i < |others| {
      SpliceFromEntries(others, i + 1, moved, place, ref);
      var x := others[i];
      assert forall e :: e in Emit(x, moved, place, ref) ==> e == moved || e == Some(x);
    }
  }

  /** Splicing next to a reference that is present emits the moved entry. */
  lemma SplicedEmitsMoved(others: seq<Value>, moved: Option<Value>, position: string, ref: Value)
    requires ref in others && (position == "before" || position == "after")
    ensures moved in Spliced(others, moved, position, ref)
  {
    var r :| 0 <= r < |others| && others[r] == ref;
    SpliceFromReaches(others, 0, r, moved, PlaceOf(position));
  }

  lemma {:induction false} SpliceFromReaches(others: seq<Value>, i: nat, r: nat, moved: Option<Value>, place: Place)
    requires i <= r < |others| && (place == BeforeRef || place == AfterRef)
    ensures moved in SpliceFrom(others, i, moved, place, others[r])
    decreases r - i
  {
    var rest := SpliceFrom(others, i + 1, moved, place, others[r]);
    if i < r {
      SpliceFromReaches(others, i + 1, r, moved, place);
      assert moved in rest;
    } else {
      assert moved in Emit(others[r], moved, place, others[r]);
    }
  }

  /**
   * With position `inside`, no (truthy) reference, or a reference that is not among
   * the other siblings, the moved node is appended after the other siblings, which
   * keep their relative order.
   */
  lemma NewOrderAppends(siblings: seq<Value>, j: nat, position: string, referenceId: Value)
    requires Distinct(siblings) && j < |siblings| && LooseIsStrict(siblings, siblings[j])
    requires position == "inside" || !Truthy(referenceId)
      || (LooseIsStrict(siblings, referenceId) && (referenceId !in siblings || referenceId == siblings[j]))
    ensures NewOrder(siblings, siblings[j], position, referenceId)
      == Wrap(siblings[..j] + siblings[j + 1..]) + [Some(siblings[j])]
  {
    var node := siblings[j];
    RejectOne(siblings, j, node);
    FirstWhereFinds(siblings, node);
    RemoveAtKeeps(siblings, j);
    if !(position == "inside" || !Truthy(referenceId)) {
      FirstWhereMisses(siblings[..j] + siblings[j + 1..], referenceId);
    }
  }

  /** With an existing reference, `$newOrder` is the splice of the other siblings. */
  lemma NewOrderIsSplice(siblings: seq<Value>, j: nat, position: string, referenceId: Value)
    requires Distinct(siblings) && j < |siblings| && LooseIsStrict(siblings, siblings[j])
    requires position != "inside" && Truthy(referenceId) && LooseIsStrict(siblings, referenceId)
    requires referenceId in siblings[..j] + siblings[j + 1..]
    ensures var others := siblings[..j] + siblings[j + 1..];
      Distinct(others)
      && NewOrder(siblings, siblings[j], position, referenceId)
         == Spliced(others, Some(siblings[j]), position, referenceId)
  {
    var node := siblings[j];
    RejectOne(siblings, j, node);
    FirstWhereFinds(siblings, node);
    RemoveAtKeeps(siblings, j);
    FirstWhereFinds(siblings[..j] + siblings[j + 1..], referenceId);
  }

  /** Splicing next to the sibling at index `r` of distinct siblings. */
  lemma SplicedAtIndex(others: seq<Value>, r: nat, moved: Option<Value>, position: string)
    requires Distinct(others) && r < |others|
    requires position == "before" || position == "after"
    ensures var cut := if position == "before" then r else r + 1;
      Spliced(others, moved, position, others[r]) == Wrap(others[..cut]) + [moved] + Wrap(others[cut..])
  {
    var ref, pre, post := others[r], others[..r], others[r + 1..];
    var place := PlaceOf(position);
    SpliceFromSplit(others, 0, r, moved, place, ref);
    assert forall k :: 0 <= k < |pre| ==> pre[k] == others[k];
    SpliceFromWithoutRef(pre, 0, moved, place, ref);
    SpliceFromWithoutRef(others, r + 1, moved, place, ref);
    assert pre[0..] == pre;
    var e := Emit(ref, moved, place, ref);
    assert SpliceFrom(others, r, moved, place, ref) == e + Wrap(post);
    Assoc(Wrap(pre), e, Wrap(post));
    assert others == pre + [ref] + post;
    if position == "before" {
      EmitBefore(pre, ref, post, moved);
    } else {
      EmitAfter(pre, ref, post, moved);
    }
  }

  lemma EmitBefore(pre: seq<Value>, ref: Value, post: seq<Value>, moved: Option<Value>)
    ensures var others := pre + [ref] + post; var r := |pre|;
      Wrap(pre) + Emit(ref, moved, BeforeRef, ref) + Wrap(post) == Wrap(others[..r]) + [moved] + Wrap(others[r..])
  {
    var others := pre + [ref] + post;
    var wp, wq := Wrap(pre), Wrap(post);
    assert Emit(ref, moved, BeforeRef, ref) == [moved, Some(ref)];
    assert others[..|pre|] == pre;
    assert others[|pre|..] == [ref] + post;
    WrapAppend([ref], post);
    assert [moved, Some(ref)] == [moved] + [Some(ref)];
    Assoc(wp, [moved], [Some(ref)]);
    Assoc(wp + [moved], [Some(ref)], wq);
  }

  lemma EmitAfter(pre: seq<Value>, ref: Value, post: seq<Value>, moved: Option<Value>)
    ensures var others := pre + [ref] + post; var r := |pre|;
      Wrap(pre) + Emit(ref, moved, AfterRef, ref) + Wrap(post) == Wrap(others[..r + 1]) + [moved] + Wrap(others[r + 1..])
  {
    var others := pre + [ref] + post;
    var wp, wq := Wrap(pre), Wrap(post);
    assert Emit(ref, moved, AfterRef, ref) == [Some(ref), moved];
    assert others[..|pre| + 1] == pre + [ref];
    assert others[|pre| + 1..] == post;
    WrapAppend(pre, [ref]);
    assert [Some(ref), moved] == [Some(ref)] + [moved];
    Assoc(wp, [Some(ref)], [moved]);
  }

  /**
   * With position `before` or `after` and a reference found among the other
   * siblings at index `r`, the moved node lands immediately before or after it and
   * all other siblings keep their relative order.
   */
  lemma NewOrderNextToReference(siblings: seq<Value>, j: nat, position: string, r: nat)
    requires Distinct(siblings) && j < |siblings| && LooseIsStrict(siblings, siblings[j])
    requires position == "before" || position == "after"
    requires var others := siblings[..j] + siblings[j + 1..];
      r < |others| && Truthy(others[r]) && LooseIsStrict(siblings, others[r])
    ensures var others := siblings[..j] + siblings[j + 1..];
      var cut := if position == "before" then r else r + 1;
      NewOrder(siblings, siblings[j], position, others[r])
        == Wrap(others[..cut]) + [Some(siblings[j])] + Wrap(others[cut..])
  {
    var others := siblings[..j] + siblings[j + 1..];
    NewOrderIsSplice(siblings, j, position, others[r]);
    SplicedAtIndex(others, r, Some(siblings[j]), position);
  }

  /** The `before`/`after` case as one permutation of the siblings. */
  lemma NewOrderPlacesNextTo(s: seq<Value>, j: nat, position: string, r: nat)
    requires Distinct(s) && j < |s| && LooseIsStrict(s, s[j])
    requires position == "before" || position == "after"
    requires var others := s[..j] + s[j + 1..];
      r < |others| && Truthy(others[r]) && LooseIsStrict(s, others[r])
    ensures var others := s[..j] + s[j + 1..];
      var cut := if position == "before" then r else r + 1;
      var placed := others[..cut] + [s[j]] + others[cut..];
      && NewOrder(s, s[j], position, others[r]) == Wrap(placed)
      && Distinct(placed)
      && (forall y :: y in placed <==> y in s)
  {
    var others := s[..j] + s[j + 1..];
    var cut := if position == "before" then r else r + 1;
    var pre, x, post := others[..cut], s[j], others[cut..];
    NewOrderNextToReference(s, j, position, r);
    WrapAppend(pre + [x], post);
    WrapAppend(pre, [x]);
    WrapOne(x);
    MoveIsPermutation(s, j, cut);
  }

  /** Taking the element at `j` out and putting it back at `cut` permutes a distinct sequence. */
  lemma MoveIsPermutation(s: seq<Value>, j: nat, cut: nat)
    requires Distinct(s) && j < |s| && cut < |s|
    ensures var others := s[..j] + s[j + 1..];
      var placed := others[..cut] + [s[j]] + others[cut..];
      Distinct(placed) && (forall y :: y in placed <==> y in s)
  {
    var others := s[..j] + s[j + 1..];
    RemoveAtKeeps(s, j);
    DistinctInsert(others, s[j], cut);
    assert s == s[..j] + [s[j]] + s[j + 1..];
  }

  /** The appending case as one permutation of the siblings. */
  lemma NewOrderPlacesLast(s: seq<Value>, j: nat, position: string, referenceId: Value)
    requires Distinct(s) && j < |s| && LooseIsStrict(s, s[j])
    requires position == "inside" || !Truthy(referenceId)
      || (LooseIsStrict(s, referenceId) && (referenceId !in s || referenceId == s[j]))
    ensures var placed := s[..j] + s[j + 1..] + [s[j]];
      && NewOrder(s, s[j], position, referenceId) == Wrap(placed)
      && Distinct(placed)
      && (forall y :: y in placed <==> y in s)
  {
    var others := s[..j] + s[j + 1..];
    NewOrderAppends(s, j, position, referenceId);
    WrapAppend(others, [s[j]]);
    RemoveAtKeeps(s, j);
    DistinctInsert(others, s[j], |others|);
    assert others[..|others|] + [s[j]] + others[|others|..] == others + [s[j]];
    assert s == s[..j] + [s[j]] + s[j + 1..];
  }

  lemma DistinctInsert(others: seq<Value>, x: Value, cut: nat)
    requires Distinct(others) && x !in others && cut <= |others|
    ensures Distinct(others[..cut] + [x] + others[cut..])
    ensures forall y :: y in others[..cut] + [x] + others[cut..] <==> y == x || y in others
  {
    var p := others[..cut] + [x] + others[cut..];
    assert others == others[..cut] + others[cut..];
    forall a, b | 0 <= a < b < |p|
      ensures p[a] != p[b]
    {
      if a < cut && b > cut {
        assert p[b] == others[b - 1];
      } else if a > cut {
        assert p[a] == others[a - 1] && p[b] == others[b - 1];
      }
    }
  }

  lemma RejectKeepsStrict(s: seq<Value>, x: Value, v: Value)
    requires LooseIsStrict(s, v)
    ensures LooseIsStrict(Reject(s, x), v)
  {
    var o := Reject(s, x);
    forall i | 0 <= i < |o|
      ensures LooseEq(o[i], v) <==> o[i] == v
    {
      assert o[i] in s;
      var k :| 0 <= k < |s| && s[k] == o[i];
    }
  }

  /**
   * When the moved node is not among the siblings, `$newOrder` still holds its
   * (missing) entry for every position the client sends.
   */
  lemma NewOrderKeepsMissingNode(siblings: seq<Value>, node: Value, position: string, referenceId: Value)
    requires FirstWhere(siblings, node) == None
    requires position == "before" || position == "after" || position == "inside"
    requires !Truthy(referenceId) || LooseIsStrict(siblings, referenceId)
    ensures None in NewOrder(siblings, node, position, referenceId)
  {
    var others := Reject(siblings, node);
    if !(position == "inside" || !Truthy(referenceId)) {
      var w := FirstWhere(others, referenceId);
      if w.Some? {
        RejectKeepsStrict(siblings, node, referenceId);
        var i :| 0 <= i < |others| && others[i] == w.value;
        assert w.value == referenceId;
        SplicedEmitsMoved(others, None, position, referenceId);
      } else {
        assert NewOrder(siblings, node, position, referenceId)[|others|] == None;
      }
    } else {
      assert NewOrder(siblings, node, position, referenceId)[|others|] == None;
    }
  }

  lemma SplicedNoNull(others: seq<Value>, moved: Option<Value>, position: string, ref: Value)
    requires moved.Some?
    ensures None !in Spliced(others, moved, position, ref)
  {
    SpliceFromNoNull(others, 0, moved, PlaceOf(position), ref);
  }

  lemma {:induction false} SpliceFromNoNull(others: seq<Value>, i: nat, moved: Option<Value>, place: Place, ref: Value)
    requires moved.Some? && i <= |others|
    ensures None !in SpliceFrom(others, i, moved, place, ref)
    decreases |others| - i
  {
    if i < |others| {
      SpliceFromNoNull(others, i + 1, moved, place, ref);
      assert None !in Emit(others[i], moved, place, ref);
    }
  }

  /** When the moved node is among the siblings, no entry of `$newOrder` is missing. */
  lemma NewOrderFindsNode(siblings: seq<Value>, node: Value, position: string, referenceId: Value)
    requires FirstWhere(siblings, node).Some?
    ensures None !in NewOrder(siblings, node, position, referenceId)
  {
    SplicedNoNull(Reject(siblings, node), FirstWhere(siblings, node), position, referenceId);
  }

  lemma WrapCons(s: seq<Value>)
    requires s != []
    ensures Wrap(s) == [Some(s[0])] + Wrap(s[1..])
  {
  }

  lemma AppendNil<T>(a: seq<T>)
    ensures a + [] == a && [] + a == a
  {
  }

  lemma Assoc<T>(a: seq<T>, b: seq<T>, c: seq<T>)
    ensures a + (b + c) == (a + b) + c
  {
  }

  lemma WrapOne(x: Value)
    ensures Wrap([x]) == [Some(x)]
  {
  }

  lemma WrapAppend(a: seq<Value>, b: seq<Value>)
    ensures Wrap(a + b) == Wrap(a) + Wrap(b)
  {
  }
}
