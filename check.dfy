/** `_check`: the existence and creation pass that walks a dotted key path from the root
    before a value is set or removed. Strict mode raises on a missing key, a node of the
    wrong kind or an index past the end; add mode creates `{}`, `[{}]` or appends one `{}`;
    remove mode stops quietly at the first missing segment.

    The walk is specified here node by node: `CheckWalk(v, parts, i, ...)` is what the loop
    does from segment `i` on with the cursor at `v`, returning the new `v` (the loop writes
    into the tree in place) and the error, if any. */
module Check {
  import opened Nodes
  import opened Locations
  import opened Paths

  datatype Walked = Walked(node: Node, err: Option<Error>)

  /** What one pass of the loop body does with the cursor: `break`, raise, or move the cursor
      to a child (after possibly changing the cursor's node). */
  datatype Move = Stop(node: Node) | Fail(node: Node, err: Error) | Into(node: Node, hop: Hop)

  function Descend(w: Node, r: Result<Hop>): Move {
    match r
    case Ok(h) => Into(w, h)
    case Err(e) => Fail(w, e)
  }

  /** The loop body for segment `parts[i]` with the cursor at `v`. */
  function CheckSegment(v: Node, parts: seq<string>, i: nat, added: bool, removed: bool): (m: Move)
    requires i < |parts|
    ensures m.Into? ==> HopFrom(m.node, m.hop) && v.Map?
    ensures !added ==> m.node == v
  {
    match Convert(parts[i])
    case Err(e) => Fail(v, e)
    case Ok(Segment(key, None)) => CheckPlain(v, key, parts, i, added, removed)
    case Ok(Segment(key, Some(index))) => CheckIndexed(v, key, index, parts, i, added, removed)
  }

  /** A segment without an index: the cursor must be a dict holding the key. */
  function CheckPlain(v: Node, key: string, parts: seq<string>, i: nat, added: bool, removed: bool): (m: Move)
    requires i < |parts|
    ensures m.Into? ==> HopFrom(m.node, m.hop)
    ensures !added ==> m.node == v
  {
    if !v.Map? then
      if added then Fail(v, Runtime(TypeError))   // `v[key] = {}` on a list or scalar
      else if removed then Stop(v)
      else Fail(v, CannotGetValue(Join(parts, ".", Some(i))))
    else if !HasKey(v.entries, key) && !added then
      if removed then Stop(v)
      else Fail(v, CannotGetValue(Join(parts, ".", Some(i + 1))))
    else
      var w := if HasKey(v.entries, key) then v else Map(SetKey(v.entries, key, Map([])));
      Descend(w, KeyHop(w, key))
  }

  /** A segment `key[index]`: `v.keys()` is called without a kind check, then the list under
      the key must be long enough. */
  function CheckIndexed(v: Node, key: string, index: int, parts: seq<string>, i: nat, added: bool, removed: bool): (m: Move)
    requires i < |parts|
    ensures m.Into? ==> HopFrom(m.node, m.hop)
    ensures !added ==> m.node == v
  {
    if !v.Map? then Fail(v, Runtime(AttributeError))   // `v.keys()` on a list or scalar
    else if !HasKey(v.entries, key) && !added then
      if removed then Stop(v)
      else Fail(v, CannotGetValue(Join(parts, ".", Some(i + 1))))
    else
      var w := if HasKey(v.entries, key) then v else Map(SetKey(v.entries, key, List([Map([])])));
      var x := Get(w.entries, key);
      match PyLen(x)
      case None => Fail(w, Runtime(TypeError))          // `len()` of a number, boolean or null
      case Some(n) =>
        if n <= index then
          if added then
            if x.List? then
              var w2 := Map(SetKey(w.entries, key, List(x.items + [Map([])])));
              Descend(w2, KeyIndexHop(w2, key, index))
            else Fail(w, Runtime(AttributeError))        // `append` on a dict or string
          else if removed then Stop(w)
          else Fail(w, OutOfIndex(Join(parts, ".", Some(i + 1))))
        else Descend(w, KeyIndexHop(w, key, index))
  }

  /** The loop of `_check` from segment `i` on, with the cursor at `v`: the new `v` and the
      error raised, if any. A cursor that is a character split off a string is not part of
      the tree, so nothing is written back through it. */
  function CheckWalk(v: Node, parts: seq<string>, i: nat, added: bool, removed: bool): (r: Walked)
    requires i <= |parts|
    ensures WellFormed(v) ==> WellFormed(r.node)
    decreases |parts| - i
  {
    if i == |parts| then Walked(v, None)
    else
      assert WellFormed(v) ==> WellFormed(CheckSegment(v, parts, i, added, removed).node) by {
        if WellFormed(v) {
          CheckSegmentWellFormed(v, parts, i, added, removed);
        }
      }
      match CheckSegment(v, parts, i, added, removed)
      case Stop(u) => Walked(u, None)
      case Fail(u, e) => Walked(u, Some(e))
      case Into(u, h) =>
        var sub := CheckWalk(h.child, parts, i + 1, added, removed);
        assert WellFormed(v) && h.path.Some? ==> WellFormed(Put(u, h.path.value, sub.node)) by {
          if WellFormed(v) && h.path.Some? {
            WellFormedAt(u, h.path.value);
            PutWellFormed(u, h.path.value, sub.node);
          }
        }
        Walked(if h.path.Some? then Put(u, h.path.value, sub.node) else u, sub.err)
  }

  // ---------------------------------------------------------------------------------
  // Properties
  // ---------------------------------------------------------------------------------

  /** Without `added` (strict mode and remove mode) the pass never changes the tree. */
  lemma {:induction false} CheckReadOnlyUnlessAdding(v: Node, parts: seq<string>, i: nat, removed: bool)
    requires i <= |parts|
    ensures CheckWalk(v, parts, i, false, removed).node == v
    decreases |parts| - i, 1
  {
    if i < |parts| {
      var m := CheckSegment(v, parts, i, false, removed);
      if m.Into? {
        ReadOnlyInto(v, parts, i, removed, m.node, m.hop);
      } else {
        CheckWalkEnds(v, parts, i, false, removed);
      }
    }
  }

  /** The pass that moves the cursor, outside add mode: the rest of the walk writes back
      only what it found. */
  lemma {:induction false} ReadOnlyInto(v: Node, parts: seq<string>, i: nat, removed: bool, u: Node, h: Hop)
    requires i < |parts| && CheckSegment(v, parts, i, false, removed) == Into(u, h)
    ensures CheckWalk(v, parts, i, false, removed).node == v
    decreases |parts| - i, 0
  {
    CheckWalkInto(v, parts, i, false, removed, u, h);
    CheckReadOnlyUnlessAdding(h.child, parts, i + 1, removed);
    if h.path.Some? {
      PutAt(u, h.path.value);
    }
  }

  /** The subscript a converted segment stands for: `v[key]` or `v[key][index]`. */
  function SegmentHop(v: Node, seg: Segment): (r: Result<Hop>)
    ensures r.Ok? ==> HopFrom(v, r.value) && v.Map? && HasKey(v.entries, seg.key)
    ensures !(v.Map? && HasKey(v.entries, seg.key)) ==> r.Err?
  {
    if seg.index.None? then KeyHop(v, seg.key) else KeyIndexHop(v, seg.key, seg.index.value)
  }

  /** Python subscripting along a path, one segment after the other. */
  function Resolve(v: Node, parts: seq<string>, i: nat): (r: Result<Node>)
    requires i <= |parts|
    ensures r.Ok? && i < |parts| ==> v.Map?
    decreases |parts| - i
  {
    if i == |parts| then Ok(v)
    else match Convert(parts[i])
      case Err(e) => Err(e)
      case Ok(seg) =>
        match SegmentHop(v, seg)
        case Err(e) => Err(e)
        case Ok(h) => Resolve(h.child, parts, i + 1)
  }

  /** Strict mode accepts exactly the paths along which every subscript succeeds. */
  lemma {:induction false} StrictAcceptsResolvablePaths(v: Node, parts: seq<string>, i: nat)
    requires i <= |parts|
    ensures CheckWalk(v, parts, i, false, false).err.None? <==> Resolve(v, parts, i).Ok?
    decreases |parts| - i
  {
    if i < |parts| {
      match Convert(parts[i])
      case Err(_) =>
      case Ok(Segment(key, None)) =>
        if v.Map? && HasKey(v.entries, key) {
          StrictAcceptsResolvablePaths(Get(v.entries, key), parts, i + 1);
        }
      case Ok(Segment(key, Some(index))) =>
        if v.Map? && HasKey(v.entries, key) {
          var h := SegmentHop(v, Segment(key, Some(index)));
          if h.Ok? {
            StrictAcceptsResolvablePaths(h.value.child, parts, i + 1);
          }
        }
    }
  }

  /** The three explicit strict-mode errors: a cursor that is not a dict names the prefix
      before the segment; a missing key names the prefix through it; a list too short for
      the index raises "... is out of index" with the prefix through the segment. */
  lemma StrictErrors(v: Node, parts: seq<string>, i: nat)
    requires i < |parts|
    ensures Convert(parts[i]).Ok? && Convert(parts[i]).value.index.None? && !v.Map? ==>
      CheckWalk(v, parts, i, false, false) == Walked(v, Some(CannotGetValue(Join(parts, ".", Some(i)))))
    ensures Convert(parts[i]).Ok? && v.Map? && !HasKey(v.entries, Convert(parts[i]).value.key) ==>
      CheckWalk(v, parts, i, false, false) == Walked(v, Some(CannotGetValue(Join(parts, ".", Some(i + 1)))))
    ensures Convert(parts[i]).Ok? && Convert(parts[i]).value.index.Some? && v.Map? &&
      HasKey(v.entries, Convert(parts[i]).value.key) &&
      Get(v.entries, Convert(parts[i]).value.key).List? &&
      |Get(v.entries, Convert(parts[i]).value.key).items| <= Convert(parts[i]).value.index.value
      ==> CheckWalk(v, parts, i, false, false) == Walked(v, Some(OutOfIndex(Join(parts, ".", Some(i + 1)))))
  {
  }

  /** Remove mode only ever stops: it never raises the strict-mode errors, and on a path
      without brackets it never raises at all. */
  lemma {:induction false} RemoveModeStopsQuietly(v: Node, parts: seq<string>, i: nat)
    requires i <= |parts|
    ensures var w := CheckWalk(v, parts, i, false, true);
      w.err.Some? ==> !w.err.value.CannotGetValue? && !w.err.value.OutOfIndex?
    ensures (forall j :: i <= j < |parts| ==> '[' !in parts[j] && ']' !in parts[j]) ==>
      CheckWalk(v, parts, i, false, true).err.None?
    decreases |parts| - i
  {
    if i < |parts| {
      if '[' !in parts[i] && ']' !in parts[i] {
        ConvertPlain(parts[i]);
        assert CheckSegment(v, parts, i, false, true) == CheckPlain(v, parts[i], parts, i, false, true);
      }
      match CheckSegment(v, parts, i, false, true)
      case Stop(_) =>
      case Fail(_, _) =>
      case Into(u, h) =>
        RemoveModeStopsQuietly(h.child, parts, i + 1);
    }
  }

  /** The chain of single-key dicts `{p0: {p1: ... {}}}`. */
  function Nest(parts: seq<string>): Node
    decreases |parts|
  {
    if |parts| == 0 then Map([]) else Map([Entry(parts[0], Nest(parts[1..]))])
  }

  /** Add mode on an empty dict builds exactly the missing scaffolding: one nested `{}` per
      bracket-free segment. */
  lemma {:induction false} AddBuildsScaffold(parts: seq<string>, i: nat, removed: bool)
    requires i <= |parts|
    requires forall j :: i <= j < |parts| ==> '[' !in parts[j] && ']' !in parts[j]
    ensures CheckWalk(Map([]), parts, i, true, removed) == Walked(Nest(parts[i..]), None)
    decreases |parts| - i
  {
    if i < |parts| {
      var key := parts[i];
      ConvertPlain(key);
      AddBuildsScaffold(parts, i + 1, removed);
      assert parts[i..][1..] == parts[i + 1..];
      var w := Map([Entry(key, Map([]))]);
      assert SetKey([], key, Map([])) == [Entry(key, Map([]))];
      assert CheckSegment(Map([]), parts, i, true, removed) == Into(w, Hop(Map([]), Some([Key(key)])));
      assert SetKey(w.entries, key, Nest(parts[i + 1..])) == [Entry(key, Nest(parts[i + 1..]))] by {
        IndexOfKeyAt(w.entries, key, 0);
      }
      assert Put(w, [Key(key)], Nest(parts[i + 1..])) == Map([Entry(key, Nest(parts[i + 1..]))]);
      assert Nest(parts[i..]) == Map([Entry(key, Nest(parts[i + 1..]))]);
    }
  }

  /** Add mode extends a list that is too short by exactly one `{}`: an index equal to the
      old length then selects the new `{}`, and an index past it still fails at the final
      lookup `v[key][index]`. */
  lemma AddExtendsListByOne(v: Node, key: string, n: int, parts: seq<string>, i: nat, removed: bool)
    requires i < |parts| && Convert(parts[i]) == Ok(Segment(key, Some(n)))
    requires v.Map? && HasKey(v.entries, key) && Get(v.entries, key).List?
    requires |Get(v.entries, key).items| <= n
    ensures var xs := Get(v.entries, key).items;
      var w := CheckWalk(v, parts, i, true, removed);
      if n == |xs| then
        var sub := CheckWalk(Map([]), parts, i + 1, true, removed);
        w == Walked(Map(SetKey(v.entries, key, List(xs + [sub.node]))), sub.err)
      else
        w == Walked(Map(SetKey(v.entries, key, List(xs + [Map([])]))), Some(Runtime(IndexError)))
  {
    var xs := Get(v.entries, key).items;
    var es2 := SetKey(v.entries, key, List(xs + [Map([])]));
    var w2 := Map(es2);
    if n == |xs| {
      var sub := CheckWalk(Map([]), parts, i + 1, true, removed);
      assert HasKey(es2, key) && Get(es2, key) == List(xs + [Map([])]);
      assert KeyHop(w2, key) == Ok(Hop(List(xs + [Map([])]), Some([Key(key)])));
      assert IndexHop(List(xs + [Map([])]), n) == Ok(Hop(Map([]), Some([Idx(n)])));
      assert [Key(key)] + [Idx(n)] == [Key(key), Idx(n)];
      assert KeyIndexHop(w2, key, n) == Ok(Hop(Map([]), Some([Key(key), Idx(n)])));
      assert Put(List(xs + [Map([])]), [Idx(n)], sub.node) == List((xs + [Map([])])[n := sub.node]);
      assert Put(w2, [Key(key), Idx(n)], sub.node) == Map(SetKey(es2, key, List((xs + [Map([])])[n := sub.node])));
      assert (xs + [Map([])])[n := sub.node] == xs + [sub.node];
      SetKeyTwice(v.entries, key, List(xs + [Map([])]), List(xs + [sub.node]));
    }
  }

  /** Add mode on a missing plain key stores `{}` under it and moves the cursor there. */
  lemma AddCreatesMap(v: Node, key: string, parts: seq<string>, i: nat, removed: bool)
    requires i < |parts| && Convert(parts[i]) == Ok(Segment(key, None))
    requires v.Map? && !HasKey(v.entries, key)
    ensures CheckSegment(v, parts, i, true, removed) ==
      Into(Map(SetKey(v.entries, key, Map([]))), Hop(Map([]), Some([Key(key)])))
  {
  }

  /** Add mode on a missing key `key[index]` stores `[{}]` under it, and appends a second
      `{}` when the index is 1 or more; the cursor then moves to the selected `{}`, or the
      final lookup `v[key][index]` raises IndexError when the index is past both. */
  lemma AddCreatesList(v: Node, key: string, n: int, parts: seq<string>, i: nat, removed: bool)
    requires i < |parts| && Convert(parts[i]) == Ok(Segment(key, Some(n)))
    requires v.Map? && !HasKey(v.entries, key)
    ensures var m := CheckSegment(v, parts, i, true, removed);
      m.node == Map(SetKey(v.entries, key, if n >= 1 then List([Map([]), Map([])]) else List([Map([])]))) &&
      (n == 0 || n == -1 ==> m == Into(m.node, Hop(Map([]), Some([Key(key), Idx(0)])))) &&
      (n == 1 ==> m == Into(m.node, Hop(Map([]), Some([Key(key), Idx(1)])))) &&
      (n < -1 || 1 < n ==> m == Fail(m.node, Runtime(IndexError)))
  {
    var one := List([Map([])]);
    var two := List([Map([]), Map([])]);
    var w := Map(SetKey(v.entries, key, one));
    assert KeyHop(w, key) == Ok(Hop(one, Some([Key(key)])));
    assert CheckSegment(v, parts, i, true, removed) == CheckIndexed(v, key, n, parts, i, true, removed);
    assert Get(w.entries, key) == one && PyLen(one) == Some(1);
    if n >= 1 {
      SetKeyTwiceMissing(v.entries, key, one, two);
      assert one.items + [Map([])] == two.items;
      var w2 := Map(SetKey(v.entries, key, two));
      assert KeyHop(w2, key) == Ok(Hop(two, Some([Key(key)])));
      if n == 1 {
        assert IndexHop(two, 1) == Ok(Hop(Map([]), Some([Idx(1)])));
        assert [Key(key)] + [Idx(1)] == [Key(key), Idx(1)];
      }
    } else if n >= -1 {
      assert IndexHop(one, n) == Ok(Hop(Map([]), Some([Idx(0)])));
      assert [Key(key)] + [Idx(0)] == [Key(key), Idx(0)];
    }
  }

  lemma SetKeyTwice(es: seq<Entry>, k: string, x: Node, y: Node)
    requires HasKey(es, k)
    ensures SetKey(SetKey(es, k, x), k, y) == SetKey(es, k, y)
  {
    PutChildTwice(Map(es), Key(k), x, y);
  }

  lemma SetKeyTwiceMissing(es: seq<Entry>, k: string, x: Node, y: Node)
    requires !HasKey(es, k)
    ensures SetKey(SetKey(es, k, x), k, y) == SetKey(es, k, y)
  {
    var es1 := SetKey(es, k, x);
    assert es1 == es + [Entry(k, x)];
    IndexOfKeyAt(es1, k, |es|);
    assert es1[|es| := Entry(k, y)] == es + [Entry(k, y)];
  }

  /** A cursor that is a scalar cannot be walked any further unless in remove mode. */
  lemma ScalarCursorFails(v: Node, parts: seq<string>, i: nat, added: bool, removed: bool)
    requires i < |parts| && v.Scalar? && (added || !removed)
    ensures CheckWalk(v, parts, i, added, removed).err.Some?
  {
  }

  /** The cursor moves by the very subscript that the segment stands for. */
  lemma CheckIntoHop(v: Node, parts: seq<string>, i: nat, added: bool, removed: bool, u: Node, h: Hop)
    requires i < |parts| && CheckSegment(v, parts, i, added, removed) == Into(u, h)
    ensures Convert(parts[i]).Ok? && SegmentHop(u, Convert(parts[i]).value) == Ok(h)
  {
  }

  lemma SegmentHopPut(u: Node, seg: Segment, p: seq<Step>, x: Node)
    requires SegmentHop(u, seg).Ok? && SegmentHop(u, seg).value.path == Some(p)
    ensures SegmentHop(Put(u, p, x), seg) == Ok(Hop(x, Some(p)))
  {
    if seg.index.None? {
      KeyHopPut(u, seg.key, x);
    } else {
      KeyIndexHopPut(u, seg.key, seg.index.value, p, x);
    }
  }

  /** One step of `CheckWalk` that ends the walk. */
  lemma CheckWalkEnds(v: Node, parts: seq<string>, i: nat, added: bool, removed: bool)
    requires i < |parts|
    ensures CheckSegment(v, parts, i, added, removed).Stop? ==>
      CheckWalk(v, parts, i, added, removed) == Walked(CheckSegment(v, parts, i, added, removed).node, None)
    ensures CheckSegment(v, parts, i, added, removed).Fail? ==>
      CheckWalk(v, parts, i, added, removed) ==
        Walked(CheckSegment(v, parts, i, added, removed).node, Some(CheckSegment(v, parts, i, added, removed).err))
  {
  }

  /** One step of `CheckWalk` that moves the cursor. */
  lemma CheckWalkInto(v: Node, parts: seq<string>, i: nat, added: bool, removed: bool, u: Node, h: Hop)
    requires i < |parts| && CheckSegment(v, parts, i, added, removed) == Into(u, h)
    ensures var sub := CheckWalk(h.child, parts, i + 1, added, removed);
      CheckWalk(v, parts, i, added, removed) ==
        Walked(if h.path.Some? then Put(u, h.path.value, sub.node) else u, sub.err)
  {
  }

  /** A path that resolves below the node a segment leads to resolves from the node in
      which that child was replaced. */
  lemma ResolveThroughPut(u: Node, parts: seq<string>, i: nat, h: Hop, x: Node)
    requires i < |parts| && Convert(parts[i]).Ok? && SegmentHop(u, Convert(parts[i]).value) == Ok(h)
    requires h.path.Some? && Resolve(x, parts, i + 1).Ok?
    ensures Resolve(Put(u, h.path.value, x), parts, i).Ok?
  {
    SegmentHopPut(u, Convert(parts[i]).value, h.path.value, x);
  }

  lemma ResolveLast(u: Node, parts: seq<string>, i: nat, h: Hop)
    requires i + 1 == |parts| && Convert(parts[i]).Ok? && SegmentHop(u, Convert(parts[i]).value) == Ok(h)
    ensures Resolve(u, parts, i).Ok?
  {
  }

  /** Without an error, an add-mode step moves the cursor (it never stops early). */
  lemma AddModeMoves(v: Node, parts: seq<string>, i: nat, removed: bool)
    requires i < |parts| && CheckWalk(v, parts, i, true, removed).err.None?
    ensures CheckSegment(v, parts, i, true, removed).Into?
  {
    var m := CheckSegment(v, parts, i, true, removed);
    if m.Stop? {
      assert CheckPlain(v, Convert(parts[i]).value.key, parts, i, true, removed).Stop? ||
        CheckIndexed(v, Convert(parts[i]).value.key, Convert(parts[i]).value.index.value, parts, i, true, removed).Stop?;
    }
  }

  /** In add mode a pass that raises nothing moves into a child `h.child`, from which the
      rest of the walk raises nothing either. */
  lemma AddedStepMoves(v: Node, parts: seq<string>, i: nat, removed: bool) returns (u: Node, h: Hop)
    requires i < |parts| && CheckWalk(v, parts, i, true, removed).err.None?
    ensures CheckSegment(v, parts, i, true, removed) == Into(u, h)
    ensures CheckWalk(h.child, parts, i + 1, true, removed).err.None?
  {
    AddModeMoves(v, parts, i, removed);
    var m := CheckSegment(v, parts, i, true, removed);
    u, h := m.node, m.hop;
    CheckWalkInto(v, parts, i, true, removed, u, h);
  }

  /** The step of `AddedPathResolves`: the path resolves from the node a pass of add mode
      produced once it resolves from the child the cursor moved to. */
  lemma AddedStepResolves(v: Node, parts: seq<string>, i: nat, removed: bool, u: Node, h: Hop)
    requires i < |parts| && CheckWalk(v, parts, i, true, removed).err.None?
    requires CheckSegment(v, parts, i, true, removed) == Into(u, h)
    requires h.path.Some? ==> Resolve(CheckWalk(h.child, parts, i + 1, true, removed).node, parts, i + 1).Ok?
    ensures Resolve(CheckWalk(v, parts, i, true, removed).node, parts, i).Ok?
  {
    CheckWalkInto(v, parts, i, true, removed, u, h);
    CheckIntoHop(v, parts, i, true, removed, u, h);
    var sub := CheckWalk(h.child, parts, i + 1, true, removed);
    if h.path.Some? {
      ResolveThroughPut(u, parts, i, h, sub.node);
    } else {
      if i + 1 < |parts| {
        ScalarCursorFails(h.child, parts, i + 1, true, removed);
      }
      ResolveLast(u, parts, i, h);
    }
  }

  /** After add mode has passed without error, every subscript along the path succeeds on
      the document it produced. */
  lemma {:induction false} AddedPathResolves(v: Node, parts: seq<string>, i: nat, removed: bool)
    requires i <= |parts| && CheckWalk(v, parts, i, true, removed).err.None?
    ensures Resolve(CheckWalk(v, parts, i, true, removed).node, parts, i).Ok?
    decreases |parts| - i, 1
  {
    if i < |parts| {
      var u, h := AddedStepMoves(v, parts, i, removed);
      AddedPathResolvesFrom(v, parts, i, removed, u, h);
    }
  }

  /** The induction step of `AddedPathResolves`, once the pass has moved into `h`. */
  lemma {:induction false} AddedPathResolvesFrom(v: Node, parts: seq<string>, i: nat, removed: bool, u: Node, h: Hop)
    requires i < |parts| && CheckWalk(v, parts, i, true, removed).err.None?
    requires CheckSegment(v, parts, i, true, removed) == Into(u, h)
    requires CheckWalk(h.child, parts, i + 1, true, removed).err.None?
    ensures Resolve(CheckWalk(v, parts, i, true, removed).node, parts, i).Ok?
    decreases |parts| - i, 0
  {
    if h.path.Some? {
      AddedPathResolves(h.child, parts, i + 1, removed);
    }
    AddedStepResolves(v, parts, i, removed, u, h);
  }

  /** Negative indices skip the length test: in every mode, an index below minus the
      length of the list fails only at the final subscript, with an IndexError. */
  lemma NegativeIndexSkipsLengthTest(v: Node, key: string, n: int, parts: seq<string>, i: nat, added: bool, removed: bool)
    requires i < |parts| && Convert(parts[i]) == Ok(Segment(key, Some(n)))
    requires v.Map? && HasKey(v.entries, key) && Get(v.entries, key).List?
    requires n < -|Get(v.entries, key).items|
    ensures CheckWalk(v, parts, i, added, removed) == Walked(v, Some(Runtime(IndexError)))
  {
  }

  /** Add mode cannot repair a node of the wrong kind: it cannot add a key to a list or a
      scalar, nor an element to a mapping or a string that is too short. */
  lemma AddCannotRepairKind(v: Node, parts: seq<string>, i: nat, removed: bool)
    requires i < |parts| && Convert(parts[i]).Ok?
    ensures var seg := Convert(parts[i]).value;
      var w := CheckWalk(v, parts, i, true, removed);
      (seg.index.None? && !v.Map? ==> w == Walked(v, Some(Runtime(TypeError)))) &&
      (seg.index.Some? && !v.Map? ==> w == Walked(v, Some(Runtime(AttributeError)))) &&
      (seg.index.Some? && v.Map? && HasKey(v.entries, seg.key) &&
       (Get(v.entries, seg.key).Map? || Get(v.entries, seg.key).Scalar?) &&
       PyLen(Get(v.entries, seg.key)).Some? &&
       PyLen(Get(v.entries, seg.key)).value <= seg.index.value
       ==> w == Walked(v, Some(Runtime(AttributeError))))
  {
  }

  /** A plain segment stores at most `{}` under one key. */
  lemma CheckPlainWellFormed(v: Node, key: string, parts: seq<string>, i: nat, added: bool, removed: bool)
    requires i < |parts| && WellFormed(v)
    ensures WellFormed(CheckPlain(v, key, parts, i, added, removed).node)
  {
    if v.Map? {
      SetKeyWellFormed(v.entries, key, Map([]));
    }
  }

  /** An indexed segment stores at most `[{}]` under one key, then one more `{}` in it. */
  lemma CheckIndexedWellFormed(v: Node, key: string, index: int, parts: seq<string>, i: nat, added: bool, removed: bool)
    requires i < |parts| && WellFormed(v)
    ensures WellFormed(CheckIndexed(v, key, index, parts, i, added, removed).node)
  {
    if v.Map? && (HasKey(v.entries, key) || added) {
      SetKeyWellFormed(v.entries, key, List([Map([])]));
      var w := if HasKey(v.entries, key) then v else Map(SetKey(v.entries, key, List([Map([])])));
      var x := Get(w.entries, key);
      assert WellFormed(x) by {
        WellFormedAt(w, [Key(key)]);
      }
      if x.List? {
        assert WellFormed(List(x.items + [Map([])]));
        SetKeyWellFormed(w.entries, key, List(x.items + [Map([])]));
      }
    }
  }

  /** One pass of the loop body keeps the cursor's node well formed. */
  lemma CheckSegmentWellFormed(v: Node, parts: seq<string>, i: nat, added: bool, removed: bool)
    requires i < |parts| && WellFormed(v)
    ensures WellFormed(CheckSegment(v, parts, i, added, removed).node)
  {
    match Convert(parts[i])
    case Err(_) =>
    case Ok(Segment(key, None)) => CheckPlainWellFormed(v, key, parts, i, added, removed);
    case Ok(Segment(key, Some(index))) => CheckIndexedWellFormed(v, key, index, parts, i, added, removed);
  }
}
