/** `YamlParser`: the loaded document and the `changed` flag, edited in place by the
    existence pass, the terminal set or remove, the deep merge, and the batch driver `run`.

    Each method walks and mutates the way the source does and is proved against the
    specification functions of `Check`, `Update` and `Merge`; `RunOutcome` specifies `run`.
    The tree is held by value: writing at the cursor is `Put` at the cursor's location. */
module Parser {
  import opened Nodes
  import opened Locations
  import opened Paths
  import opened Check
  import opened Update
  import opened Merge

  /** One entry of the `update` list: the dotted key, the value (null when absent), and
      the `added` and `removed` flags (false when absent). */
  datatype UpdateItem = UpdateItem(key: string, value: Node, added: bool, removed: bool)

  /** What `run` leaves behind: the document, whether any change was reported, and the
      error that escaped, if any. */
  datatype Outcome = Outcome(node: Node, changed: bool, err: Option<Error>)

  // ---------------------------------------------------------------------------------
  // Specification of `run`
  // ---------------------------------------------------------------------------------

  /** No item from `n` on asks for add mode. */
  predicate NoAdding(items: seq<UpdateItem>, n: nat) {
    forall j :: n <= j < |items| ==> !items[j].added
  }

  /** The `update` items from `n` on: `_check`, then `_update`, item after item. Without add
      mode a run that raises nothing and reports no change leaves the document as it was. */
  function ApplyItems(data: Node, items: seq<UpdateItem>, n: nat): (r: Outcome)
    requires n <= |items|
    ensures r.err.None? && !r.changed && NoAdding(items, n) ==> r.node == data
    decreases |items| - n
  {
    if n == |items| then Outcome(data, false, None)
    else
      var it := items[n];
      var parts := Split(it.key, '.');
      var c := CheckWalk(data, parts, 0, it.added, it.removed);
      CheckReadOnlyUnlessAdding(data, parts, 0, it.removed);
      if c.err.Some? then Outcome(c.node, false, c.err)
      else match UpdateWalk(c.node, parts, 0, it.value, it.removed)
        case Err(e) => Outcome(c.node, false, Some(e))
        case Ok(u) =>
          var rest := ApplyItems(u.node, items, n + 1);
          Outcome(rest.node, u.changed || rest.changed, rest.err)
  }

  /** `run`: the updates in order, then, when `values` is non-empty, the merge of `values`
      into the document with adding allowed. */
  function RunOutcome(data: Node, update: seq<UpdateItem>, values: seq<Entry>, overwrite: bool): (r: Outcome)
    ensures ApplyItems(data, update, 0).changed ==> r.changed
    ensures r.err.None? ==> ApplyItems(data, update, 0).err.None?
    ensures r.err.None? && !r.changed && NoAdding(update, 0) ==> r.node == data
  {
    var a := ApplyItems(data, update, 0);
    if a.err.Some? || |values| == 0 then a
    else
      var m := MergeInto(values, a.node, overwrite, true);
      Outcome(m.node, a.changed || m.changed, m.err)
  }

  // ---------------------------------------------------------------------------------
  // Cursors
  // ---------------------------------------------------------------------------------

  /** The walk of `_check` seen from the root, given the walk from the cursor at `loc`
      (no location: the cursor is a character split off a string). */
  function Resume(root: Node, loc: Option<seq<Step>>, w: Walked): Walked {
    match loc
    case Some(p) => Walked(Put(root, p, w.node), w.err)
    case None => Walked(root, w.err)
  }

  /** The walk of `_update` seen from the root, given the walk from the cursor at `loc`. */
  function Lift(root: Node, loc: Option<seq<Step>>, r: Result<Updated>): Result<Updated> {
    match r
    case Err(e) => Err(e)
    case Ok(u) => Ok(Updated(if loc.Some? then Put(root, loc.value, u.node) else root, u.changed))
  }

  /** Moving the cursor from `u` at `p` into a child: writing `u` back at `p` and resuming
      from the child is the same as resuming from `u`. */
  lemma ResumeInto(root: Node, p: seq<Step>, u: Node, h: Hop, w: Walked)
    requires At(root, p).Some? && HopFrom(u, h)
    ensures Resume(root, Some(p), Walked(if h.path.Some? then Put(u, h.path.value, w.node) else u, w.err)) ==
      Resume(Put(root, p, u), if h.path.Some? then Some(p + h.path.value) else None, w)
    ensures h.path.Some? ==> At(Put(root, p, u), p + h.path.value) == Some(h.child)
  {
    AtPut(root, p, u);
    if h.path.Some? {
      var q := h.path.value;
      AtAppend(Put(root, p, u), p, q);
      PutAppend(Put(root, p, u), p, q, w.node);
      PutPut(root, p, u, Put(u, q, w.node));
    }
  }

  /** A pass of `_check` that stops or fails, with the cursor `v` at `loc` in `root`:
      what is left is the document with the pass's node written at `loc`. */
  lemma CheckResumeEnds(root: Node, loc: Option<seq<Step>>, v: Node, parts: seq<string>, i: nat, added: bool, removed: bool)
    requires i < |parts| && !CheckSegment(v, parts, i, added, removed).Into?
    ensures var m := CheckSegment(v, parts, i, added, removed);
      Resume(root, loc, CheckWalk(v, parts, i, added, removed)) ==
        Walked(if loc.Some? then Put(root, loc.value, m.node) else root, if m.Fail? then Some(m.err) else None)
  {
    CheckWalkEnds(v, parts, i, added, removed);
  }

  /** A pass of `_check` that moves into `h`, with the cursor `v` at `loc` in `root`: the
      rest of the walk is resumed from the child, at the location one hop further down. */
  lemma CheckResumeInto(root: Node, loc: seq<Step>, v: Node, parts: seq<string>, i: nat, added: bool, removed: bool, u: Node, h: Hop)
    requires i < |parts| && At(root, loc) == Some(v)
    requires CheckSegment(v, parts, i, added, removed) == Into(u, h)
    ensures var loc2 := if h.path.Some? then Some(loc + h.path.value) else None;
      Resume(root, Some(loc), CheckWalk(v, parts, i, added, removed)) ==
        Resume(Put(root, loc, u), loc2, CheckWalk(h.child, parts, i + 1, added, removed)) &&
      (loc2.Some? ==> At(Put(root, loc, u), loc2.value) == Some(h.child)) &&
      (loc2.None? ==> h.child.Scalar?)
  {
    var sub := CheckWalk(h.child, parts, i + 1, added, removed);
    CheckWalkInto(v, parts, i, added, removed, u, h);
    ResumeInto(root, loc, u, h, sub);
  }

  /** The write-back of `_update`'s walk from `v` through the subscript `h`. */
  function WriteBack(v: Node, h: Hop, r: Result<Updated>): Result<Updated> {
    if r.Err? then r
    else Ok(Updated(if h.path.Some? then Put(v, h.path.value, r.value.node) else v, r.value.changed))
  }

  lemma LiftInto(root: Node, p: seq<Step>, v: Node, h: Hop, r: Result<Updated>)
    requires At(root, p) == Some(v) && HopFrom(v, h)
    ensures Lift(root, Some(p), WriteBack(v, h, r)) ==
      Lift(root, if h.path.Some? then Some(p + h.path.value) else None, r)
    ensures h.path.Some? ==> At(root, p + h.path.value) == Some(h.child)
  {
    PutAt(root, p);
    if h.path.Some? {
      AtAppend(root, p, h.path.value);
      if r.Ok? {
        PutAppend(root, p, h.path.value, r.value.node);
      }
    }
  }

  /** One navigation step of `_update`'s walk. */
  lemma UpdateWalkStep(v: Node, keys: seq<string>, i: nat, value: Node, removed: bool, h: Hop)
    requires i < |keys| - 1 && NavStep(v, keys[i]) == Ok(h)
    ensures UpdateWalk(v, keys, i, value, removed) == WriteBack(v, h, UpdateWalk(h.child, keys, i + 1, value, removed))
  {
  }

  /** Past the last item nothing is left to do. */
  lemma ApplyItemsDone(data: Node, items: seq<UpdateItem>)
    ensures ApplyItems(data, items, |items|) == Outcome(data, false, None)
  {
  }

  /** An item whose check raises: the run stops with the checked document. */
  lemma ApplyItemsCheckFails(data: Node, items: seq<UpdateItem>, n: nat, c: Node, e: Error)
    requires n < |items|
    requires CheckWalk(data, Split(items[n].key, '.'), 0, items[n].added, items[n].removed) == Walked(c, Some(e))
    ensures ApplyItems(data, items, n) == Outcome(c, false, Some(e))
  {
  }

  /** An item whose check succeeds and whose update raises: the run stops with the checked
      document. */
  lemma ApplyItemsUpdateFails(data: Node, items: seq<UpdateItem>, n: nat, c: Node, e: Error)
    requires n < |items|
    requires CheckWalk(data, Split(items[n].key, '.'), 0, items[n].added, items[n].removed) == Walked(c, None)
    requires UpdateWalk(c, Split(items[n].key, '.'), 0, items[n].value, items[n].removed) == Err(e)
    ensures ApplyItems(data, items, n) == Outcome(c, false, Some(e))
  {
  }

  /** An item whose check and update both succeed: the run goes on from the updated
      document. */
  lemma ApplyItemsAfter(data: Node, items: seq<UpdateItem>, n: nat, c: Node, u: Updated)
    requires n < |items|
    requires CheckWalk(data, Split(items[n].key, '.'), 0, items[n].added, items[n].removed) == Walked(c, None)
    requires UpdateWalk(c, Split(items[n].key, '.'), 0, items[n].value, items[n].removed) == Ok(u)
    ensures ApplyItems(data, items, n) == ThenRun(u.changed, ApplyItems(u.node, items, n + 1))
  {
  }

  /** One key of the merge loop that raises: the merge ends there. */
  lemma MergeEntriesStops(src: seq<Entry>, j: nat, dst: Node, overwrite: bool, added: bool)
    requires j < |src| && MergeKey(src[j].key, src[j].val, dst, overwrite, added).err.Some?
    ensures MergeEntries(src, j, dst, overwrite, added) == MergeKey(src[j].key, src[j].val, dst, overwrite, added)
  {
  }

  /** One key of the merge loop that raises nothing: the merge goes on from its result. */
  lemma MergeEntriesAfter(src: seq<Entry>, j: nat, dst: Node, overwrite: bool, added: bool, d1: Node, c: bool)
    requires j < |src| && MergeKey(src[j].key, src[j].val, dst, overwrite, added) == Merged(d1, c, None)
    ensures MergeEntries(src, j, dst, overwrite, added) == Then(c, MergeEntries(src, j + 1, d1, overwrite, added))
  {
  }

  /** One position of the list loop that raises: the list merge ends there. */
  lemma MergeListStops(k: string, sl: seq<Node>, i: nat, dl: seq<Node>, overwrite: bool, added: bool)
    requires i < |sl| && i <= |dl| && MergeListElement(k, sl, i, dl, overwrite, added).err.Some?
    ensures MergeList(k, sl, i, dl, overwrite, added) == MergeListElement(k, sl, i, dl, overwrite, added)
  {
  }

  /** One position of the list loop that raises nothing: the list merge goes on from its
      result. */
  lemma MergeListAfter(k: string, sl: seq<Node>, i: nat, dl: seq<Node>, overwrite: bool, added: bool, dl1: seq<Node>, c: bool)
    requires i < |sl| && i <= |dl| && MergeListElement(k, sl, i, dl, overwrite, added) == Merged(List(dl1), c, None)
    ensures i + 1 <= |dl1|
    ensures MergeList(k, sl, i, dl, overwrite, added) == Then(c, MergeList(k, sl, i + 1, dl1, overwrite, added))
  {
  }

  /** `Then(any, m)`: the outcome `m` of the rest of a loop after earlier passes whose
      changes are summed up by `any`. */
  function Then(any: bool, m: Merged): Merged {
    Merged(m.node, any || m.changed, m.err)
  }

  function ThenRun(any: bool, o: Outcome): Outcome {
    Outcome(o.node, any || o.changed, o.err)
  }

  // ---------------------------------------------------------------------------------
  // How `_check` and `_update` fit together
  // ---------------------------------------------------------------------------------

  /** `_update` navigates a segment with the subscript `_check` resolved it with. */
  lemma NavStepIsSegmentHop(v: Node, k: string)
    requires Convert(k).Ok?
    ensures NavStep(v, k) == SegmentHop(v, Convert(k).value)
  {
  }

  /** Along a path on which every subscript succeeds, setting succeeds, or raises the
      TypeError of an item assignment into a string. */
  lemma {:induction false} ResolvedSetSucceeds(v: Node, keys: seq<string>, i: nat, value: Node)
    requires i < |keys| && Resolve(v, keys, i).Ok?
    ensures var r := UpdateWalk(v, keys, i, value, false); r.Ok? || r == Err(Runtime(TypeError))
    decreases |keys| - i
  {
    var seg := Convert(keys[i]).value;
    NavStepIsSegmentHop(v, keys[i]);
    var h := SegmentHop(v, seg).value;
    if i < |keys| - 1 {
      ResolvedSetSucceeds(h.child, keys, i + 1, value);
    }
  }

  /** A set along a resolvable path reports a change exactly when the addressed node `x`
      differs from `value`; without a change the document is untouched, and with one the
      path now leads to `value`. */
  lemma {:induction false} SetWritesAddressedSlot(v: Node, keys: seq<string>, i: nat, value: Node, x: Node, v2: Node, c: bool)
    requires i < |keys| && Resolve(v, keys, i) == Ok(x)
    requires UpdateWalk(v, keys, i, value, false) == Ok(Updated(v2, c))
    ensures c == !Equiv(x, value)
    ensures !c ==> v2 == v
    ensures c ==> Resolve(v2, keys, i) == Ok(value)
    decreases |keys| - i
  {
    var seg := Convert(keys[i]).value;
    NavStepIsSegmentHop(v, keys[i]);
    var h := SegmentHop(v, seg).value;
    if i == |keys| - 1 {
      assert x == h.child;
      if c {
        var p := h.path.value;
        if '[' in keys[i] {
          KeyIndexHopPut(v, seg.key, seg.index.value, p, value);
        } else {
          KeyHopPut(v, keys[i], value);
          assert v2 == Put(v, [Key(keys[i])], value);
        }
        NavStepIsSegmentHop(v2, keys[i]);
      }
    } else {
      var u := UpdateWalk(h.child, keys, i + 1, value, false).value;
      match h.path
      case None =>
        // a character split off a string: nothing below it can be updated
      case Some(p) =>
        SetWritesAddressedSlot(h.child, keys, i + 1, value, x, u.node, u.changed);
        if c {
          NavStepPut(v, keys[i], p, u.node);
          NavStepIsSegmentHop(v2, keys[i]);
        } else {
          PutAt(v, p);
        }
    }
  }

  /** After `_check` has passed in strict or add mode, the set of `_update` on the same key
      cannot fail with a missing key or index: only the TypeError of assigning into a
      string remains. */
  lemma CheckedSetFailsOnlyOnStrings(v: Node, key: string, added: bool, value: Node, v1: Node)
    requires CheckWalk(v, Split(key, '.'), 0, added, false) == Walked(v1, None)
    ensures var r := UpdateWalk(v1, Split(key, '.'), 0, value, false); r.Ok? || r == Err(Runtime(TypeError))
  {
    var parts := Split(key, '.');
    if added {
      AddedPathResolves(v, parts, 0, false);
    } else {
      CheckReadOnlyUnlessAdding(v, parts, 0, false);
      StrictAcceptsResolvablePaths(v, parts, 0);
    }
    ResolvedSetSucceeds(v1, parts, 0, value);
  }

  /** Add mode on a missing top-level key `k` stores `{}` under it. */
  lemma AddStoresEmptyMap(es: seq<Entry>, k: string)
    requires !HasKey(es, k) && '[' !in k && ']' !in k
    ensures CheckWalk(Map(es), [k], 0, true, false) == Walked(Map(SetKey(es, k, Map([]))), None)
  {
    ConvertPlain(k);
    var w := Map(SetKey(es, k, Map([])));
    assert Put(w, [Key(k)], Map([])) == w;
  }

  /** Setting a value over the `{}` just stored: the key ends up holding it, and a change
      is reported unless it equals `{}`. */
  lemma SetOverEmptyMap(es: seq<Entry>, k: string, x: Node)
    requires !HasKey(es, k) && '[' !in k
    ensures UpdateWalk(Map(SetKey(es, k, Map([]))), [k], 0, x, false) ==
      Ok(Updated(Map(SetKey(es, k, x)), x != Map([])))
  {
    var w := Map(SetKey(es, k, Map([])));
    IndexOfKeyAt(w.entries, k, |es|);
    assert SetKey(w.entries, k, x) == w.entries[|es| := Entry(k, x)] == es + [Entry(k, x)];
  }

  /** Add mode on a missing top-level key first stores `{}` under it and then sets the
      value; a value equal to `{}` is then found already in place, so the key is created
      but no change is reported. */
  lemma AddEmptyMapReportsNoChange(es: seq<Entry>, k: string, x: Node)
    requires !HasKey(es, k) && '.' !in k && '[' !in k && ']' !in k
    ensures ApplyItems(Map(es), [UpdateItem(k, x, true, false)], 0) ==
      Outcome(Map(SetKey(es, k, x)), x != Map([]), None)
  {
    SplitPrefix(k, "", '.');
    assert k + "" == k;
    assert Split(k, '.') == [k];
    AddStoresEmptyMap(es, k);
    SetOverEmptyMap(es, k, x);
  }

  /** The `update` items keep a well-formed document well formed, whatever they raise,
      as long as the values they set are well formed. */
  lemma {:induction false} ApplyKeepsWellFormed(data: Node, items: seq<UpdateItem>, n: nat)
    requires n <= |items| && WellFormed(data)
    requires forall l :: n <= l < |items| ==> WellFormed(items[l].value)
    ensures WellFormed(ApplyItems(data, items, n).node)
    decreases |items| - n
  {
    if n < |items| {
      var it := items[n];
      var parts := Split(it.key, '.');
      var c := CheckWalk(data, parts, 0, it.added, it.removed);
      if c.err.None? && UpdateWalk(c.node, parts, 0, it.value, it.removed).Ok? {
        UpdateKeepsWellFormed(c.node, parts, 0, it.value, it.removed);
        ApplyKeepsWellFormed(UpdateWalk(c.node, parts, 0, it.value, it.removed).value.node, items, n + 1);
      }
    }
  }

  /** `run` keeps a well-formed document well formed: no key ends up twice in a mapping. */
  lemma RunKeepsWellFormed(data: Node, update: seq<UpdateItem>, values: seq<Entry>, overwrite: bool)
    requires WellFormed(data) && WellFormed(Map(values))
    requires forall l :: 0 <= l < |update| ==> WellFormed(update[l].value)
    ensures WellFormed(RunOutcome(data, update, values, overwrite).node)
  {
    ApplyKeepsWellFormed(data, update, 0);
    MergeKeepsWellFormed(values, ApplyItems(data, update, 0).node, overwrite, true);
  }

  class YamlParser {
    var yamlData: Node
    var changed: bool
    const update: seq<UpdateItem>
    const values: seq<Entry>
    const overwrite: bool

    /** A parser over an already loaded document. */
    constructor (data: Node, update: seq<UpdateItem>, values: seq<Entry>, overwrite: bool)
      ensures yamlData == data && !changed
      ensures this.update == update && this.values == values && this.overwrite == overwrite
    {
      yamlData := data;
      changed := false;
      this.update := update;
      this.values := values;
      this.overwrite := overwrite;
    }

    /** `_check`: walks the path with the cursor `v`, creating what is missing in add
        mode, and leaves the document as `CheckWalk` says, raising the error it says. */
    method Check(key: string, added: bool, removed: bool) returns (err: Option<Error>)
      modifies this`yamlData
      ensures CheckWalk(old(yamlData), Split(key, '.'), 0, added, removed) == Walked(yamlData, err)
    {
      var parts := Split(key, '.');
      var v := yamlData;
      var loc: Option<seq<Step>> := Some([]);
      var i := 0;
      ghost var w0 := CheckWalk(v, parts, 0, added, removed);
      assert Resume(yamlData, loc, w0) == w0;
      while i < |parts|
        invariant i <= |parts|
        invariant loc.Some? ==> At(yamlData, loc.value) == Some(v)
        invariant loc.None? ==> v.Scalar?
        invariant CheckWalk(old(yamlData), parts, 0, added, removed) ==
          Resume(yamlData, loc, CheckWalk(v, parts, i, added, removed))
        decreases |parts| - i
      {
        var done;
        done, err, v, loc := CheckStep(v, loc, parts, i, added, removed);
        if done {
          return;
        }
        i := i + 1;
      }
      if loc.Some? {
        PutAt(yamlData, loc.value);
      }
      return None;
    }

    /** One pass of the `_check` loop: segment `parts[i]` at the cursor `v`, which sits at
        `loc` in the document, or is a scalar off the document when `loc` is `None`. Either
        the walk ends here (`done`, with the error raised, if any), or it goes on from the
        new cursor `v'` at `loc'`. */
    method CheckStep(v: Node, loc: Option<seq<Step>>, parts: seq<string>, i: nat, added: bool, removed: bool)
      returns (done: bool, err: Option<Error>, v': Node, loc': Option<seq<Step>>)
      requires i < |parts|
      requires loc.Some? ==> At(yamlData, loc.value) == Some(v)
      requires loc.None? ==> v.Scalar?
      modifies this`yamlData
      ensures done ==> Resume(old(yamlData), loc, CheckWalk(v, parts, i, added, removed)) == Walked(yamlData, err)
      ensures !done ==> err.None?
      ensures !done ==> (loc'.Some? ==> At(yamlData, loc'.value) == Some(v')) && (loc'.None? ==> v'.Scalar?)
      ensures !done ==>
        Resume(old(yamlData), loc, CheckWalk(v, parts, i, added, removed)) ==
        Resume(yamlData, loc', CheckWalk(v', parts, i + 1, added, removed))
    {
      var m := CheckSegmentAt(v, loc, parts, i, added, removed);
      match m {
        case Stop(u) =>
          CheckResumeEnds(old(yamlData), loc, v, parts, i, added, removed);
          return true, None, v, loc;
        case Fail(u, e) =>
          CheckResumeEnds(old(yamlData), loc, v, parts, i, added, removed);
          return true, Some(e), v, loc;
        case Into(u, h) =>
          CheckResumeInto(old(yamlData), loc.value, v, parts, i, added, removed, u, h);
          return false, None, h.child, if h.path.Some? then Some(loc.value + h.path.value) else None;
      }
    }

    /** `_update`: walks `temp_dict` down to the parent of the last segment with plain
        subscripts, then sets or removes there, and returns whether it changed anything.
        The document and the result are those `UpdateWalk` gives; on an error the document
        is untouched. */
    method Update(key: string, value: Node, removed: bool) returns (r: Result<bool>)
      modifies this`yamlData
      ensures var spec := UpdateWalk(old(yamlData), Split(key, '.'), 0, value, removed);
        if spec.Ok? then r == Ok(spec.value.changed) && yamlData == spec.value.node
        else r == Err(spec.error) && yamlData == old(yamlData)
    {
      var keys := Split(key, '.');
      var temp := yamlData;
      var loc: Option<seq<Step>> := Some([]);
      var i := 0;
      while i < |keys| - 1
        invariant i < |keys|
        invariant yamlData == old(yamlData)
        invariant loc.Some? ==> At(yamlData, loc.value) == Some(temp)
        invariant loc.None? ==> temp.Scalar?
        invariant UpdateWalk(yamlData, keys, 0, value, removed) ==
          Lift(yamlData, loc, UpdateWalk(temp, keys, i, value, removed))
        decreases |keys| - i
      {
        var nav := NavStep(temp, keys[i]);      // `temp_dict = temp_dict[key]` or `[key][idx]`
        if nav.Err? {
          return Err(nav.error);
        }
        var h := nav.value;
        UpdateWalkStep(temp, keys, i, value, removed, h);
        if loc.Some? {
          LiftInto(yamlData, loc.value, temp, h, UpdateWalk(h.child, keys, i + 1, value, removed));
        }
        loc := if h.path.Some? && loc.Some? then Some(loc.value + h.path.value) else None;
        temp := h.child;
        i := i + 1;
      }
      ghost var root := yamlData;
      if loc.Some? {
        PutAt(root, loc.value);
      }
      r := UpdateLast(temp, loc, keys[i], value, removed);
    }

    /** The last segment of `_update`, with `temp_dict` at `loc`. */
    method UpdateLast(temp: Node, loc: Option<seq<Step>>, last: string, value: Node, removed: bool)
      returns (r: Result<bool>)
      requires loc.Some? ==> At(yamlData, loc.value) == Some(temp)
      requires loc.None? ==> temp.Scalar?
      modifies this`yamlData
      ensures var spec := Lift(old(yamlData), loc, Terminal(temp, last, value, removed));
        if spec.Ok? then r == Ok(spec.value.changed) && yamlData == spec.value.node
        else r == Err(spec.error) && yamlData == old(yamlData)
    {
      if loc.Some? {
        PutAt(yamlData, loc.value);
      }
      if '[' in last {
        var seg := Convert(last);
        if seg.Err? {
          return Err(seg.error);
        }
        var k, idx := seg.value.key, seg.value.index.value;
        if removed {
          // `temp_dict.pop(k[idx])`
          if temp.Scalar? {
            return Err(Runtime(AttributeError));
          }
          var j := PyIndex(|k|, idx);
          if j.None? {
            return Err(InvalidIndex(idx, k));
          }
          if temp.List? {
            return Err(Runtime(TypeError));
          }
          var c := [k[j.value]];
          if !HasKey(temp.entries, c) {
            return Ok(false);
          }
          yamlData := Put(yamlData, loc.value, Map(RemoveKey(temp.entries, c)));
          return Ok(true);
        }
        var hop := KeyIndexHop(temp, k, idx);
        if hop.Err? {
          var e := hop.error;
          return Err(if e == Runtime(KeyError) || e == Runtime(IndexError) then InvalidIndex(idx, k) else e);
        }
        if Equiv(hop.value.child, value) {
          return Ok(false);
        }
        if hop.value.path.None? {
          return Err(Runtime(TypeError));   // item assignment into a string
        }
        PutAppend(yamlData, loc.value, hop.value.path.value, value);
        yamlData := Put(yamlData, loc.value + hop.value.path.value, value);
        return Ok(true);
      }
      if removed {
        // `temp_dict.pop(last)`
        match temp {
          case Scalar(_) =>
            return Err(Runtime(AttributeError));
          case List(_) =>
            return Err(Runtime(TypeError));
          case Map(es) =>
            if !HasKey(es, last) {
              return Ok(false);
            }
            yamlData := Put(yamlData, loc.value, Map(RemoveKey(es, last)));
            return Ok(true);
        }
      }
      var hop := KeyHop(temp, last);
      if hop.Err? {
        var e := hop.error;
        return Err(if e == Runtime(KeyError) then InvalidKey(last) else e);
      }
      if Equiv(hop.value.child, value) {
        return Ok(false);
      }
      PutAppend(yamlData, loc.value, [Key(last)], value);
      assert Put(temp, [Key(last)], value) == Map(SetKey(temp.entries, last, value));
      yamlData := Put(yamlData, loc.value + [Key(last)], value);
      return Ok(true);
    }

    /** `run`: every `update` item is checked and then applied, in order, setting
        `changed` when an item reports a change; then, when `values` is non-empty, it is
        merged into the document with adding allowed. The document, the flag and the
        escaping error are those of `RunOutcome`. */
    method Run() returns (err: Option<Error>)
      modifies this
      ensures var o := RunOutcome(old(yamlData), update, values, overwrite);
        yamlData == o.node && err == o.err && changed == (old(changed) || o.changed)
    {
      err := ApplyUpdates();
      if err.None? && |values| > 0 {
        var out;
        out, err := CompareDicts(values, yamlData, overwrite, true);
        yamlData := out;
      }
    }

    /** The `update` loop of `run`: `_check` then `_update` for each item, stopping at the
        first error. */
    method ApplyUpdates() returns (err: Option<Error>)
      modifies this`yamlData, this`changed
      ensures var a := ApplyItems(old(yamlData), update, 0);
        yamlData == a.node && err == a.err && changed == (old(changed) || a.changed)
    {
      err := None;
      var n := 0;
      ghost var any := false;
      while n < |update|
        invariant n <= |update| && err.None?
        invariant ApplyItems(old(yamlData), update, 0) == ThenRun(any, ApplyItems(yamlData, update, n))
        invariant changed == (old(changed) || any)
        decreases |update| - n
      {
        var c;
        err, c := ApplyItem(n);
        if err.Some? {
          return;
        }
        any := any || c;
        n := n + 1;
      }
      ApplyItemsDone(yamlData, update);
    }

    /** One pass of the `update` loop of `run`: `_check` then `_update` for item `n`, with
        `changed` set when the update reports a change. */
    method ApplyItem(n: nat) returns (err: Option<Error>, c: bool)
      requires n < |update|
      modifies this`yamlData, this`changed
      ensures err.Some? ==> ApplyItems(old(yamlData), update, n) == Outcome(yamlData, false, err)
      ensures err.None? ==> ApplyItems(old(yamlData), update, n) == ThenRun(c, ApplyItems(yamlData, update, n + 1))
      ensures changed == (old(changed) || (err.None? && c))
    {
      var item := update[n];
      err := Check(item.key, item.added, item.removed);
      if err.Some? {
        ApplyItemsCheckFails(old(yamlData), update, n, yamlData, err.value);
        return err, false;
      }
      ghost var checked := yamlData;
      var r := Update(item.key, item.value, item.removed);
      if r.Err? {
        ApplyItemsUpdateFails(old(yamlData), update, n, checked, r.error);
        return Some(r.error), false;
      }
      ApplyItemsAfter(old(yamlData), update, n, checked, Updated(yamlData, r.value));
      if r.value {
        changed := true;   // at least one value was updated
      }
      return None, r.value;
    }

    /** `compare_dicts(src, dst)`: the source keys in order, each merged by `CompareKey`,
        stopping at the first error; the merged target and the error are `MergeEntries`'s,
        and `changed` is set exactly when an assignment happened. */
    method CompareDicts(src: seq<Entry>, dst: Node, overwrite: bool, added: bool) returns (out: Node, err: Option<Error>)
      modifies this`changed
      ensures var m := MergeEntries(src, 0, dst, overwrite, added);
        out == m.node && err == m.err && changed == (old(changed) || m.changed)
      decreases Map(src), 1
    {
      out, err := dst, None;
      ghost var any := false;
      var j := 0;
      while j < |src|
        invariant j <= |src| && err.None?
        invariant MergeEntries(src, 0, dst, overwrite, added) == Then(any, MergeEntries(src, j, out, overwrite, added))
        invariant changed == (old(changed) || any)
        decreases |src| - j
      {
        ghost var c;
        out, err, c := CompareEntry(src, j, out, overwrite, added);
        any := any || c;
        if err.Some? {
          return;
        }
        j := j + 1;
      }
    }

    /** One pass of the key loop of `compare_dicts`: the key `src[j]` merged into `dst`, and
        the merge of the run `src[j..]` as it follows from it (`c` is whether that key
        assigned anything). */
    method CompareEntry(src: seq<Entry>, j: nat, dst: Node, overwrite: bool, added: bool)
      returns (out: Node, err: Option<Error>, ghost c: bool)
      requires j < |src|
      modifies this`changed
      ensures err.Some? ==> MergeEntries(src, j, dst, overwrite, added) == Merged(out, c, err)
      ensures err.None? ==> MergeEntries(src, j, dst, overwrite, added) == Then(c, MergeEntries(src, j + 1, out, overwrite, added))
      ensures changed == (old(changed) || c)
      decreases Map(src), 0
    {
      c := MergeKey(src[j].key, src[j].val, dst, overwrite, added).changed;
      out, err := CompareKey(src[j].key, src[j].val, dst, overwrite, added);
      if err.Some? {
        MergeEntriesStops(src, j, dst, overwrite, added);
      } else {
        MergeEntriesAfter(src, j, dst, overwrite, added, out, c);
      }
    }

    /** The loop body of `compare_dicts` for the key `k`, with `sv` the source value. */
    method CompareKey(k: string, sv: Node, dst: Node, overwrite: bool, added: bool) returns (out: Node, err: Option<Error>)
      modifies this`changed
      ensures var m := MergeKey(k, sv, dst, overwrite, added);
        out == m.node && err == m.err && changed == (old(changed) || m.changed)
      decreases sv, 2
    {
      var present := PyIn(k, dst);                 // `key not in dst_dict`
      if present.Err? {
        return dst, Some(present.error);
      }
      if !present.value {
        if !added {
          return dst, Some(NotFoundInTarget(k));
        }
        if !dst.Map? {
          return dst, Some(Runtime(TypeError));
        }
        changed := true;
        return Map(SetKey(dst.entries, k, sv)), None;
      }
      if !dst.Map? {
        return dst, Some(Runtime(TypeError));
      }
      var es := dst.entries;
      var dv := Get(es, k);
      SetKeySame(es, k);
      if sv.Map? && dv.Map? {
        var sub;
        sub, err := CompareDicts(sv.entries, dv, overwrite, added);
        return Map(SetKey(es, k, sub)), err;
      } else if sv.Map? && dv.List? {
        if !overwrite {
          return dst, Some(DictOverList(k));
        }
        changed := true;
        return Map(SetKey(es, k, sv)), None;
      } else if sv.List? && dv.List? {
        var sub;
        sub, err := CompareLists(k, sv.items, dv.items, overwrite, added);
        return Map(SetKey(es, k, List(sub))), err;
      } else if sv.List? && dv.Map? {
        if !overwrite {
          return dst, Some(ListOverDict(k));
        }
        changed := true;
        return Map(SetKey(es, k, sv)), None;
      } else if sv != dv {
        changed := true;
        return Map(SetKey(es, k, sv)), None;
      }
      return dst, None;
    }

    /** The list branch of `compare_dicts` for the key `k`: the source list `sl` against the
        target list `dl`, position by position, appending what the target lacks when adding
        is allowed. The new target list and the error are `MergeList`'s. */
    method CompareLists(k: string, sl: seq<Node>, dl: seq<Node>, overwrite: bool, added: bool)
      returns (out: seq<Node>, err: Option<Error>)
      modifies this`changed
      ensures var m := MergeList(k, sl, 0, dl, overwrite, added);
        List(out) == m.node && err == m.err && changed == (old(changed) || m.changed)
      decreases List(sl), 1
    {
      out, err := dl, None;
      ghost var any := false;
      var i := 0;
      while i < |sl|
        invariant i <= |sl| && i <= |out| && err.None?
        invariant MergeList(k, sl, 0, dl, overwrite, added) == Then(any, MergeList(k, sl, i, out, overwrite, added))
        invariant changed == (old(changed) || any)
        decreases |sl| - i
      {
        ghost var c;
        out, err, c := CompareListStep(k, sl, i, out, overwrite, added);
        any := any || c;
        if err.Some? {
          return;
        }
        i := i + 1;
      }
    }

    /** One pass of the list loop of `compare_dicts`, and the merge of the positions from
        `i` on as it follows from it (`c` is whether that position assigned anything). */
    method CompareListStep(k: string, sl: seq<Node>, i: nat, dl: seq<Node>, overwrite: bool, added: bool)
      returns (out: seq<Node>, err: Option<Error>, ghost c: bool)
      requires i < |sl| && i <= |dl|
      modifies this`changed
      ensures err.None? ==> i + 1 <= |out|
      ensures err.Some? ==> MergeList(k, sl, i, dl, overwrite, added) == Merged(List(out), c, err)
      ensures err.None? ==> MergeList(k, sl, i, dl, overwrite, added) == Then(c, MergeList(k, sl, i + 1, out, overwrite, added))
      ensures changed == (old(changed) || c)
      decreases List(sl), 0, 1
    {
      c := MergeListElement(k, sl, i, dl, overwrite, added).changed;
      out, err := CompareElement(k, sl, i, dl, overwrite, added);
      if err.Some? {
        MergeListStops(k, sl, i, dl, overwrite, added);
      } else {
        MergeListAfter(k, sl, i, dl, overwrite, added, out, c);
      }
    }

    /** One pass of the list loop of `compare_dicts`: position `i` of the source list
        against the target list `dl`, as `MergeListElement` says. */
    method CompareElement(k: string, sl: seq<Node>, i: nat, dl: seq<Node>, overwrite: bool, added: bool)
      returns (out: seq<Node>, err: Option<Error>)
      requires i < |sl| && i <= |dl|
      modifies this`changed
      ensures var m := MergeListElement(k, sl, i, dl, overwrite, added);
        List(out) == m.node && err == m.err && changed == (old(changed) || m.changed)
      decreases List(sl), 0, 0
    {
      out, err := dl, None;
      var x := sl[i];
      if x.List? {
        if i >= |dl| {
          return dl, Some(Runtime(IndexError));  // `dst_dict[key][i]`
        }
        if dl[i].List? {
          var missing := AllSearch(x, dl);        // raises: a list has no `items`
          return dl, Some(missing.error);
        }
        if x.items != [] {
          return dl, Some(Runtime(TypeError));
        }
      }
      if i >= |dl| {
        if !added {
          return dl, Some(IndexNotFoundInTarget(k, i));
        }
        out := dl + [x];
        changed := true;
      } else if x.Map? {
        var sub;
        sub, err := CompareDicts(x.entries, dl[i], overwrite, added);
        out := dl[i := sub];
      }
    }

    /** The loop body of `_check` for segment `parts[i]`, with the cursor `v` at `loc`: the
        segment is converted, then handled as a plain key or as `key[index]`. */
    method CheckSegmentAt(v: Node, loc: Option<seq<Step>>, parts: seq<string>, i: nat, added: bool, removed: bool)
      returns (m: Move)
      requires i < |parts|
      requires loc.Some? ==> At(yamlData, loc.value) == Some(v)
      requires loc.None? ==> v.Scalar?
      modifies this`yamlData
      ensures m == CheckSegment(v, parts, i, added, removed)
      ensures yamlData == if loc.Some? then Put(old(yamlData), loc.value, m.node) else old(yamlData)
    {
      var seg := Convert(parts[i]);
      if seg.Err? {
        if loc.Some? {
          PutAt(yamlData, loc.value);
        }
        m := Fail(v, seg.error);
      } else if seg.value.index.None? {
        m := CheckPlainAt(v, loc, seg.value.key, parts, i, added, removed);
      } else {
        m := CheckIndexedAt(v, loc, seg.value.key, seg.value.index.value, parts, i, added, removed);
      }
    }

    /** The loop body of `_check` for a segment without an index, with the cursor `v` at
        `loc`: what it does to the cursor, written into the document in place. */
    method CheckPlainAt(v: Node, loc: Option<seq<Step>>, key: string, parts: seq<string>, i: nat, added: bool, removed: bool)
      returns (m: Move)
      requires i < |parts| && key == parts[i]
      requires loc.Some? ==> At(yamlData, loc.value) == Some(v)
      requires loc.None? ==> v.Scalar?
      modifies this`yamlData
      ensures m == CheckPlain(v, key, parts, i, added, removed)
      ensures yamlData == if loc.Some? then Put(old(yamlData), loc.value, m.node) else old(yamlData)
    {
      if loc.Some? {
        PutAt(yamlData, loc.value);
      }
      // the key is expected to hold a mapping
      if !v.Map? {
        if added {
          return Fail(v, Runtime(TypeError));      // `v[key] = {}` on a list or scalar
        } else if removed {
          return Stop(v);
        } else {
          return Fail(v, CannotGetValue(Join(parts, ".", Some(i))));
        }
      }
      var w := v;
      if !HasKey(v.entries, parts[i]) {
        if added {
          w := Map(SetKey(v.entries, key, Map([])));
          yamlData := Put(yamlData, loc.value, w);
        } else if removed {
          return Stop(v);
        } else {
          return Fail(v, CannotGetValue(Join(parts, ".", Some(i + 1))));
        }
      }
      return Into(w, Hop(Get(w.entries, key), Some([Key(key)])));   // `v = v[key]`
    }

    /** The loop body of `_check` for a segment `key[index]`, with the cursor `v` at `loc`. */
    method CheckIndexedAt(v: Node, loc: Option<seq<Step>>, key: string, index: int, parts: seq<string>, i: nat, added: bool, removed: bool)
      returns (m: Move)
      requires i < |parts|
      requires loc.Some? ==> At(yamlData, loc.value) == Some(v)
      requires loc.None? ==> v.Scalar?
      modifies this`yamlData
      ensures m == CheckIndexed(v, key, index, parts, i, added, removed)
      ensures yamlData == if loc.Some? then Put(old(yamlData), loc.value, m.node) else old(yamlData)
    {
      if loc.Some? {
        PutAt(yamlData, loc.value);
      }
      // the key is expected to hold a list
      if !v.Map? {
        return Fail(v, Runtime(AttributeError));   // `v.keys()` on a list or scalar
      }
      var w := v;
      if !HasKey(v.entries, key) {
        if added {
          w := Map(SetKey(v.entries, key, List([Map([])])));
          yamlData := Put(yamlData, loc.value, w);
        } else if removed {
          return Stop(v);
        } else {
          return Fail(v, CannotGetValue(Join(parts, ".", Some(i + 1))));
        }
      }
      var x := Get(w.entries, key);
      var n := PyLen(x);
      if n.None? {
        return Fail(w, Runtime(TypeError));       // `len()` of a number, boolean or null
      }
      if n.value <= index {
        if added {
          if !x.List? {
            return Fail(w, Runtime(AttributeError)); // `append` on a mapping or string
          }
          ghost var w1 := w;
          w := Map(SetKey(w.entries, key, List(x.items + [Map([])])));
          yamlData := Put(yamlData, loc.value, w);
          PutPut(old(yamlData), loc.value, w1, w);
        } else if removed {
          return Stop(w);
        } else {
          return Fail(w, OutOfIndex(Join(parts, ".", Some(i + 1))));
        }
      }
      var hop := KeyIndexHop(w, key, index);       // `v = v[key][index]`
      if hop.Err? {
        return Fail(w, hop.error);
      }
      return Into(w, hop.value);
    }
  }
}
