/** `_update`: walks the dotted key path with plain Python subscripts (raising whatever
    they raise) down to the parent of the last segment, then sets or removes there and
    reports whether the document changed. Setting never creates a key: that is `_check`'s
    job in add mode. */
module Update {
  import opened Nodes
  import opened Locations
  import opened Paths

  datatype Updated = Updated(node: Node, changed: bool)

  /** `temp_dict[key][idx]` for a segment containing `[`, `temp_dict[key]` otherwise (a
      segment with only `]` is used as a key verbatim). */
  function NavStep(v: Node, k: string): (r: Result<Hop>)
    ensures r.Ok? ==> HopFrom(v, r.value)
    ensures r.Ok? ==> v.Map?
    ensures r.Ok? && r.value.path.Some? ==> |r.value.path.value| >= 1
  {
    if '[' in k then
      match Convert(k)
      case Err(e) => Err(e)
      case Ok(seg) => KeyIndexHop(v, seg.key, seg.index.value)
    else KeyHop(v, k)
  }

  /** `temp_dict.pop(key[idx])`: the attribute `pop` is looked up first, then the
      character `key[idx]` of the key NAME is computed and popped. */
  function RemoveIndexed(v: Node, key: string, idx: int): (r: Result<Updated>)
    ensures r.Ok? <==> v.Map? && PyIndex(|key|, idx).Some?
    ensures !v.Scalar? && PyIndex(|key|, idx).None? ==> r == Err(InvalidIndex(idx, key))
    ensures r.Ok? ==> r.value.node.Map?
    ensures r.Ok? ==> (r.value.changed <==> HasKey(v.entries, [key[PyIndex(|key|, idx).value]]))
    ensures r.Ok? && !r.value.changed ==> r.value.node == v
  {
    if v.Scalar? then Err(Runtime(AttributeError))     // a scalar has no `pop`
    else match PyIndex(|key|, idx)
      case None => Err(InvalidIndex(idx, key))          // IndexError from `key[idx]`
      case Some(j) =>
        var c := [key[j]];
        if v.Map? then Ok(Updated(Map(RemoveKey(v.entries, c)), HasKey(v.entries, c)))
        else Err(Runtime(TypeError))                    // `list.pop` of a string
  }

  /** `temp_dict[key][idx] = value` unless the element already equals `value`. */
  function SetIndexed(v: Node, key: string, idx: int, value: Node): (r: Result<Updated>)
    ensures v.Map? && !HasKey(v.entries, key) ==> r == Err(InvalidIndex(idx, key))
    ensures (v.Map? && HasKey(v.entries, key) && Get(v.entries, key).List? &&
             PyIndex(|Get(v.entries, key).items|, idx).None?) ==>
      r == Err(InvalidIndex(idx, key))
    ensures r.Ok? ==> v.Map? && KeyIndexHop(v, key, idx).Ok?
    ensures r.Ok? ==> (r.value.changed <==> !Equiv(KeyIndexHop(v, key, idx).value.child, value))
    ensures r.Ok? && !r.value.changed ==> r.value.node == v
    ensures r.Ok? && r.value.changed ==>
      KeyIndexHop(r.value.node, key, idx) == Ok(Hop(value, KeyIndexHop(v, key, idx).value.path))
    ensures r.Ok? && v.Map? && HasKey(v.entries, key) && Get(v.entries, key).Scalar? ==> !r.value.changed
  {
    match KeyIndexHop(v, key, idx)
    case Err(e) =>
      Err(if e == Runtime(KeyError) || e == Runtime(IndexError) then InvalidIndex(idx, key) else e)
    case Ok(h) =>
      if Equiv(h.child, value) then Ok(Updated(v, false))
      else match h.path
        case Some(p) =>
          KeyIndexHopPut(v, key, idx, p, value);
          Ok(Updated(Put(v, p, value), true))
        case None => Err(Runtime(TypeError))           // item assignment into a string
  }

  /** `temp_dict.pop(k)`, reporting whether the key was there. */
  function RemovePlain(v: Node, k: string): (r: Result<Updated>)
    ensures r.Ok? <==> v.Map?
    ensures v.List? ==> r == Err(Runtime(TypeError))
    ensures r.Ok? ==> (r.value.changed <==> HasKey(v.entries, k))
    ensures r.Ok? ==> r.value.node == Map(RemoveKey(v.entries, k))
    ensures r.Ok? && !r.value.changed ==> r.value.node == v
  {
    match v
    case Map(es) => Ok(Updated(Map(RemoveKey(es, k)), HasKey(es, k)))
    case List(_) => Err(Runtime(TypeError))            // `list.pop` of a string
    case Scalar(_) => Err(Runtime(AttributeError))
  }

  /** `temp_dict[k] = value` for an existing key `k`, unless it already equals `value`. */
  function SetPlain(v: Node, k: string, value: Node): (r: Result<Updated>)
    ensures r.Ok? <==> v.Map? && HasKey(v.entries, k)
    ensures v.Map? && !HasKey(v.entries, k) ==> r == Err(InvalidKey(k))
    ensures r.Ok? ==> (r.value.changed <==> !Equiv(Get(v.entries, k), value))
    ensures r.Ok? && !r.value.changed ==> r.value.node == v
    ensures r.Ok? && r.value.changed ==> r.value.node == Map(SetKey(v.entries, k, value))
  {
    match KeyHop(v, k)
    case Err(e) => Err(if e == Runtime(KeyError) then InvalidKey(k) else e)
    case Ok(h) =>
      if Equiv(h.child, value) then Ok(Updated(v, false))
      else Ok(Updated(Map(SetKey(v.entries, k, value)), true))
  }

  /** The work on the last segment, with `temp_dict` at `v`. */
  function Terminal(v: Node, last: string, value: Node, removed: bool): (r: Result<Updated>)
    ensures r.Ok? ==> v.Map? && r.value.node.Map?
    ensures r.Ok? && !r.value.changed ==> r.value.node == v
  {
    if '[' in last then
      match Convert(last)
      case Err(e) => Err(e)
      case Ok(seg) =>
        if removed then RemoveIndexed(v, seg.key, seg.index.value)
        else SetIndexed(v, seg.key, seg.index.value, value)
    else if removed then RemovePlain(v, last)
    else SetPlain(v, last, value)
  }

  /** `_update` from segment `i` on with `temp_dict` at `v`: the new `v` and whether the
      last step changed it. Nothing is written back through a one-character string split
      off a string scalar. */
  function UpdateWalk(v: Node, keys: seq<string>, i: nat, value: Node, removed: bool): (r: Result<Updated>)
    requires i < |keys|
    ensures r.Ok? ==> v.Map? && r.value.node.Map?
    ensures r.Ok? && !r.value.changed ==> r.value.node == v
    decreases |keys| - i
  {
    if i == |keys| - 1 then Terminal(v, keys[i], value, removed)
    else match NavStep(v, keys[i])
      case Err(e) => Err(e)
      case Ok(h) =>
        match UpdateWalk(h.child, keys, i + 1, value, removed)
        case Err(e) => Err(e)
        case Ok(u) =>
          if h.path.Some? then
            PutAt(v, h.path.value);
            Ok(Updated(Put(v, h.path.value, u.node), u.changed))
          else Ok(Updated(v, u.changed))
  }

  // ---------------------------------------------------------------------------------
  // Reading back after a write
  // ---------------------------------------------------------------------------------

  /** After writing `x` where a segment led, the same segment leads to `x` again. */
  lemma NavStepPut(v: Node, k: string, p: seq<Step>, x: Node)
    requires NavStep(v, k).Ok? && NavStep(v, k).value.path == Some(p)
    ensures NavStep(Put(v, p, x), k) == Ok(Hop(x, Some(p)))
  {
    if '[' in k {
      var seg := Convert(k).value;
      KeyIndexHopPut(v, seg.key, seg.index.value, p, x);
    } else {
      KeyHopPut(v, k, x);
    }
  }

  /** No path can be updated below a scalar: the next subscript or `pop` raises. */
  lemma ScalarUpdateFails(v: Node, keys: seq<string>, i: nat, value: Node, removed: bool)
    requires i < |keys| && v.Scalar?
    ensures UpdateWalk(v, keys, i, value, removed).Err?
  {
  }

  // ---------------------------------------------------------------------------------
  // Properties
  // ---------------------------------------------------------------------------------

  /** Setting is idempotent: once a set has succeeded, repeating it reports no change and
      leaves the document as it is. */
  lemma {:induction false} SetTwice(v: Node, keys: seq<string>, i: nat, value: Node, v2: Node, c: bool)
    requires i < |keys| && WellFormed(value)
    requires UpdateWalk(v, keys, i, value, false) == Ok(Updated(v2, c))
    ensures UpdateWalk(v2, keys, i, value, false) == Ok(Updated(v2, false))
    decreases |keys| - i
  {
    EquivRefl(value);
    if i == |keys| - 1 {
      var last := keys[i];
      if c && '[' in last {
        var seg := Convert(last).value;
        var p := KeyIndexHop(v, seg.key, seg.index.value).value.path.value;
        KeyIndexHopPut(v, seg.key, seg.index.value, p, value);
      } else if c {
        KeyHopPut(v, last, value);
        assert Put(v, [Key(last)], value) == Map(SetKey(v.entries, last, value));
      }
    } else {
      var h := NavStep(v, keys[i]).value;
      var u := UpdateWalk(h.child, keys, i + 1, value, false).value;
      match h.path
      case None =>
        // a character split off a string: nothing below it can be updated
      case Some(p) =>
        SetTwice(h.child, keys, i + 1, value, u.node, u.changed);
        NavStepPut(v, keys[i], p, u.node);
        AtPut(v, p, u.node);
        PutPut(v, p, u.node, u.node);
    }
  }

  /** Removing is idempotent in a well-formed document: a second removal finds nothing. */
  lemma {:induction false} RemoveTwice(v: Node, keys: seq<string>, i: nat, value: Node, v2: Node, c: bool)
    requires i < |keys| && WellFormed(v)
    requires UpdateWalk(v, keys, i, value, true) == Ok(Updated(v2, c))
    ensures UpdateWalk(v2, keys, i, value, true) == Ok(Updated(v2, false))
    decreases |keys| - i
  {
    if i == |keys| - 1 {
      var last := keys[i];
      if v.Map? && '[' in last {
        var seg := Convert(last).value;
        var j := PyIndex(|seg.key|, seg.index.value).value;
        RemoveKeyUnique(v.entries, [seg.key[j]]);
      } else if v.Map? {
        RemoveKeyUnique(v.entries, last);
      }
    } else {
      var h := NavStep(v, keys[i]).value;
      var u := UpdateWalk(h.child, keys, i + 1, value, true).value;
      match h.path
      case None =>
        // a character split off a string: nothing below it can be updated
      case Some(p) =>
        WellFormedAt(v, p);
        RemoveTwice(h.child, keys, i + 1, value, u.node, u.changed);
        NavStepPut(v, keys[i], p, u.node);
        AtPut(v, p, u.node);
        PutPut(v, p, u.node, u.node);
    }
  }

  /** The set wrote `value` at `p`, where a different value was. */
  predicate Wrote(v: Node, v2: Node, p: seq<Step>, value: Node) {
    At(v, p).Some? && !Equiv(At(v, p).value, value) && v2 == Put(v, p, value)
  }

  /** The removal dropped the present key `k` of the mapping at `p`. */
  predicate Dropped(v: Node, v2: Node, p: seq<Step>, k: string) {
    At(v, p).Some? && At(v, p).value.Map? && HasKey(At(v, p).value.entries, k) &&
    v2 == Put(v, p, Map(RemoveKey(At(v, p).value.entries, k)))
  }

  /** The result flag is truthful and the change is local: no reported change means the
      document is untouched; a reported set replaced exactly one node that differed from
      the new value; a reported removal dropped exactly one present key of one mapping. */
  lemma {:induction false} UpdateTouchesOneNode(v: Node, keys: seq<string>, i: nat, value: Node, removed: bool, v2: Node, c: bool)
    requires i < |keys|
    requires UpdateWalk(v, keys, i, value, removed) == Ok(Updated(v2, c))
    ensures !c ==> v2 == v
    ensures c && !removed ==> exists p :: Wrote(v, v2, p, value)
    ensures c && removed ==> exists p, k :: Dropped(v, v2, p, k)
    decreases |keys| - i
  {
    if i == |keys| - 1 {
      var last := keys[i];
      if '[' in last {
        var seg := Convert(last).value;
        if removed {
          var j := PyIndex(|seg.key|, seg.index.value).value;
          if c {
            assert Dropped(v, v2, [], [seg.key[j]]);
          }
        } else if c {
          var h := KeyIndexHop(v, seg.key, seg.index.value).value;
          assert Wrote(v, v2, h.path.value, value);
        }
      } else if removed {
        if c {
          assert Dropped(v, v2, [], last);
        }
      } else if c {
        assert Put(v, [Key(last)], value) == Map(SetKey(v.entries, last, value));
        assert Wrote(v, v2, [Key(last)], value);
      }
    } else {
      var h := NavStep(v, keys[i]).value;
      var u := UpdateWalk(h.child, keys, i + 1, value, removed).value;
      match h.path
      case None =>
        // a character split off a string: nothing below it can be updated
      case Some(p0) =>
        UpdateTouchesOneNode(h.child, keys, i + 1, value, removed, u.node, u.changed);
        if !c {
          PutAt(v, p0);
        } else if !removed {
          var p :| Wrote(h.child, u.node, p, value);
          AtAppend(v, p0, p);
          PutAppend(v, p0, p, value);
          assert Wrote(v, v2, p0 + p, value);
        } else {
          var p, k :| Dropped(h.child, u.node, p, k);
          AtAppend(v, p0, p);
          PutAppend(v, p0, p, Map(RemoveKey(At(h.child, p).value.entries, k)));
          assert Dropped(v, v2, p0 + p, k);
        }
    }
  }

  /** Removing below a missing intermediate key raises KeyError from the walk itself,
      before the `try` that would turn a missing key into "no change". */
  lemma RemoveBelowMissingKeyRaises(es: seq<Entry>, keys: seq<string>, value: Node)
    requires |keys| >= 2 && '[' !in keys[0] && !HasKey(es, keys[0])
    ensures UpdateWalk(Map(es), keys, 0, value, true) == Err(Runtime(KeyError))
  {
  }

  /** A removal with an index, `name[n]`, pops the key made of the single character
      `name[n]` (Python's negative indices count from the end) from the parent mapping, not
      element `n` of the list under `name`; an index outside `name` raises "Invalid index". */
  lemma IndexedRemovalPopsCharacter(es: seq<Entry>, name: string, n: int, value: Node)
    ensures var last := name + "[" + Show(n) + "]";
      PyIndex(|name|, n).Some? ==>
        var c := [name[PyIndex(|name|, n).value]];
        Terminal(Map(es), last, value, true) == Ok(Updated(Map(RemoveKey(es, c)), HasKey(es, c)))
    ensures var last := name + "[" + Show(n) + "]";
      PyIndex(|name|, n).None? ==>
        Terminal(Map(es), last, value, true) == Err(InvalidIndex(n, name))
  {
    var last := name + "[" + Show(n) + "]";
    ConvertIndexed(name, n, "");
    assert last == name + "[" + Show(n) + "]" + "";
    assert last[|name|] == '[';
  }

  /** Setting a plain key the mapping lacks raises "Invalid key". */
  lemma SetMissingKeyRaises(es: seq<Entry>, k: string, value: Node)
    requires '[' !in k && !HasKey(es, k)
    ensures Terminal(Map(es), k, value, false) == Err(InvalidKey(k))
  {
  }

  /** Removing a plain key pops it, reporting whether it was there; a missing key is no
      error. */
  lemma PlainRemovalPops(es: seq<Entry>, k: string, value: Node)
    requires '[' !in k
    ensures Terminal(Map(es), k, value, true) == Ok(Updated(Map(RemoveKey(es, k)), HasKey(es, k)))
  {
  }

  /** The last step keeps a well-formed document well formed when the new value is. */
  lemma TerminalWellFormed(v: Node, last: string, value: Node, removed: bool)
    requires WellFormed(v) && WellFormed(value) && Terminal(v, last, value, removed).Ok?
    ensures WellFormed(Terminal(v, last, value, removed).value.node)
  {
    var r := Terminal(v, last, value, removed).value;
    if r.node != v {
      if v.Map? && removed {
        if '[' in last {
          var seg := Convert(last).value;
          var j := PyIndex(|seg.key|, seg.index.value).value;
          RemoveKeyWellFormed(v.entries, [seg.key[j]]);
        } else {
          RemoveKeyWellFormed(v.entries, last);
        }
      } else if '[' in last {
        var seg := Convert(last).value;
        PutWellFormed(v, KeyIndexHop(v, seg.key, seg.index.value).value.path.value, value);
      } else {
        SetKeyWellFormed(v.entries, last, value);
      }
    }
  }

  /** `_update` keeps a well-formed document well formed when the new value is: setting
      replaces one node in place and removing drops one key. */
  lemma {:induction false} UpdateKeepsWellFormed(v: Node, keys: seq<string>, i: nat, value: Node, removed: bool)
    requires i < |keys| && WellFormed(v) && WellFormed(value)
    requires UpdateWalk(v, keys, i, value, removed).Ok?
    ensures WellFormed(UpdateWalk(v, keys, i, value, removed).value.node)
    decreases |keys| - i
  {
    if i == |keys| - 1 {
      TerminalWellFormed(v, keys[i], value, removed);
    } else {
      var h := NavStep(v, keys[i]).value;
      if h.path.Some? {
        WellFormedAt(v, h.path.value);
        UpdateKeepsWellFormed(h.child, keys, i + 1, value, removed);
        PutWellFormed(v, h.path.value, UpdateWalk(h.child, keys, i + 1, value, removed).value.node);
      }
    }
  }
}
