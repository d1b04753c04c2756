/** `compare_dicts`: merges a source mapping into a target node key by key, recursing into
    mappings, walking lists position by position, overwriting on a kind clash only when
    allowed, and raising when a key or position is missing and adding is not allowed.
    Also `_search` and `_all_search`, the lookup of a record among a list of records.

    The merge is specified on values: each function returns the new target, whether any
    assignment happened, and the error raised, if any (assignments made before the error
    are kept, as in the source). */
module Merge {
  import opened Nodes

  datatype Merged = Merged(node: Node, changed: bool, err: Option<Error>)

  /** The source entries `src[j..]` merged into `dst` in order (`for key in src_dict`). */
  function MergeEntries(src: seq<Entry>, j: nat, dst: Node, overwrite: bool, added: bool): (m: Merged)
    requires j <= |src|
    ensures !m.changed ==> m.node == dst
    ensures dst.Map? ==> m.node.Map?
    ensures m.err.None? && j < |src| ==> dst.Map?
    decreases Map(src), 1, |src| - j
  {
    if j == |src| then Merged(dst, false, None)
    else
      assert src[j] in src;
      var step := MergeKey(src[j].key, src[j].val, dst, overwrite, added);
      if step.err.Some? then step
      else
        var rest := MergeEntries(src, j + 1, step.node, overwrite, added);
        Merged(rest.node, step.changed || rest.changed, rest.err)
  }

  /** One key of `compare_dicts`: `sv` is `src_dict[k]`. */
  function MergeKey(k: string, sv: Node, dst: Node, overwrite: bool, added: bool): (m: Merged)
    ensures !m.changed ==> m.node == dst
    ensures dst.Map? ==> m.node.Map?
    ensures m.node != dst ==>
      dst.Map? && m.node.Map? && HasKey(m.node.entries, k) &&
      m.node == Map(SetKey(dst.entries, k, Get(m.node.entries, k)))
    ensures dst.Map? && HasKey(dst.entries, k) ==> HasKey(m.node.entries, k)
    ensures dst.Map? && !added ==> (HasKey(m.node.entries, k) <==> HasKey(dst.entries, k))
    ensures m.err.None? ==> dst.Map? && (!added ==> HasKey(dst.entries, k))
    ensures m.err.None? && !overwrite && dst.Map? && HasKey(dst.entries, k) ==>
      !(sv.Map? && Get(dst.entries, k).List?) && !(sv.List? && Get(dst.entries, k).Map?)
    decreases sv, 2, 0
  {
    match PyIn(k, dst)
    case Err(e) => Merged(dst, false, Some(e))
    case Ok(false) =>
      if !added then Merged(dst, false, Some(NotFoundInTarget(k)))
      else if dst.Map? then Merged(Map(SetKey(dst.entries, k, sv)), true, None)
      else Merged(dst, false, Some(Runtime(TypeError)))     // item assignment on a list or string
    case Ok(true) =>
      if !dst.Map? then Merged(dst, false, Some(Runtime(TypeError)))   // `dst_dict[key]` on a list or string
      else
        var es := dst.entries;
        var dv := Get(es, k);
        SetKeySame(es, k);
        if sv.Map? && dv.Map? then
          var sub := MergeEntries(sv.entries, 0, dv, overwrite, added);
          Merged(Map(SetKey(es, k, sub.node)), sub.changed, sub.err)
        else if sv.Map? && dv.List? then
          if overwrite then Merged(Map(SetKey(es, k, sv)), true, None)
          else Merged(dst, false, Some(DictOverList(k)))
        else if sv.List? && dv.List? then
          var sub := MergeList(k, sv.items, 0, dv.items, overwrite, added);
          Merged(Map(SetKey(es, k, sub.node)), sub.changed, sub.err)
        else if sv.List? && dv.Map? then
          if overwrite then Merged(Map(SetKey(es, k, sv)), true, None)
          else Merged(dst, false, Some(ListOverDict(k)))
        else if sv != dv then Merged(Map(SetKey(es, k, sv)), true, None)
        else Merged(dst, false, None)
  }

  /** The list branch of `compare_dicts` from position `i` on: `sl` is the source list and
      `dl` the target list as it stands (it grows as source elements are appended). */
  function MergeList(k: string, sl: seq<Node>, i: nat, dl: seq<Node>, overwrite: bool, added: bool): (m: Merged)
    requires i <= |sl| && i <= |dl|
    ensures m.node.List? && |m.node.items| >= |dl|
    ensures !m.changed ==> m.node == List(dl)
    ensures forall p :: 0 <= p < i ==> m.node.items[p] == dl[p]
    ensures forall p :: i <= p < |dl| && p < |sl| && sl[p].Scalar? ==> m.node.items[p] == dl[p]
    ensures m.err.None? ==> |m.node.items| == (if |sl| > |dl| then |sl| else |dl|)
    ensures m.err.None? && !added ==> |sl| <= |dl|
    ensures m.err.None? ==> forall p :: |dl| <= p < |sl| ==> m.node.items[p] == sl[p]
    ensures m.err.None? ==> forall p :: i <= p < |sl| && sl[p].List? ==>
      sl[p].items == [] && p < |dl| && !dl[p].List?
    decreases List(sl), 1, |sl| - i
  {
    if i == |sl| then Merged(List(dl), false, None)
    else
      var step := MergeListElement(k, sl, i, dl, overwrite, added);
      if step.err.Some? then step
      else
        var rest := MergeList(k, sl, i + 1, step.node.items, overwrite, added);
        Merged(rest.node, step.changed || rest.changed, rest.err)
  }

  /** One pass of the list loop: position `i` of the source list against the target list. */
  function MergeListElement(k: string, sl: seq<Node>, i: nat, dl: seq<Node>, overwrite: bool, added: bool): (m: Merged)
    requires i < |sl| && i <= |dl|
    ensures m.node.List?
    ensures !m.changed ==> m.node == List(dl)
    ensures m.err.None? ==> |m.node.items| == (if i < |dl| then |dl| else i + 1)
    ensures m.err.Some? ==> |m.node.items| == |dl|
    ensures forall p :: 0 <= p < |dl| && p != i ==> m.node.items[p] == dl[p]
    ensures i < |dl| && sl[i].Scalar? ==> m.node.items[i] == dl[i]
    ensures m.err.None? && i == |dl| ==> added && m.node.items[i] == sl[i]
    ensures m.err.None? && sl[i].List? ==> sl[i].items == [] && i < |dl| && !dl[i].List?
    decreases List(sl), 0, |sl| - i
  {
    var x := sl[i];
    if x.List? && i >= |dl| then Merged(List(dl), false, Some(Runtime(IndexError)))  // `dst_dict[key][i]`
    else if x.List? && dl[i].List? then
      // `_all_search` is handed the source element, a list, and raises
      Merged(List(dl), false, Some(AllSearchOutcome(x, dl).error))
    else if x.List? && x.items != [] then
      Merged(List(dl), false, Some(Runtime(TypeError)))        // `compare_dicts` with a list as source
    else if i >= |dl| then
      if added then Merged(List(dl + [x]), true, None)
      else Merged(List(dl), false, Some(IndexNotFoundInTarget(k, i)))
    else if x.Map? then
      var sub := MergeEntries(x.entries, 0, dl[i], overwrite, added);
      assert !sub.changed ==> dl[i := sub.node] == dl;
      Merged(List(dl[i := sub.node]), sub.changed, sub.err)
    else Merged(List(dl), false, None)
  }

  /** `compare_dicts(src, dst)` on the whole source mapping. */
  function MergeInto(src: seq<Entry>, dst: Node, overwrite: bool, added: bool): (m: Merged)
    ensures !m.changed ==> m.node == dst
    ensures dst.Map? ==> m.node.Map?
    ensures m.err.None? && |src| > 0 ==> dst.Map?
  {
    MergeEntries(src, 0, dst, overwrite, added)
  }

  lemma SetKeySame(es: seq<Entry>, k: string)
    requires HasKey(es, k)
    ensures SetKey(es, k, Get(es, k)) == es
  {
    var i := IndexOfKey(es, k).value;
    assert SetKey(es, k, Get(es, k)) == es[i := Entry(k, es[i].val)];
  }

  /** One key touches only its own entry of a mapping target. */
  lemma MergeKeyFrame(k: string, sv: Node, dst: Node, overwrite: bool, added: bool)
    requires dst.Map?
    ensures var m := MergeKey(k, sv, dst, overwrite, added);
      forall k' :: k' != k ==>
        (HasKey(m.node.entries, k') <==> HasKey(dst.entries, k')) &&
        (HasKey(dst.entries, k') ==> Get(m.node.entries, k') == Get(dst.entries, k'))
  {
  }

  /** What a run of keys does to a mapping target: no key is dropped; keys the source does
      not mention keep their values; without `added` the key set is unchanged. */
  lemma {:induction false} MergeEntriesFrame(src: seq<Entry>, j: nat, dst: Node, overwrite: bool, added: bool)
    requires j <= |src| && dst.Map?
    ensures var m := MergeEntries(src, j, dst, overwrite, added);
      forall k :: HasKey(dst.entries, k) ==> HasKey(m.node.entries, k)
    ensures var m := MergeEntries(src, j, dst, overwrite, added);
      forall k :: !HasKey(src[j..], k) ==>
        (HasKey(m.node.entries, k) <==> HasKey(dst.entries, k)) &&
        (HasKey(dst.entries, k) ==> Get(m.node.entries, k) == Get(dst.entries, k))
    ensures var m := MergeEntries(src, j, dst, overwrite, added);
      !added ==> forall k :: HasKey(m.node.entries, k) <==> HasKey(dst.entries, k)
    decreases |src| - j
  {
    if j < |src| {
      var step := MergeKey(src[j].key, src[j].val, dst, overwrite, added);
      MergeKeyFrame(src[j].key, src[j].val, dst, overwrite, added);
      if step.err.None? {
        MergeEntriesFrame(src, j + 1, step.node, overwrite, added);
        assert forall k :: HasKey(src[j + 1..], k) ==> HasKey(src[j..], k) by {
          forall k | HasKey(src[j + 1..], k) ensures HasKey(src[j..], k) {
            HasKeyAt(src[j..], k, IndexOfKey(src[j + 1..], k).value + 1);
          }
        }
        assert forall k :: k != src[j].key && !HasKey(src[j + 1..], k) ==> !HasKey(src[j..], k) by {
          forall k | k != src[j].key && HasKey(src[j..], k) ensures HasKey(src[j + 1..], k) {
            HasKeyAt(src[j + 1..], k, IndexOfKey(src[j..], k).value - 1);
          }
        }
      }
    }
  }

  /** Without `added`, a run of keys that raises nothing found every one of its keys
      already in the target. */
  lemma {:induction false} MergeEntriesFindsKeys(src: seq<Entry>, j: nat, dst: Node, overwrite: bool, added: bool)
    requires j <= |src| && !added
    requires MergeEntries(src, j, dst, overwrite, added).err.None?
    ensures forall l :: j <= l < |src| ==> dst.Map? && HasKey(dst.entries, src[l].key)
    decreases |src| - j
  {
    if j < |src| {
      var step := MergeKey(src[j].key, src[j].val, dst, overwrite, added);
      MergeEntriesFindsKeys(src, j + 1, step.node, overwrite, added);
      MergeEntriesFrame(src, j + 1, step.node, overwrite, added);
      MergeKeyFrame(src[j].key, src[j].val, dst, overwrite, added);
      forall l | j <= l < |src| ensures dst.Map? && HasKey(dst.entries, src[l].key) {
        if l > j {
          assert HasKey(step.node.entries, src[l].key);
        }
      }
    }
  }

  // ---------------------------------------------------------------------------------
  // `_search` and `_all_search`
  // ---------------------------------------------------------------------------------

  /** The record is a mapping whose entry `k` equals `v`. */
  predicate Matches(rec: Node, k: string, v: Node) {
    rec.Map? && HasKey(rec.entries, k) && Equiv(Get(rec.entries, k), v)
  }

  /** `_search(k, v, records)`: whether the query `[? k == v]` selects any record. */
  function Search(k: string, v: Node, records: seq<Node>): (r: bool)
    ensures r <==> exists i :: 0 <= i < |records| && Matches(records[i], k, v)
    decreases |records|
  {
    if |records| == 0 then false
    else if Matches(records[0], k, v) then true
    else
      var r := Search(k, v, records[1..]);
      assert forall i :: 1 <= i < |records| ==> records[i] == records[1..][i - 1];
      r
  }

  /** The keys of `record`, in order, whose entry occurs in no record of `records`. */
  function MissingKeys(record: seq<Entry>, records: seq<Node>): (r: seq<string>)
    ensures |r| <= |record|
    ensures forall k :: k in r <==>
      exists i :: 0 <= i < |record| && record[i].key == k && !Search(k, record[i].val, records)
    decreases |record|
  {
    if |record| == 0 then []
    else
      var rest := MissingKeys(record[1..], records);
      assert forall i :: 1 <= i < |record| ==> record[i] == record[1..][i - 1];
      if Search(record[0].key, record[0].val, records) then rest
      else [record[0].key] + rest
  }

  /** Extending the record by one entry extends the missing keys by that entry's key when
      no record matches it. */
  lemma {:induction false} MissingKeysSnoc(record: seq<Entry>, e: Entry, records: seq<Node>)
    ensures MissingKeys(record + [e], records) ==
      MissingKeys(record, records) + (if Search(e.key, e.val, records) then [] else [e.key])
    decreases |record|
  {
    if |record| > 0 {
      assert (record + [e])[1..] == record[1..] + [e];
      MissingKeysSnoc(record[1..], e, records);
    }
  }

  /** What `_all_search(dict1, list1)` returns or raises: `dict1.items()` needs a mapping. */
  function AllSearchOutcome(dict1: Node, list1: seq<Node>): (r: Result<seq<string>>)
    ensures r.Ok? <==> dict1.Map?
    ensures r.Ok? ==> forall k :: k in r.value <==>
      exists i :: 0 <= i < |dict1.entries| && dict1.entries[i].key == k && !Search(k, dict1.entries[i].val, list1)
  {
    if dict1.Map? then Ok(MissingKeys(dict1.entries, list1)) else Err(Runtime(AttributeError))
  }

  /** `_all_search`: collects the missing keys with a loop. */
  method AllSearch(dict1: Node, list1: seq<Node>) returns (r: Result<seq<string>>)
    ensures r == AllSearchOutcome(dict1, list1)
  {
    if !dict1.Map? {
      return Err(Runtime(AttributeError));
    }
    var es := dict1.entries;
    var missing: seq<string> := [];
    var j := 0;
    while j < |es|
      invariant 0 <= j <= |es|
      invariant missing == MissingKeys(es[..j], list1)
    {
      assert es[..j + 1] == es[..j] + [es[j]];
      MissingKeysSnoc(es[..j], es[j], list1);
      if !Search(es[j].key, es[j].val, list1) {
        missing := missing + [es[j].key];
      }
      j := j + 1;
    }
    assert es[..|es|] == es;
    return Ok(missing);
  }

  // ---------------------------------------------------------------------------------
  // Properties
  // ---------------------------------------------------------------------------------

  /** The per-key rules of the merge into a mapping: a missing key is inserted only when
      adding is allowed; a mapping over a list or a list over a mapping replaces the target
      only when overwriting is allowed; any other unequal pair is replaced (a scalar
      replaces a mapping or a list with no flag needed); an equal scalar pair changes
      nothing. */
  lemma MergeKeyRules(k: string, sv: Node, es: seq<Entry>, overwrite: bool, added: bool)
    ensures var m := MergeKey(k, sv, Map(es), overwrite, added);
      (!HasKey(es, k) ==>
        m == if added then Merged(Map(SetKey(es, k, sv)), true, None)
             else Merged(Map(es), false, Some(NotFoundInTarget(k)))) &&
      (HasKey(es, k) && ((sv.Map? && Get(es, k).List?) || (sv.List? && Get(es, k).Map?)) ==>
        m == if overwrite then Merged(Map(SetKey(es, k, sv)), true, None)
             else Merged(Map(es), false, Some(if sv.Map? then DictOverList(k) else ListOverDict(k)))) &&
      (HasKey(es, k) && (sv.Scalar? || Get(es, k).Scalar?) ==>
        m == if sv == Get(es, k) then Merged(Map(es), false, None)
             else Merged(Map(SetKey(es, k, sv)), true, None))
  {
  }

  /** The destination of a recursion into a list element is not checked to be a mapping:
      merging a non-empty source mapping into anything else raises, and leaves it as it
      was; an empty source mapping is a no-op. */
  lemma MergeIntoNonMap(src: seq<Entry>, dst: Node, overwrite: bool, added: bool)
    requires !dst.Map?
    ensures |src| > 0 ==> MergeInto(src, dst, overwrite, added).err.Some?
    ensures MergeInto(src, dst, overwrite, added).node == dst
  {
    var m := MergeInto(src, dst, overwrite, added);
    if |src| > 0 {
      var step := MergeKey(src[0].key, src[0].val, dst, overwrite, added);
      assert step.err.Some?;
    }
  }

  // ---------------------------------------------------------------------------------
  // Merging twice
  // ---------------------------------------------------------------------------------

  /** No list in the tree has a list as an element. */
  predicate NoNestedLists(n: Node)
    decreases n
  {
    match n
    case Scalar(_) => true
    case List(xs) => forall i | 0 <= i < |xs| :: !xs[i].List? && NoNestedLists(xs[i])
    case Map(es) => forall i | 0 <= i < |es| :: NoNestedLists(es[i].val)
  }

  /** The target value `dv` under the key `k` already holds the source value `sv`: merging
      one into the other assigns nothing and raises nothing. */
  predicate Settled(k: string, sv: Node, dv: Node, overwrite: bool, added: bool) {
    if sv.Map? && dv.Map? then MergeEntries(sv.entries, 0, dv, overwrite, added) == Merged(dv, false, None)
    else if sv.List? && dv.List? then MergeList(k, sv.items, 0, dv.items, overwrite, added) == Merged(dv, false, None)
    else if (sv.Map? && dv.List?) || (sv.List? && dv.Map?) then false
    else sv == dv
  }

  /** The target element `y` already holds the source element `x` at the same position. */
  predicate ElementSettled(x: Node, y: Node, overwrite: bool, added: bool) {
    if x.List? then x.items == [] && !y.List?
    else if x.Map? then MergeEntries(x.entries, 0, y, overwrite, added) == Merged(y, false, None)
    else true
  }

  /** One key changes nothing exactly when the target has it and its value is settled. */
  lemma MergeKeyNoOp(k: string, sv: Node, d: Node, overwrite: bool, added: bool)
    requires d.Map?
    ensures MergeKey(k, sv, d, overwrite, added) == Merged(d, false, None) <==>
      HasKey(d.entries, k) && Settled(k, sv, Get(d.entries, k), overwrite, added)
  {
    if HasKey(d.entries, k) {
      SetKeySame(d.entries, k);
    }
  }

  /** A run of keys changes nothing exactly when each key on its own changes nothing. */
  lemma EntriesNoOp(src: seq<Entry>, j: nat, d: Node, overwrite: bool, added: bool)
    requires j <= |src|
    ensures MergeEntries(src, j, d, overwrite, added) == Merged(d, false, None) <==>
      forall l :: j <= l < |src| ==> MergeKey(src[l].key, src[l].val, d, overwrite, added) == Merged(d, false, None)
  {
    if MergeEntries(src, j, d, overwrite, added) == Merged(d, false, None) {
      EntriesNoOpEach(src, j, d, overwrite, added);
    }
    if forall l :: j <= l < |src| ==> MergeKey(src[l].key, src[l].val, d, overwrite, added) == Merged(d, false, None) {
      EachKeyNoOpEntries(src, j, d, overwrite, added);
    }
  }

  /** In a run that changes nothing, no key changes anything. */
  lemma {:induction false} EntriesNoOpEach(src: seq<Entry>, j: nat, d: Node, overwrite: bool, added: bool)
    requires j <= |src| && MergeEntries(src, j, d, overwrite, added) == Merged(d, false, None)
    ensures forall l :: j <= l < |src| ==> MergeKey(src[l].key, src[l].val, d, overwrite, added) == Merged(d, false, None)
    decreases |src| - j
  {
    if j < |src| {
      EntriesNoOpStep(src, j, d, overwrite, added);
      EntriesNoOpEach(src, j + 1, d, overwrite, added);
      forall l | j <= l < |src|
        ensures MergeKey(src[l].key, src[l].val, d, overwrite, added) == Merged(d, false, None)
      {
        if l == j {
        }
      }
    }
  }

  /** A run of keys none of which changes anything changes nothing. */
  lemma {:induction false} EachKeyNoOpEntries(src: seq<Entry>, j: nat, d: Node, overwrite: bool, added: bool)
    requires j <= |src|
    requires forall l :: j <= l < |src| ==> MergeKey(src[l].key, src[l].val, d, overwrite, added) == Merged(d, false, None)
    ensures MergeEntries(src, j, d, overwrite, added) == Merged(d, false, None)
    decreases |src| - j
  {
    if j < |src| {
      EachKeyNoOpEntries(src, j + 1, d, overwrite, added);
      EntriesNoOpStep(src, j, d, overwrite, added);
    }
  }

  /** The first key of a run and the rest of it change nothing exactly when the run
      changes nothing. */
  lemma EntriesNoOpStep(src: seq<Entry>, j: nat, d: Node, overwrite: bool, added: bool)
    requires j < |src|
    ensures MergeEntries(src, j, d, overwrite, added) == Merged(d, false, None) <==>
      MergeKey(src[j].key, src[j].val, d, overwrite, added) == Merged(d, false, None) &&
      MergeEntries(src, j + 1, d, overwrite, added) == Merged(d, false, None)
  {
    var step := MergeKey(src[j].key, src[j].val, d, overwrite, added);
    if step != Merged(d, false, None) {
      assert step.err.Some? || step.changed;
    }
  }

  /** One position of the list loop changes nothing exactly when its elements are settled. */
  lemma ElementNoOp(k: string, sl: seq<Node>, i: nat, dl: seq<Node>, overwrite: bool, added: bool)
    requires i < |sl| && i < |dl|
    ensures MergeListElement(k, sl, i, dl, overwrite, added) == Merged(List(dl), false, None) <==>
      ElementSettled(sl[i], dl[i], overwrite, added)
  {
    assert dl[i := dl[i]] == dl;
  }

  /** The list loop changes nothing exactly when the target is at least as long and every
      position is settled. */
  lemma {:induction false} ListNoOp(k: string, sl: seq<Node>, i: nat, dl: seq<Node>, overwrite: bool, added: bool)
    requires i <= |sl| && i <= |dl|
    ensures MergeList(k, sl, i, dl, overwrite, added) == Merged(List(dl), false, None) <==>
      |sl| <= |dl| && forall p :: i <= p < |sl| ==> ElementSettled(sl[p], dl[p], overwrite, added)
    decreases |sl| - i
  {
    if i < |sl| && i < |dl| {
      ElementNoOp(k, sl, i, dl, overwrite, added);
      ListNoOp(k, sl, i + 1, dl, overwrite, added);
    }
  }

  /** A well-formed value without nested lists is settled against itself. */
  lemma {:induction false} SelfSettled(k: string, v: Node, overwrite: bool, added: bool)
    requires WellFormed(v) && NoNestedLists(v)
    ensures Settled(k, v, v, overwrite, added)
    decreases v
  {
    match v
    case Scalar(_) =>
    case Map(es) =>
      forall l | 0 <= l < |es|
        ensures MergeKey(es[l].key, es[l].val, v, overwrite, added) == Merged(v, false, None)
      {
        GetUnique(es, l);
        SelfSettled(es[l].key, es[l].val, overwrite, added);
        MergeKeyNoOp(es[l].key, es[l].val, v, overwrite, added);
      }
      EntriesNoOp(es, 0, v, overwrite, added);
    case List(xs) =>
      forall p | 0 <= p < |xs| ensures ElementSettled(xs[p], xs[p], overwrite, added) {
        if xs[p].Map? {
          SelfSettled(k, xs[p], overwrite, added);
        }
      }
      ListNoOp(k, xs, 0, xs, overwrite, added);
  }

  /** After one key has been merged, its value is settled. */
  lemma {:induction false} KeyTwice(k: string, sv: Node, d: Node, overwrite: bool, added: bool)
    requires WellFormed(sv) && NoNestedLists(sv)
    requires MergeKey(k, sv, d, overwrite, added).err.None?
    ensures var d1 := MergeKey(k, sv, d, overwrite, added).node;
      d1.Map? && HasKey(d1.entries, k) && Settled(k, sv, Get(d1.entries, k), overwrite, added)
    decreases sv, 2, 0
  {
    var m := MergeKey(k, sv, d, overwrite, added);
    var es := d.entries;
    if !HasKey(es, k) {
      SelfSettled(k, sv, overwrite, added);
    } else {
      var dv := Get(es, k);
      if sv.Map? && dv.Map? {
        var sub := MergeEntries(sv.entries, 0, dv, overwrite, added);
        EntriesTwice(sv.entries, 0, dv, overwrite, added);
        EntriesNoOp(sv.entries, 0, sub.node, overwrite, added);
      } else if sv.List? && dv.List? {
        var sub := MergeList(k, sv.items, 0, dv.items, overwrite, added);
        ListTwice(k, sv.items, 0, dv.items, overwrite, added);
        ListNoOp(k, sv.items, 0, sub.node.items, overwrite, added);
      } else if m.changed {
        SelfSettled(k, sv, overwrite, added);
      }
    }
  }

  /** After a run of keys has been merged, each of them is settled in the result. */
  lemma {:induction false} EntriesTwice(src: seq<Entry>, j: nat, dst: Node, overwrite: bool, added: bool)
    requires j <= |src| && UniqueKeys(src)
    requires forall l :: j <= l < |src| ==> WellFormed(src[l].val) && NoNestedLists(src[l].val)
    requires MergeEntries(src, j, dst, overwrite, added).err.None?
    ensures var d1 := MergeEntries(src, j, dst, overwrite, added).node;
      forall l :: j <= l < |src| ==> MergeKey(src[l].key, src[l].val, d1, overwrite, added) == Merged(d1, false, None)
    decreases Map(src), 1, |src| - j
  {
    if j < |src| {
      assert src[j] in src;
      var step := MergeKey(src[j].key, src[j].val, dst, overwrite, added);
      EntriesTwice(src, j + 1, step.node, overwrite, added);
      EntriesTwiceHead(src, j, dst, overwrite, added);
    }
  }

  /** After a run of keys has been merged, its first key is settled in the result: the
      keys after it are other keys, and leave its value alone. */
  lemma EntriesTwiceHead(src: seq<Entry>, j: nat, dst: Node, overwrite: bool, added: bool)
    requires j < |src| && UniqueKeys(src)
    requires WellFormed(src[j].val) && NoNestedLists(src[j].val)
    requires MergeEntries(src, j, dst, overwrite, added).err.None?
    ensures var d1 := MergeEntries(src, j, dst, overwrite, added).node;
      MergeKey(src[j].key, src[j].val, d1, overwrite, added) == Merged(d1, false, None)
    decreases Map(src), 0
  {
    assert src[j] in src;
    var k := src[j].key;
    var step := MergeKey(k, src[j].val, dst, overwrite, added);
    var rest := MergeEntries(src, j + 1, step.node, overwrite, added);
    KeyTwice(k, src[j].val, dst, overwrite, added);
    assert !HasKey(src[j + 1..], k);
    MergeEntriesFrame(src, j + 1, step.node, overwrite, added);
    MergeKeyNoOp(k, src[j].val, rest.node, overwrite, added);
  }

  /** After the list loop, the target is at least as long and every position is settled. */
  lemma {:induction false} ListTwice(k: string, sl: seq<Node>, i: nat, dl: seq<Node>, overwrite: bool, added: bool)
    requires i <= |sl| && i <= |dl|
    requires forall p :: i <= p < |sl| ==> !sl[p].List? && WellFormed(sl[p]) && NoNestedLists(sl[p])
    requires MergeList(k, sl, i, dl, overwrite, added).err.None?
    ensures var dl1 := MergeList(k, sl, i, dl, overwrite, added).node.items;
      |sl| <= |dl1| && forall p :: i <= p < |sl| ==> ElementSettled(sl[p], dl1[p], overwrite, added)
    decreases List(sl), 1, |sl| - i
  {
    if i < |sl| {
      var step := MergeListElement(k, sl, i, dl, overwrite, added);
      var dl' := step.node.items;
      ListTwice(k, sl, i + 1, dl', overwrite, added);
      var x := sl[i];
      if x.Map? {
        if i < |dl| {
          var sub := MergeEntries(x.entries, 0, dl[i], overwrite, added);
          EntriesTwice(x.entries, 0, dl[i], overwrite, added);
          EntriesNoOp(x.entries, 0, sub.node, overwrite, added);
        } else {
          SelfSettled(k, x, overwrite, added);
        }
      }
    }
  }

  /** Merging is idempotent: once a source without nested lists has been merged without
      error, merging it again assigns nothing and raises nothing. */
  lemma MergeTwice(src: seq<Entry>, dst: Node, overwrite: bool, added: bool)
    requires WellFormed(Map(src)) && NoNestedLists(Map(src))
    requires MergeInto(src, dst, overwrite, added).err.None?
    ensures var d1 := MergeInto(src, dst, overwrite, added).node;
      MergeInto(src, d1, overwrite, added) == Merged(d1, false, None)
  {
    EntriesTwice(src, 0, dst, overwrite, added);
    EntriesNoOp(src, 0, MergeInto(src, dst, overwrite, added).node, overwrite, added);
  }

  /** Without the restriction the second merge can raise: merging `{"a": [{"b": [[]]}]}`
      into `{"a": []}` appends the record, and merging it again reaches the inner lists,
      where `_all_search` is handed a list and raises AttributeError. */
  lemma NestedListsBreakMergeTwice()
    ensures var src := [Entry("a", List([Map([Entry("b", List([List([])]))])]))];
      var m := MergeInto(src, Map([Entry("a", List([]))]), false, true);
      m.err.None? && MergeInto(src, m.node, false, true).err == Some(Runtime(AttributeError))
  {
    var inner := Map([Entry("b", List([List([])]))]);
    var src := [Entry("a", List([inner]))];
    var d := Map([Entry("a", List([]))]);
    assert MergeListElement("a", [inner], 0, [], false, true) == Merged(List([inner]), true, None);
    assert MergeList("a", [inner], 0, [], false, true) == Merged(List([inner]), true, None);
    var d1 := Map([Entry("a", List([inner]))]);
    assert MergeKey("a", List([inner]), d, false, true) == Merged(d1, true, None);
    assert MergeEntries(src, 1, d1, false, true) == Merged(d1, false, None);
    assert MergeEntries(src, 0, d, false, true) == Merged(d1, true, None);
    assert MergeListElement("b", [List([])], 0, [List([])], false, true).err == Some(Runtime(AttributeError));
    assert MergeKey("b", List([List([])]), inner, false, true).err == Some(Runtime(AttributeError));
    assert MergeEntries(inner.entries, 0, inner, false, true).err == Some(Runtime(AttributeError));
    assert MergeListElement("a", [inner], 0, [inner], false, true).err == Some(Runtime(AttributeError));
    assert MergeKey("a", List([inner]), d1, false, true).err == Some(Runtime(AttributeError));
  }

  // ---------------------------------------------------------------------------------
  // Well-formedness
  // ---------------------------------------------------------------------------------

  /** `compare_dicts` keeps a well-formed target well formed: it assigns only source
      values (themselves well formed) or merged values under a single key or position. */
  lemma {:induction false} EntriesWellFormed(src: seq<Entry>, j: nat, dst: Node, overwrite: bool, added: bool)
    requires j <= |src| && WellFormed(Map(src)) && WellFormed(dst)
    ensures WellFormed(MergeEntries(src, j, dst, overwrite, added).node)
    decreases Map(src), 1, |src| - j
  {
    if j < |src| {
      assert src[j] in src;
      KeyWellFormed(src[j].key, src[j].val, dst, overwrite, added);
      var step := MergeKey(src[j].key, src[j].val, dst, overwrite, added);
      if step.err.None? {
        EntriesWellFormed(src, j + 1, step.node, overwrite, added);
      }
    }
  }

  lemma {:induction false} KeyWellFormed(k: string, sv: Node, dst: Node, overwrite: bool, added: bool)
    requires WellFormed(sv) && WellFormed(dst)
    ensures WellFormed(MergeKey(k, sv, dst, overwrite, added).node)
    decreases sv, 2, 0
  {
    if dst.Map? {
      var es := dst.entries;
      SetKeyWellFormed(es, k, sv);
      if HasKey(es, k) {
        var dv := Get(es, k);
        assert WellFormed(dv);
        if sv.Map? && dv.Map? {
          EntriesWellFormed(sv.entries, 0, dv, overwrite, added);
          SetKeyWellFormed(es, k, MergeEntries(sv.entries, 0, dv, overwrite, added).node);
        } else if sv.List? && dv.List? {
          ListWellFormed(k, sv.items, 0, dv.items, overwrite, added);
          SetKeyWellFormed(es, k, MergeList(k, sv.items, 0, dv.items, overwrite, added).node);
        }
      }
    }
  }

  lemma {:induction false} ListWellFormed(k: string, sl: seq<Node>, i: nat, dl: seq<Node>, overwrite: bool, added: bool)
    requires i <= |sl| && i <= |dl| && WellFormed(List(sl)) && WellFormed(List(dl))
    ensures WellFormed(MergeList(k, sl, i, dl, overwrite, added).node)
    decreases List(sl), 1, |sl| - i
  {
    if i < |sl| {
      ElementWellFormed(k, sl, i, dl, overwrite, added);
      var step := MergeListElement(k, sl, i, dl, overwrite, added);
      if step.err.None? {
        ListWellFormed(k, sl, i + 1, step.node.items, overwrite, added);
      }
    }
  }

  lemma {:induction false} ElementWellFormed(k: string, sl: seq<Node>, i: nat, dl: seq<Node>, overwrite: bool, added: bool)
    requires i < |sl| && i <= |dl| && WellFormed(List(sl)) && WellFormed(List(dl))
    ensures WellFormed(MergeListElement(k, sl, i, dl, overwrite, added).node)
    decreases List(sl), 0, |sl| - i
  {
    var x := sl[i];
    if i < |dl| && x.Map? {
      EntriesWellFormed(x.entries, 0, dl[i], overwrite, added);
      var sub := MergeEntries(x.entries, 0, dl[i], overwrite, added);
      assert forall p | 0 <= p < |dl| :: dl[i := sub.node][p] == (if p == i then sub.node else dl[p]);
    }
  }

  /** The whole merge keeps a well-formed target well formed. */
  lemma MergeKeepsWellFormed(src: seq<Entry>, dst: Node, overwrite: bool, added: bool)
    requires WellFormed(Map(src)) && WellFormed(dst)
    ensures WellFormed(MergeInto(src, dst, overwrite, added).node)
  {
    EntriesWellFormed(src, 0, dst, overwrite, added);
  }
}
