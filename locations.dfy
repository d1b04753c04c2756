/** Locations inside a document tree, and the two Python subscripts (`x[key]`, `x[index]`)
    as moves from a node to a child together with the child's location. The in-place
    writes of the engine (`v[key] = ...` on a node reached by walking) are `Put` at the
    location the walk reached. */
module Locations {
  import opened Nodes

  /** One step from a node to a child: a mapping key or a (non-negative) list position. */
  datatype Step = Key(k: string) | Idx(i: nat)

  function Child(n: Node, s: Step): Option<Node> {
    match s
    case Key(k) => if n.Map? && HasKey(n.entries, k) then Some(Get(n.entries, k)) else None
    case Idx(i) => if n.List? && i < |n.items| then Some(n.items[i]) else None
  }

  /** Replaces the child that `s` selects; `n` is unchanged when there is none. */
  function PutChild(n: Node, s: Step, x: Node): Node {
    match s
    case Key(k) => if n.Map? && HasKey(n.entries, k) then Map(SetKey(n.entries, k, x)) else n
    case Idx(i) => if n.List? && i < |n.items| then List(n.items[i := x]) else n
  }

  /** The node at `loc` below `n`, if the location exists. */
  function At(n: Node, loc: seq<Step>): Option<Node>
    decreases |loc|
  {
    if loc == [] then Some(n)
    else match Child(n, loc[0])
      case None => None
      case Some(c) => At(c, loc[1..])
  }

  /** `n` with the node at `loc` replaced by `x`; unchanged when the location does not exist. */
  function Put(n: Node, loc: seq<Step>, x: Node): Node
    decreases |loc|
  {
    if loc == [] then x
    else match Child(n, loc[0])
      case None => n
      case Some(c) => PutChild(n, loc[0], Put(c, loc[1..], x))
  }

  lemma ChildPutChild(n: Node, s: Step, x: Node)
    requires Child(n, s).Some?
    ensures Child(PutChild(n, s, x), s) == Some(x)
  {
  }

  lemma PutChildSame(n: Node, s: Step)
    requires Child(n, s).Some?
    ensures PutChild(n, s, Child(n, s).value) == n
  {
    match s
    case Key(k) =>
      var es := n.entries;
      var i := IndexOfKey(es, k).value;
      assert SetKey(es, k, Get(es, k)) == es[i := Entry(k, es[i].val)];
    case Idx(i) =>
  }

  lemma PutChildTwice(n: Node, s: Step, x: Node, y: Node)
    requires Child(n, s).Some?
    ensures PutChild(PutChild(n, s, x), s, y) == PutChild(n, s, y)
  {
    match s
    case Key(k) =>
      var es := n.entries;
      var i := IndexOfKey(es, k).value;
      var es1 := SetKey(es, k, x);
      assert es1 == es[i := Entry(k, x)];
      IndexOfKeyAt(es1, k, i);
    case Idx(i) =>
  }

  /** Writing at an existing location and reading it back gives what was written. */
  lemma {:induction false} AtPut(n: Node, loc: seq<Step>, x: Node)
    requires At(n, loc).Some?
    ensures At(Put(n, loc, x), loc) == Some(x)
    decreases |loc|
  {
    if loc != [] {
      var c := Child(n, loc[0]).value;
      ChildPutChild(n, loc[0], Put(c, loc[1..], x));
      AtPut(c, loc[1..], x);
    }
  }

  /** Writing back what is already there changes nothing. */
  lemma {:induction false} PutAt(n: Node, loc: seq<Step>)
    requires At(n, loc).Some?
    ensures Put(n, loc, At(n, loc).value) == n
    decreases |loc|
  {
    if loc != [] {
      var c := Child(n, loc[0]).value;
      PutAt(c, loc[1..]);
      PutChildSame(n, loc[0]);
    }
  }

  /** A second write at the same location overrides the first. */
  lemma {:induction false} PutPut(n: Node, loc: seq<Step>, x: Node, y: Node)
    requires At(n, loc).Some?
    ensures Put(Put(n, loc, x), loc, y) == Put(n, loc, y)
    decreases |loc|
  {
    if loc != [] {
      var c := Child(n, loc[0]).value;
      var c1 := Put(c, loc[1..], x);
      ChildPutChild(n, loc[0], c1);
      PutPut(c, loc[1..], x, y);
      PutChildTwice(n, loc[0], c1, Put(c, loc[1..], y));
    }
  }

  /** Locations compose: reading or writing at `loc + p` is reading or writing at `p` in the
      node found at `loc`. */
  lemma {:induction false} AtAppend(n: Node, loc: seq<Step>, p: seq<Step>)
    requires At(n, loc).Some?
    ensures At(n, loc + p) == At(At(n, loc).value, p)
    decreases |loc|
  {
    if loc != [] {
      assert (loc + p)[0] == loc[0] && (loc + p)[1..] == loc[1..] + p;
      AtAppend(Child(n, loc[0]).value, loc[1..], p);
    } else {
      assert loc + p == p;
    }
  }

  lemma {:induction false} PutAppend(n: Node, loc: seq<Step>, p: seq<Step>, x: Node)
    requires At(n, loc).Some?
    ensures Put(n, loc + p, x) == Put(n, loc, Put(At(n, loc).value, p, x))
    decreases |loc|
  {
    if loc != [] {
      assert (loc + p)[0] == loc[0] && (loc + p)[1..] == loc[1..] + p;
      PutAppend(Child(n, loc[0]).value, loc[1..], p, x);
    } else {
      assert loc + p == p;
    }
  }

  /** `x` and every node below it that a location reaches is well formed. */
  lemma {:induction false} WellFormedAt(x: Node, p: seq<Step>)
    requires WellFormed(x) && At(x, p).Some?
    ensures WellFormed(At(x, p).value)
    decreases |p|
  {
    if p != [] {
      var c := Child(x, p[0]).value;
      if p[0].Key? {
        var es := x.entries;
        assert c == es[IndexOfKey(es, p[0].k).value].val;
      }
      WellFormedAt(c, p[1..]);
    }
  }

  /** Writing a well-formed node anywhere in a well-formed document keeps it well formed. */
  lemma {:induction false} PutWellFormed(n: Node, loc: seq<Step>, x: Node)
    requires WellFormed(n) && WellFormed(x)
    ensures WellFormed(Put(n, loc, x))
    decreases |loc|
  {
    if loc != [] {
      match Child(n, loc[0])
      case None =>
      case Some(c) =>
        WellFormedAt(n, [loc[0]]);
        assert At(n, [loc[0]]) == Some(c);
        PutWellFormed(c, loc[1..], x);
        var y := Put(c, loc[1..], x);
        match loc[0]
        case Key(k) =>
          SetKeyWellFormed(n.entries, k, y);
        case Idx(j) =>
          assert forall m :: 0 <= m < |n.items| ==> n.items[j := y][m] == (if m == j then y else n.items[m]);
    }
  }

  /** The result of a subscript: the child, and its location below the subscripted node;
      no location when the child is a one-character string split off a string scalar. */
  datatype Hop = Hop(child: Node, path: Option<seq<Step>>)

  predicate HopFrom(x: Node, h: Hop) {
    match h.path
    case Some(p) => At(x, p) == Some(h.child)
    case None => exists c: char :: h.child == Scalar(Str([c]))
  }

  /** Python's `x[k]` for a string key `k`. */
  function KeyHop(x: Node, k: string): (r: Result<Hop>)
    ensures r.Ok? ==> HopFrom(x, r.value) && r.value.path == Some([Key(k)])
    ensures r.Ok? <==> x.Map? && HasKey(x.entries, k)
  {
    match x
    case Map(es) => if HasKey(es, k) then Ok(Hop(Get(es, k), Some([Key(k)]))) else Err(Runtime(KeyError))
    case _ => Err(Runtime(TypeError))
  }

  /** Python's `x[index]` for an integer index: a list element (negative indices count from
      the end), a character of a string; a dict has no integer keys here. */
  function IndexHop(x: Node, index: int): (r: Result<Hop>)
    ensures r.Ok? ==> HopFrom(x, r.value)
    ensures r.Ok? && r.value.path.Some? ==> x.List? && |r.value.path.value| == 1
    ensures x.List? ==> (r.Ok? <==> PyIndex(|x.items|, index).Some?)
    ensures x.List? && r.Ok? ==> r.value.child == x.items[PyIndex(|x.items|, index).value]
    ensures x.Scalar? && x.atom.Str? ==> (r.Ok? <==> PyIndex(|x.atom.s|, index).Some?)
    ensures x.Scalar? && x.atom.Str? && r.Ok? ==>
      r.value.child == Scalar(Str([x.atom.s[PyIndex(|x.atom.s|, index).value]]))
    ensures x.Map? ==> r == Err(Runtime(KeyError))
    ensures x.Scalar? && !x.atom.Str? ==> r == Err(Runtime(TypeError))
  {
    match x
    case List(xs) =>
      (match PyIndex(|xs|, index)
       case Some(j) => Ok(Hop(xs[j], Some([Idx(j)])))
       case None => Err(Runtime(IndexError)))
    case Map(_) => Err(Runtime(KeyError))
    case Scalar(Str(s)) =>
      (match PyIndex(|s|, index)
       case Some(j) => Ok(Hop(Scalar(Str([s[j]])), None))
       case None => Err(Runtime(IndexError)))
    case Scalar(_) => Err(Runtime(TypeError))
  }

  /** `x[k][index]`. */
  function KeyIndexHop(x: Node, k: string, index: int): (r: Result<Hop>)
    ensures r.Ok? ==> HopFrom(x, r.value)
    ensures !(x.Map? && HasKey(x.entries, k)) ==> r.Err? && r.error == KeyHop(x, k).error
    ensures x.Map? && HasKey(x.entries, k) ==> (r.Ok? <==> IndexHop(Get(x.entries, k), index).Ok?)
    ensures x.Map? && HasKey(x.entries, k) && r.Err? ==> r.error == IndexHop(Get(x.entries, k), index).error
    ensures r.Ok? ==> x.Map? && HasKey(x.entries, k) && r.value.child == IndexHop(Get(x.entries, k), index).value.child
    ensures r.Ok? && r.value.path.Some? ==> |r.value.path.value| == 2 && r.value.path.value[0] == Key(k)
  {
    match KeyHop(x, k)
    case Err(e) => Err(e)
    case Ok(h) =>
      match IndexHop(h.child, index)
      case Err(e) => Err(e)
      case Ok(h2) =>
        if h2.path.Some? then
          AtAppend(x, [Key(k)], h2.path.value);
          Ok(Hop(h2.child, Some([Key(k)] + h2.path.value)))
        else Ok(h2)
  }

  /** After a write where a subscript led, the same subscript leads to what was written. */
  lemma KeyHopPut(v: Node, k: string, x: Node)
    requires KeyHop(v, k).Ok?
    ensures KeyHop(Put(v, [Key(k)], x), k) == Ok(Hop(x, Some([Key(k)])))
  {
    assert Put(v, [Key(k)], x) == Map(SetKey(v.entries, k, x));
  }

  lemma KeyIndexHopPut(v: Node, k: string, idx: int, p: seq<Step>, x: Node)
    requires KeyIndexHop(v, k, idx).Ok? && KeyIndexHop(v, k, idx).value.path == Some(p)
    ensures KeyIndexHop(Put(v, p, x), k, idx) == Ok(Hop(x, Some(p)))
  {
    var xs := Get(v.entries, k).items;
    var j := PyIndex(|xs|, idx).value;
    assert p == [Key(k), Idx(j)];
    assert p[1..] == [Idx(j)];
    assert Put(List(xs), [Idx(j)], x) == List(xs[j := x]);
    assert Put(v, p, x) == Map(SetKey(v.entries, k, List(xs[j := x])));
  }
}
