/** The document tree that the YAML editing engine works on, the errors it raises, and
    the handful of Python primitives (subscript, `len`, `in`, `==`) that the engine
    applies to tree nodes. */
module Nodes {

  datatype Option<+T> = None | Some(value: T)

  /** A scalar of the loaded document. Floats are not modelled. */
  datatype Atom = Str(s: string) | Int(i: int) | Bool(b: bool) | Null

  /** A node of the loaded document: a mapping in insertion order, a sequence or a scalar. */
  datatype Node =
    | Map(entries: seq<Entry>)
    | List(items: seq<Node>)
    | Scalar(atom: Atom)

  datatype Entry = Entry(key: string, val: Node)

  /** The Python exception class of an error raised by a Python primitive rather than by an
      explicit `raise` of the engine. */
  datatype PyError = TypeError | AttributeError | KeyError | IndexError

  datatype Error =
    | MalformedSegment(segment: string)            // `assert match` in `_convert`
    | InvalidLiteral(segment: string)              // `int(...)` in `_convert`
    | CannotGetValue(prefix: string)               // AttributeError "Cannot get value of ..."
    | OutOfIndex(prefix: string)                   // IndexError "... is out of index"
    | InvalidIndex(index: int, key: string)        // ValueError "Invalid index ... for key ..."
    | InvalidKey(key: string)                      // ValueError "Invalid key ..."
    | NotFoundInTarget(key: string)                // AttributeError "... not found in target"
    | IndexNotFoundInTarget(key: string, position: nat) // IndexError "key[i] not found in target"
    | DictOverList(key: string)                    // TypeError "Type of ... is dict but ... list"
    | ListOverDict(key: string)                    // TypeError "Type of ... is list but ... dict"
    | Runtime(kind: PyError)                       // raised by a Python primitive

  datatype Result<+T> = Ok(value: T) | Err(error: Error)

  // ---------------------------------------------------------------------------------
  // Mappings as ordered entry sequences
  // ---------------------------------------------------------------------------------

  /** Position of the entry for `k`, searching in insertion order. */
  function IndexOfKey(es: seq<Entry>, k: string): (r: Option<nat>)
    ensures r.Some? ==> r.value < |es| && es[r.value].key == k
    ensures r.Some? ==> forall j :: 0 <= j < r.value ==> es[j].key != k
    ensures r.None? ==> forall j :: 0 <= j < |es| ==> es[j].key != k
  {
    if |es| == 0 then None
    else if es[0].key == k then Some(0)
    else match IndexOfKey(es[1..], k)
      case None => None
      case Some(j) => Some(j + 1)
  }

  predicate HasKey(es: seq<Entry>, k: string) {
    IndexOfKey(es, k).Some?
  }

  function Get(es: seq<Entry>, k: string): Node
    requires HasKey(es, k)
  {
    es[IndexOfKey(es, k).value].val
  }

  /** `d[k] = v`: replaces the value in place when `k` is present, appends otherwise. */
  function SetKey(es: seq<Entry>, k: string, v: Node): (r: seq<Entry>)
    ensures HasKey(r, k) && Get(r, k) == v
    ensures forall k' :: k' != k ==> (HasKey(r, k') <==> HasKey(es, k'))
    ensures forall k' :: k' != k && HasKey(es, k') ==> Get(r, k') == Get(es, k')
    ensures HasKey(es, k) ==> |r| == |es| && r == es[IndexOfKey(es, k).value := Entry(k, v)]
    ensures !HasKey(es, k) ==> r == es + [Entry(k, v)]
  {
    match IndexOfKey(es, k)
    case Some(i) =>
      var r := es[i := Entry(k, v)];
      assert IndexOfKey(r, k) == Some(i) by { IndexOfKeyAt(r, k, i); }
      forall k' | k' != k && HasKey(es, k')
        ensures HasKey(r, k') && Get(r, k') == Get(es, k')
      {
        var j := IndexOfKey(es, k').value;
        IndexOfKeyAt(r, k', j);
      }
      forall k' | k' != k && HasKey(r, k')
        ensures HasKey(es, k')
      {
        HasKeyAt(es, k', IndexOfKey(r, k').value);
      }
      r
    case None =>
      var r := es + [Entry(k, v)];
      assert IndexOfKey(r, k) == Some(|es|) by { IndexOfKeyAt(r, k, |es|); }
      forall k' | k' != k && HasKey(es, k')
        ensures HasKey(r, k') && Get(r, k') == Get(es, k')
      {
        var j := IndexOfKey(es, k').value;
        IndexOfKeyAt(r, k', j);
      }
      forall k' | k' != k && HasKey(r, k')
        ensures HasKey(es, k')
      {
        HasKeyAt(es, k', IndexOfKey(r, k').value);
      }
      r
  }

  /** `d.pop(k)` for a key that may be absent: removes its entry, keeping the others in order. */
  function RemoveKey(es: seq<Entry>, k: string): (r: seq<Entry>)
    ensures HasKey(es, k) ==> |r| == |es| - 1
    ensures !HasKey(es, k) ==> r == es
    ensures forall k' :: k' != k ==> (HasKey(r, k') <==> HasKey(es, k'))
    ensures forall k' :: k' != k && HasKey(es, k') ==> Get(r, k') == Get(es, k')
  {
    match IndexOfKey(es, k)
    case None => es
    case Some(i) =>
      var r := es[..i] + es[i + 1..];
      forall k' | k' != k && HasKey(es, k')
        ensures HasKey(r, k') && Get(r, k') == Get(es, k')
      {
        var j := IndexOfKey(es, k').value;
        if j < i {
          IndexOfKeyAt(r, k', j);
        } else {
          assert j > i;
          IndexOfKeyAt(r, k', j - 1);
        }
      }
      forall k' | k' != k && HasKey(r, k')
        ensures HasKey(es, k')
      {
        var j := IndexOfKey(r, k').value;
        HasKeyAt(es, k', if j < i then j else j + 1);
      }
      r
  }

  /** An entry whose key no earlier entry has is the one `IndexOfKey` finds. */
  lemma {:induction false} IndexOfKeyAt(es: seq<Entry>, k: string, i: nat)
    requires i < |es| && es[i].key == k
    requires forall j :: 0 <= j < i ==> es[j].key != k
    ensures IndexOfKey(es, k) == Some(i)
  {
    if i > 0 {
      IndexOfKeyAt(es[1..], k, i - 1);
    }
  }

  lemma HasKeyAt(es: seq<Entry>, k: string, i: nat)
    requires i < |es| && es[i].key == k
    ensures HasKey(es, k)
  {
  }

  predicate UniqueKeys(es: seq<Entry>) {
    forall i, j :: 0 <= i < j < |es| ==> es[i].key != es[j].key
  }

  /** With unique keys, every entry is the one its key finds. */
  lemma GetUnique(es: seq<Entry>, i: nat)
    requires UniqueKeys(es) && i < |es|
    ensures HasKey(es, es[i].key) && Get(es, es[i].key) == es[i].val
  {
    IndexOfKeyAt(es, es[i].key, i);
  }

  lemma SetKeyUnique(es: seq<Entry>, k: string, v: Node)
    requires UniqueKeys(es)
    ensures UniqueKeys(SetKey(es, k, v))
  {
  }

  lemma RemoveKeyUnique(es: seq<Entry>, k: string)
    requires UniqueKeys(es)
    ensures UniqueKeys(RemoveKey(es, k))
    ensures !HasKey(RemoveKey(es, k), k)
  {
    var r := RemoveKey(es, k);
    if HasKey(es, k) {
      var i := IndexOfKey(es, k).value;
      assert r == es[..i] + es[i + 1..];
      assert forall j :: 0 <= j < |r| ==> r[j] == (if j < i then es[j] else es[j + 1]);
    }
  }

  // ---------------------------------------------------------------------------------
  // Well-formed documents and Python equality
  // ---------------------------------------------------------------------------------

  /** Every mapping in the tree has unique keys, as Python dicts do. */
  predicate WellFormed(n: Node)
    decreases n
  {
    match n
    case Scalar(_) => true
    case List(xs) => forall i | 0 <= i < |xs| :: WellFormed(xs[i])
    case Map(es) => UniqueKeys(es) && forall i | 0 <= i < |es| :: WellFormed(es[i].val)
  }

  /** `d[k] = v` with a well-formed `v` keeps a well-formed dict well formed. */
  lemma SetKeyWellFormed(es: seq<Entry>, k: string, v: Node)
    requires WellFormed(Map(es)) && WellFormed(v)
    ensures WellFormed(Map(SetKey(es, k, v)))
  {
    SetKeyUnique(es, k, v);
    var r := SetKey(es, k, v);
    if HasKey(es, k) {
      assert r == es[IndexOfKey(es, k).value := Entry(k, v)];
    }
  }

  /** `d.pop(k)` keeps a well-formed dict well formed. */
  lemma RemoveKeyWellFormed(es: seq<Entry>, k: string)
    requires WellFormed(Map(es))
    ensures WellFormed(Map(RemoveKey(es, k)))
  {
    RemoveKeyUnique(es, k);
    var r := RemoveKey(es, k);
    if HasKey(es, k) {
      var i := IndexOfKey(es, k).value;
      assert r == es[..i] + es[i + 1..];
      forall j | 0 <= j < |r| ensures WellFormed(r[j].val) {
        if j < i {
          assert r[j] == es[j];
        } else {
          assert r[j] == es[j + 1];
        }
      }
    }
  }

  /** Python's `a == b` on loaded values: a dict equals a dict of the same length in which
      every key of `a` is present with an equal value (order does not matter); lists are
      equal elementwise; scalars are equal when they are the same scalar. */
  predicate Equiv(a: Node, b: Node)
    ensures Equiv(a, b) ==> a.Map? == b.Map? && a.List? == b.List? && a.Scalar? == b.Scalar?
    decreases a
  {
    match a
    case Scalar(x) => b == Scalar(x)
    case List(xs) =>
      b.List? && |xs| == |b.items| &&
      forall i | 0 <= i < |xs| :: Equiv(xs[i], b.items[i])
    case Map(es) =>
      b.Map? && |es| == |b.entries| &&
      forall i | 0 <= i < |es| ::
        HasKey(b.entries, es[i].key) && Equiv(es[i].val, Get(b.entries, es[i].key))
  }

  /** Every well-formed value equals itself. */
  lemma {:induction false} EquivRefl(a: Node)
    requires WellFormed(a)
    ensures Equiv(a, a)
    decreases a
  {
    match a
    case Scalar(_) =>
    case List(xs) =>
      forall i | 0 <= i < |xs| ensures Equiv(xs[i], xs[i]) {
        EquivRefl(xs[i]);
      }
    case Map(es) =>
      forall i | 0 <= i < |es|
        ensures HasKey(es, es[i].key) && Equiv(es[i].val, Get(es, es[i].key))
      {
        GetUnique(es, i);
        EquivRefl(es[i].val);
      }
  }

  /** A scalar equals only itself, and only scalars equal a scalar. */
  lemma EquivScalar(a: Node, b: Node)
    requires a.Scalar? || b.Scalar?
    ensures Equiv(a, b) <==> a == b
  {
  }

  // ---------------------------------------------------------------------------------
  // Python primitives on nodes
  // ---------------------------------------------------------------------------------

  /** The element position that Python's `xs[i]` selects in a sequence of length `n`;
      negative indices count from the end. */
  function PyIndex(n: nat, i: int): (r: Option<nat>)
    ensures r.Some? <==> -(n as int) <= i < n
    ensures r.Some? ==> r.value < n && (r.value == i || r.value == n + i)
  {
    if 0 <= i < n then Some(i)
    else if -(n as int) <= i < 0 then Some(n + i)
    else None
  }

  /** `len(x)`: defined for dicts, lists and strings. */
  function PyLen(x: Node): (r: Option<nat>)
    ensures r.None? <==> x.Scalar? && !x.atom.Str?
    ensures x.List? ==> r == Some(|x.items|)
  {
    match x
    case Map(es) => Some(|es|)
    case List(xs) => Some(|xs|)
    case Scalar(Str(s)) => Some(|s|)
    case Scalar(_) => None
  }

  /** `k in x` for a string `k`: key membership for a dict, element equality for a list,
      substring for a string; a TypeError for other scalars. */
  function PyIn(k: string, x: Node): (r: Result<bool>)
    ensures r.Err? <==> x.Scalar? && !x.atom.Str?
    ensures x.Map? ==> r == Ok(HasKey(x.entries, k))
  {
    match x
    case Map(es) => Ok(HasKey(es, k))
    case List(xs) => Ok(Scalar(Str(k)) in xs)
    case Scalar(Str(s)) => Ok(IsSubstring(k, s))
    case Scalar(_) => Err(Runtime(TypeError))
  }

  /** `k` occurs in `s` at some position. */
  predicate IsSubstring(k: string, s: string)
    decreases |s|
  {
    |k| <= |s| && (s[..|k|] == k || IsSubstring(k, s[1..]))
  }
}
