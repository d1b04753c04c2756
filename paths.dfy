/** Key-path strings: `str.split(".")`, `_join` (which rebuilds a dotted prefix for error
    messages) and `_convert` (which splits a segment `name[N]` into a key and an index). */
module Paths {
  import opened Nodes

  // ---------------------------------------------------------------------------------
  // Splitting and joining
  // ---------------------------------------------------------------------------------

  /** Python's `s.split(d)`: the pieces between the occurrences of `d`. */
  function Split(s: string, d: char): (r: seq<string>)
    ensures |r| >= 1
    ensures forall i :: 0 <= i < |r| ==> d !in r[i]
    decreases |s|
  {
    if |s| == 0 then [""]
    else
      var rest := Split(s[1..], d);
      if s[0] == d then [""] + rest
      else [[s[0]] + rest[0]] + rest[1..]
  }

  /** The total length of the pieces. */
  function PiecesLength(l: seq<string>): nat
    decreases |l|
  {
    if |l| == 0 then 0 else |l[0]| + PiecesLength(l[1..])
  }

  /** Python's `delim.join(l)`: the pieces with one delimiter between each two. */
  function JoinAll(l: seq<string>, delim: string): (r: string)
    ensures |l| > 0 ==> |r| == PiecesLength(l) + (|l| - 1) * |delim|
    ensures |l| > 0 ==> l[0] <= r
    decreases |l|
  {
    if |l| == 0 then ""
    else if |l| == 1 then l[0]
    else l[0] + delim + JoinAll(l[1..], delim)
  }

  /** `_join(l, delimiter, depth)`: joins the first `depth` pieces, all of them when no depth
      is given (a slice past the end takes the whole list). */
  function Join(l: seq<string>, delim: string, depth: Option<nat>): (r: string)
    ensures depth.None? ==> r == JoinAll(l, delim)
    ensures r <= JoinAll(l, delim)
  {
    var d := if depth.None? || depth.value > |l| then |l| else depth.value;
    assert l[..|l|] == l;
    JoinAllPrefix(l, delim, d);
    JoinAll(l[..d], delim)
  }

  /** Joining the first `k` pieces gives a prefix of the join of all of them. */
  lemma {:induction false} JoinAllPrefix(l: seq<string>, delim: string, k: nat)
    requires k <= |l|
    ensures JoinAll(l[..k], delim) <= JoinAll(l, delim)
    decreases |l|
  {
    assert l[..|l|] == l;
    if 0 < k < |l| {
      if k == 1 {
        assert l[..1] == [l[0]];
      } else {
        JoinAllPrefix(l[1..], delim, k - 1);
        assert l[..k][1..] == l[1..][..k - 1];
      }
    }
  }

  /** `_join` with a depth gives the key up to that depth: splitting it gives back exactly
      the first `k` pieces, or all of them when `k` is past the end. */
  lemma {:induction false} JoinDepthSplit(l: seq<string>, d: char, k: nat)
    requires 1 <= k && 1 <= |l|
    requires forall i :: 0 <= i < |l| ==> d !in l[i]
    ensures Split(Join(l, [d], Some(k)), d) == if k <= |l| then l[..k] else l
  {
    var p := if k <= |l| then l[..k] else l;
    assert p[..|p|] == p;
    assert l[..|l|] == l;
    SplitJoin(p, d);
  }

  /** Joining the pieces of a split gives back the original string. */
  lemma {:induction false} JoinSplit(s: string, d: char)
    ensures Join(Split(s, d), [d], None) == s
    decreases |s|
  {
    var l := Split(s, d);
    assert l[..|l|] == l;
    if |s| > 0 {
      var rest := Split(s[1..], d);
      JoinSplit(s[1..], d);
      assert rest[..|rest|] == rest;
      if s[0] == d {
        assert l[1..] == rest;
      } else {
        var first := [s[0]] + rest[0];
        assert l == [first] + rest[1..];
        if |rest| == 1 {
          assert JoinAll(l, [d]) == first;
        } else {
          assert l[1..] == rest[1..];
          assert JoinAll(rest, [d]) == rest[0] + [d] + JoinAll(rest[1..], [d]);
        }
      }
    }
  }

  /** Splitting a joined list of dot-free pieces gives back the pieces. */
  lemma {:induction false} SplitJoin(l: seq<string>, d: char)
    requires |l| >= 1
    requires forall i :: 0 <= i < |l| ==> d !in l[i]
    ensures Split(Join(l, [d], None), d) == l
    decreases |l|
  {
    assert l[..|l|] == l;
    if |l| == 1 {
      SplitPrefix(l[0], "", d);
      assert l[0] + "" == l[0];
    } else {
      var j := JoinAll(l[1..], [d]);
      var t := [d] + j;
      SplitJoin(l[1..], d);
      assert l[1..][..|l[1..]|] == l[1..];
      assert Split(j, d) == l[1..];
      assert t[1..] == j;
      assert Split(t, d) == [""] + l[1..];
      SplitPrefix(l[0], t, d);
      assert l[0] + [d] + j == l[0] + t;
      assert l[0] + "" == l[0];
      assert l == [l[0]] + l[1..];
    }
  }

  /** A delimiter-free prefix is glued onto the first piece. */
  lemma {:induction false} SplitPrefix(p: string, t: string, d: char)
    requires d !in p
    ensures Split(p + t, d) == [p + Split(t, d)[0]] + Split(t, d)[1..]
    decreases |p|
  {
    var st := Split(t, d);
    if |p| == 0 {
      assert p + t == t;
      assert p + st[0] == st[0];
      assert st == [st[0]] + st[1..];
    } else {
      SplitPrefix(p[1..], t, d);
      assert (p + t)[1..] == p[1..] + t;
      var rest := Split(p[1..] + t, d);
      assert rest[0] == p[1..] + st[0];
      assert rest[1..] == st[1..];
      assert [p[0]] + (p[1..] + st[0]) == p + st[0];
    }
  }

  // ---------------------------------------------------------------------------------
  // Integer literals
  // ---------------------------------------------------------------------------------

  predicate IsDigit(c: char) { '0' <= c <= '9' }

  predicate AllDigits(t: string) { forall i :: 0 <= i < |t| ==> IsDigit(t[i]) }

  function DigitsValue(t: string): nat
    requires AllDigits(t)
    decreases |t|
  {
    if |t| == 0 then 0
    else DigitsValue(t[..|t| - 1]) * 10 + (t[|t| - 1] as int - '0' as int)
  }

  /** Python's `int(t)` on a string of digits and minus signs: an optional minus sign followed
      by at least one digit; anything else is a ValueError. */
  function ParseInt(t: string): (r: Option<int>)
    ensures r.Some? <==> (|t| > 0 && AllDigits(t)) || (|t| > 1 && t[0] == '-' && AllDigits(t[1..]))
    ensures r.Some? && r.value < 0 ==> t[0] == '-'
  {
    if |t| > 0 && t[0] == '-' then
      if |t| > 1 && AllDigits(t[1..]) then Some(-(DigitsValue(t[1..]) as int)) else None
    else if |t| > 0 && AllDigits(t) then Some(DigitsValue(t))
    else None
  }

  /** Decimal digits of `n`. */
  function ShowNat(n: nat): (r: string)
    ensures |r| >= 1 && AllDigits(r)
    decreases n
  {
    if n < 10 then [('0' as int + n) as char]
    else ShowNat(n / 10) + [('0' as int + n % 10) as char]
  }

  /** Python's `str(n)` for an integer. */
  function Show(n: int): string {
    if n < 0 then "-" + ShowNat(-n) else ShowNat(n)
  }

  lemma {:induction false} ShowNatValue(n: nat)
    ensures DigitsValue(ShowNat(n)) == n
    decreases n
  {
    if n >= 10 {
      ShowNatValue(n / 10);
      var r := ShowNat(n);
      assert r[..|r| - 1] == ShowNat(n / 10);
    }
  }

  /** `int(str(n)) == n`. */
  lemma ParseShow(n: int)
    ensures ParseInt(Show(n)) == Some(n)
  {
    if n < 0 {
      ShowNatValue(-n);
      assert Show(n)[1..] == ShowNat(-n);
    } else {
      ShowNatValue(n);
    }
  }

  // ---------------------------------------------------------------------------------
  // Segments
  // ---------------------------------------------------------------------------------

  /** A path segment: a key, and an index when the segment is written `key[N]`. */
  datatype Segment = Segment(key: string, index: Option<int>)

  predicate IsIndexChar(c: char) { c == '-' || IsDigit(c) }

  /** End of the run of characters of the class `[\-0-9]` that starts at `j`. */
  function RunEnd(s: string, j: nat): (q: nat)
    requires j <= |s|
    ensures j <= q <= |s|
    decreases |s| - j
  {
    if j < |s| && IsIndexChar(s[j]) then RunEnd(s, j + 1) else j
  }

  /** The run is maximal: index characters up to its end, and none at its end. */
  lemma {:induction false} RunEndScans(s: string, j: nat)
    requires j <= |s|
    ensures forall m :: j <= m < RunEnd(s, j) ==> IsIndexChar(s[m])
    ensures RunEnd(s, j) < |s| ==> !IsIndexChar(s[RunEnd(s, j)])
    decreases |s| - j
  {
    if j < |s| && IsIndexChar(s[j]) {
      RunEndScans(s, j + 1);
    }
  }

  /** The pattern `\[([\-0-9]*)\]` matches at position `p`. */
  predicate OpensAt(s: string, p: nat) {
    p < |s| && s[p] == '[' && RunEnd(s, p + 1) < |s| && s[RunEnd(s, p + 1)] == ']'
  }

  /** The greedy `(.*)` of `(.*)\[([\-0-9]*)\]` ends at the last position below `hi` where
      the bracket pattern matches. */
  function LastOpen(s: string, hi: nat): (r: Option<nat>)
    requires hi <= |s|
    ensures r.Some? ==> r.value < hi && OpensAt(s, r.value)
    decreases hi
  {
    if hi == 0 then None
    else if OpensAt(s, hi - 1) then Some(hi - 1)
    else LastOpen(s, hi - 1)
  }

  /** The match found is the last one below `hi`, and none is found only when there is
      none. */
  lemma {:induction false} LastOpenIsLast(s: string, hi: nat)
    requires hi <= |s|
    ensures LastOpen(s, hi).Some? ==> forall p :: LastOpen(s, hi).value < p < hi ==> !OpensAt(s, p)
    ensures LastOpen(s, hi).None? ==> forall p :: 0 <= p < hi ==> !OpensAt(s, p)
    decreases hi
  {
    if hi > 0 && !OpensAt(s, hi - 1) {
      LastOpenIsLast(s, hi - 1);
    }
  }

  /** `_convert`: a segment without brackets is a plain key; otherwise the regular
      expression `(.*)\[([\-0-9]*)\]` must match (the `assert match`) and its second group
      must be an integer literal. */
  function Convert(s: string): (r: Result<Segment>)
    ensures r.Ok? ==> (r.value.index.None? <==> '[' !in s && ']' !in s)
    ensures r.Ok? && r.value.index.None? ==> r.value.key == s
    ensures r.Ok? && r.value.index.Some? ==> '[' in s
  {
    if '[' !in s && ']' !in s then Ok(Segment(s, None))
    else match LastOpen(s, |s|)
      case None => Err(MalformedSegment(s))
      case Some(p) =>
        match ParseInt(s[p + 1..RunEnd(s, p + 1)])
        case None => Err(InvalidLiteral(s))
        case Some(n) => Ok(Segment(s[..p], Some(n)))
  }

  /** A segment without brackets is returned as is, with no index. */
  lemma ConvertPlain(s: string)
    requires '[' !in s && ']' !in s
    ensures Convert(s) == Ok(Segment(s, None))
  {
  }

  lemma {:induction false} RunEndAt(s: string, j: nat, q: nat)
    requires j <= q <= |s|
    requires forall m :: j <= m < q ==> IsIndexChar(s[m])
    requires q < |s| ==> !IsIndexChar(s[q])
    ensures RunEnd(s, j) == q
    decreases q - j
  {
    if j < q {
      RunEndAt(s, j + 1, q);
    }
  }

  predicate AllIndexChars(d: string) { forall i :: 0 <= i < |d| ==> IsIndexChar(d[i]) }

  lemma ShowIndexChars(n: int)
    ensures AllIndexChars(Show(n))
  {
    if n < 0 {
      var r := ShowNat(-n);
      assert forall i :: 1 <= i < |Show(n)| ==> Show(n)[i] == r[i - 1];
    }
  }

  lemma {:induction false} LastOpenIs(s: string, hi: nat, p: nat)
    requires p < hi <= |s| && OpensAt(s, p)
    requires forall m :: p < m < hi ==> s[m] != '['
    ensures LastOpen(s, hi) == Some(p)
    decreases hi
  {
    if hi - 1 != p {
      LastOpenIs(s, hi - 1, p);
    }
  }

  /** In `name[d]tail` with `d` made of index characters and no `[` in `tail`, the pattern
      matches at the bracket after `name`, and at no later position. */
  lemma LastBracket(name: string, d: string, tail: string)
    requires AllIndexChars(d) && '[' !in tail
    ensures var s := name + "[" + d + "]" + tail;
      LastOpen(s, |s|) == Some(|name|) && RunEnd(s, |name| + 1) == |name| + 1 + |d| &&
      s[..|name|] == name && s[|name| + 1..|name| + 1 + |d|] == d
  {
    var s := name + "[" + d + "]" + tail;
    var p := |name|;
    var q := p + 1 + |d|;
    assert s[p] == '[' && s[q] == ']';
    assert forall m :: p + 1 <= m < q ==> s[m] == d[m - p - 1];
    RunEndAt(s, p + 1, q);
    assert forall m :: q < m < |s| ==> s[m] == tail[m - q - 1];
    LastOpenIs(s, |s|, p);
    assert s[..p] == name;
    assert s[p + 1..q] == d;
  }

  /** `name[N]` converts to `name` and `N`, negative `N` included, whatever `name` holds and
      whatever follows the closing bracket, as long as no later `[` starts another match. */
  lemma ConvertIndexed(name: string, n: int, tail: string)
    requires '[' !in tail
    ensures Convert(name + "[" + Show(n) + "]" + tail) == Ok(Segment(name, Some(n)))
  {
    var s := name + "[" + Show(n) + "]" + tail;
    ShowIndexChars(n);
    LastBracket(name, Show(n), tail);
    ParseShow(n);
    assert s[|name|] == '[';
    assert s[|name| + 1..RunEnd(s, |name| + 1)] == Show(n);
  }

  /** `name[]` is refused: `int("")` raises. */
  lemma ConvertEmptyIndex(name: string)
    ensures Convert(name + "[]").Err?
  {
    LastBracket(name, "", "");
    assert name + "[" + "" + "]" + "" == name + "[]";
  }
}
