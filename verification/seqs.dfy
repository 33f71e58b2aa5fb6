/** Generic facts about sequences: the positions a filter keeps, filtering with
    a partial map, and flattening. */
module Seqs {
  import opened Wrappers

  /** The indices 0, 1, ..., n - 1, in order. */
  function Range(n: nat): (r: seq<nat>)
    ensures |r| == n
    ensures forall i :: 0 <= i < n ==> r[i] == i
  {
    seq(n, i requires 0 <= i < n => i)
  }

  /** The positions of the elements of `s` that satisfy `p`, in increasing order:
      what a list comprehension `[x for x in s if p(x)]` keeps, and where from. */
  function Positions<T>(p: T -> bool, s: seq<T>): (ix: seq<nat>)
    ensures forall k :: 0 <= k < |ix| ==> ix[k] < |s| && p(s[ix[k]])
    ensures forall k, l :: 0 <= k < l < |ix| ==> ix[k] < ix[l]
    ensures forall i :: 0 <= i < |s| && p(s[i]) ==> i in ix
    ensures |ix| <= |s|
  {
    if s == [] then []
    else
      var n := |s| - 1;
      var front := Positions(p, s[..n]);
      assert forall k :: 0 <= k < |front| ==> s[..n][front[k]] == s[front[k]];
      assert forall i :: 0 <= i < n ==> s[..n][i] == s[i];
      if p(s[n]) then front + [n] else front
  }

  /** Two strictly increasing sequences with the same elements are equal. */
  lemma {:induction false} IncreasingUnique(a: seq<nat>, b: seq<nat>)
    requires forall k, l :: 0 <= k < l < |a| ==> a[k] < a[l]
    requires forall k, l :: 0 <= k < l < |b| ==> b[k] < b[l]
    requires forall x :: x in a <==> x in b
    ensures a == b
    decreases |a| + |b|
  {
    if a != [] || b != [] {
      SameHead(a, b);
      SameTails(a, b);
      IncreasingUnique(a[1..], b[1..]);
      assert a == [a[0]] + a[1..];
      assert b == [b[0]] + b[1..];
    }
  }

  /** Each head is the least element of the common set. */
  lemma SameHead(a: seq<nat>, b: seq<nat>)
    requires a != [] || b != []
    requires forall k, l :: 0 <= k < l < |a| ==> a[k] < a[l]
    requires forall k, l :: 0 <= k < l < |b| ==> b[k] < b[l]
    requires forall x :: x in a <==> x in b
    ensures a != [] && b != [] && a[0] == b[0]
  {
    assert a != [] && b != [] by {
      if a != [] {
        assert a[0] in a;
      }
      if b != [] {
        assert b[0] in b;
      }
    }
    assert a[0] in b && b[0] in a;
    var i :| 0 <= i < |b| && b[i] == a[0];
    var j :| 0 <= j < |a| && a[j] == b[0];
    assert b[0] <= b[i] && a[0] <= a[j];
  }

  lemma SameTails(a: seq<nat>, b: seq<nat>)
    requires a != [] && b != [] && a[0] == b[0]
    requires forall k, l :: 0 <= k < l < |a| ==> a[k] < a[l]
    requires forall k, l :: 0 <= k < l < |b| ==> b[k] < b[l]
    requires forall x :: x in a <==> x in b
    ensures forall x :: x in a[1..] <==> x in b[1..]
  {
    forall x
      ensures x in a[1..] ==> x in b[1..]
    {
      if x in a[1..] {
        TailMember(a, b, x);
      }
    }
    forall x
      ensures x in b[1..] ==> x in a[1..]
    {
      if x in b[1..] {
        TailMember(b, a, x);
      }
    }
  }

  lemma TailMember(a: seq<nat>, b: seq<nat>, x: nat)
    requires a != [] && b != [] && a[0] == b[0]
    requires forall k, l :: 0 <= k < l < |a| ==> a[k] < a[l]
    requires forall x :: x in a ==> x in b
    requires x in a[1..]
    ensures x in b[1..]
  {
    var k :| 0 <= k < |a[1..]| && a[1..][k] == x;
    assert a[k + 1] == x && a[0] < x;
    assert x in a;
    var m :| 0 <= m < |b| && b[m] == x;
    assert m != 0;
    assert b[1..][m - 1] == x;
  }

  /** `Positions` depends only on the verdicts of the predicate. */
  lemma {:induction false} PositionsCongruent<T, U>(p: T -> bool, s: seq<T>, q: U -> bool, t: seq<U>)
    requires |s| == |t|
    requires forall k :: 0 <= k < |s| ==> p(s[k]) == q(t[k])
    ensures Positions(p, s) == Positions(q, t)
  {
    if s != [] {
      var n := |s| - 1;
      assert forall k :: 0 <= k < n ==> s[..n][k] == s[k] && t[..n][k] == t[k];
      PositionsCongruent(p, s[..n], q, t[..n]);
    }
  }

  /** Filtering by `p` and then by `q` keeps exactly the positions that pass both. */
  lemma PositionsThen<T>(p: T -> bool, q: T -> bool, both: T -> bool, s: seq<T>, sub: seq<T>)
    requires forall x :: both(x) == (p(x) && q(x))
    requires |sub| == |Positions(p, s)|
    requires forall k :: 0 <= k < |sub| ==> sub[k] == s[Positions(p, s)[k]]
    ensures var ix, jx := Positions(p, s), Positions(q, sub);
            && |jx| == |Positions(both, s)|
            && forall k :: 0 <= k < |jx| ==> ix[jx[k]] == Positions(both, s)[k]
  {
    var ix := Positions(p, s);
    var jx := Positions(q, sub);
    var a := seq(|jx|, k requires 0 <= k < |jx| => ix[jx[k]]);
    ThenMembers(p, q, both, s, sub, a);
    ThenIncreasing(ix, jx, a);
    IncreasingUnique(a, Positions(both, s));
  }

  lemma ThenMembers<T>(p: T -> bool, q: T -> bool, both: T -> bool, s: seq<T>, sub: seq<T>, a: seq<nat>)
    requires forall x :: both(x) == (p(x) && q(x))
    requires |sub| == |Positions(p, s)|
    requires forall k :: 0 <= k < |sub| ==> sub[k] == s[Positions(p, s)[k]]
    requires var ix, jx := Positions(p, s), Positions(q, sub);
             |a| == |jx| && forall k :: 0 <= k < |jx| ==> a[k] == ix[jx[k]]
    ensures forall x :: x in a <==> x in Positions(both, s)
  {
    forall x
      ensures x in a <==> x in Positions(both, s)
    {
      if x in a {
        ThenSound(p, q, both, s, sub, a, x);
      }
      if x in Positions(both, s) {
        ThenComplete(p, q, both, s, sub, a, x);
      }
    }
  }

  /** Picking from an increasing sequence at increasing positions gives an
      increasing sequence. */
  lemma ThenIncreasing(ix: seq<nat>, jx: seq<nat>, a: seq<nat>)
    requires forall k, l :: 0 <= k < l < |ix| ==> ix[k] < ix[l]
    requires forall k, l :: 0 <= k < l < |jx| ==> jx[k] < jx[l]
    requires forall k :: 0 <= k < |jx| ==> jx[k] < |ix|
    requires |a| == |jx| && forall k :: 0 <= k < |jx| ==> a[k] == ix[jx[k]]
    ensures forall k, l :: 0 <= k < l < |a| ==> a[k] < a[l]
  {
  }

  lemma ThenSound<T>(p: T -> bool, q: T -> bool, both: T -> bool, s: seq<T>, sub: seq<T>, a: seq<nat>, x: nat)
    requires forall x :: both(x) == (p(x) && q(x))
    requires |sub| == |Positions(p, s)|
    requires forall k :: 0 <= k < |sub| ==> sub[k] == s[Positions(p, s)[k]]
    requires var ix, jx := Positions(p, s), Positions(q, sub);
             |a| == |jx| && forall k :: 0 <= k < |jx| ==> a[k] == ix[jx[k]]
    requires x in a
    ensures x in Positions(both, s)
  {
    var ix, jx := Positions(p, s), Positions(q, sub);
    var k :| 0 <= k < |a| && a[k] == x;
    assert sub[jx[k]] == s[x];
    assert both(s[x]);
  }

  lemma ThenComplete<T>(p: T -> bool, q: T -> bool, both: T -> bool, s: seq<T>, sub: seq<T>, a: seq<nat>, x: nat)
    requires forall x :: both(x) == (p(x) && q(x))
    requires |sub| == |Positions(p, s)|
    requires forall k :: 0 <= k < |sub| ==> sub[k] == s[Positions(p, s)[k]]
    requires var ix, jx := Positions(p, s), Positions(q, sub);
             |a| == |jx| && forall k :: 0 <= k < |jx| ==> a[k] == ix[jx[k]]
    requires x in Positions(both, s)
    ensures x in a
  {
    var ix, jx := Positions(p, s), Positions(q, sub);
    var b := Positions(both, s);
    var m :| 0 <= m < |b| && b[m] == x;
    assert p(s[x]) && q(s[x]);
    var i :| 0 <= i < |ix| && ix[i] == x;
    assert q(sub[i]);
    var k :| 0 <= k < |jx| && jx[k] == i;
    assert a[k] == x;
  }

  /** The test "`f` gives a value here". */
  function Defined<T, U>(f: T -> Option<U>): T -> bool {
    x => f(x).Some?
  }

  /** `[f(x).value for x in s if f(x) is not None]`: a filter and a map in one. */
  function FilterMap<T, U>(f: T -> Option<U>, s: seq<T>): seq<U> {
    if s == [] then []
    else (if f(s[0]).Some? then [f(s[0]).value] else []) + FilterMap(f, s[1..])
  }

  lemma {:induction false} FilterMapAppend<T, U>(f: T -> Option<U>, a: seq<T>, b: seq<T>)
    ensures FilterMap(f, a + b) == FilterMap(f, a) + FilterMap(f, b)
  {
    if a == [] {
      assert a + b == b;
    } else {
      var x, t := a[0], a[1..];
      assert a == [x] + t;
      assert a + b == [x] + (t + b);
      FilterMapAppend(f, t, b);
      FilterMapCons(f, x, t);
      FilterMapCons(f, x, t + b);
    }
  }

  lemma FilterMapCons<T, U>(f: T -> Option<U>, x: T, t: seq<T>)
    ensures FilterMap(f, [x] + t) == (if f(x).Some? then [f(x).value] else []) + FilterMap(f, t)
  {
    assert ([x] + t)[0] == x && ([x] + t)[1..] == t;
  }

  lemma FilterMapSnoc<T, U>(f: T -> Option<U>, a: seq<T>, x: T)
    ensures FilterMap(f, a + [x]) == FilterMap(f, a) + (if f(x).Some? then [f(x).value] else [])
  {
    FilterMapAppend(f, a, [x]);
    assert [x][1..] == [];
  }

  /** `FilterMap` gives nothing exactly when `f` gives nothing everywhere. */
  lemma {:induction false} FilterMapEmptyIff<T, U>(f: T -> Option<U>, s: seq<T>)
    ensures FilterMap(f, s) == [] <==> forall i :: 0 <= i < |s| ==> f(s[i]).None?
  {
    if s != [] {
      FilterMapEmptyIff(f, s[1..]);
      assert forall i :: 1 <= i < |s| ==> s[1..][i - 1] == s[i];
    }
  }

  /** The results of `FilterMap` are, in order, the values at the positions where
      `f` gives one. */
  lemma {:induction false} FilterMapInOrder<T, U>(f: T -> Option<U>, s: seq<T>)
    ensures var ix := Positions(Defined(f), s);
            && |FilterMap(f, s)| == |ix|
            && forall k :: 0 <= k < |ix| ==> FilterMap(f, s)[k] == f(s[ix[k]]).value
  {
    if s != [] {
      FilterMapInOrder(f, s[..|s| - 1]);
      FilterMapInOrderStep(f, s);
    }
  }

  /** The step of `FilterMapInOrder`: one more element at the end. */
  lemma FilterMapInOrderStep<T, U>(f: T -> Option<U>, s: seq<T>)
    requires s != []
    requires var front := s[..|s| - 1];
             var ix := Positions(Defined(f), front);
             && |FilterMap(f, front)| == |ix|
             && forall k :: 0 <= k < |ix| ==> FilterMap(f, front)[k] == f(front[ix[k]]).value
    ensures var ix := Positions(Defined(f), s);
            && |FilterMap(f, s)| == |ix|
            && forall k :: 0 <= k < |ix| ==> FilterMap(f, s)[k] == f(s[ix[k]]).value
  {
    var n := |s| - 1;
    var front := s[..n];
    LastSplit(s);
    FilterMapSnoc(f, front, s[n]);
    PositionsSnoc(Defined(f), s);
    PicksSnoc(f, front, s[n], Positions(Defined(f), front), FilterMap(f, front));
  }

  /** `r` holds, in order, the values `f` gives at the positions `ix` of `s`. */
  ghost predicate Picks<T, U>(f: T -> Option<U>, s: seq<T>, ix: seq<nat>, r: seq<U>) {
    && |r| == |ix|
    && forall k :: 0 <= k < |ix| ==> ix[k] < |s| && f(s[ix[k]]).Some? && r[k] == f(s[ix[k]]).value
  }

  lemma PicksSnoc<T, U>(f: T -> Option<U>, s: seq<T>, x: T, ix: seq<nat>, r: seq<U>)
    requires Picks(f, s, ix, r)
    ensures Picks(f, s + [x], if f(x).Some? then ix + [|s|] else ix,
                  r + (if f(x).Some? then [f(x).value] else []))
  {
    var t := s + [x];
    assert forall k :: 0 <= k < |ix| ==> t[ix[k]] == s[ix[k]];
    assert t[|s|] == x;
  }

  lemma HeadTail<T>(w: seq<T>, v: seq<T>)
    requires w != []
    ensures (w + v)[0] == w[0] && (w + v)[1..] == w[1..] + v
  {
  }

  lemma LastSplit<T>(s: seq<T>)
    requires s != []
    ensures s == s[..|s| - 1] + [s[|s| - 1]]
  {
  }

  /** How `Positions` grows by one element at the end. */
  lemma PositionsSnoc<T>(p: T -> bool, s: seq<T>)
    requires s != []
    ensures Positions(p, s) ==
            if p(s[|s| - 1]) then Positions(p, s[..|s| - 1]) + [|s| - 1] else Positions(p, s[..|s| - 1])
  {
  }

  /** Concatenation of a sequence of sequences, in order. */
  function Flatten<T>(ss: seq<seq<T>>): seq<T>
  {
    if ss == [] then [] else ss[0] + Flatten(ss[1..])
  }

  lemma FlattenCons<T>(x: seq<T>, t: seq<seq<T>>)
    ensures Flatten([x] + t) == x + Flatten(t)
  {
    assert ([x] + t)[0] == x && ([x] + t)[1..] == t;
  }

  lemma {:induction false} FlattenAppend<T>(a: seq<seq<T>>, b: seq<seq<T>>)
    ensures Flatten(a + b) == Flatten(a) + Flatten(b)
  {
    if a == [] {
      assert a + b == b;
    } else {
      assert (a + b)[1..] == a[1..] + b;
      FlattenAppend(a[1..], b);
    }
  }

  // ---------------------------------------------------------------------------
  // Identities of concatenation

  /** The first three elements and the rest. */
  lemma FirstThree<T>(b: seq<T>)
    requires |b| >= 3
    ensures b == [b[0], b[1], b[2]] + b[3..]
  {
  }

  /** The two halves of a concatenation taken apart again. */
  lemma Parts<T>(a: seq<T>, b: seq<T>)
    ensures (a + b)[..|a|] == a && (a + b)[|a|..] == b
  {
  }

  /** Regrouping five concatenated pieces. */
  lemma Regroup<T>(a: seq<T>, b: seq<T>, c: seq<T>, d: seq<T>, e: seq<T>)
    ensures a + (b + c + d) + e == (a + b) + c + (d + e)
  {
  }

  /** An update at `i` is the prefix, the new element and the suffix. */
  lemma UpdateSplit<T>(s: seq<T>, i: nat, x: T)
    requires i < |s|
    ensures s[i := x] == s[..i] + [x] + s[i + 1..]
  {
  }

  /** Reassociating a concatenation given in two parts. */
  lemma ConcatAssoc<T>(l: seq<T>, r: seq<T>, h: seq<T>, t: seq<T>, v: seq<T>)
    requires l == h + (t + v) && r == h + t
    ensures l == r + v
  {
  }

  /** Concatenation is associative. */
  lemma ConcatAssoc3<T>(a: seq<T>, b: seq<T>, c: seq<T>)
    ensures a + b + c == a + (b + c)
  {
  }
}
