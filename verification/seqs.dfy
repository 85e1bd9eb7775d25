/** Order-preserving selection over sequences: the model of `Array.prototype.filter`. */
module Seqs {

  /** The elements of `s` that `keep` accepts, in their original order. */
  function Filter<T>(s: seq<T>, keep: T -> bool): (r: seq<T>)
    ensures |r| <= |s|
    ensures forall k :: 0 <= k < |r| ==> r[k] in s && keep(r[k])
    ensures forall i :: 0 <= i < |s| && keep(s[i]) ==> s[i] in r
  {
    if s == [] then []
    else
      assert s == [s[0]] + s[1..];
      (if keep(s[0]) then [s[0]] else []) + Filter(s[1..], keep)
  }

  /** Indices in strictly ascending order. */
  ghost predicate Ascending(idx: seq<nat>) {
    forall i, j :: 0 <= i < j < |idx| ==> idx[i] < idx[j]
  }

  /** `r` is `s` read at the positions `idx`. */
  ghost predicate ReadAt<T>(r: seq<T>, s: seq<T>, idx: seq<nat>) {
    |idx| == |r| && forall k :: 0 <= k < |idx| ==> idx[k] < |s| && r[k] == s[idx[k]]
  }

  /** `idx` lists exactly the positions of `s` whose element `keep` accepts. */
  ghost predicate ListsKept<T>(s: seq<T>, keep: T -> bool, idx: seq<nat>) {
    forall i :: 0 <= i < |s| ==> (keep(s[i]) <==> i in idx)
  }

  /** `r` is `s` read at the ascending positions `idx`, and those positions are exactly
      the ones whose element `keep` accepts. */
  ghost predicate SelectedAt<T>(r: seq<T>, s: seq<T>, keep: T -> bool, idx: seq<nat>) {
    ReadAt(r, s, idx) && Ascending(idx) && ListsKept(s, keep, idx)
  }

  /** `a` can be obtained from `b` by deleting elements. */
  ghost predicate IsSubsequence<T>(a: seq<T>, b: seq<T>) {
    exists idx :: Ascending(idx) && ReadAt(a, b, idx)
  }

  /** Every index moved one place to the right. */
  function Shift(idx: seq<nat>): (r: seq<nat>)
    ensures |r| == |idx|
    ensures forall k :: 0 <= k < |r| ==> r[k] == idx[k] + 1
  {
    seq(|idx|, k requires 0 <= k < |idx| => idx[k] + 1)
  }

  lemma ShiftMembership(idx: seq<nat>, i: nat)
    ensures i + 1 in Shift(idx) <==> i in idx
    ensures 0 !in Shift(idx)
  {
    var sh := Shift(idx);
    if i in idx {
      var k :| 0 <= k < |idx| && idx[k] == i;
      assert sh[k] == i + 1;
    }
  }

  lemma AscendingShift(idx: seq<nat>, front: bool)
    requires Ascending(idx)
    ensures Ascending(if front then [0] + Shift(idx) else Shift(idx))
  {
    var idx' := if front then [0] + Shift(idx) else Shift(idx);
    var d := if front then 1 else 0;
    forall i, j | 0 <= i < j < |idx'| ensures idx'[i] < idx'[j] {
      assert idx'[j] == idx[j - d] + 1;
      if i >= d {
        assert idx'[i] == idx[i - d] + 1;
      }
    }
  }

  lemma ReadAtShift<T>(x: T, t: seq<T>, r: seq<T>, idx: seq<nat>, front: bool)
    requires ReadAt(r, t, idx)
    ensures ReadAt(if front then [x] + r else r, [x] + t, if front then [0] + Shift(idx) else Shift(idx))
  {
    var s, r', idx' := [x] + t, (if front then [x] + r else r), (if front then [0] + Shift(idx) else Shift(idx));
    var d := if front then 1 else 0;
    forall k | 0 <= k < |idx'| ensures idx'[k] < |s| && r'[k] == s[idx'[k]] {
      if k >= d {
        assert idx'[k] == idx[k - d] + 1 && r'[k] == r[k - d];
        assert s[idx'[k]] == t[idx[k - d]];
      }
    }
  }

  lemma ListsKeptShift<T>(x: T, t: seq<T>, keep: T -> bool, idx: seq<nat>)
    requires ListsKept(t, keep, idx)
    ensures ListsKept([x] + t, keep, if keep(x) then [0] + Shift(idx) else Shift(idx))
  {
    var s, idx' := [x] + t, (if keep(x) then [0] + Shift(idx) else Shift(idx));
    forall i | 0 <= i < |s| ensures keep(s[i]) <==> i in idx' {
      ShiftMembership(idx, if i == 0 then 0 else i - 1);
      if i > 0 {
        assert s[i] == t[i - 1];
      }
    }
  }

  /** Filter keeps exactly the accepted positions, in order: it is the subsequence of `s`
      read at the accepted indices. */
  lemma {:induction false} FilterSelects<T>(s: seq<T>, keep: T -> bool) returns (idx: seq<nat>)
    ensures SelectedAt(Filter(s, keep), s, keep, idx)
  {
    if s == [] {
      idx := [];
    } else {
      var tail := FilterSelects(s[1..], keep);
      assert s == [s[0]] + s[1..];
      idx := if keep(s[0]) then [0] + Shift(tail) else Shift(tail);
      AscendingShift(tail, keep(s[0]));
      ReadAtShift(s[0], s[1..], Filter(s[1..], keep), tail, keep(s[0]));
      ListsKeptShift(s[0], s[1..], keep, tail);
    }
  }

  /** Filter's result is a subsequence of its input. */
  lemma FilterIsSubsequence<T>(s: seq<T>, keep: T -> bool)
    ensures IsSubsequence(Filter(s, keep), s)
  {
    var idx := FilterSelects(s, keep);
  }

  /** Filtering a concatenation filters each part. */
  lemma {:induction false} FilterAppend<T>(a: seq<T>, b: seq<T>, keep: T -> bool)
    ensures Filter(a + b, keep) == Filter(a, keep) + Filter(b, keep)
  {
    if a == [] {
      assert a + b == b;
    } else {
      assert (a + b)[1..] == a[1..] + b;
      FilterAppend(a[1..], b, keep);
    }
  }

  /** Two filters may be applied in either order. */
  lemma {:induction false} FilterCommutes<T>(s: seq<T>, p: T -> bool, q: T -> bool)
    ensures Filter(Filter(s, p), q) == Filter(Filter(s, q), p)
  {
    if s != [] {
      var head := if p(s[0]) then [s[0]] else [];
      var headQ := if q(s[0]) then [s[0]] else [];
      FilterAppend(head, Filter(s[1..], p), q);
      FilterAppend(headQ, Filter(s[1..], q), p);
      FilterCommutes(s[1..], p, q);
    }
  }

  /** A predicate and its negation split a sequence between them. */
  lemma {:induction false} FilterComplement<T>(s: seq<T>, p: T -> bool, q: T -> bool)
    requires forall x :: q(x) == !p(x)
    ensures |Filter(s, p)| + |Filter(s, q)| == |s|
  {
    if s != [] {
      FilterComplement(s[1..], p, q);
    }
  }

  /** Filters whose predicates agree on every element agree. */
  lemma {:induction false} FilterSameKeep<T>(s: seq<T>, p: T -> bool, q: T -> bool)
    requires forall x :: p(x) == q(x)
    ensures Filter(s, p) == Filter(s, q)
  {
    if s != [] {
      FilterSameKeep(s[1..], p, q);
    }
  }

  /** Nothing accepted, nothing kept. */
  lemma FilterNone<T>(s: seq<T>, keep: T -> bool)
    requires forall i :: 0 <= i < |s| ==> !keep(s[i])
    ensures Filter(s, keep) == []
  {
  }

  /** Everything accepted, everything kept. */
  lemma {:induction false} FilterAll<T>(s: seq<T>, keep: T -> bool)
    requires forall i :: 0 <= i < |s| ==> keep(s[i])
    ensures Filter(s, keep) == s
  {
    if s != [] {
      FilterAll(s[1..], keep);
    }
  }
}
