/** Mixed-radix ("odometer") enumeration of the Cartesian product of groups.

    An index tuple holds one index per group; tuples are visited with the last
    index moving fastest. The rank of a tuple is its position in that order,
    so the odometer's advance step adds one to the rank, and the search visits
    the ranks 0, 1, ..., Product(sizes) - 1. */
module Odometer {
  import opened Util

  /** Every group has at least one alternative. */
  predicate Positive(sizes: seq<nat>) {
    forall i :: 0 <= i < |sizes| ==> sizes[i] > 0
  }

  /** A valid index tuple for groups of the given sizes. */
  predicate IsTuple(t: seq<nat>, sizes: seq<nat>) {
    |t| == |sizes| && forall i :: 0 <= i < |t| ==> t[i] < sizes[i]
  }

  function Sizes<T>(groups: seq<seq<T>>): (sizes: seq<nat>)
    ensures |sizes| == |groups|
  {
    seq(|groups|, i requires 0 <= i < |groups| => |groups[i]|)
  }

  /** The number of index tuples. */
  function Product(sizes: seq<nat>): (p: nat)
    ensures Positive(sizes) ==> p > 0
  {
    if |sizes| == 0 then 1 else Product(sizes[..|sizes| - 1]) * sizes[|sizes| - 1]
  }

  lemma StepBound(q: nat, d: nat, a: nat, m: nat)
    requires q < a && d < m
    ensures q * m + d < a * m
  {
    assert q * m + d < q * m + m == (q + 1) * m <= a * m;
  }

  /** The rank of an index tuple: its position in odometer order. */
  function Rank(t: seq<nat>, sizes: seq<nat>): (r: nat)
    requires IsTuple(t, sizes)
    ensures r < Product(sizes)
    decreases |sizes|
  {
    if |sizes| == 0 then 0
    else
      var n := |sizes| - 1;
      var q := Rank(t[..n], sizes[..n]);
      StepBound(q, t[n], Product(sizes[..n]), sizes[n]);
      q * sizes[n] + t[n]
  }

  function Zeros(n: nat): (z: seq<nat>)
    ensures |z| == n && forall i :: 0 <= i < n ==> z[i] == 0
  {
    seq(n, _ => 0)
  }

  /** The all-zero tuple, where the search starts, has rank 0. */
  lemma {:induction false} ZerosRank(sizes: seq<nat>)
    requires Positive(sizes)
    ensures IsTuple(Zeros(|sizes|), sizes) && Rank(Zeros(|sizes|), sizes) == 0
    decreases |sizes|
  {
    if |sizes| > 0 {
      var n := |sizes| - 1;
      ZerosRank(sizes[..n]);
      assert Zeros(|sizes|)[..n] == Zeros(n);
    }
  }

  /** The carry step of the odometer over the digits 0..k-1: increment digit
      k-1; when it overflows, reset it to zero and carry into the digit to its
      left. None means that the carry passed the first digit. */
  function CarryFrom(t: seq<nat>, sizes: seq<nat>, k: nat): Option<seq<nat>>
    requires |t| == |sizes| && k <= |t|
    decreases k
  {
    if k == 0 then None
    else if t[k - 1] + 1 < sizes[k - 1] then Some(t[k - 1 := t[k - 1] + 1])
    else CarryFrom(t[k - 1 := 0], sizes, k - 1)
  }

  /** The tuple after t, or None after the last one. */
  function Next(t: seq<nat>, sizes: seq<nat>): Option<seq<nat>>
    requires |t| == |sizes|
  {
    CarryFrom(t, sizes, |t|)
  }

  function AppendOpt(o: Option<seq<nat>>, v: seq<nat>): Option<seq<nat>> {
    match o
    case None => None
    case Some(w) => Some(w + v)
  }

  /** A carry among the first |u| digits does not touch the digits after them. */
  lemma {:induction false} CarryAppend(u: seq<nat>, v: seq<nat>, sizes: seq<nat>, k: nat)
    requires |u + v| == |sizes| && k <= |u|
    ensures CarryFrom(u + v, sizes, k) == AppendOpt(CarryFrom(u, sizes[..|u|], k), v)
    decreases k
  {
    if k > 0 {
      if u[k - 1] + 1 < sizes[k - 1] {
        assert (u + v)[k - 1 := u[k - 1] + 1] == u[k - 1 := u[k - 1] + 1] + v;
      } else {
        assert (u + v)[k - 1 := 0] == u[k - 1 := 0] + v;
        CarryAppend(u[k - 1 := 0], v, sizes, k - 1);
      }
    }
  }

  /** The odometer step adds one to the rank, and ends exactly after the last tuple. */
  lemma {:induction false} NextRank(t: seq<nat>, sizes: seq<nat>)
    requires Positive(sizes) && IsTuple(t, sizes)
    ensures Next(t, sizes).None? <==> Rank(t, sizes) + 1 == Product(sizes)
    ensures Next(t, sizes).Some? ==>
      IsTuple(Next(t, sizes).value, sizes) && Rank(Next(t, sizes).value, sizes) == Rank(t, sizes) + 1
    decreases |sizes|
  {
    if |sizes| > 0 {
      var n := |sizes| - 1;
      if t[n] + 1 < sizes[n] {
        NextRankLast(t, sizes);
      } else {
        NextRank(t[..n], sizes[..n]);
        NextRankCarry(t, sizes);
      }
    }
  }

  /** The step when the last digit does not overflow. */
  lemma NextRankLast(t: seq<nat>, sizes: seq<nat>)
    requires Positive(sizes) && IsTuple(t, sizes) && |sizes| > 0
    requires t[|sizes| - 1] + 1 < sizes[|sizes| - 1]
    ensures Next(t, sizes).Some? && IsTuple(Next(t, sizes).value, sizes)
    ensures Rank(Next(t, sizes).value, sizes) == Rank(t, sizes) + 1
    ensures Rank(t, sizes) + 1 < Product(sizes)
  {
    var n := |sizes| - 1;
    var u, d := t[..n], t[n];
    var w := t[n := d + 1];
    assert w[..n] == u;
    StepBound(Rank(u, sizes[..n]), d + 1, Product(sizes[..n]), sizes[n]);
  }

  /** The step when the last digit overflows: it resets to 0 and the carry
      moves on into the digits before it. */
  lemma NextRankCarry(t: seq<nat>, sizes: seq<nat>)
    requires Positive(sizes) && IsTuple(t, sizes) && |sizes| > 0
    requires t[|sizes| - 1] + 1 >= sizes[|sizes| - 1]
    requires var n := |sizes| - 1;
      (Next(t[..n], sizes[..n]).None? <==> Rank(t[..n], sizes[..n]) + 1 == Product(sizes[..n])) &&
      (Next(t[..n], sizes[..n]).Some? ==>
        IsTuple(Next(t[..n], sizes[..n]).value, sizes[..n]) &&
        Rank(Next(t[..n], sizes[..n]).value, sizes[..n]) == Rank(t[..n], sizes[..n]) + 1)
    ensures Next(t, sizes).None? <==> Rank(t, sizes) + 1 == Product(sizes)
    ensures Next(t, sizes).Some? ==>
      IsTuple(Next(t, sizes).value, sizes) && Rank(Next(t, sizes).value, sizes) == Rank(t, sizes) + 1
  {
    var n := |sizes| - 1;
    var init, m := sizes[..n], sizes[n];
    var u := t[..n];
    CarryNext(t, sizes);
    CarryRank(t, sizes);
    MulCancel(Rank(u, init) + 1, Product(init), m);
    if Next(u, init).Some? {
      RankLastZero(Next(u, init).value, sizes);
    }
  }

  /** A tuple whose last digit is the largest ranks just below a multiple of the last size. */
  lemma CarryRank(t: seq<nat>, sizes: seq<nat>)
    requires IsTuple(t, sizes) && |sizes| > 0 && t[|sizes| - 1] + 1 >= sizes[|sizes| - 1]
    ensures var n := |sizes| - 1;
      Rank(t, sizes) + 1 == (Rank(t[..n], sizes[..n]) + 1) * sizes[n] &&
      Product(sizes) == Product(sizes[..n]) * sizes[n]
  {
    var n := |sizes| - 1;
    assert t[n] + 1 == sizes[n];
    var q := Rank(t[..n], sizes[..n]);
    assert Rank(t, sizes) + 1 == q * sizes[n] + sizes[n];
  }

  lemma MulCancel(a: nat, b: nat, m: nat)
    requires m > 0
    ensures a * m == b * m <==> a == b
    ensures a < b ==> a * m < b * m
  {
    if a < b {
      MulLess(a, b, m);
    } else if b < a {
      MulLess(b, a, m);
    }
  }

  /** When the last digit overflows, the step is the step of the digits
      before it, with the last digit reset to 0. */
  lemma CarryNext(t: seq<nat>, sizes: seq<nat>)
    requires |t| == |sizes| > 0 && t[|sizes| - 1] + 1 >= sizes[|sizes| - 1]
    ensures Next(t, sizes) == AppendOpt(Next(t[..|sizes| - 1], sizes[..|sizes| - 1]), [0])
  {
    var n := |sizes| - 1;
    var u := t[..n];
    assert t[n := 0] == u + [0];
    CarryAppend(u, [0], sizes, n);
    assert sizes[..|u|] == sizes[..n];
  }

  lemma MulLess(a: nat, b: nat, m: nat)
    requires a < b && m > 0
    ensures a * m < b * m
  {
  }

  /** A tuple with a last digit 0 ranks at the rank of its other digits times the last size. */
  lemma RankLastZero(w: seq<nat>, sizes: seq<nat>)
    requires |sizes| > 0 && IsTuple(w, sizes[..|sizes| - 1]) && sizes[|sizes| - 1] > 0
    ensures IsTuple(w + [0], sizes)
    ensures Rank(w + [0], sizes) == Rank(w, sizes[..|sizes| - 1]) * sizes[|sizes| - 1]
  {
    var n := |sizes| - 1;
    assert (w + [0])[..n] == w;
  }

  /** The index tuple at a given rank: the odometer stepped r times from zero. */
  function Unrank(r: nat, sizes: seq<nat>): (t: seq<nat>)
    requires Positive(sizes) && r < Product(sizes)
    ensures IsTuple(t, sizes) && Rank(t, sizes) == r
    decreases r
  {
    if r == 0 then
      ZerosRank(sizes);
      Zeros(|sizes|)
    else
      var prev := Unrank(r - 1, sizes);
      NextRank(prev, sizes);
      Next(prev, sizes).value
  }

  /** Stepping the tuple at rank r gives the tuple at rank r + 1, or ends the
      search when r is the last rank. */
  lemma NextUnrank(r: nat, sizes: seq<nat>)
    requires Positive(sizes) && r < Product(sizes)
    ensures Next(Unrank(r, sizes), sizes) ==
      if r + 1 < Product(sizes) then Some(Unrank(r + 1, sizes)) else None
  {
    NextRank(Unrank(r, sizes), sizes);
  }

  /** Strict lexicographic order, index 0 most significant. */
  predicate LexLess(a: seq<nat>, b: seq<nat>) {
    exists i :: 0 <= i < |a| && i < |b| && a[..i] == b[..i] && a[i] < b[i]
  }

  /** Two different tuples of one length are ordered one way or the other. */
  lemma {:induction false} LexTrichotomy(a: seq<nat>, b: seq<nat>)
    requires |a| == |b| && a != b
    ensures LexLess(a, b) || LexLess(b, a)
    decreases |a|
  {
    if a[0] != b[0] {
      assert a[..0] == b[..0];
    } else {
      assert a == [a[0]] + a[1..] && b == [b[0]] + b[1..];
      LexTrichotomy(a[1..], b[1..]);
      if LexLess(a[1..], b[1..]) {
        var i :| 0 <= i < |a| - 1 && a[1..][..i] == b[1..][..i] && a[1..][i] < b[1..][i];
        assert a[..i + 1] == [a[0]] + a[1..][..i] && b[..i + 1] == [b[0]] + b[1..][..i];
        assert a[i + 1] < b[i + 1];
      } else {
        var i :| 0 <= i < |a| - 1 && b[1..][..i] == a[1..][..i] && b[1..][i] < a[1..][i];
        assert a[..i + 1] == [a[0]] + a[1..][..i] && b[..i + 1] == [b[0]] + b[1..][..i];
        assert b[i + 1] < a[i + 1];
      }
    }
  }

  /** The lexicographically smaller tuple has the smaller rank. */
  lemma {:induction false} LexRank(a: seq<nat>, b: seq<nat>, sizes: seq<nat>)
    requires IsTuple(a, sizes) && IsTuple(b, sizes) && LexLess(a, b)
    ensures Rank(a, sizes) < Rank(b, sizes)
    decreases |sizes|
  {
    var n := |sizes| - 1;
    var init, m := sizes[..n], sizes[n];
    var i :| 0 <= i < |a| && i < |b| && a[..i] == b[..i] && a[i] < b[i];
    if i == n {
      assert a[..n] == b[..n];
    } else {
      assert a[..n][..i] == a[..i] && b[..n][..i] == b[..i];
      assert LexLess(a[..n], b[..n]) by {
        assert a[..n][i] < b[..n][i];
      }
      LexRank(a[..n], b[..n], init);
      StepBound(Rank(a[..n], init), a[n], Rank(b[..n], init), m);
    }
  }

  /** Ranks order tuples exactly as the lexicographic order does. */
  lemma RankIsLex(a: seq<nat>, b: seq<nat>, sizes: seq<nat>)
    requires IsTuple(a, sizes) && IsTuple(b, sizes)
    ensures Rank(a, sizes) < Rank(b, sizes) <==> LexLess(a, b)
  {
    if LexLess(a, b) {
      LexRank(a, b, sizes);
    } else if a != b {
      LexTrichotomy(a, b);
      LexRank(b, a, sizes);
    }
  }

  /** Different tuples have different ranks. */
  lemma RankInjective(a: seq<nat>, b: seq<nat>, sizes: seq<nat>)
    requires IsTuple(a, sizes) && IsTuple(b, sizes) && Rank(a, sizes) == Rank(b, sizes)
    ensures a == b
  {
    if a != b {
      LexTrichotomy(a, b);
      RankIsLex(a, b, sizes);
      RankIsLex(b, a, sizes);
    }
  }

  /** Every tuple is visited: it is the tuple at its own rank. */
  lemma UnrankRank(t: seq<nat>, sizes: seq<nat>)
    requires Positive(sizes) && IsTuple(t, sizes)
    ensures Unrank(Rank(t, sizes), sizes) == t
  {
    RankInjective(Unrank(Rank(t, sizes), sizes), t, sizes);
  }

  /** The courses an index tuple picks, one per group. */
  function Pick<T>(groups: seq<seq<T>>, t: seq<nat>): (s: seq<T>)
    requires IsTuple(t, Sizes(groups))
    ensures |s| == |groups|
  {
    seq(|t|, i requires 0 <= i < |t| => groups[i][t[i]])
  }

  /** The picks of a list of tuples, in the same order. */
  function Picks<T>(groups: seq<seq<T>>, ts: seq<seq<nat>>): (r: seq<seq<T>>)
    requires forall k :: 0 <= k < |ts| ==> IsTuple(ts[k], Sizes(groups))
  {
    if |ts| == 0 then [] else Picks(groups, ts[..|ts| - 1]) + [Pick(groups, ts[|ts| - 1])]
  }

  lemma {:induction false} PicksAt<T>(groups: seq<seq<T>>, ts: seq<seq<nat>>, k: nat)
    requires forall k :: 0 <= k < |ts| ==> IsTuple(ts[k], Sizes(groups))
    requires k < |ts|
    ensures |Picks(groups, ts)| == |ts| && Picks(groups, ts)[k] == Pick(groups, ts[k])
    decreases |ts|
  {
    var n := |ts| - 1;
    if k < n {
      PicksAt(groups, ts[..n], k);
    } else {
      PicksLength(groups, ts[..n]);
    }
  }

  lemma {:induction false} PicksLength<T>(groups: seq<seq<T>>, ts: seq<seq<nat>>)
    requires forall k :: 0 <= k < |ts| ==> IsTuple(ts[k], Sizes(groups))
    ensures |Picks(groups, ts)| == |ts|
    decreases |ts|
  {
    if |ts| > 0 {
      PicksLength(groups, ts[..|ts| - 1]);
    }
  }

  /** The index tuples of rank below r, in odometer order, whose picks `keep` accepts. */
  function KeptTuples<T>(groups: seq<seq<T>>, keep: seq<T> -> bool, r: nat): (kt: seq<seq<nat>>)
    requires Positive(Sizes(groups)) && r <= Product(Sizes(groups))
    ensures forall k :: 0 <= k < |kt| ==> IsTuple(kt[k], Sizes(groups))
    ensures |kt| <= r
  {
    if r == 0 then []
    else
      var t := Unrank(r - 1, Sizes(groups));
      KeptTuples(groups, keep, r - 1) + (if keep(Pick(groups, t)) then [t] else [])
  }

  /** The picks of the kept tuples, built directly: the schedules a search
      that has tried the tuples of rank below r has yielded. */
  function KeptPicks<T>(groups: seq<seq<T>>, keep: seq<T> -> bool, r: nat): seq<seq<T>>
    requires Positive(Sizes(groups)) && r <= Product(Sizes(groups))
  {
    if r == 0 then []
    else
      var s := Pick(groups, Unrank(r - 1, Sizes(groups)));
      KeptPicks(groups, keep, r - 1) + (if keep(s) then [s] else [])
  }

  /** The directly built picks are the picks of the kept tuples. */
  lemma {:induction false} KeptPicksAreKeptTuples<T>(groups: seq<seq<T>>, keep: seq<T> -> bool, r: nat)
    requires Positive(Sizes(groups)) && r <= Product(Sizes(groups))
    ensures KeptPicks(groups, keep, r) == Picks(groups, KeptTuples(groups, keep, r))
    decreases r
  {
    if r > 0 {
      var prev := KeptTuples(groups, keep, r - 1);
      var t := Unrank(r - 1, Sizes(groups));
      var b := keep(Pick(groups, t));
      assert KeptTuples(groups, keep, r) == prev + (if b then [t] else []);
      KeptPicksAreKeptTuples(groups, keep, r - 1);
      PicksSnocIf(groups, prev, t, b);
    }
  }

  /** Every kept tuple has rank below r, and its pick is accepted. */
  lemma {:induction false} KeptTuplesSound<T>(groups: seq<seq<T>>, keep: seq<T> -> bool, r: nat, k: nat)
    requires Positive(Sizes(groups)) && r <= Product(Sizes(groups))
    requires k < |KeptTuples(groups, keep, r)|
    ensures Rank(KeptTuples(groups, keep, r)[k], Sizes(groups)) < r
    ensures keep(Pick(groups, KeptTuples(groups, keep, r)[k]))
    decreases r
  {
    var prev := KeptTuples(groups, keep, r - 1);
    if k < |prev| {
      KeptTuplesSound(groups, keep, r - 1, k);
    }
  }

  /** One more step of the search appends the pick of the tuple at rank r when it is kept. */
  lemma PicksKeptStep<T>(groups: seq<seq<T>>, keep: seq<T> -> bool, r: nat)
    requires Positive(Sizes(groups)) && r < Product(Sizes(groups))
    ensures Picks(groups, KeptTuples(groups, keep, r + 1)) ==
      Picks(groups, KeptTuples(groups, keep, r)) +
      (if keep(Pick(groups, Unrank(r, Sizes(groups)))) then [Pick(groups, Unrank(r, Sizes(groups)))] else [])
  {
    var t := Unrank(r, Sizes(groups));
    PicksSnocIf(groups, KeptTuples(groups, keep, r), t, keep(Pick(groups, t)));
  }

  /** Appending a tuple or nothing appends its pick or nothing. */
  lemma PicksSnocIf<T>(groups: seq<seq<T>>, ts: seq<seq<nat>>, t: seq<nat>, b: bool)
    requires forall k :: 0 <= k < |ts| ==> IsTuple(ts[k], Sizes(groups))
    requires IsTuple(t, Sizes(groups))
    ensures Picks(groups, ts + (if b then [t] else [])) == Picks(groups, ts) + (if b then [Pick(groups, t)] else [])
  {
    if b {
      assert (ts + [t])[..|ts|] == ts;
    } else {
      assert ts + [] == ts;
    }
  }

  /** A tuple is kept exactly when its rank is below r and its pick is accepted. */
  lemma {:induction false} KeptTuplesComplete<T>(groups: seq<seq<T>>, keep: seq<T> -> bool, r: nat, t: seq<nat>)
    requires Positive(Sizes(groups)) && r <= Product(Sizes(groups)) && IsTuple(t, Sizes(groups))
    ensures t in KeptTuples(groups, keep, r) <==> Rank(t, Sizes(groups)) < r && keep(Pick(groups, t))
    decreases r
  {
    if r > 0 {
      var sizes := Sizes(groups);
      var prev := KeptTuples(groups, keep, r - 1);
      var u := Unrank(r - 1, sizes);
      var last := if keep(Pick(groups, u)) then [u] else [];
      assert KeptTuples(groups, keep, r) == prev + last;
      KeptTuplesComplete(groups, keep, r - 1, t);
      if Rank(t, sizes) == r - 1 {
        UnrankRank(t, sizes);
        assert t == u;
      }
      assert t in prev + last <==> t in prev || t in last;
    }
  }

  /** A sequence is among the picks of all kept tuples exactly when it is
      the pick of some index tuple and `keep` accepts it. */
  lemma KeptPicksMembers<T>(groups: seq<seq<T>>, keep: seq<T> -> bool, s: seq<T>)
    requires Positive(Sizes(groups))
    ensures s in Picks(groups, KeptTuples(groups, keep, Product(Sizes(groups)))) <==>
      (exists t :: IsTuple(t, Sizes(groups)) && s == Pick(groups, t)) && keep(s)
  {
    var p := Product(Sizes(groups));
    if s in Picks(groups, KeptTuples(groups, keep, p)) {
      KeptPicksSound(groups, keep, s);
    }
    if (exists t :: IsTuple(t, Sizes(groups)) && s == Pick(groups, t)) && keep(s) {
      var t :| IsTuple(t, Sizes(groups)) && s == Pick(groups, t);
      KeptPicksComplete(groups, keep, t);
    }
  }

  lemma KeptPicksSound<T>(groups: seq<seq<T>>, keep: seq<T> -> bool, s: seq<T>)
    requires Positive(Sizes(groups))
    requires s in Picks(groups, KeptTuples(groups, keep, Product(Sizes(groups))))
    ensures exists t :: IsTuple(t, Sizes(groups)) && s == Pick(groups, t)
    ensures keep(s)
  {
    var p := Product(Sizes(groups));
    var kt := KeptTuples(groups, keep, p);
    PicksLength(groups, kt);
    var k :| 0 <= k < |kt| && Picks(groups, kt)[k] == s;
    PicksAt(groups, kt, k);
    KeptTuplesSound(groups, keep, p, k);
    assert IsTuple(kt[k], Sizes(groups)) && s == Pick(groups, kt[k]);
  }

  lemma KeptPicksComplete<T>(groups: seq<seq<T>>, keep: seq<T> -> bool, t: seq<nat>)
    requires Positive(Sizes(groups)) && IsTuple(t, Sizes(groups)) && keep(Pick(groups, t))
    ensures Pick(groups, t) in Picks(groups, KeptTuples(groups, keep, Product(Sizes(groups))))
  {
    var p := Product(Sizes(groups));
    var kt := KeptTuples(groups, keep, p);
    KeptTuplesComplete(groups, keep, p, t);
    var k :| 0 <= k < |kt| && kt[k] == t;
    PicksAt(groups, kt, k);
  }

  /** The kept tuples come in strictly increasing lexicographic order. */
  lemma {:induction false} KeptTuplesSorted<T>(groups: seq<seq<T>>, keep: seq<T> -> bool, r: nat, i: nat, j: nat)
    requires Positive(Sizes(groups)) && r <= Product(Sizes(groups))
    requires i < j < |KeptTuples(groups, keep, r)|
    ensures LexLess(KeptTuples(groups, keep, r)[i], KeptTuples(groups, keep, r)[j])
    decreases r
  {
    var sizes := Sizes(groups);
    var kt := KeptTuples(groups, keep, r);
    var prev := KeptTuples(groups, keep, r - 1);
    if j < |prev| {
      KeptTuplesSorted(groups, keep, r - 1, i, j);
    } else {
      assert kt[i] == prev[i];
      KeptTuplesSound(groups, keep, r - 1, i);
      RankIsLex(kt[i], kt[j], sizes);
    }
  }

  /** When the filter accepts the pick of every tuple, every tuple is kept. */
  lemma {:induction false} KeptTuplesAll<T>(groups: seq<seq<T>>, keep: seq<T> -> bool, r: nat)
    requires Positive(Sizes(groups)) && r <= Product(Sizes(groups))
    requires forall t :: IsTuple(t, Sizes(groups)) ==> keep(Pick(groups, t))
    ensures |KeptTuples(groups, keep, r)| == r
    decreases r
  {
    if r > 0 {
      KeptTuplesAll(groups, keep, r - 1);
    }
  }

  /** The odometer's advance step (the carry loop). Returns false exactly when
      the carry passes the first index, that is, when the search is over. */
  method Advance<T>(idx: array<nat>, groups: seq<seq<T>>) returns (more: bool)
    requires idx.Length == |groups|
    modifies idx
    ensures more == Next(old(idx[..]), Sizes(groups)).Some?
    ensures more ==> idx[..] == Next(old(idx[..]), Sizes(groups)).value
    ensures !more ==> idx[..] == Zeros(|groups|)
  {
    ghost var sizes := Sizes(groups);
    var k := idx.Length - 1;
    more := false;
    while k >= 0
      invariant -1 <= k < idx.Length
      invariant CarryFrom(idx[..], sizes, k + 1) == Next(old(idx[..]), sizes)
      invariant forall j :: k < j < idx.Length ==> idx[j] == 0
    {
      ghost var before := idx[..];
      idx[k] := idx[k] + 1;
      if idx[k] < |groups[k]| {
        assert idx[..] == before[k := before[k] + 1];
        more := true;
        break;
      }
      idx[k] := 0;
      assert idx[..] == before[k := 0];
      k := k - 1;
    }
    if !more {
      assert idx[..] == Zeros(|groups|);
    }
  }
}
