/**
 * LIMIT N BY and FINAL (internal/proxy/postgresql/translator.go, internal/proxy/clickhouse/translator.go).
 * The PostgreSQL side filters on ROW_NUMBER() OVER (PARTITION BY ...), a numbering without an
 * ORDER BY; the ClickHouse side strips both clauses. A result is given by the positions kept.
 */
module LimitBy {

  /** The number of rows of a partition. */
  function Size<R, K(==)>(t: seq<R>, by_: R -> K, k: K): nat
  {
    if t == [] then 0
    else Size(t[..|t| - 1], by_, k) + if by_(t[|t| - 1]) == k then 1 else 0
  }

  /** ROW_NUMBER(): distinct numbers from 1 to the size of the partition, in an order MySQL chooses. */
  predicate Numbering<R, K(==)>(t: seq<R>, by_: R -> K, num: seq<nat>)
    ensures Numbering(t, by_, num) ==> |num| == |t|
  {
    && |num| == |t|
    && (forall i :: 0 <= i < |t| ==> 1 <= num[i] <= Size(t, by_, by_(t[i])))
    && Injective(t, by_, num)
  }

  predicate Injective<R, K(==)>(t: seq<R>, by_: R -> K, num: seq<nat>)
    requires |num| == |t|
  {
    forall i, j :: 0 <= i < j < |t| && by_(t[i]) == by_(t[j]) ==> num[i] != num[j]
  }

  /** WHERE _rn <= n: the positions that pass. */
  function Filter(num: seq<nat>, n: nat): (kept: seq<nat>)
    ensures |kept| <= |num| && forall i :: 0 <= i < |kept| ==> kept[i] < |num|
    ensures forall p: nat :: p in kept <==> p < |num| && num[p] <= n
  {
    if num == [] then []
    else
      var m := |num| - 1;
      Filter(num[..m], n) + if num[m] <= n then [m] else []
  }

  /** The rows at some positions. */
  function Rows<R>(t: seq<R>, ps: seq<nat>): (rows: seq<R>)
    requires forall i :: 0 <= i < |ps| ==> ps[i] < |t|
    ensures |rows| == |ps| && forall i :: 0 <= i < |ps| ==> rows[i] == t[ps[i]]
  {
    seq(|ps|, i requires 0 <= i < |ps| => t[ps[i]])
  }

  /** ClickHouse: a row is kept unless n rows of its partition were kept before it. */
  function LimitNBy<R, K(==)>(t: seq<R>, by_: R -> K, n: nat): (kept: seq<nat>)
    ensures forall i :: 0 <= i < |kept| ==> kept[i] < |t|
  {
    if t == [] then []
    else
      var m := |t| - 1;
      var before := LimitNBy(t[..m], by_, n);
      before + if Size(Rows(t[..m], before), by_, by_(t[m])) < n then [m] else []
  }

  function All(n: nat): (ps: seq<nat>)
    ensures |ps| == n && forall i :: 0 <= i < n ==> ps[i] == i
  {
    seq(n, i => i)
  }

  // ---- What the filter keeps ----

  /** The rows of a partition numbered at most n. */
  function Count<R, K(==)>(t: seq<R>, by_: R -> K, num: seq<nat>, k: K, n: nat): nat
    requires |num| == |t|
  {
    if t == [] then 0
    else
      var m := |t| - 1;
      Count(t[..m], by_, num[..m], k, n) + if by_(t[m]) == k && num[m] <= n then 1 else 0
  }

  lemma {:induction false} NoneNumbered<R, K>(t: seq<R>, by_: R -> K, num: seq<nat>, k: K, n: nat)
    requires |num| == |t| && forall i :: 0 <= i < |t| && by_(t[i]) == k ==> num[i] != n + 1
    ensures Count(t, by_, num, k, n + 1) == Count(t, by_, num, k, n)
  {
    if t != [] {
      NoneNumbered(t[..|t| - 1], by_, num[..|t| - 1], k, n);
    }
  }

  lemma {:induction false} OneMore<R, K>(t: seq<R>, by_: R -> K, num: seq<nat>, k: K, n: nat)
    requires |num| == |t| && Injective(t, by_, num)
    ensures Count(t, by_, num, k, n) <= Count(t, by_, num, k, n + 1) <= Count(t, by_, num, k, n) + 1
  {
    if t != [] {
      var m := |t| - 1;
      if by_(t[m]) == k && num[m] == n + 1 {
        NoneNumbered(t[..m], by_, num[..m], k, n);
      } else {
        OneMore(t[..m], by_, num[..m], k, n);
      }
    }
  }

  lemma {:induction false} NoneBelowOne<R, K>(t: seq<R>, by_: R -> K, num: seq<nat>, k: K)
    requires |num| == |t| && forall i :: 0 <= i < |t| ==> 1 <= num[i]
    ensures Count(t, by_, num, k, 0) == 0
  {
    if t != [] {
      NoneBelowOne(t[..|t| - 1], by_, num[..|t| - 1], k);
    }
  }

  lemma {:induction false} AllWithin<R, K>(t: seq<R>, by_: R -> K, num: seq<nat>, k: K, n: nat)
    requires |num| == |t| && forall i :: 0 <= i < |t| && by_(t[i]) == k ==> num[i] <= n
    ensures Count(t, by_, num, k, n) == Size(t, by_, k)
  {
    if t != [] {
      AllWithin(t[..|t| - 1], by_, num[..|t| - 1], k, n);
    }
  }

  lemma {:induction false} Ascends<R, K>(t: seq<R>, by_: R -> K, num: seq<nat>, k: K, lo: nat, hi: nat)
    requires |num| == |t| && Injective(t, by_, num) && lo <= hi
    ensures Count(t, by_, num, k, lo) <= Count(t, by_, num, k, hi) <= Count(t, by_, num, k, lo) + (hi - lo)
    decreases hi - lo
  {
    if lo < hi {
      Ascends(t, by_, num, k, lo, hi - 1);
      OneMore(t, by_, num, k, hi - 1);
    }
  }

  /** Rows of the prefix are rows of the whole; the last row adds one to its partition. */
  lemma RowsGrow<R, K>(t: seq<R>, before: seq<nat>, by_: R -> K, k: K)
    requires t != [] && forall i :: 0 <= i < |before| ==> before[i] < |t| - 1
    ensures var m := |t| - 1;
      && Rows(t, before) == Rows(t[..m], before)
      && Size(Rows(t, before + [m]), by_, k) == Size(Rows(t[..m], before), by_, k) + if by_(t[m]) == k then 1 else 0
  {
    var m := |t| - 1;
    var rows := Rows(t, before + [m]);
    assert rows == Rows(t[..m], before) + [t[m]];
    assert rows[..|rows| - 1] == Rows(t[..m], before);
  }

  lemma {:induction false} FilterCounts<R, K>(t: seq<R>, by_: R -> K, num: seq<nat>, k: K, n: nat)
    requires |num| == |t|
    ensures Size(Rows(t, Filter(num, n)), by_, k) == Count(t, by_, num, k, n)
  {
    hide Size;
    if t != [] {
      var m := |t| - 1;
      FilterCounts(t[..m], by_, num[..m], k, n);
      RowsGrow(t, Filter(num[..m], n), by_, k);
      assert Filter(num[..m], n) + [] == Filter(num[..m], n);
    } else {
      SizeOfAbsent(t, by_, k);
    }
  }

  /** Any numbering keeps exactly min(n, size) rows of each partition. */
  lemma KeepsMinimum<R, K>(t: seq<R>, by_: R -> K, num: seq<nat>, n: nat, k: K)
    requires Numbering(t, by_, num)
    ensures Size(Rows(t, Filter(num, n)), by_, k) == if n < Size(t, by_, k) then n else Size(t, by_, k)
  {
    hide Count, Size, Injective;
    var size := Size(t, by_, k);
    var limit := if n < size then size else n;
    FilterCounts(t, by_, num, k, n);
    NoneBelowOne(t, by_, num, k);
    AllWithin(t, by_, num, k, size);
    AllWithin(t, by_, num, k, limit);
    Ascends(t, by_, num, k, 0, n);
    if n < size {
      Ascends(t, by_, num, k, n, size);
    }
  }

  // ---- Numbering in row order ----

  function RowNumbers<R, K(==)>(t: seq<R>, by_: R -> K): (num: seq<nat>)
    ensures |num| == |t|
  {
    if t == [] then []
    else RowNumbers(t[..|t| - 1], by_) + [Size(t, by_, by_(t[|t| - 1]))]
  }

  lemma {:induction false} RowNumbersAreNumbering<R, K>(t: seq<R>, by_: R -> K)
    ensures Numbering(t, by_, RowNumbers(t, by_))
  {
    if t != [] {
      RowNumbersAreNumbering(t[..|t| - 1], by_);
    }
  }

  lemma {:induction false} LimitKeepsMinimum<R, K>(t: seq<R>, by_: R -> K, n: nat, k: K)
    ensures Size(Rows(t, LimitNBy(t, by_, n)), by_, k) == if n < Size(t, by_, k) then n else Size(t, by_, k)
  {
    hide Rows;
    if t != [] {
      var m := |t| - 1;
      var before := LimitNBy(t[..m], by_, n);
      LimitKeepsMinimum(t[..m], by_, n, k);
      RowsGrow(t, before, by_, k);
      assert before + [] == before;
    }
  }

  /** Numbered in row order, the filter is LIMIT n BY. */
  lemma {:induction false} RowOrderIsLimitBy<R, K>(t: seq<R>, by_: R -> K, n: nat)
    ensures Filter(RowNumbers(t, by_), n) == LimitNBy(t, by_, n)
  {
    if t != [] {
      var m := |t| - 1;
      RowOrderIsLimitBy(t[..m], by_, n);
      LimitKeepsMinimum(t[..m], by_, n, by_(t[m]));
      assert RowNumbers(t, by_)[..m] == RowNumbers(t[..m], by_);
    }
  }

  // ---- Which numberings matter ----

  /** Every partition has at most n rows. */
  predicate SmallPartitions<R, K(==)>(t: seq<R>, by_: R -> K, n: nat)
  {
    forall i :: 0 <= i < |t| ==> Size(t, by_, by_(t[i])) <= n
  }

  lemma {:induction false} FilterTakesAll(num: seq<nat>, n: nat)
    requires forall i :: 0 <= i < |num| ==> num[i] <= n
    ensures Filter(num, n) == All(|num|)
  {
    if num != [] {
      var m := |num| - 1;
      FilterTakesAll(num[..m], n);
      assert All(m + 1) == All(m) + [m];
    }
  }

  lemma FilterAll(num: seq<nat>, n: nat)
    ensures Filter(num, n) == All(|num|) <==> forall i :: 0 <= i < |num| ==> num[i] <= n
  {
    if forall i :: 0 <= i < |num| ==> num[i] <= n {
      FilterTakesAll(num, n);
    } else {
      var i: nat :| i < |num| && num[i] > n;
      assert All(|num|)[i] == i;
    }
  }

  /** The last row of a partition gets its size. */
  lemma {:induction false} LastNumber<R, K>(t: seq<R>, by_: R -> K, i: nat) returns (j: nat)
    requires i < |t|
    ensures j < |t| && by_(t[j]) == by_(t[i]) && RowNumbers(t, by_)[j] == Size(t, by_, by_(t[i]))
  {
    var m := |t| - 1;
    if by_(t[m]) == by_(t[i]) {
      j := m;
    } else {
      j := LastNumber(t[..m], by_, i);
    }
  }

  /** Stripping LIMIT n BY keeps the result exactly when no partition has more than n rows. */
  lemma StrippingExactly<R, K>(t: seq<R>, by_: R -> K, n: nat)
    ensures LimitNBy(t, by_, n) == All(|t|) <==> SmallPartitions(t, by_, n)
  {
    hide LimitNBy, Size, Filter, RowNumbers;
    var num := RowNumbers(t, by_);
    RowOrderIsLimitBy(t, by_, n);
    RowNumbersAreNumbering(t, by_);
    FilterAll(num, n);
    if LimitNBy(t, by_, n) == All(|t|) {
      forall i | 0 <= i < |t|
        ensures Size(t, by_, by_(t[i])) <= n
      {
        var j := LastNumber(t, by_, i);
      }
    }
  }

  /** The rows of every partition numbered backwards. */
  function Backwards<R, K(==)>(t: seq<R>, by_: R -> K, num: seq<nat>): (back: seq<nat>)
    requires Numbering(t, by_, num)
    ensures |back| == |t|
    ensures forall i :: 0 <= i < |t| ==> back[i] == Size(t, by_, by_(t[i])) + 1 - num[i]
  {
    seq(|t|, i requires 0 <= i < |t| => Size(t, by_, by_(t[i])) + 1 - num[i])
  }

  lemma BackwardsIsNumbering<R, K>(t: seq<R>, by_: R -> K, num: seq<nat>)
    requires Numbering(t, by_, num)
    ensures Numbering(t, by_, Backwards(t, by_, num))
  {
    hide Size;
    var back := Backwards(t, by_, num);
    forall i, j | 0 <= i < j < |t| && by_(t[i]) == by_(t[j])
      ensures back[i] != back[j]
    {
      assert num[i] != num[j];
    }
  }

  ghost predicate AlwaysLimitBy<R, K>(t: seq<R>, by_: R -> K, n: nat)
  {
    forall num :: Numbering(t, by_, num) ==> Filter(num, n) == LimitNBy(t, by_, n)
  }

  /** A numbering under which the filter keeps other positions, when some partition is too large. */
  lemma OtherNumbering<R, K>(t: seq<R>, by_: R -> K, n: nat, i: nat) returns (num: seq<nat>)
    requires i < |t| && 1 <= n < Size(t, by_, by_(t[i]))
    ensures Numbering(t, by_, num) && Filter(num, n) != LimitNBy(t, by_, n)
  {
    hide Size, LimitNBy, RowNumbers;
    var forwards := RowNumbers(t, by_);
    RowNumbersAreNumbering(t, by_);
    RowOrderIsLimitBy(t, by_, n);
    var j := LastNumber(t, by_, i);
    num := Backwards(t, by_, forwards);
    BackwardsIsNumbering(t, by_, forwards);
    assert num[j] == 1;
    assert j in Filter(num, n) && j !in Filter(forwards, n);
  }

  /** The positions kept are those of LIMIT n BY, whatever numbering MySQL picks, exactly when there is nothing to pick. */
  lemma PositionsExactly<R, K>(t: seq<R>, by_: R -> K, n: nat)
    ensures AlwaysLimitBy(t, by_, n) <==> n == 0 || SmallPartitions(t, by_, n)
  {
    hide Filter, LimitNBy, Size;
    if n != 0 && !SmallPartitions(t, by_, n) {
      var i :| 0 <= i < |t| && Size(t, by_, by_(t[i])) > n;
      var num := OtherNumbering(t, by_, n, i);
    } else {
      forall num | Numbering(t, by_, num)
        ensures Filter(num, n) == LimitNBy(t, by_, n)
      {
        if n == 0 {
          RowNumbersAreNumbering(t, by_);
          NothingKept(num);
          NothingKept(RowNumbers(t, by_));
          RowOrderIsLimitBy(t, by_, 0);
        } else {
          FilterAll(num, n);
          StrippingExactly(t, by_, n);
        }
      }
    }
  }

  // ---- The rows a client gets ----

  /** Rows are told apart by themselves: the partition of a row is its copies. */
  function Itself<R>(r: R): R
  {
    r
  }

  /** The bag of rows kept. */
  ghost function Kept<R>(t: seq<R>, num: seq<nat>, n: nat): multiset<R>
    requires |num| == |t|
  {
    multiset(Rows(t, Filter(num, n)))
  }

  ghost predicate SameRowsAlways<R, K>(t: seq<R>, by_: R -> K, n: nat)
  {
    forall num :: Numbering(t, by_, num) ==> Kept(t, num, n) == multiset(Rows(t, LimitNBy(t, by_, n)))
  }

  /** All rows of the partition are equal. */
  ghost predicate Uniform<R, K>(t: seq<R>, by_: R -> K, k: K)
  {
    forall i, j :: 0 <= i < |t| && 0 <= j < |t| && by_(t[i]) == k && by_(t[j]) == k ==> t[i] == t[j]
  }

  /** Every partition with more than n rows has all its rows equal. */
  ghost predicate LargeAreUniform<R, K>(t: seq<R>, by_: R -> K, n: nat)
  {
    forall i :: 0 <= i < |t| && Size(t, by_, by_(t[i])) > n ==> Uniform(t, by_, by_(t[i]))
  }

  lemma {:induction false} SizeIsMultiplicity<R>(t: seq<R>, r: R)
    ensures multiset(t)[r] == Size(t, Itself, r)
  {
    if t != [] {
      var m := |t| - 1;
      SizeIsMultiplicity(t[..m], r);
      assert t == t[..m] + [t[m]];
    }
  }

  lemma KeptCount<R>(t: seq<R>, num: seq<nat>, n: nat, r: R)
    requires |num| == |t|
    ensures Kept(t, num, n)[r] == Count(t, Itself, num, r, n)
  {
    hide Count, Size, Rows, Filter;
    SizeIsMultiplicity(Rows(t, Filter(num, n)), r);
    FilterCounts(t, Itself, num, r, n);
  }

  lemma {:induction false} SameCount<R, K, L>(t: seq<R>, num: seq<nat>, by_: R -> K, k: K, other: R -> L, l: L, n: nat)
    requires |num| == |t| && forall i :: 0 <= i < |t| ==> (by_(t[i]) == k <==> other(t[i]) == l)
    ensures Count(t, by_, num, k, n) == Count(t, other, num, l, n)
  {
    if t != [] {
      var m := |t| - 1;
      SameCount(t[..m], num[..m], by_, k, other, l, n);
    }
  }

  /** How often a row is kept does not depend on the numbering. */
  lemma KeptAlike<R, K>(t: seq<R>, by_: R -> K, a: seq<nat>, b: seq<nat>, n: nat, r: R)
    requires Numbering(t, by_, a) && Numbering(t, by_, b) && LargeAreUniform(t, by_, n)
    ensures Kept(t, a, n)[r] == Kept(t, b, n)[r]
  {
    hide Count, Size, Kept, Numbering, Filter, Rows;
    KeptCount(t, a, n, r);
    KeptCount(t, b, n, r);
    var k := by_(r);
    if i: nat :| i < |t| && t[i] == r {
      if Size(t, by_, k) > n {
        assert Uniform(t, by_, k);
        forall j | 0 <= j < |t|
          ensures Itself(t[j]) == r <==> by_(t[j]) == k
        {
        }
        SameCount(t, a, Itself, r, by_, k, n);
        SameCount(t, b, Itself, r, by_, k, n);
        PartitionCount(t, by_, a, n, k);
        PartitionCount(t, by_, b, n, k);
      } else {
        NumbersWithin(t, by_, a, n, r);
        NumbersWithin(t, by_, b, n, r);
        AllWithin(t, Itself, a, r, n);
        AllWithin(t, Itself, b, r, n);
      }
    } else {
      AllWithin(t, Itself, a, r, n);
      AllWithin(t, Itself, b, r, n);
    }
  }

  lemma PartitionCount<R, K>(t: seq<R>, by_: R -> K, num: seq<nat>, n: nat, k: K)
    requires Numbering(t, by_, num)
    ensures Count(t, by_, num, k, n) == if n < Size(t, by_, k) then n else Size(t, by_, k)
  {
    hide Count, Size, Rows, Numbering;
    FilterCounts(t, by_, num, k, n);
    KeepsMinimum(t, by_, num, n, k);
  }

  lemma NumbersWithin<R, K>(t: seq<R>, by_: R -> K, num: seq<nat>, n: nat, r: R)
    requires Numbering(t, by_, num) && Size(t, by_, by_(r)) <= n
    ensures forall j :: 0 <= j < |t| && Itself(t[j]) == r ==> num[j] <= n
  {
    hide Size;
  }

  lemma {:induction false} CountUpdated<R, K>(t: seq<R>, by_: R -> K, num: seq<nat>, k: K, n: nat, i: nat, v: nat)
    requires i < |t| == |num|
    ensures Count(t, by_, num[i := v], k, n) + (if by_(t[i]) == k && num[i] <= n then 1 else 0)
         == Count(t, by_, num, k, n) + (if by_(t[i]) == k && v <= n then 1 else 0)
  {
    var m := |t| - 1;
    if i == m {
      assert num[i := v][..m] == num[..m];
    } else {
      CountUpdated(t[..m], by_, num[..m], k, n, i, v);
      assert num[i := v][..m] == num[..m][i := v];
    }
  }

  /** Two numbers of a partition exchanged. */
  function Exchanged(num: seq<nat>, a: nat, b: nat): seq<nat>
    requires a < |num| && b < |num|
  {
    num[a := num[b]][b := num[a]]
  }

  lemma ExchangedIsNumbering<R, K>(t: seq<R>, by_: R -> K, num: seq<nat>, a: nat, b: nat)
    requires Numbering(t, by_, num) && a < |t| && b < |t| && by_(t[a]) == by_(t[b])
    ensures Numbering(t, by_, Exchanged(num, a, b))
  {
    hide Size;
    var out := Exchanged(num, a, b);
    forall i, j | 0 <= i < j < |t| && by_(t[i]) == by_(t[j])
      ensures out[i] != out[j]
    {
      var p, q := if i == a then b else if i == b then a else i, if j == a then b else if j == b then a else j;
      assert out[i] == num[p] && out[j] == num[q] && p != q;
      assert if p < q then num[p] != num[q] else num[q] != num[p];
    }
  }

  /** A kept and an unkept row of one partition that differ: exchanging their numbers shows. */
  lemma ExchangeShows<R, K>(t: seq<R>, by_: R -> K, num: seq<nat>, n: nat, a: nat, b: nat)
    requires Numbering(t, by_, num) && a < |t| && b < |t| && by_(t[a]) == by_(t[b])
    requires num[a] <= n < num[b] && t[a] != t[b]
    ensures Numbering(t, by_, Exchanged(num, a, b)) && Kept(t, Exchanged(num, a, b), n) != Kept(t, num, n)
  {
    hide Count, Kept, Numbering;
    ExchangedIsNumbering(t, by_, num, a, b);
    var r := t[a];
    CountUpdated(t, Itself, num, r, n, a, num[b]);
    CountUpdated(t, Itself, num[a := num[b]], r, n, b, num[a]);
    KeptCount(t, num, n, r);
    KeptCount(t, Exchanged(num, a, b), n, r);
  }

  /** A large partition with two different rows holds a kept and an unkept one that differ. */
  lemma DifferentPair<R, K>(t: seq<R>, by_: R -> K, n: nat, i: nat) returns (a: nat, b: nat)
    requires n >= 1 && i < |t| && Size(t, by_, by_(t[i])) > n && !Uniform(t, by_, by_(t[i]))
    ensures var num := RowNumbers(t, by_);
      a < |t| && b < |t| && by_(t[a]) == by_(t[b]) && num[a] <= n < num[b] && t[a] != t[b]
  {
    hide Size, RowNumbers;
    var k, num := by_(t[i]), RowNumbers(t, by_);
    var first := FirstNumber(t, by_, i);
    var last := LastNumber(t, by_, i);
    var p, q :| 0 <= p < |t| && 0 <= q < |t| && by_(t[p]) == k && by_(t[q]) == k && t[p] != t[q];
    var x := if t[p] != t[first] then p else q;
    if num[x] > n {
      a, b := first, x;
    } else if t[last] != t[x] {
      a, b := x, last;
    } else {
      a, b := first, last;
    }
  }

  lemma {:induction false} FirstNumber<R, K>(t: seq<R>, by_: R -> K, i: nat) returns (j: nat)
    requires i < |t|
    ensures j < |t| && by_(t[j]) == by_(t[i]) && RowNumbers(t, by_)[j] == 1
  {
    var m := |t| - 1;
    if h: nat :| h < m && by_(t[h]) == by_(t[i]) {
      j := FirstNumber(t[..m], by_, h);
    } else {
      j := i;
      SizeOfAbsent(t[..m], by_, by_(t[i]));
    }
  }

  /**
   * The rewrite returns the rows of LIMIT n BY, as a bag and whatever numbering MySQL picks,
   * exactly when n is 0 or every partition with more than n rows has all its rows equal.
   */
  lemma RewriteExactly<R, K>(t: seq<R>, by_: R -> K, n: nat)
    ensures SameRowsAlways(t, by_, n) <==> n == 0 || LargeAreUniform(t, by_, n)
  {
    hide LimitNBy, Size, Kept, Numbering, Filter, Rows, Uniform;
    var num := RowNumbers(t, by_);
    RowNumbersAreNumbering(t, by_);
    RowOrderIsLimitBy(t, by_, n);
    KeptIs(t, num, n);
    if n == 0 {
      forall other | Numbering(t, by_, other)
        ensures Kept(t, other, 0) == Kept(t, num, 0)
      {
        NoneKept(t, by_, other);
        NoneKept(t, by_, num);
      }
    } else if LargeAreUniform(t, by_, n) {
      forall other | Numbering(t, by_, other)
        ensures Kept(t, other, n) == Kept(t, num, n)
      {
        var a, b := Kept(t, other, n), Kept(t, num, n);
        forall r | r in a || r in b
          ensures a[r] == b[r]
        {
          KeptAlike(t, by_, other, num, n, r);
        }
        SameBag(a, b);
      }
    } else {
      var i :| 0 <= i < |t| && Size(t, by_, by_(t[i])) > n && !Uniform(t, by_, by_(t[i]));
      var a, b := DifferentPair(t, by_, n, i);
      ExchangeShows(t, by_, num, n, a, b);
    }
  }

  lemma SameBag<R>(a: multiset<R>, b: multiset<R>)
    requires forall r :: r in a || r in b ==> a[r] == b[r]
    ensures a == b
  {
  }

  lemma KeptIs<R>(t: seq<R>, num: seq<nat>, n: nat)
    requires |num| == |t|
    ensures Kept(t, num, n) == multiset(Rows(t, Filter(num, n)))
  {
  }

  lemma NoneKept<R, K>(t: seq<R>, by_: R -> K, num: seq<nat>)
    requires Numbering(t, by_, num)
    ensures |num| == |t| && Kept(t, num, 0) == multiset{}
  {
    hide Size;
    NothingKept(num);
  }

  lemma {:induction false} NothingKept(num: seq<nat>)
    requires forall i :: 0 <= i < |num| ==> 1 <= num[i]
    ensures Filter(num, 0) == []
  {
    if num != [] {
      NothingKept(num[..|num| - 1]);
    }
  }

  // ---- Keys ----

  /** No two rows agree on the columns. */
  predicate IsKey<R, K(==)>(t: seq<R>, by_: R -> K)
  {
    forall i, j :: 0 <= i < j < |t| ==> by_(t[i]) != by_(t[j])
  }

  lemma {:induction false} SizeOfAbsent<R, K>(t: seq<R>, by_: R -> K, k: K)
    requires forall i :: 0 <= i < |t| ==> by_(t[i]) != k
    ensures Size(t, by_, k) == 0
  {
    if t != [] {
      SizeOfAbsent(t[..|t| - 1], by_, k);
    }
  }

  lemma {:induction false} SizeOfKey<R, K>(t: seq<R>, by_: R -> K, i: nat)
    requires IsKey(t, by_) && i < |t|
    ensures Size(t, by_, by_(t[i])) == 1
  {
    var m := |t| - 1;
    if i == m {
      SizeOfAbsent(t[..m], by_, by_(t[i]));
    } else {
      SizeOfKey(t[..m], by_, i);
    }
  }

  /**
   * When BY is a key and n is at least 1, the numbered filter, LIMIT n BY and stripping keep
   * every row, and the extra column _rn is 1 throughout.
   */
  lemma KeyKeepsAll<R, K>(t: seq<R>, by_: R -> K, num: seq<nat>, n: nat)
    requires IsKey(t, by_) && n >= 1 && Numbering(t, by_, num)
    ensures Filter(num, n) == LimitNBy(t, by_, n) == All(|t|)
    ensures Rows(t, Filter(num, n)) == t
    ensures forall i :: 0 <= i < |t| ==> num[i] == 1
  {
    hide Filter, LimitNBy, Size, IsKey;
    forall i | 0 <= i < |t|
      ensures Size(t, by_, by_(t[i])) == 1
    {
      SizeOfKey(t, by_, i);
    }
    StrippingExactly(t, by_, n);
    FilterAll(num, n);
  }

  /** Distinct rows are not enough for stripping: they may agree on the BY columns. */
  lemma DistinctRowsNotEnough()
    ensures var t := [(1, 1), (1, 2)];
      var id := (r: (int, int)) => r.0;
      t[0] != t[1] && LimitNBy(t, id, 1) != All(2)
  {
    var t := [(1, 1), (1, 2)];
    var id := (r: (int, int)) => r.0;
    SizeOfOne(t[0], id, 1);
    assert t[..1] == [t[0]];
    assert Size(t, id, id(t[0])) == 2;
    StrippingExactly(t, id, 1);
  }

  // ---- FINAL ----

  /** FINAL: of the rows that agree on the sorting key, the last one. */
  function Final<R, K(==)>(t: seq<R>, key: R -> K): seq<R>
  {
    if t == [] then []
    else (if Size(t[1..], key, key(t[0])) > 0 then [] else [t[0]]) + Final(t[1..], key)
  }

  lemma {:induction false} FinalShrinks<R, K>(t: seq<R>, key: R -> K)
    ensures |Final(t, key)| <= |t|
  {
    if t != [] { FinalShrinks(t[1..], key); }
  }

  lemma {:induction false} Present<R, K>(t: seq<R>, key: R -> K, k: K)
    ensures Size(t, key, k) > 0 <==> exists i :: 0 <= i < |t| && key(t[i]) == k
  {
    if t != [] {
      var m := |t| - 1;
      Present(t[..m], key, k);
      if Size(t[..m], key, k) > 0 {
        var i :| 0 <= i < m && key(t[..m][i]) == k;
        assert key(t[i]) == k;
      }
    }
  }

  /** FINAL keeps the last row of every key and no other. */
  lemma {:induction false} FinalKeepsLast<R, K>(t: seq<R>, key: R -> K, k: K)
    ensures Size(Final(t, key), key, k) == if Size(t, key, k) > 0 then 1 else 0
    ensures forall r :: r in Final(t, key) ==> r in t
  {
    if t != [] {
      FinalKeepsLast(t[1..], key, k);
      SizeSplits([t[0]], t[1..], key, k);
      assert t == [t[0]] + t[1..];
      SizeOfOne(t[0], key, k);
      SizeSplits([t[0]], Final(t[1..], key), key, k);
      assert [] + Final(t[1..], key) == Final(t[1..], key);
    }
  }

  predicate IsLast<R, K(==)>(t: seq<R>, key: R -> K, p: nat)
  {
    p < |t| && forall q :: p < q < |t| ==> key(t[q]) != key(t[p])
  }

  lemma LastOfTail<R, K>(t: seq<R>, key: R -> K, p: nat)
    requires t != []
    ensures IsLast(t, key, p + 1) <==> IsLast(t[1..], key, p)
  {
    if IsLast(t[1..], key, p) {
      forall q | p + 1 < q < |t|
        ensures key(t[q]) != key(t[p + 1])
      {
        assert t[1..][q - 1] == t[q];
      }
    }
  }

  /** The positions kept of a table from those kept of its tail. */
  function WithFirst(qs: seq<nat>, first: bool): seq<nat>
  {
    (if first then [0] else []) + Shifted(qs)
  }

  lemma LastPositions<R, K>(t: seq<R>, key: R -> K, qs: seq<nat>)
    requires t != [] && forall p: nat :: p in qs <==> IsLast(t[1..], key, p)
    ensures forall p: nat :: p in WithFirst(qs, IsLast(t, key, 0)) <==> IsLast(t, key, p)
  {
    hide IsLast;
    forall p: nat
      ensures p in WithFirst(qs, IsLast(t, key, 0)) <==> IsLast(t, key, p)
    {
      InShifted(qs, p);
      if p > 0 { LastOfTail(t, key, p - 1); }
    }
  }

  lemma RowsWithFirst<R>(t: seq<R>, qs: seq<nat>, first: bool)
    requires t != [] && forall i :: 0 <= i < |qs| ==> qs[i] < |t| - 1
    ensures (forall i :: 0 <= i < |WithFirst(qs, first)| ==> WithFirst(qs, first)[i] < |t|)
    ensures Rows(t, WithFirst(qs, first)) == (if first then [t[0]] else []) + Rows(t[1..], qs)
  {
  }

  /** FINAL keeps exactly the rows after which no row has the same sorting key, in table order. */
  lemma {:induction false} FinalIsLast<R, K>(t: seq<R>, key: R -> K) returns (ps: seq<nat>)
    ensures forall i, j :: 0 <= i < j < |ps| ==> ps[i] < ps[j]
    ensures forall p: nat :: p in ps <==> IsLast(t, key, p)
    ensures (forall i :: 0 <= i < |ps| ==> ps[i] < |t|) && Final(t, key) == Rows(t, ps)
  {
    hide Size, Rows, IsLast;
    if t == [] {
      ps := [];
      NothingIsLast(t, key);
    } else {
      var qs := FinalIsLast(t[1..], key);
      FirstIsLast(t, key);
      ps := WithFirst(qs, IsLast(t, key, 0));
      LastPositions(t, key, qs);
      RowsWithFirst(t, qs, IsLast(t, key, 0));
    }
  }

  lemma NothingIsLast<R, K>(t: seq<R>, key: R -> K)
    requires t == []
    ensures forall p: nat :: !IsLast(t, key, p)
  {
  }

  lemma FirstIsLast<R, K>(t: seq<R>, key: R -> K)
    requires t != []
    ensures IsLast(t, key, 0) <==> Size(t[1..], key, key(t[0])) == 0
  {
    hide Size;
    var rest := t[1..];
    Present(rest, key, key(t[0]));
    if Size(rest, key, key(t[0])) > 0 {
      var i :| 0 <= i < |rest| && key(rest[i]) == key(t[0]);
      assert t[i + 1] == rest[i];
    } else {
      forall q | 0 < q < |t|
        ensures key(t[q]) != key(t[0])
      {
        assert rest[q - 1] == t[q];
      }
    }
  }

  lemma InShifted(ps: seq<nat>, p: nat)
    ensures p in Shifted(ps) <==> p > 0 && p - 1 in ps
  {
    if p in Shifted(ps) {
      var i :| 0 <= i < |ps| && Shifted(ps)[i] == p;
    }
    if p > 0 && p - 1 in ps {
      var i :| 0 <= i < |ps| && ps[i] == p - 1;
      assert Shifted(ps)[i] == p;
    }
  }

  function Shifted(ps: seq<nat>): (up: seq<nat>)
    ensures |up| == |ps| && forall i :: 0 <= i < |ps| ==> up[i] == ps[i] + 1
  {
    seq(|ps|, i requires 0 <= i < |ps| => ps[i] + 1)
  }

  lemma SizeOfOne<R, K>(r: R, key: R -> K, k: K)
    ensures Size([r], key, k) == if key(r) == k then 1 else 0
  {
    assert [r][..0] == [];
  }

  lemma {:induction false} SizeSplits<R, K>(a: seq<R>, b: seq<R>, key: R -> K, k: K)
    ensures Size(a + b, key, k) == Size(a, key, k) + Size(b, key, k)
  {
    if b == [] {
      assert a + b == a;
    } else {
      SizeSplits(a, b[..|b| - 1], key, k);
      assert (a + b)[..|a + b| - 1] == a + b[..|b| - 1];
    }
  }

  /** Dropping FINAL keeps the result exactly when no two rows agree on the sorting key. */
  lemma {:induction false} FinalExactly<R, K>(t: seq<R>, key: R -> K)
    ensures Final(t, key) == t <==> IsKey(t, key)
  {
    hide Size;
    if t != [] {
      var rest := t[1..];
      FinalExactly(rest, key);
      FinalShrinks(rest, key);
      Present(rest, key, key(t[0]));
      assert t == [t[0]] + rest;
      if Size(rest, key, key(t[0])) > 0 {
        var i :| 0 <= i < |rest| && key(rest[i]) == key(t[0]);
        assert key(t[i + 1]) == key(t[0]);
      } else {
        assert IsKey(t, key) <==> IsKey(rest, key) by {
          if IsKey(rest, key) {
            forall i, j | 0 <= i < j < |t|
              ensures key(t[i]) != key(t[j])
            {
              assert key(rest[j - 1]) == key(t[j]);
              if i > 0 { assert key(rest[i - 1]) == key(t[i]); }
            }
          } else {
            var i, j :| 0 <= i < j < |rest| && key(rest[i]) == key(rest[j]);
            assert key(t[i + 1]) == key(t[j + 1]);
          }
        }
        assert ([t[0]] + Final(rest, key))[1..] == Final(rest, key);
      }
    }
  }
}
