/**
 * The list of cell sizes offered for a grid: every whole number from 1 up to the grid's width
 * that divides both the width and the depth exactly.
 */
module Divisors {
  import opened Geometry
  import opened Decimal
  import opened Selection

  predicate IsInteger(r: real) {
    r.Floor as real == r
  }

  /**
   * The floating-point test `v % i == 0`. A remainder by zero is NaN and equals nothing, so `i`
   * must be non-zero; otherwise the remainder is zero exactly when `v / i` is a whole number.
   */
  predicate RemIsZero(v: real, i: int) {
    i != 0 && IsInteger(v / i as real)
  }

  predicate IsCommonDivisor(gs: Vec2, i: int) {
    RemIsZero(gs.x, i) && RemIsZero(gs.y, i)
  }

  /** The common divisors of the grid's width and depth among 1..n, in ascending order. */
  function CommonDivisorsUpTo(gs: Vec2, n: int): seq<nat>
    decreases n
  {
    if n <= 0 then []
    else CommonDivisorsUpTo(gs, n - 1) + (if IsCommonDivisor(gs, n) then [n] else [])
  }

  /**
   * The loop `for (int i = 0; i <= GridSize.x; i++)`: `i <= x` for a whole `i` is `i <= floor(x)`,
   * and `i = 0` adds nothing because a remainder by zero is NaN, which `RemIsZero` rejects.
   */
  function DivisorSizes(gs: Vec2): seq<nat> {
    CommonDivisorsUpTo(gs, gs.x.Floor)
  }

  lemma {:induction false} CommonDivisorsUpToMembers(gs: Vec2, n: int, i: int)
    ensures i in CommonDivisorsUpTo(gs, n) <==> 1 <= i <= n && IsCommonDivisor(gs, i)
  {
    if n > 0 {
      CommonDivisorsUpToMembers(gs, n - 1, i);
    }
  }

  predicate StrictlyAscending(s: seq<int>) {
    forall j, k :: 0 <= j < k < |s| ==> s[j] < s[k]
  }

  lemma {:induction false} CommonDivisorsUpToAscending(gs: Vec2, n: int)
    ensures StrictlyAscending(CommonDivisorsUpTo(gs, n))
  {
    if n > 0 {
      var s0 := CommonDivisorsUpTo(gs, n - 1);
      CommonDivisorsUpToAscending(gs, n - 1);
      forall j | 0 <= j < |s0|
        ensures s0[j] < n
      {
        CommonDivisorsUpToMembers(gs, n - 1, s0[j]);
      }
      var s := CommonDivisorsUpTo(gs, n);
      assert s == s0 + (if IsCommonDivisor(gs, n) then [n] else []);
      forall j, k | 0 <= j < k < |s|
        ensures s[j] < s[k]
      {
        if k < |s0| {
          assert s[j] == s0[j] && s[k] == s0[k];
        } else {
          assert s[j] == s0[j] && s[k] == n;
        }
      }
    }
  }

  /** A size is offered exactly when it is a whole number from 1 to the width dividing both sides. */
  lemma DivisorSizesMembers(gs: Vec2, i: int)
    ensures i in DivisorSizes(gs) <==> 1 <= i && i as real <= gs.x && IsCommonDivisor(gs, i)
  {
    CommonDivisorsUpToMembers(gs, gs.x.Floor, i);
  }

  /** The sizes are offered in strictly ascending order, so none is offered twice. */
  lemma DivisorSizesAscending(gs: Vec2)
    ensures StrictlyAscending(DivisorSizes(gs))
  {
    assert DivisorSizes(gs) == CommonDivisorsUpTo(gs, gs.x.Floor);
    CommonDivisorsUpToAscending(gs, gs.x.Floor);
  }

  lemma CastProduct(a: int, b: int)
    ensures (a * b) as real == a as real * b as real
  {
  }

  lemma ProductRemainder(q: int, i: int)
    requires i >= 1
    ensures (q * i) % i == 0
  {
    var a := q * i;
    var d := q - a / i;
    assert a == i * (a / i) + a % i;
    assert i * d == a % i;
  }

  lemma QuotientOfProduct(m: int, i: int)
    requires i >= 1
    ensures (m * i) as real / i as real == m as real
  {
    CastProduct(m, i);
  }

  lemma WholeQuotient(w: int, i: int)
    requires i >= 1
    ensures IsInteger(w as real / i as real) <==> w % i == 0
  {
    if w % i == 0 {
      assert w == (w / i) * i;
      QuotientOfProduct(w / i, i);
    }
    if IsInteger(w as real / i as real) {
      var q := (w as real / i as real).Floor;
      assert q as real * i as real == w as real;
      CastProduct(q, i);
      assert q * i == w;
      ProductRemainder(q, i);
    }
  }

  /** For a grid of whole dimensions the floating-point test is ordinary integer divisibility. */
  lemma IntegerGridDivisors(w: int, d: int, i: int)
    requires i >= 1
    ensures IsCommonDivisor(Vec2(w as real, d as real), i) <==> w % i == 0 && d % i == 0
  {
    WholeQuotient(w, i);
    WholeQuotient(d, i);
  }

  /** A 12 by 18 grid offers the sizes 1, 2, 3 and 6. */
  lemma DivisorSizesTwelveByEighteen()
    ensures DivisorSizes(Vec2(12.0, 18.0)) == [1, 2, 3, 6]
  {
    var g := Vec2(12.0, 18.0);
    forall k | 1 <= k <= 12
      ensures IsCommonDivisor(g, k) <==> k == 1 || k == 2 || k == 3 || k == 6
    {
      IntegerGridDivisors(12, 18, k);
    }
    assert CommonDivisorsUpTo(g, 1) == [1];
    assert CommonDivisorsUpTo(g, 2) == [1, 2];
    assert CommonDivisorsUpTo(g, 3) == [1, 2, 3];
    assert CommonDivisorsUpTo(g, 4) == [1, 2, 3];
    assert CommonDivisorsUpTo(g, 5) == [1, 2, 3];
    assert CommonDivisorsUpTo(g, 6) == [1, 2, 3, 6];
    assert CommonDivisorsUpTo(g, 7) == [1, 2, 3, 6];
    assert CommonDivisorsUpTo(g, 8) == [1, 2, 3, 6];
    assert CommonDivisorsUpTo(g, 9) == [1, 2, 3, 6];
    assert CommonDivisorsUpTo(g, 10) == [1, 2, 3, 6];
    assert CommonDivisorsUpTo(g, 11) == [1, 2, 3, 6];
  }

  /** Coprime sides offer only the size 1. */
  lemma DivisorSizesSevenByEleven()
    ensures DivisorSizes(Vec2(7.0, 11.0)) == [1]
  {
    var g := Vec2(7.0, 11.0);
    forall k | 1 <= k <= 7
      ensures IsCommonDivisor(g, k) <==> k == 1
    {
      IntegerGridDivisors(7, 11, k);
    }
    assert CommonDivisorsUpTo(g, 1) == [1];
    assert CommonDivisorsUpTo(g, 2) == [1];
    assert CommonDivisorsUpTo(g, 3) == [1];
    assert CommonDivisorsUpTo(g, 4) == [1];
    assert CommonDivisorsUpTo(g, 5) == [1];
    assert CommonDivisorsUpTo(g, 6) == [1];
  }

  /** A grid of width zero offers no size at all. */
  lemma DivisorSizesZeroWidth(d: real)
    ensures DivisorSizes(Vec2(0.0, d)) == []
  {
  }

  /** The entry `new FixedCellSizes(i.ToString(), i)`: named by the decimal digits of its size. */
  function SizeOptionFor(i: nat): (r: SizeOption)
    ensures AllDigits(r.name) && DecimalValue(r.name) == i
    ensures r.size == i as real && !r.enabled
  {
    DecimalRoundTrip(i);
    SizeOption(NatToString(i), i as real, false)
  }

  function OptionsFor(ds: seq<nat>): (r: seq<SizeOption>)
    ensures |r| == |ds|
    ensures forall k :: 0 <= k < |r| ==> r[k] == SizeOptionFor(ds[k])
  {
    seq(|ds|, k requires 0 <= k < |ds| => SizeOptionFor(ds[k]))
  }

  lemma OptionsForAppend(ds: seq<nat>, extra: seq<nat>)
    ensures OptionsFor(ds + extra) == OptionsFor(ds) + OptionsFor(extra)
  {
    assert forall k :: 0 <= k < |extra| ==> (ds + extra)[|ds| + k] == extra[k];
  }

  /** The freshly rebuilt size list for a grid. */
  function SizeOptions(gs: Vec2): seq<SizeOption> {
    OptionsFor(DivisorSizes(gs))
  }

  /**
   * A rebuilt list holds one disabled entry per common divisor, in ascending order of size, with
   * non-empty, pairwise distinct names and positive sizes that tile both sides exactly.
   */
  lemma SizeOptionsWellFormed(gs: Vec2)
    ensures var r := SizeOptions(gs);
      forall k :: 0 <= k < |r| ==> r[k].name != "" && !r[k].enabled && r[k].size >= 1.0
    ensures var r := SizeOptions(gs);
      forall k :: 0 <= k < |r| ==> r[k].size <= gs.x && IsCommonDivisor(gs, r[k].size.Floor)
    ensures var r := SizeOptions(gs);
      forall j, k :: 0 <= j < k < |r| ==> r[j].size < r[k].size && r[j].name != r[k].name
  {
    var ds := DivisorSizes(gs);
    var r := SizeOptions(gs);
    DivisorSizesAscending(gs);
    forall k | 0 <= k < |r|
      ensures r[k].name != "" && r[k].size >= 1.0
      ensures r[k].size <= gs.x && IsCommonDivisor(gs, r[k].size.Floor)
    {
      DivisorSizesMembers(gs, ds[k]);
    }
    forall j, k | 0 <= j < k < |r|
      ensures r[j].name != r[k].name
    {
      if r[j].name == r[k].name {
        NatToStringInjective(ds[j], ds[k]);
      }
    }
  }
}
