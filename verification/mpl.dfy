/**
 The type-list and integer-sequence toolkit of boost.di (`aux_/mpl.hpp`).

 A `seq<unsigned...>` becomes a `seq<nat>`, a `type_list<Ts...>` a
 `seq<Ty>`, and each recursive template becomes a recursive function whose
 branches are the template's specialisations.
 */
module Mpl {
  import opened Types

  // ---------------------------------------------------------------------
  // Index sequences: concat and gen_seq
  // ---------------------------------------------------------------------

  /** `concat<seq<I1...>, seq<I2...>>`: the first sequence followed by the
      second one, each element of the second shifted by the first's length. */
  function Concat(s1: seq<nat>, s2: seq<nat>): (r: seq<nat>)
    ensures |r| == |s1| + |s2|
    ensures r[..|s1|] == s1
    ensures forall j :: 0 <= j < |s2| ==> r[|s1| + j] == |s1| + s2[j]
  {
    s1 + seq(|s2|, j requires 0 <= j < |s2| => |s1| + s2[j])
  }

  /** `gen_seq<N>`: built by halving, with `gen_seq<0>` empty and
      `gen_seq<1>` the one-element sequence `1`, so it counts from 1. */
  function GenSeq(n: nat): (r: seq<nat>)
    ensures |r| == n
    ensures forall i :: 0 <= i < n ==> r[i] == i + 1
    decreases n
  {
    if n == 0 then []
    else if n == 1 then [1]
    else Concat(GenSeq(n / 2), GenSeq(n - n / 2))
  }

  // ---------------------------------------------------------------------
  // Constructibility: is_constructible, gen_type, genn
  // ---------------------------------------------------------------------

  /** `std::is_constructible<T, TArgs...>::value`, decided by the C++ type
      system and taken here as an oracle. */
  type Constructibility = (Ty, seq<Ty>) -> bool

  /** `is_constructible<T, TArgs...>::type`: the argument list itself when `t`
      can be built from it, the empty list otherwise. */
  function IsConstructible(ok: Constructibility, t: Ty, args: seq<Ty>): seq<Ty>
  {
    if ok(t, args) then args else []
  }

  /** `type_<T, I>::type`: the index is ignored. */
  function TypeAt(t: Ty, index: nat): Ty
  {
    t
  }

  /** `gen_type<R, T, seq<I...>>`: one copy of `t` per index. */
  function GenType(ok: Constructibility, r: Ty, t: Ty, indices: seq<nat>): seq<Ty>
  {
    IsConstructible(ok, r, seq(|indices|, i requires 0 <= i < |indices| => TypeAt(t, indices[i])))
  }

  /** `n` copies of `t`. */
  function Repeat(t: Ty, n: nat): (ts: seq<Ty>)
  {
    seq(n, _ => t)
  }

  /** `genn<R, T, N>`: `N` copies of `T` when `R` is constructible from them,
      and the empty list otherwise. */
  function Genn(ok: Constructibility, r: Ty, t: Ty, n: nat): (ts: seq<Ty>)
    ensures ok(r, Repeat(t, n)) ==> ts == Repeat(t, n)
    ensures !ok(r, Repeat(t, n)) ==> ts == []
  {
    var indices := GenSeq(n);
    assert seq(|indices|, i requires 0 <= i < |indices| => TypeAt(t, indices[i])) == Repeat(t, n);
    GenType(ok, r, t, indices)
  }

  // ---------------------------------------------------------------------
  // size and longest
  // ---------------------------------------------------------------------

  /** `size<type_list<T...>>::value`: the element count converted to `bool`,
      that is, whether the list is non-empty. */
  function Size<T>(ts: seq<T>): bool
  {
    |ts| != 0
  }

  /** C++ `a > b` on two `bool`s: both are promoted to `int` first. */
  function BoolGreater(a: bool, b: bool): bool
  {
    (if a then 1 else 0) > (if b then 1 else 0)
  }

  /** What `size<R>::value > size<T>::value` means: `r` is non-empty and `t`
      is empty. Lengths beyond that are invisible, so a longer non-empty list
      never compares greater than a shorter non-empty one. */
  lemma SizeIsNonEmptyFlag<T>(r: seq<T>, t: seq<T>)
    ensures Size(r) <==> |r| > 0
    ensures BoolGreater(Size(r), Size(t)) <==> |r| > 0 && |t| == 0
    ensures |r| > |t| > 0 ==> !BoolGreater(Size(r), Size(t))
  {
  }

  /** `longest_impl<R, I, Ts...>`: `I` steps, each comparing the accumulator
      `r` with the next candidate and keeping `r` only when it compares
      strictly greater; after `I` steps the accumulator is returned and the
      remaining candidate is never looked at. */
  function LongestImpl<T>(r: seq<T>, i: nat, ts: seq<seq<T>>): seq<T>
    requires i < |ts|
    decreases i
  {
    if i == 0 then r
    else if BoolGreater(Size(r), Size(ts[0])) then LongestImpl(r, i - 1, ts[1..])
    else LongestImpl(ts[0], i - 1, ts[1..])
  }

  /** Reference definition: the last non-empty list of `cs`, or the empty
      list when every list is empty. */
  function LastNonEmpty<T>(cs: seq<seq<T>>): seq<T>
  {
    if |cs| == 0 then []
    else if cs[|cs| - 1] != [] then cs[|cs| - 1]
    else LastNonEmpty(cs[..|cs| - 1])
  }

  /** `LastNonEmpty` is empty exactly when every list is, and otherwise it is a
      list of `cs` after which only empty lists follow. */
  lemma {:induction false} LastNonEmptyIsLatest<T>(cs: seq<seq<T>>, k: nat)
    requires k < |cs|
    ensures LastNonEmpty(cs) == [] ==> cs[k] == []
    ensures cs[k] != [] && (forall m :: k < m < |cs| ==> cs[m] == []) ==> LastNonEmpty(cs) == cs[k]
    decreases |cs|
  {
    var n := |cs| - 1;
    if k < n && cs[n] == [] {
      LastNonEmptyIsLatest(cs[..n], k);
    }
  }

  /** With no non-empty list at all, `LastNonEmpty` is the empty list. */
  lemma {:induction false} LastNonEmptyOfEmpties<T>(cs: seq<seq<T>>)
    requires forall m :: 0 <= m < |cs| ==> cs[m] == []
    ensures LastNonEmpty(cs) == []
    decreases |cs|
  {
    if |cs| > 0 {
      LastNonEmptyOfEmpties(cs[..|cs| - 1]);
    }
  }

  lemma {:induction false} LastNonEmptyAppend<T>(xs: seq<seq<T>>, ys: seq<seq<T>>)
    ensures LastNonEmpty(xs + ys) == if LastNonEmpty(ys) != [] then LastNonEmpty(ys) else LastNonEmpty(xs)
    decreases |ys|
  {
    if |ys| == 0 {
      assert xs + ys == xs;
    } else {
      var n := |ys| - 1;
      assert (xs + ys)[..|xs + ys| - 1] == xs + ys[..n];
      assert (xs + ys)[|xs + ys| - 1] == ys[n];
      if ys[n] == [] {
        LastNonEmptyAppend(xs, ys[..n]);
      }
    }
  }

  /** `longest_impl` computes the last non-empty list among the accumulator
      and the `i` candidates it inspects. */
  lemma {:induction false} LongestImplIsLastNonEmpty<T>(r: seq<T>, i: nat, ts: seq<seq<T>>)
    requires i < |ts|
    ensures LongestImpl(r, i, ts) == LastNonEmpty([r] + ts[..i])
    decreases i
  {
    if i == 0 {
      assert [r] + ts[..0] == [r];
      assert [r][..0] == [];
    } else {
      var r' := if BoolGreater(Size(r), Size(ts[0])) then r else ts[0];
      LongestImplIsLastNonEmpty(r', i - 1, ts[1..]);
      var rest := ts[1..][..i - 1];
      assert [r] + ts[..i] == [r, ts[0]] + rest;
      assert [r'] + ts[1..][..i - 1] == [r'] + rest;
      LastNonEmptyAppend([r, ts[0]], rest);
      LastNonEmptyAppend([r'], rest);
      assert [r, ts[0]][..1] == [r];
      assert [r][..0] == [];
      assert [r'][..0] == [];
    }
  }

  /** `longest<Ts...>`: the accumulator starts as the empty list and only the
      first `n - 1` of the `n` candidates are compared. */
  function Longest<T>(cs: seq<seq<T>>): (r: seq<T>)
    requires |cs| >= 1
    ensures r == LastNonEmpty(cs[..|cs| - 1])
  {
    var none: seq<T> := [];
    LongestImplIsLastNonEmpty(none, |cs| - 1, cs);
    LastNonEmptyAppend([none], cs[..|cs| - 1]);
    assert [none][..0] == [];
    LongestImpl(none, |cs| - 1, cs)
  }

  /** A single candidate is never selected: the result is the empty list. */
  lemma LongestOfOne<T>(c: seq<T>)
    ensures Longest([c]) == []
  {
  }

  /** The last candidate has no influence on the result. */
  lemma LongestIgnoresLast<T>(cs: seq<seq<T>>, x: seq<T>, y: seq<T>)
    ensures Longest(cs + [x]) == Longest(cs + [y])
  {
    assert (cs + [x])[..|cs|] == cs;
    assert (cs + [y])[..|cs|] == cs;
  }

  /** Among the inspected candidates the latest non-empty one wins, so ties
      between non-empty candidates go to the later one; when none of them is
      non-empty the result is the empty list. */
  lemma LongestPicksLatestNonEmpty<T>(cs: seq<seq<T>>, k: nat)
    requires k < |cs| - 1
    ensures Longest(cs) == [] ==> cs[k] == []
    ensures cs[k] != [] && (forall m :: k < m < |cs| - 1 ==> cs[m] == []) ==> Longest(cs) == cs[k]
  {
    LastNonEmptyIsLatest(cs[..|cs| - 1], k);
  }

  /** When no inspected candidate is non-empty the result is the empty list. */
  lemma LongestOfEmpties<T>(cs: seq<seq<T>>)
    requires |cs| >= 1
    requires forall m :: 0 <= m < |cs| - 1 ==> cs[m] == []
    ensures Longest(cs) == []
  {
    LastNonEmptyOfEmpties(cs[..|cs| - 1]);
  }

  // ---------------------------------------------------------------------
  // greatest
  // ---------------------------------------------------------------------

  /** `pair<T, E>`, with `second` standing for `E::value`. */
  datatype Pair = Pair(first: Ty, second: int)

  /** Position `k` holds a pair with maximal `second`, and every earlier pair's
      `second` is strictly smaller. */
  ghost predicate IsFirstMax(ps: seq<Pair>, k: int)
  {
    && 0 <= k < |ps|
    && (forall j :: 0 <= j < |ps| ==> ps[j].second <= ps[k].second)
    && (forall j :: 0 <= j < k ==> ps[j].second < ps[k].second)
  }

  /** Reference definition: the position of the earliest pair with maximal
      `second`, found by scanning from the back. */
  function FirstMaxIndex(ps: seq<Pair>): (k: nat)
    requires |ps| >= 1
    ensures IsFirstMax(ps, k)
  {
    if |ps| == 1 then 0
    else
      var k := FirstMaxIndex(ps[..|ps| - 1]);
      if ps[|ps| - 1].second > ps[k].second then |ps| - 1 else k
  }

  /** `greatest_impl<R, I, Ts...>`: every one of the `i + 1` candidates is
      compared with the accumulator, which is replaced only by a strictly
      greater `second`. */
  function GreatestImpl(r: Pair, i: nat, ts: seq<Pair>): Ty
    requires i < |ts|
    decreases i
  {
    if i == 0 then (if ts[0].second > r.second then ts[0].first else r.first)
    else if ts[0].second > r.second then GreatestImpl(ts[0], i - 1, ts[1..])
    else GreatestImpl(r, i - 1, ts[1..])
  }

  /** `greatest_impl` returns the `first` of the earliest maximal pair among the
      accumulator and the candidates it inspects. */
  lemma {:induction false} GreatestImplChoosesFirstMax(r: Pair, i: nat, ts: seq<Pair>, k: nat)
    requires i < |ts|
    requires IsFirstMax([r] + ts[..i + 1], k)
    ensures GreatestImpl(r, i, ts) == ([r] + ts[..i + 1])[k].first
    decreases i
  {
    var c := [r] + ts[..i + 1];
    if i == 0 {
      assert c[0] == r && c[1] == ts[0];
    } else {
      var r' := if ts[0].second > r.second then ts[0] else r;
      var c' := [r'] + ts[1..][..i];
      assert c[0] == r && c[1] == ts[0];
      assert forall j :: 1 <= j < |c'| ==> c'[j] == c[j + 1];
      var k' := if k < 2 then 0 else k - 1;
      assert c'[k'] == c[k];
      assert IsFirstMax(c', k') by {
        forall j | 0 <= j < |c'|
          ensures c'[j].second <= c'[k'].second
        {
          if j >= 1 {
            assert c[j + 1].second <= c[k].second;
          } else {
            assert c[0].second <= c[k].second && c[1].second <= c[k].second;
          }
        }
        forall j | 0 <= j < k'
          ensures c'[j].second < c'[k'].second
        {
          if j >= 1 {
            assert c[j + 1].second < c[k].second;
          } else {
            assert c[0].second < c[k].second && c[1].second < c[k].second;
          }
        }
      }
      GreatestImplChoosesFirstMax(r', i - 1, ts[1..], k');
    }
  }

  /** `greatest<T, Ts...>`: the `first` of the earliest pair whose `second` is
      maximal; a single pair yields its own `first`. */
  function Greatest(ps: seq<Pair>): (r: Ty)
    requires |ps| >= 1
    ensures r == ps[FirstMaxIndex(ps)].first
  {
    if |ps| == 1 then ps[0].first
    else
      assert [ps[0]] + ps[1..][..|ps| - 1] == ps;
      GreatestImplChoosesFirstMax(ps[0], |ps| - 2, ps[1..], FirstMaxIndex(ps));
      GreatestImpl(ps[0], |ps| - 2, ps[1..])
  }

  /** Any earliest maximal position determines `Greatest`. */
  lemma GreatestIsFirstMax(ps: seq<Pair>, k: nat)
    requires IsFirstMax(ps, k)
    ensures Greatest(ps) == ps[k].first
  {
    var k' := FirstMaxIndex(ps);
    assert ps[k'].second == ps[k].second;
  }

  // ---------------------------------------------------------------------
  // max
  // ---------------------------------------------------------------------

  /** An integral constant type: its identity and its `::value`. */
  datatype Constant = Constant(ty: Ty, value: int)

  /** Position `k` holds a maximal value, and every later value is strictly
      smaller. */
  ghost predicate IsLastMax(xs: seq<Constant>, k: int)
  {
    && 0 <= k < |xs|
    && (forall j :: 0 <= j < |xs| ==> xs[j].value <= xs[k].value)
    && (forall j :: k < j < |xs| ==> xs[j].value < xs[k].value)
  }

  /** Reference definition: the position of the latest maximal value, found by
      scanning from the back. */
  function LastMaxIndex(xs: seq<Constant>): (k: nat)
    requires |xs| >= 1
    ensures IsLastMax(xs, k)
  {
    if |xs| == 1 then 0
    else
      var k := LastMaxIndex(xs[..|xs| - 1]);
      if xs[k].value > xs[|xs| - 1].value then k else |xs| - 1
  }

  /** `max_impl<R, I, Ts...>`: the accumulator survives a comparison only when
      strictly greater, so on equal values the later input replaces it. */
  function MaxImpl(r: Constant, i: nat, ts: seq<Constant>): Constant
    requires i < |ts|
    decreases i
  {
    if i == 0 then (if r.value > ts[0].value then r else ts[0])
    else if r.value > ts[0].value then MaxImpl(r, i - 1, ts[1..])
    else MaxImpl(ts[0], i - 1, ts[1..])
  }

  /** `max_impl` returns the latest maximal constant among the accumulator and
      the candidates it inspects. */
  lemma {:induction false} MaxImplChoosesLastMax(r: Constant, i: nat, ts: seq<Constant>, k: nat)
    requires i < |ts|
    requires IsLastMax([r] + ts[..i + 1], k)
    ensures MaxImpl(r, i, ts) == ([r] + ts[..i + 1])[k]
    decreases i
  {
    var c := [r] + ts[..i + 1];
    if i == 0 {
      assert c[0] == r && c[1] == ts[0];
    } else {
      var r' := if r.value > ts[0].value then r else ts[0];
      var c' := [r'] + ts[1..][..i];
      assert c[0] == r && c[1] == ts[0];
      assert forall j :: 1 <= j < |c'| ==> c'[j] == c[j + 1];
      var k' := if k < 2 then 0 else k - 1;
      assert c'[k'] == c[k];
      assert IsLastMax(c', k') by {
        forall j | 0 <= j < |c'|
          ensures c'[j].value <= c'[k'].value
        {
          if j >= 1 {
            assert c[j + 1].value <= c[k].value;
          } else {
            assert c[0].value <= c[k].value && c[1].value <= c[k].value;
          }
        }
        forall j | k' < j < |c'|
          ensures c'[j].value < c'[k'].value
        {
          assert c[j + 1].value < c[k].value;
        }
      }
      MaxImplChoosesLastMax(r', i - 1, ts[1..], k');
    }
  }

  /** `max<T, Ts...>` over at least two constants: the latest input whose value
      is maximal. */
  function Max(xs: seq<Constant>): (r: Constant)
    requires |xs| >= 2
    ensures r == xs[LastMaxIndex(xs)]
  {
    assert [xs[0]] + xs[1..][..|xs| - 1] == xs;
    MaxImplChoosesLastMax(xs[0], |xs| - 2, xs[1..], LastMaxIndex(xs));
    MaxImpl(xs[0], |xs| - 2, xs[1..])
  }

  /** The result is one of the inputs, bounds every input from above, and any
      latest maximal position determines it. */
  lemma MaxIsUpperBound(xs: seq<Constant>, k: nat)
    requires |xs| >= 2
    ensures Max(xs) in xs
    ensures forall j :: 0 <= j < |xs| ==> xs[j].value <= Max(xs).value
    ensures IsLastMax(xs, k) ==> Max(xs) == xs[k]
  {
    var k' := LastMaxIndex(xs);
    assert IsLastMax(xs, k) ==> xs[k'].value == xs[k].value;
  }

  // ---------------------------------------------------------------------
  // sum
  // ---------------------------------------------------------------------

  /** `sum<F, Ts...>`: despite its name, the product of `F * T` over the list,
      with 1 for the empty list. */
  function Sum(factor: int, ts: seq<int>): int
  {
    if |ts| == 0 then 1
    else factor * ts[0] * Sum(factor, ts[1..])
  }

  function Power(b: int, n: nat): int
  {
    if n == 0 then 1 else b * Power(b, n - 1)
  }

  function Product(ts: seq<int>): int
  {
    if |ts| == 0 then 1 else ts[0] * Product(ts[1..])
  }

  /** `sum<F, T1, ..., Tn>` equals `F^n * T1 * ... * Tn`. */
  lemma {:induction false} SumIsScaledProduct(factor: int, ts: seq<int>)
    ensures Sum(factor, ts) == Power(factor, |ts|) * Product(ts)
    decreases |ts|
  {
    if |ts| > 0 {
      SumIsScaledProduct(factor, ts[1..]);
      Rearrange(factor, ts[0], Power(factor, |ts| - 1), Product(ts[1..]));
    }
  }

  /** Regrouping of a product of four factors. */
  lemma Rearrange(a: int, b: int, c: int, d: int)
    ensures a * b * (c * d) == (a * c) * (b * d)
  {
  }

  // ---------------------------------------------------------------------
  // join
  // ---------------------------------------------------------------------

  /** `join<Ls...>`: no list gives the empty list, one list gives itself, two
      lists their concatenation, and more lists are joined by merging the
      first two and recursing. */
  function Join<T>(ls: seq<seq<T>>): seq<T>
    decreases |ls|
  {
    if |ls| == 0 then []
    else if |ls| == 1 then ls[0]
    else if |ls| == 2 then ls[0] + ls[1]
    else Join([ls[0] + ls[1]] + ls[2..])
  }

  /** Reference definition: the lists concatenated from left to right. */
  function Flatten<T>(ls: seq<seq<T>>): seq<T>
  {
    if |ls| == 0 then [] else ls[0] + Flatten(ls[1..])
  }

  /** `join` is the in-order concatenation of all its argument lists. */
  lemma {:induction false} JoinIsFlatten<T>(ls: seq<seq<T>>)
    ensures Join(ls) == Flatten(ls)
    ensures |ls| == 0 ==> Join(ls) == []
    ensures |ls| == 1 ==> Join(ls) == ls[0]
    decreases |ls|
  {
    if |ls| == 0 {
    } else if |ls| == 1 {
      assert Flatten(ls[1..]) == [];
      assert ls[0] + [] == ls[0];
    } else if |ls| == 2 {
      assert Flatten(ls[1..]) == ls[1] + Flatten(ls[2..]);
      assert Flatten(ls[2..]) == [];
      assert ls[1] + [] == ls[1];
    } else {
      var merged := [ls[0] + ls[1]] + ls[2..];
      JoinIsFlatten(merged);
      assert merged[1..] == ls[2..];
      assert ls[1..][1..] == ls[2..];
      calc {
        Join(ls);
        Flatten(merged);
        (ls[0] + ls[1]) + Flatten(ls[2..]);
        ls[0] + (ls[1] + Flatten(ls[2..]));
        ls[0] + Flatten(ls[1..]);
        Flatten(ls);
      }
    }
  }

  // ---------------------------------------------------------------------
  // contains
  // ---------------------------------------------------------------------

  /** `contains_impl<B, Bs...>`: the disjunction of a non-empty list of flags. */
  function ContainsImpl(bs: seq<bool>): (r: bool)
    requires |bs| >= 1
    ensures r <==> exists i :: 0 <= i < |bs| && bs[i]
  {
    if |bs| == 1 then bs[0]
    else
      assert forall i :: 1 <= i < |bs| ==> bs[i] == bs[1..][i - 1];
      bs[0] || ContainsImpl(bs[1..])
  }

  /** `contains<type_list<Ts...>, T>`: `std::is_same<T, Ts>` for every element,
      folded by `contains_impl`; the empty list contains nothing. */
  function Contains(l: seq<Ty>, t: Ty): (r: bool)
    ensures r <==> t in l
  {
    if |l| == 0 then false
    else
      var same := seq(|l|, i requires 0 <= i < |l| => t == l[i]);
      assert t in l ==> exists i :: 0 <= i < |l| && l[i] == t && same[i];
      ContainsImpl(same)
  }
}
