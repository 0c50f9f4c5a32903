/** Failure-compatible wrappers and the few list operations the engine is
    built from: LINQ's Where / FirstOrDefault / GroupBy-duplicates, and
    .NET's string.IsNullOrWhiteSpace. */
module Seqs {

  datatype Option<+T> = None | Some(value: T)

  /** A value or an error; usable with `:-` like the engine's exceptions. */
  datatype Result<+T, +E> = Ok(value: T) | Err(error: E) {
    predicate IsFailure() { Err? }
    function PropagateFailure<U>(): Result<U, E> requires Err? { Err(error) }
    function Extract(): T requires Ok? { value }
  }

  /** The outcome of a check that either passes or reports its first violation. */
  datatype Outcome<+E> = Pass | Fail(error: E)

  /** Pairwise distinct elements. */
  predicate Distinct<T(==)>(xs: seq<T>) {
    forall i, j :: 0 <= i < j < |xs| ==> xs[i] != xs[j]
  }

  /** Prepending a new element keeps a list repetition-free. */
  lemma DistinctCons<T>(x: T, xs: seq<T>)
    requires x !in xs && Distinct(xs)
    ensures Distinct([x] + xs)
  {
    forall i, j | 0 <= i < j < |[x] + xs| ensures ([x] + xs)[i] != ([x] + xs)[j] {
      assert ([x] + xs)[j] == xs[j - 1];
    }
  }

  /** LINQ `Where`: the elements satisfying `p`. That it keeps their original
      order is stated by `FilterAppend`. */
  function Filter<T(!new)>(xs: seq<T>, p: T -> bool): (r: seq<T>)
    ensures |r| <= |xs|
    ensures forall x :: x in r <==> x in xs && p(x)
  {
    if |xs| == 0 then []
    else (if p(xs[0]) then [xs[0]] else []) + Filter(xs[1..], p)
  }

  /** Filtering distributes over concatenation, so it keeps the input order. */
  lemma {:induction false} FilterAppend<T(!new)>(xs: seq<T>, ys: seq<T>, p: T -> bool)
    ensures Filter(xs + ys, p) == Filter(xs, p) + Filter(ys, p)
  {
    if |xs| == 0 {
      assert xs + ys == ys;
    } else {
      assert (xs + ys)[0] == xs[0];
      assert (xs + ys)[1..] == xs[1..] + ys;
      FilterAppend(xs[1..], ys, p);
    }
  }

  /** A filter of a repetition-free list is repetition-free. */
  lemma {:induction false} FilterDistinct<T(!new)>(xs: seq<T>, p: T -> bool)
    requires Distinct(xs)
    ensures Distinct(Filter(xs, p))
  {
    if |xs| > 0 {
      assert Distinct(xs[1..]) by {
        forall i, j | 0 <= i < j < |xs[1..]| ensures xs[1..][i] != xs[1..][j] {
          assert xs[1..][i] == xs[i + 1] && xs[1..][j] == xs[j + 1];
        }
      }
      FilterDistinct(xs[1..], p);
      assert xs[0] !in xs[1..] by {
        forall k | 0 <= k < |xs[1..]| ensures xs[1..][k] != xs[0] {
          assert xs[1..][k] == xs[k + 1];
        }
      }
    }
  }

  /** `i` is the one and only position of `xs` that satisfies `p`. */
  ghost predicate OnlyMatch<T>(xs: seq<T>, p: T -> bool, i: int) {
    0 <= i < |xs| && p(xs[i]) && forall j :: 0 <= j < |xs| && j != i ==> !p(xs[j])
  }

  /** Exactly one element survives the filter iff exactly one position matches. */
  lemma {:induction false} FilterSingle<T(!new)>(xs: seq<T>, p: T -> bool)
    ensures |Filter(xs, p)| == 1 <==> exists i :: OnlyMatch(xs, p, i)
  {
    if |xs| > 0 {
      var rest := xs[1..];
      FilterSingle(rest, p);
      if p(xs[0]) {
        if |Filter(xs, p)| == 1 {
          assert |Filter(rest, p)| == 0;
          forall j | 0 <= j < |xs| && j != 0 ensures !p(xs[j]) {
            assert xs[j] == rest[j - 1];
            assert xs[j] !in Filter(rest, p);
          }
          assert OnlyMatch(xs, p, 0);
        }
        if i :| OnlyMatch(xs, p, i) {
          assert i == 0;
          forall x | x in rest ensures !p(x) {
            var k :| 0 <= k < |rest| && rest[k] == x;
            assert xs[k + 1] == x;
          }
          if |Filter(rest, p)| > 0 {
            assert Filter(rest, p)[0] in Filter(rest, p);
          }
        }
      } else {
        assert Filter(xs, p) == Filter(rest, p);
        if i :| OnlyMatch(xs, p, i) {
          assert i > 0;
          forall j | 0 <= j < |rest| && j != i - 1 ensures !p(rest[j]) {
            assert rest[j] == xs[j + 1];
          }
          assert OnlyMatch(rest, p, i - 1);
        }
        if i :| OnlyMatch(rest, p, i) {
          forall j | 0 <= j < |xs| && j != i + 1 ensures !p(xs[j]) {
            if j > 0 { assert xs[j] == rest[j - 1]; }
          }
          assert OnlyMatch(xs, p, i + 1);
        }
      }
    }
  }

  /** Two matching positions leave at least two elements after the filter. */
  lemma {:induction false} FilterTwo<T(!new)>(xs: seq<T>, p: T -> bool, i: int, j: int)
    requires 0 <= i < j < |xs| && p(xs[i]) && p(xs[j])
    ensures |Filter(xs, p)| >= 2
  {
    if i == 0 {
      assert xs[j] == xs[1..][j - 1];
      assert xs[j] in Filter(xs[1..], p);
    } else {
      FilterTwo(xs[1..], p, i - 1, j - 1);
    }
  }

  /** LINQ `FirstOrDefault(p)`: the first element satisfying `p`, if any. */
  function FirstWhere<T>(xs: seq<T>, p: T -> bool): (r: Option<T>)
    ensures r.None? <==> forall i :: 0 <= i < |xs| ==> !p(xs[i])
    ensures r.Some? ==> r.value in xs && p(r.value)
    ensures r.Some? ==>
      exists i :: 0 <= i < |xs| && xs[i] == r.value && forall j :: 0 <= j < i ==> !p(xs[j])
  {
    if |xs| == 0 then None
    else if p(xs[0]) then Some(xs[0])
    else
      var r := FirstWhere(xs[1..], p);
      assert forall i :: 0 < i < |xs| ==> xs[i] == xs[1..][i - 1];
      r
  }

  /** When exactly one element satisfies `p`, FirstOrDefault finds that one. */
  lemma FirstWhereUnique<T>(xs: seq<T>, p: T -> bool, x: T)
    requires x in xs && p(x)
    requires forall y :: y in xs && p(y) ==> y == x
    ensures FirstWhere(xs, p) == Some(x)
  {
  }

  /** A `foreach` that throws on the first element failing `check`. */
  function FirstFailure<T, E>(xs: seq<T>, check: T -> Outcome<E>): (r: Outcome<E>)
    ensures r.Pass? <==> forall i :: 0 <= i < |xs| ==> check(xs[i]).Pass?
    ensures r.Fail? ==>
      exists i :: 0 <= i < |xs| && r == check(xs[i]) && forall j :: 0 <= j < i ==> check(xs[j]).Pass?
  {
    if |xs| == 0 then Pass
    else if check(xs[0]).Fail? then check(xs[0])
    else
      var r := FirstFailure(xs[1..], check);
      assert forall i :: 0 < i < |xs| ==> xs[i] == xs[1..][i - 1];
      r
  }

  /** The keys that occur more than once, each reported once, in the order of
      their first occurrence (LINQ `GroupBy(k).Where(g => g.Count() > 1)`). */
  function DuplicateKeys<K(==,!new)>(ks: seq<K>): (r: seq<K>)
    ensures forall k :: k in r <==> multiset(ks)[k] > 1
    ensures Distinct(r)
  {
    if |ks| == 0 then []
    else
      assert ks == [ks[0]] + ks[1..];
      var rest := DuplicateKeys(ks[1..]);
      if ks[0] in ks[1..] then
        var others := Filter(rest, k => k != ks[0]);
        FilterDistinct(rest, k => k != ks[0]);
        DistinctCons(ks[0], others);
        [ks[0]] + others
      else rest
  }

  /** There are no duplicates to report exactly when the keys are distinct. */
  lemma {:induction false} DuplicateKeysEmpty<K(!new)>(ks: seq<K>)
    ensures DuplicateKeys(ks) == [] <==> Distinct(ks)
  {
    if |ks| > 0 {
      var rest := ks[1..];
      DuplicateKeysEmpty(rest);
      if ks[0] in rest {
        var k :| 0 <= k < |rest| && rest[k] == ks[0];
        assert ks[k + 1] == ks[0];
      } else if Distinct(rest) {
        forall i, j | 0 <= i < j < |ks| ensures ks[i] != ks[j] {
          assert ks[j] == rest[j - 1];
          if i > 0 { assert ks[i] == rest[i - 1]; }
        }
      } else {
        var i, j :| 0 <= i < j < |rest| && rest[i] == rest[j];
        assert ks[i + 1] == ks[j + 1];
      }
    }
  }
}

/** .NET's notion of blank text. */
module Text {

  /** `char.IsWhiteSpace`: the Unicode space, line and paragraph separators,
      the C0 controls U+0009..U+000D, U+0085 and U+00A0. */
  predicate IsWhiteSpace(c: char) {
    || c == ' ' || ('\t' <= c <= '\r') || c == '\U{0085}' || c == '\U{00A0}'
    || c == '\U{1680}' || ('\U{2000}' <= c <= '\U{200A}')
    || c == '\U{2028}' || c == '\U{2029}' || c == '\U{202F}'
    || c == '\U{205F}' || c == '\U{3000}'
  }

  /** `string.IsNullOrWhiteSpace` for a non-null string: empty or all white space. */
  predicate IsBlank(s: string) {
    forall i :: 0 <= i < |s| ==> IsWhiteSpace(s[i])
  }

  /** Blankness is decided character by character: the empty string is blank,
      and a concatenation is blank iff both parts are. */
  lemma BlankConcat(s: string, t: string)
    ensures IsBlank("")
    ensures IsBlank(s + t) <==> IsBlank(s) && IsBlank(t)
  {
    if IsBlank(s) && IsBlank(t) {
      forall i | 0 <= i < |s + t| ensures IsWhiteSpace((s + t)[i]) {
        if i >= |s| {
          assert (s + t)[i] == t[i - |s|];
        }
      }
    }
    if IsBlank(s + t) {
      forall i | 0 <= i < |s| ensures IsWhiteSpace(s[i]) {
        assert (s + t)[i] == s[i];
      }
      forall i | 0 <= i < |t| ensures IsWhiteSpace(t[i]) {
        assert (s + t)[|s| + i] == t[i];
      }
    }
  }

  /** Text that starts with a visible character is not blank. */
  lemma NotBlank(s: string)
    requires |s| > 0 && !IsWhiteSpace(s[0])
    ensures !IsBlank(s)
  {
  }
}
