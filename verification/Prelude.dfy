/** Small shared vocabulary: optional values, results, and facts about sequences that several models need. */
module Prelude {

  datatype Option<+T> = None | Some(value: T)

  datatype Result<+T, +E> = Ok(value: T) | Err(error: E)

  /** A JavaScript number, with reals for the finite ones. */
  datatype Number = Finite(value: real) | NaN | Infinity | NegativeInfinity

  function Max(a: int, b: int): int { if a >= b then a else b }

  function Min(a: int, b: int): int { if a <= b then a else b }

  function Front<T>(s: seq<T>): seq<T>
    requires s != []
  {
    s[..|s| - 1]
  }

  function Last<T>(s: seq<T>): T
    requires s != []
  {
    s[|s| - 1]
  }

  /** The last `n` elements, or all if there are fewer. */
  function Youngest<T>(s: seq<T>, n: nat): seq<T> { s[Max(0, |s| - n)..] }

  /** `parts.join(sep)`. */
  function Join(parts: seq<string>, sep: string): string {
    if parts == [] then "" else if |parts| == 1 then parts[0] else parts[0] + sep + Join(parts[1..], sep)
  }

  lemma Associates<T>(a: seq<T>, b: seq<T>, c: seq<T>)
    ensures a + (b + c) == a + b + c
  {
  }

  lemma TakeTake<T>(s: seq<T>, n: nat, i: nat)
    requires i <= n <= |s|
    ensures s[..n][..i] == s[..i]
  {
  }

  lemma AppendCancels<T>(a: seq<T>, x: seq<T>, b: seq<T>, y: seq<T>)
    requires a + x == b + y && |a| == |b|
    ensures a == b && x == y
  {
    assert a == (a + x)[..|a|] && b == (b + y)[..|b|] && x == (a + x)[|a|..] && y == (b + y)[|b|..];
  }

  /** Of two ways to cut a text, the later one cuts off more. */
  lemma LongerPart<T>(a: seq<T>, x: seq<T>, b: seq<T>, y: seq<T>) returns (e: seq<T>)
    requires a + x == b + y && |a| < |b|
    ensures e != [] && b == a + e && x == e + y && |b| == |a| + |e|
  {
    e := b[|a|..];
    assert b[..|a|] == (b + y)[..|a|] == a;
    assert b == a + e;
    assert a + x == a + (e + y);
    AppendCancels(a, x, a, e + y);
  }

  // ---- sequences without repetition -------------------------------------------------

  ghost predicate Distinct<T>(s: seq<T>) {
    forall i, j :: 0 <= i < j < |s| ==> s[i] != s[j]
  }

  function Elements<T>(s: seq<T>): set<T> { set x | x in s }

  /** The elements of `s` outside `xs`, in their old order. */
  function Minus<T(==, !new)>(s: seq<T>, xs: set<T>): (r: seq<T>)
    ensures forall x :: x in r <==> x in s && x !in xs
    ensures |r| <= |s|
  {
    if s == [] then []
    else if s[0] in xs then Minus(s[1..], xs)
    else [s[0]] + Minus(s[1..], xs)
  }

  lemma {:induction false} MinusConcat<T(!new)>(a: seq<T>, b: seq<T>, xs: set<T>)
    ensures Minus(a + b, xs) == Minus(a, xs) + Minus(b, xs)
  {
    if a == [] {
      assert a + b == b;
    } else {
      assert (a + b)[1..] == a[1..] + b;
      MinusConcat(a[1..], b, xs);
    }
  }

  lemma {:induction false} MinusMinus<T(!new)>(s: seq<T>, xs: set<T>, ys: set<T>)
    ensures Minus(Minus(s, xs), ys) == Minus(s, xs + ys)
  {
    if s != [] {
      MinusMinus(s[1..], xs, ys);
      if s[0] !in xs {
        assert ([s[0]] + Minus(s[1..], xs))[1..] == Minus(s[1..], xs);
      }
    }
  }

  lemma {:induction false} MinusNothing<T(!new)>(s: seq<T>, xs: set<T>)
    requires forall x :: x in s ==> x !in xs
    ensures Minus(s, xs) == s
  {
    if s != [] {
      MinusNothing(s[1..], xs);
    }
  }

  lemma {:induction false} MinusEverything<T(!new)>(s: seq<T>, xs: set<T>)
    requires forall x :: x in s ==> x in xs
    ensures Minus(s, xs) == []
  {
    if s != [] {
      MinusEverything(s[1..], xs);
    }
  }

  lemma {:induction false} MinusDistinct<T(!new)>(s: seq<T>, xs: set<T>)
    requires Distinct(s)
    ensures Distinct(Minus(s, xs))
  {
    if s != [] {
      MinusDistinct(s[1..], xs);
    }
  }

  /** Removing the elements of a prefix of a distinct sequence leaves the suffix. */
  lemma {:induction false} MinusPrefix<T(!new)>(s: seq<T>, n: nat)
    requires Distinct(s) && n <= |s|
    ensures Minus(s, Elements(s[..n])) == s[n..]
  {
    var xs := Elements(s[..n]);
    assert s == s[..n] + s[n..];
    MinusConcat(s[..n], s[n..], xs);
    MinusEverything(s[..n], xs);
    forall x | x in s[n..] ensures x !in xs {
      var j :| 0 <= j < |s[n..]| && s[n..][j] == x;
      assert s[n + j] == x;
    }
    MinusNothing(s[n..], xs);
  }

  lemma DistinctCardinality<T>(s: seq<T>)
    requires Distinct(s)
    ensures |Elements(s)| == |s|
  {
    if s == [] {
      assert Elements(s) == {};
    } else {
      var n := |s| - 1;
      assert s == s[..n] + [s[n]];
      DistinctCardinality(s[..n]);
      assert Elements(s) == Elements(s[..n]) + {s[n]};
    }
  }

  lemma HeadOf<T(!new)>(s: seq<T>, i: nat)
    requires Distinct(s) && i < |s|
    ensures Elements(s[i..]) == {s[i]} + Elements(s[i + 1..])
    ensures s[i] !in Elements(s[i + 1..])
  {
    assert s[i..] == [s[i]] + s[i + 1..];
    var rest := s[i + 1..];
    forall j | 0 <= j < |rest| ensures rest[j] != s[i] { assert rest[j] == s[i + 1 + j]; }
  }
}
