/** Typo suggestions: the Levenshtein table and the closest-match search of the error library.
    Characters stand for UTF-16 code units. */
module EditDistance {
  import opened Prelude

  // ---- edit scripts -----------------------------------------------------------------------

  datatype Edit = Insert(at: nat, c: char) | Delete(at: nat) | Substitute(at: nat, c: char)

  predicate Fits(e: Edit, s: string) {
    if e.Insert? then e.at <= |s| else e.at < |s|
  }

  function ApplyEdit(e: Edit, s: string): string
    requires Fits(e, s)
  {
    match e
    case Insert(i, c) => s[..i] + [c] + s[i..]
    case Delete(i) => s[..i] + s[i + 1..]
    case Substitute(i, c) => s[..i] + [c] + s[i + 1..]
  }

  /** The single-character edits, done one after the other, turn `a` into `b`. */
  ghost predicate Transforms(edits: seq<Edit>, a: string, b: string) {
    if edits == [] then a == b
    else Fits(edits[0], a) && Transforms(edits[1..], ApplyEdit(edits[0], a), b)
  }

  // ---- the recurrence the table is filled by ------------------------------------------------

  function Min3(a: nat, b: nat, c: nat): nat { if a <= b && a <= c then a else if b <= c then b else c }

  function Distance(a: string, b: string): nat
    decreases |a| + |b|
  {
    if a == [] then |b|
    else if b == [] then |a|
    else if Last(a) == Last(b) then Distance(Front(a), Front(b))
    else 1 + Min3(Distance(Front(a), Front(b)), Distance(Front(a), b), Distance(a, Front(b)))
  }

  lemma {:induction false} SameIsZero(a: string)
    ensures Distance(a, a) == 0
  {
    if a != [] { SameIsZero(Front(a)); }
  }

  lemma {:induction false} ZeroIsSame(a: string, b: string)
    requires Distance(a, b) == 0
    ensures a == b
    decreases |a| + |b|
  {
    if a != [] && b != [] {
      ZeroIsSame(Front(a), Front(b));
      assert a == Front(a) + [Last(a)] && b == Front(b) + [Last(b)];
    }
  }

  lemma {:induction false} Symmetric(a: string, b: string)
    ensures Distance(a, b) == Distance(b, a)
    decreases |a| + |b|
  {
    if a != [] && b != [] {
      Symmetric(Front(a), Front(b));
      Symmetric(Front(a), b);
      Symmetric(a, Front(b));
    }
  }

  /** Neighbouring cells of the table differ by at most one, in either direction. */
  lemma {:induction false} Adjacent(a: string, b: string)
    requires a != []
    ensures Distance(a, b) <= Distance(Front(a), b) + 1
    ensures Distance(Front(a), b) <= Distance(a, b) + 1
    decreases |a| + |b|
  {
    if b != [] {
      AdjacentRight(Front(a), b);
      Adjacent(a, Front(b));
      if Front(a) != [] { Adjacent(Front(a), b); }
    }
  }

  lemma {:induction false} AdjacentRight(a: string, b: string)
    requires b != []
    ensures Distance(a, b) <= Distance(a, Front(b)) + 1
    ensures Distance(a, Front(b)) <= Distance(a, b) + 1
    decreases |a| + |b|
  {
    if a != [] {
      Adjacent(a, Front(b));
      AdjacentRight(Front(a), b);
    }
  }

  function Unequal(x: char, y: char): nat { if x == y then 0 else 1 }

  /** Taking the diagonal on equal characters, without looking at the neighbours, loses nothing. */
  lemma Diagonal(a: string, b: string)
    requires a != [] && b != []
    ensures Distance(a, b) <= Distance(Front(a), Front(b)) + Unequal(Last(a), Last(b))
    ensures Distance(a, b) == Distance(Front(a), Front(b)) + Unequal(Last(a), Last(b))
         || Distance(a, b) == Distance(Front(a), b) + 1
         || Distance(a, b) == Distance(a, Front(b)) + 1
  {
  }

  lemma {:induction false} Triangle(a: string, b: string, c: string)
    ensures Distance(a, c) <= Distance(a, b) + Distance(b, c)
    decreases |a| + |b| + |c|
  {
    if a == [] {
      AtLeastDifference(b, c);
    } else if c == [] {
      AtLeastDifference(a, b);
    } else if b == [] {
      AtMostSum(a, c);
    } else {
      Diagonal(a, b);
      Diagonal(b, c);
      Diagonal(a, c);
      Adjacent(a, c);
      AdjacentRight(a, c);
      Triangle(Front(a), b, c);
      Triangle(a, b, Front(c));
      Triangle(a, Front(b), c);
      Triangle(Front(a), Front(b), c);
      Triangle(a, Front(b), Front(c));
      Triangle(Front(a), Front(b), Front(c));
    }
  }

  lemma {:induction false} AtLeastDifference(a: string, b: string)
    ensures Distance(a, b) >= |b| - |a| && Distance(a, b) >= |a| - |b|
    decreases |a| + |b|
  {
    if a != [] && b != [] {
      AtLeastDifference(Front(a), Front(b));
      AtLeastDifference(Front(a), b);
      AtLeastDifference(a, Front(b));
    }
  }

  lemma {:induction false} AtMostSum(a: string, b: string)
    ensures Distance(a, b) <= |a| + |b|
    decreases |a| + |b|
  {
    if a != [] && b != [] {
      AtMostSum(Front(a), Front(b));
      AtMostSum(Front(a), b);
      AtMostSum(a, Front(b));
    }
  }

  // ---- shortest scripts ------------------------------------------------------------------------

  lemma EditUnder(e: Edit, s: string, x: char)
    requires Fits(e, s)
    ensures Fits(e, s + [x]) && ApplyEdit(e, s + [x]) == ApplyEdit(e, s) + [x]
  {
  }

  lemma EditsAtTheEnd(s: string, x: char, c: char)
    ensures ApplyEdit(Insert(|s|, c), s) == s + [c] && Front(s + [c]) == s && Last(s + [c]) == c
    ensures ApplyEdit(Delete(|s|), s + [x]) == s && ApplyEdit(Substitute(|s|, c), s + [x]) == s + [c]
  {
  }

  lemma FrontLast(s: string)
    requires s != []
    ensures s == Front(s) + [Last(s)]
  {
  }

  /** One edit moves a string by at most one. */
  lemma {:induction false} OneEdit(e: Edit, s: string)
    requires Fits(e, s)
    ensures Distance(s, ApplyEdit(e, s)) <= 1
    decreases |s|
  {
    var t := ApplyEdit(e, s);
    if e.Insert? && e.at == |s| {
      EditsAtTheEnd(s, e.c, e.c);
      SameIsZero(s);
      AdjacentRight(s, t);
    } else if e.at == |s| - 1 && !e.Insert? {
      FrontLast(s);
      EditsAtTheEnd(Front(s), Last(s), if e.Substitute? then e.c else Last(s));
      SameIsZero(Front(s));
      if e.Delete? { Adjacent(s, t); } else { Diagonal(s, t); }
    } else {
      OneEdit(e, Front(s));
      FrontLast(s);
      EditUnder(e, Front(s), Last(s));
      EditsAtTheEnd(ApplyEdit(e, Front(s)), Last(s), Last(s));
      Diagonal(s, t);
    }
  }

  /** No script is shorter than the distance. */
  lemma {:induction false} NoShorterScript(edits: seq<Edit>, a: string, b: string)
    requires Transforms(edits, a, b)
    ensures Distance(a, b) <= |edits|
    decreases |edits|
  {
    if edits == [] {
      SameIsZero(a);
    } else {
      var m := ApplyEdit(edits[0], a);
      NoShorterScript(edits[1..], m, b);
      OneEdit(edits[0], a);
      Triangle(a, m, b);
    }
  }

  lemma {:induction false} TransformsConcat(es: seq<Edit>, fs: seq<Edit>, a: string, b: string, c: string)
    requires Transforms(es, a, b) && Transforms(fs, b, c)
    ensures Transforms(es + fs, a, c)
    decreases |es|
  {
    if es == [] {
      assert es + fs == fs;
    } else {
      var all := es + fs;
      assert all != [] && all[0] == es[0] && all[1..] == es[1..] + fs;
      TransformsConcat(es[1..], fs, ApplyEdit(es[0], a), b, c);
    }
  }

  /** A script for a prefix leaves what follows it alone. */
  lemma {:induction false} TransformsUnder(es: seq<Edit>, a: string, b: string, x: char)
    requires Transforms(es, a, b)
    ensures Transforms(es, a + [x], b + [x])
    decreases |es|
  {
    if es != [] {
      EditUnder(es[0], a, x);
      TransformsUnder(es[1..], ApplyEdit(es[0], a), b, x);
    }
  }

  lemma OneStep(e: Edit, a: string)
    requires Fits(e, a)
    ensures Transforms([e], a, ApplyEdit(e, a))
  {
    assert [e][1..] == [];
  }

  lemma InsertLast(es: seq<Edit>, a: string, b: string)
    requires b != [] && Transforms(es, a, Front(b))
    ensures Transforms(es + [Insert(|b| - 1, Last(b))], a, b)
  {
    var e := Insert(|b| - 1, Last(b));
    OneStep(e, Front(b));
    FrontLast(b);
    EditsAtTheEnd(Front(b), Last(b), Last(b));
    TransformsConcat(es, [e], a, Front(b), b);
  }

  lemma DeleteLast(es: seq<Edit>, a: string, b: string)
    requires a != [] && Transforms(es, Front(a), b)
    ensures Transforms(es + [Delete(|b|)], a, b)
  {
    var x := Last(a);
    FrontLast(a);
    TransformsUnder(es, Front(a), b, x);
    OneStep(Delete(|b|), b + [x]);
    EditsAtTheEnd(b, x, x);
    TransformsConcat(es, [Delete(|b|)], a, b + [x], b);
  }

  lemma KeepLast(es: seq<Edit>, a: string, b: string)
    requires a != [] && b != [] && Last(a) == Last(b) && Transforms(es, Front(a), Front(b))
    ensures Transforms(es, a, b)
  {
    FrontLast(a);
    FrontLast(b);
    TransformsUnder(es, Front(a), Front(b), Last(a));
  }

  lemma SubstituteLast(es: seq<Edit>, a: string, b: string)
    requires a != [] && b != [] && Transforms(es, Front(a), Front(b))
    ensures Transforms(es + [Substitute(|b| - 1, Last(b))], a, b)
  {
    var e, m := Substitute(|b| - 1, Last(b)), Front(b) + [Last(a)];
    FrontLast(a);
    FrontLast(b);
    TransformsUnder(es, Front(a), Front(b), Last(a));
    OneStep(e, m);
    EditsAtTheEnd(Front(b), Last(a), Last(b));
    TransformsConcat(es, [e], a, m, b);
  }

  /** There is a script exactly as long as the distance. */
  lemma {:induction false} ShortestScript(a: string, b: string) returns (edits: seq<Edit>)
    ensures Transforms(edits, a, b) && |edits| == Distance(a, b)
    decreases |a| + |b|
  {
    if a == [] && b == [] {
      edits := [];
    } else if a == [] || (b != [] && Last(a) != Last(b) && Distance(a, b) == 1 + Distance(a, Front(b))) {
      edits := ShortestScript(a, Front(b));
      InsertLast(edits, a, b);
      edits := edits + [Insert(|b| - 1, Last(b))];
    } else if b == [] || (Last(a) != Last(b) && Distance(a, b) == 1 + Distance(Front(a), b)) {
      edits := ShortestScript(Front(a), b);
      DeleteLast(edits, a, b);
      edits := edits + [Delete(|b|)];
    } else if Last(a) == Last(b) {
      edits := ShortestScript(Front(a), Front(b));
      KeepLast(edits, a, b);
    } else {
      edits := ShortestScript(Front(a), Front(b));
      SubstituteLast(edits, a, b);
      edits := edits + [Substitute(|b| - 1, Last(b))];
    }
  }

  // ---- the table ----------------------------------------------------------------------------------

  /** Cell (i, j) of the table: the distance between the first j characters of `a` and the first i of `b`. */
  ghost function Cell(a: string, b: string, i: nat, j: nat): nat
    requires i <= |b| && j <= |a|
  {
    Distance(a[..j], b[..i])
  }

  lemma CellRecurrence(a: string, b: string, i: nat, j: nat)
    requires 0 < i <= |b| && 0 < j <= |a|
    ensures Cell(a, b, i, j) ==
      if b[i - 1] == a[j - 1] then Cell(a, b, i - 1, j - 1)
      else Min3(Cell(a, b, i - 1, j - 1) + 1, Cell(a, b, i, j - 1) + 1, Cell(a, b, i - 1, j) + 1)
  {
    assert Front(a[..j]) == a[..j - 1] && Front(b[..i]) == b[..i - 1];
  }

  method Levenshtein(a: string, b: string) returns (d: nat)
    ensures d == Distance(a, b)
  {
    if a == b {
      SameIsZero(a);
      return 0;
    }
    if |a| == 0 { return |b|; }
    if |b| == 0 { return |a|; }
    var matrix := new nat[|b| + 1, |a| + 1];
    for i := 0 to |b| + 1
      invariant forall k :: 0 <= k < i ==> matrix[k, 0] == k
    {
      matrix[i, 0] := i;
    }
    for j := 0 to |a| + 1
      invariant forall k :: 0 <= k <= |b| ==> matrix[k, 0] == k
      invariant forall k :: 0 <= k < j ==> matrix[0, k] == k
    {
      matrix[0, j] := j;
    }
    for i := 1 to |b| + 1
      invariant forall k :: 0 <= k <= |b| ==> matrix[k, 0] == Cell(a, b, k, 0)
      invariant forall k, l :: 0 <= k < i && 0 <= l <= |a| ==> matrix[k, l] == Cell(a, b, k, l)
    {
      for j := 1 to |a| + 1
        invariant forall k :: 0 <= k <= |b| ==> matrix[k, 0] == Cell(a, b, k, 0)
        invariant forall k, l :: 0 <= k < i && 0 <= l <= |a| ==> matrix[k, l] == Cell(a, b, k, l)
        invariant forall l :: 0 <= l < j ==> matrix[i, l] == Cell(a, b, i, l)
      {
        CellRecurrence(a, b, i, j);
        if b[i - 1] == a[j - 1] {
          matrix[i, j] := matrix[i - 1, j - 1];
        } else {
          matrix[i, j] := Min3(matrix[i - 1, j - 1] + 1, matrix[i, j - 1] + 1, matrix[i - 1, j] + 1);
        }
      }
    }
    assert a[..|a|] == a && b[..|b|] == b;
    return matrix[|b|, |a|];
  }

  /** The distance is the length of a shortest script of single-character edits. */
  lemma DistanceIsShortestScript(a: string, b: string)
    ensures exists edits :: Transforms(edits, a, b) && |edits| == Distance(a, b)
    ensures forall edits :: Transforms(edits, a, b) ==> Distance(a, b) <= |edits|
  {
    var edits := ShortestScript(a, b);
    forall edits | Transforms(edits, a, b) ensures Distance(a, b) <= |edits| { NoShorterScript(edits, a, b); }
  }

  // ---- the closest match --------------------------------------------------------------------------

  /** `s.replace(/^\\$/, '')`. */
  function StripDollar(s: string): string { if s != [] && s[0] == '$' then s[1..] else s }

  datatype Scored = Scored(original: string, distance: nat)

  function Score(input: string, candidates: seq<string>): (r: seq<Scored>)
    ensures |r| == |candidates|
    ensures forall i :: 0 <= i < |r| ==>
              r[i] == Scored(candidates[i], Distance(StripDollar(input), StripDollar(candidates[i])))
  {
    seq(|candidates|, i requires 0 <= i < |candidates| =>
      Scored(candidates[i], Distance(StripDollar(input), StripDollar(candidates[i]))))
  }

  /** `distance <= threshold`, which no distance satisfies when the threshold is NaN. */
  predicate AtMost(distance: nat, threshold: Number) {
    match threshold
    case Finite(t) => distance as real <= t
    case Infinity => true
    case _ => false
  }

  function Within(s: seq<Scored>, threshold: Number): seq<Scored> {
    if s == [] then []
    else if AtMost(s[0].distance, threshold) then [s[0]] + Within(s[1..], threshold)
    else Within(s[1..], threshold)
  }

  /** The stable sort by distance. */
  function SortByDistance(s: seq<Scored>): seq<Scored> {
    if s == [] then [] else InsertSorted(s[0], SortByDistance(s[1..]))
  }

  /** `x` came before everything in `s`, so it goes before its equals. */
  function InsertSorted(x: Scored, s: seq<Scored>): seq<Scored> {
    if s == [] || x.distance <= s[0].distance then [x] + s else [s[0]] + InsertSorted(x, s[1..])
  }

  function AtDistance(s: seq<Scored>, d: nat): seq<Scored> {
    if s == [] then [] else (if s[0].distance == d then [s[0]] else []) + AtDistance(s[1..], d)
  }

  ghost predicate Ascending(s: seq<Scored>) { forall i, j :: 0 <= i < j < |s| ==> s[i].distance <= s[j].distance }

  lemma {:induction false} InsertSortedAscends(x: Scored, s: seq<Scored>)
    requires Ascending(s)
    ensures Ascending(InsertSorted(x, s))
    ensures InsertSorted(x, s) != [] && (InsertSorted(x, s)[0] == x || (s != [] && InsertSorted(x, s)[0] == s[0]))
  {
    if s != [] && x.distance > s[0].distance {
      InsertSortedAscends(x, s[1..]);
      AscendingCons(s[0], InsertSorted(x, s[1..]));
    } else {
      AscendingCons(x, s);
    }
  }

  lemma AscendingCons(x: Scored, s: seq<Scored>)
    requires Ascending(s) && (s != [] ==> x.distance <= s[0].distance)
    ensures Ascending([x] + s)
  {
    var t := [x] + s;
    forall i, j | 0 <= i < j < |t| ensures t[i].distance <= t[j].distance {
      assert t[j] == s[j - 1] && s[0].distance <= s[j - 1].distance;
    }
  }

  lemma {:induction false} InsertSortedStable(x: Scored, s: seq<Scored>, d: nat)
    ensures AtDistance(InsertSorted(x, s), d) == (if x.distance == d then [x] else []) + AtDistance(s, d)
  {
    if s != [] && x.distance > s[0].distance {
      InsertSortedStable(x, s[1..], d);
      AtDistanceCons(s[0], InsertSorted(x, s[1..]), d);
    } else {
      AtDistanceCons(x, s, d);
    }
  }

  lemma AtDistanceCons(x: Scored, s: seq<Scored>, d: nat)
    ensures AtDistance([x] + s, d) == (if x.distance == d then [x] else []) + AtDistance(s, d)
  {
    var t := [x] + s;
    assert t[0] == x && t[1..] == s;
  }

  /** The sort is ascending and keeps candidates of equal distance in their old order; only one sequence does both. */
  lemma {:induction false} SortIsStable(s: seq<Scored>, d: nat)
    ensures Ascending(SortByDistance(s)) && AtDistance(SortByDistance(s), d) == AtDistance(s, d)
  {
    if s != [] {
      SortIsStable(s[1..], d);
      InsertSortedAscends(s[0], SortByDistance(s[1..]));
      InsertSortedStable(s[0], SortByDistance(s[1..]), d);
    }
  }

  function Threshold(input: string, maxDistance: Option<Number>): Number {
    match maxDistance
    case Some(d) => d
    case None => Finite(Max(1, |StripDollar(input)| / 3) as real)
  }

  function FindClosestMatch(input: string, candidates: seq<string>, maxDistance: Option<Number>): Option<string> {
    var scored := SortByDistance(Within(Score(input, candidates), Threshold(input, maxDistance)));
    if scored == [] then None else Some(scored[0].original)
  }

  /** `i` is the first position of least distance among those within the threshold. */
  ghost predicate IsBest(s: seq<Scored>, threshold: Number, i: nat) {
    && i < |s| && AtMost(s[i].distance, threshold)
    && (forall j :: 0 <= j < |s| ==> s[i].distance <= s[j].distance)
    && (forall j :: 0 <= j < i ==> s[i].distance < s[j].distance)
  }

  /** The head of the sorted, filtered list is the best element of the whole list, or there is none. */
  lemma {:induction false} SortedHeadIsBest(s: seq<Scored>, threshold: Number) returns (i: nat)
    ensures var r := SortByDistance(Within(s, threshold));
      if r == [] then forall j :: 0 <= j < |s| ==> !AtMost(s[j].distance, threshold)
      else IsBest(s, threshold, i) && r[0] == s[i]
  {
    i := 0;
    if s != [] {
      var tail := SortedHeadIsBest(s[1..], threshold);
      var rest := SortByDistance(Within(s[1..], threshold));
      assert forall j :: 0 < j < |s| ==> s[j] == s[1..][j - 1];
      if AtMost(s[0].distance, threshold) {
        assert ([s[0]] + Within(s[1..], threshold))[1..] == Within(s[1..], threshold);
        if rest != [] && s[0].distance > rest[0].distance { i := tail + 1; }
      } else if rest != [] {
        i := tail + 1;
      }
    }
  }

  /** The distance that decides, with a leading dollar taken off on both sides. */
  function DistanceTo(input: string, candidate: string): nat { Distance(StripDollar(input), StripDollar(candidate)) }

  /** Candidate `i` is within the threshold, none is nearer, and none before it is as near. */
  ghost predicate IsFirstBest(input: string, candidates: seq<string>, threshold: Number, i: nat) {
    && i < |candidates| && AtMost(DistanceTo(input, candidates[i]), threshold)
    && (forall j :: 0 <= j < |candidates| ==> DistanceTo(input, candidates[i]) <= DistanceTo(input, candidates[j]))
    && (forall j :: 0 <= j < i ==> DistanceTo(input, candidates[i]) < DistanceTo(input, candidates[j]))
  }

  /** Candidate `i` is the first of the nearest. */
  ghost predicate IsFirstNearest(input: string, candidates: seq<string>, i: nat) {
    && i < |candidates|
    && (forall j :: 0 <= j < |candidates| ==> DistanceTo(input, candidates[i]) <= DistanceTo(input, candidates[j]))
    && (forall j :: 0 <= j < i ==> DistanceTo(input, candidates[i]) < DistanceTo(input, candidates[j]))
  }

  /** The suggestion is the first candidate of least distance, if that is within the threshold; otherwise none is. */
  lemma ClosestMatchIsFirstBest(input: string, candidates: seq<string>, maxDistance: Option<Number>)
    ensures var t, r := Threshold(input, maxDistance), FindClosestMatch(input, candidates, maxDistance);
      if r.None? then forall j :: 0 <= j < |candidates| ==> !AtMost(DistanceTo(input, candidates[j]), t)
      else exists i: nat :: IsFirstBest(input, candidates, t, i) && candidates[i] == r.value
  {
    var s, t := Score(input, candidates), Threshold(input, maxDistance);
    var i := SortedHeadIsBest(s, t);
    assert forall j :: 0 <= j < |candidates| ==> s[j] == Scored(candidates[j], DistanceTo(input, candidates[j]));
    if FindClosestMatch(input, candidates, maxDistance).Some? { assert IsFirstBest(input, candidates, t, i); }
  }

  /** A limit given by the caller counts as it is: within a finite one the suggestion is the first candidate of least
      distance, an infinite one admits every candidate, and no distance is within any other. */
  lemma GivenLimitCounts(input: string, candidates: seq<string>, limit: Number)
    ensures var r := FindClosestMatch(input, candidates, Some(limit));
      match limit
      case Finite(x) =>
        if r.None? then forall j :: 0 <= j < |candidates| ==> DistanceTo(input, candidates[j]) as real > x
        else
          && DistanceTo(input, r.value) as real <= x
          && exists i: nat :: IsFirstNearest(input, candidates, i) && candidates[i] == r.value
      case Infinity =>
        if r.None? then candidates == []
        else exists i: nat :: IsFirstNearest(input, candidates, i) && candidates[i] == r.value
      case _ => r.None?
  {
    var r := FindClosestMatch(input, candidates, Some(limit));
    ClosestMatchIsFirstBest(input, candidates, Some(limit));
    if r.Some? {
      var i: nat :| IsFirstBest(input, candidates, limit, i) && candidates[i] == r.value;
      assert IsFirstNearest(input, candidates, i);
    } else if candidates != [] {
      assert !AtMost(DistanceTo(input, candidates[0]), limit);
    }
  }

  /** A leading dollar is ignored on both sides, in the distance and in the length that gives the default limit. */
  lemma DollarIsIgnored(a: string, b: string)
    requires (a == "" || a[0] != '$') && (b == "" || b[0] != '$')
    ensures DistanceTo("$" + a, b) == DistanceTo(a, "$" + b) == DistanceTo("$" + a, "$" + b) == Distance(a, b)
    ensures Threshold("$" + a, None) == Threshold(a, None) == Finite(Max(1, |a| / 3) as real)
  {
    assert ("$" + a)[1..] == a && ("$" + b)[1..] == b;
  }

  // ---- the documented default threshold -------------------------------------------------------------

  /** Half of the longer word, at least 1. */
  function DocumentedThreshold(input: string, candidate: string): nat {
    Max(1, Max(|StripDollar(input)|, |StripDollar(candidate)|) / 2)
  }

  predicate Allowed(input: string, candidate: string) {
    DistanceTo(input, candidate) <= DocumentedThreshold(input, candidate)
  }

  /** Candidate `i` is the first of the nearest among those the documentation allows. */
  ghost predicate IsNearestAllowed(input: string, candidates: seq<string>, i: nat) {
    && i < |candidates| && Allowed(input, candidates[i])
    && (forall j :: 0 <= j < |candidates| && Allowed(input, candidates[j]) ==>
          DistanceTo(input, candidates[i]) <= DistanceTo(input, candidates[j]))
    && (forall j :: 0 <= j < i && Allowed(input, candidates[j]) ==>
          DistanceTo(input, candidates[i]) < DistanceTo(input, candidates[j]))
  }

  /** `r` is the suggestion the documentation promises for a call without `maxDistance`. */
  ghost predicate IsDocumented(input: string, candidates: seq<string>, r: Option<string>) {
    if r.None? then forall j :: 0 <= j < |candidates| ==> !Allowed(input, candidates[j])
    else exists i: nat :: IsNearestAllowed(input, candidates, i) && candidates[i] == r.value
  }

  /** A third of the input's length, at least 1. */
  function DefaultThreshold(input: string): nat { Max(1, |StripDollar(input)| / 3) }

  lemma DefaultIsNeverLaxer(input: string, candidate: string)
    ensures Threshold(input, None) == Finite(DefaultThreshold(input) as real)
    ensures DefaultThreshold(input) <= DocumentedThreshold(input, candidate)
  {
  }

  /** Without `maxDistance` the suggestion is the documented one exactly if some candidate is within a third of the
      input's length or none is within half of the longer word; otherwise there is no suggestion although there should
      be one. */
  lemma DocumentedIff(input: string, candidates: seq<string>)
    ensures IsDocumented(input, candidates, FindClosestMatch(input, candidates, None)) <==>
      || (exists j :: 0 <= j < |candidates| && DistanceTo(input, candidates[j]) <= DefaultThreshold(input))
      || (forall j :: 0 <= j < |candidates| ==> !Allowed(input, candidates[j]))
  {
    var t, r := Threshold(input, None), FindClosestMatch(input, candidates, None);
    ClosestMatchIsFirstBest(input, candidates, None);
    forall j | 0 <= j < |candidates|
      ensures AtMost(DistanceTo(input, candidates[j]), t) <==>
              DistanceTo(input, candidates[j]) <= DefaultThreshold(input)
      ensures AtMost(DistanceTo(input, candidates[j]), t) ==> Allowed(input, candidates[j])
    {
      DefaultIsNeverLaxer(input, candidates[j]);
    }
    if r.Some? {
      var i: nat :| IsFirstBest(input, candidates, t, i) && candidates[i] == r.value;
      assert IsNearestAllowed(input, candidates, i);
    }
  }

  lemma TwoLettersMissing(s: string, x: char, y: char)
    ensures Distance(s, s + [x] + [y]) == 2
  {
    var t := s + [x];
    AtLeastDifference(s, t + [y]);
    SameIsZero(s);
    EditsAtTheEnd(s, x, x);
    EditsAtTheEnd(t, y, y);
    AdjacentRight(s, t);
    AdjacentRight(s, t + [y]);
  }

  /** Two letters missing of four: allowed by the documentation, refused by the code. */
  lemma HalfOfTheWordIsRefused()
    ensures FindClosestMatch("$ab", ["$abcd"], None) == None && Allowed("$ab", "$abcd")
    ensures !IsDocumented("$ab", ["$abcd"], None)
  {
    assert StripDollar("$ab") == "ab" && StripDollar("$abcd") == "abcd";
    TwoLettersMissing("ab", 'c', 'd');
    assert "ab" + ['c'] + ['d'] == "abcd";
    DefaultIsNeverLaxer("$ab", "$abcd");
    assert DistanceTo("$ab", "$abcd") == 2 && !AtMost(2, Threshold("$ab", None));
    ClosestMatchIsFirstBest("$ab", ["$abcd"], None);
    assert Allowed("$ab", ["$abcd"][0]);
  }
}
