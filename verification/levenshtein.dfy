/**
 * Fuzzy title matching: `levenshteinDistance` and `calculateSimilarity` of
 * lib/paper-processor.js. `Dist` is the recurrence the DP matrix fills in;
 * `LevenshteinDistance` is the matrix algorithm itself, proved to compute it.
 */
module EditDistance {

  function Min3(a: nat, b: nat, c: nat): (m: nat)
    ensures m <= a && m <= b && m <= c
    ensures m == a || m == b || m == c
  {
    if a <= b && a <= c then a else if b <= c then b else c
  }

  function Max(a: nat, b: nat): nat {
    if a >= b then a else b
  }

  /**
   * The matrix cell for prefixes `a` (of `str1`) and `b` (of `str2`):
   * equal last characters copy the diagonal, otherwise one more than the
   * cheapest of substitution, deletion and insertion.
   */
  function Dist(a: string, b: string): (d: nat)
    ensures d <= Max(|a|, |b|)
    ensures |a| <= |b| + d && |b| <= |a| + d
    decreases |a| + |b|
  {
    if |a| == 0 then |b|
    else if |b| == 0 then |a|
    else if a[|a| - 1] == b[|b| - 1] then Dist(a[..|a| - 1], b[..|b| - 1])
    else 1 + Min3(Dist(a[..|a| - 1], b[..|b| - 1]), Dist(a[..|a| - 1], b), Dist(a, b[..|b| - 1]))
  }

  /**
   * The DP matrix of the source, built row by row: row `i` ranges over
   * `str2`, column `j` over `str1`, and the answer is the bottom-right cell.
   */
  method LevenshteinDistance(str1: string, str2: string) returns (d: nat)
    ensures d == Dist(str1, str2)
  {
    var first: seq<nat> := seq(|str1| + 1, j => j);
    forall j | 0 <= j <= |str1|
      ensures first[j] == Dist(str1[..j], str2[..0])
    {
      DistStep(str1, str2, 0, j);
    }
    var matrix: seq<seq<nat>> := [first];
    for i := 1 to |str2| + 1
      invariant |matrix| == i
      invariant forall i' :: 0 <= i' < i ==> IsMatrixRow(matrix[i'], str1, str2, i')
    {
      var row := FillRow(matrix[i - 1], str1, str2, i);
      matrix := matrix + [row];
    }
    d := matrix[|str2|][|str1|];
    assert str1[..|str1|] == str1 && str2[..|str2|] == str2;
  }

  /** Row `i` of the matrix: the distances from every prefix of `str1` to the first `i` characters of `str2`. */
  predicate IsMatrixRow(row: seq<nat>, str1: string, str2: string, i: nat)
    requires i <= |str2|
  {
    |row| == |str1| + 1 && forall j :: 0 <= j <= |str1| ==> row[j] == Dist(str1[..j], str2[..i])
  }

  /** Row `i` of the matrix, from the row above it: column 0 is `i`, the rest follow the recurrence. */
  method FillRow(above: seq<nat>, str1: string, str2: string, i: nat) returns (row: seq<nat>)
    requires 1 <= i <= |str2|
    requires IsMatrixRow(above, str1, str2, i - 1)
    ensures IsMatrixRow(row, str1, str2, i)
  {
    DistStep(str1, str2, i, 0);
    row := [i];
    for j := 1 to |str1| + 1
      invariant |row| == j
      invariant forall j' :: 0 <= j' < j ==> row[j'] == Dist(str1[..j'], str2[..i])
    {
      DistStep(str1, str2, i, j);
      var cell;
      if str2[i - 1] == str1[j - 1] {
        cell := above[j - 1];
      } else {
        cell := Min3(above[j - 1] + 1, row[j - 1] + 1, above[j] + 1);
      }
      ExtendRow(row, cell, str1, str2, i);
      row := row + [cell];
    }
  }

  lemma ExtendRow(row: seq<nat>, cell: nat, str1: string, str2: string, i: nat)
    requires i <= |str2| && |row| <= |str1|
    requires forall j :: 0 <= j < |row| ==> row[j] == Dist(str1[..j], str2[..i])
    requires cell == Dist(str1[..|row|], str2[..i])
    ensures forall j :: 0 <= j < |row| + 1 ==> (row + [cell])[j] == Dist(str1[..j], str2[..i])
  {
  }

  /** One matrix cell, restated on the prefixes of the two inputs. */
  lemma DistStep(str1: string, str2: string, i: nat, j: nat)
    requires i <= |str2| && j <= |str1|
    ensures i == 0 ==> Dist(str1[..j], str2[..i]) == j
    ensures j == 0 ==> Dist(str1[..j], str2[..i]) == i
    ensures i > 0 && j > 0 && str2[i - 1] == str1[j - 1] ==>
      Dist(str1[..j], str2[..i]) == Dist(str1[..j - 1], str2[..i - 1])
    ensures i > 0 && j > 0 && str2[i - 1] != str1[j - 1] ==>
      Dist(str1[..j], str2[..i]) ==
        1 + Min3(Dist(str1[..j - 1], str2[..i - 1]), Dist(str1[..j - 1], str2[..i]), Dist(str1[..j], str2[..i - 1]))
  {
    var a := str1[..j];
    var b := str2[..i];
    if i > 0 && j > 0 {
      assert a[..|a| - 1] == str1[..j - 1] && b[..|b| - 1] == str2[..i - 1];
    }
  }

  // ---------------------------------------------------------------- properties of the distance

  /** A string is at distance zero from itself. */
  lemma {:induction false} DistSelf(s: string)
    ensures Dist(s, s) == 0
    decreases |s|
  {
    if |s| > 0 {
      DistSelf(s[..|s| - 1]);
    }
  }

  /** Distance zero means equal strings, and only then. */
  lemma {:induction false} DistZeroIff(a: string, b: string)
    ensures Dist(a, b) == 0 <==> a == b
    decreases |a| + |b|
  {
    if a == b {
      DistSelf(a);
    } else if |a| > 0 && |b| > 0 && a[|a| - 1] == b[|b| - 1] {
      DistZeroIff(a[..|a| - 1], b[..|b| - 1]);
      assert a == a[..|a| - 1] + [a[|a| - 1]];
      assert b == b[..|b| - 1] + [b[|b| - 1]];
    }
  }

  /** The distance to the empty string is the length. */
  lemma DistToEmpty(s: string)
    ensures Dist(s, "") == |s| && Dist("", s) == |s|
  {
  }

  /** The recurrence treats its two arguments alike. */
  lemma {:induction false} DistSymmetric(a: string, b: string)
    ensures Dist(a, b) == Dist(b, a)
    decreases |a| + |b|
  {
    if |a| > 0 && |b| > 0 {
      DistSymmetric(a[..|a| - 1], b[..|b| - 1]);
      if a[|a| - 1] != b[|b| - 1] {
        DistSymmetric(a[..|a| - 1], b);
        DistSymmetric(a, b[..|b| - 1]);
      }
    }
  }

  // ---------------------------------------------------------------- similarity

  /** The share of the longer length that the edits leave untouched. */
  function Ratio(len: nat, d: nat): (r: real)
    requires 0 < len && d <= len
    ensures 0.0 <= r <= 1.0
    ensures r == 1.0 <==> d == 0
    ensures r > 0.9 <==> 10 * (len - d) > 9 * len
  {
    var x := (len - d) as real / len as real;
    assert x * len as real == (len - d) as real;
    RatioAbove(len - d, len);
    x
  }

  /**
   * `calculateSimilarity`: (longer - distance) / longer, 1.0 for two empty
   * strings. On a length tie the second argument is the "longer" one.
   */
  function CalculateSimilarity(str1: string, str2: string): (r: real)
    ensures 0.0 <= r <= 1.0
    ensures |str1| == 0 && |str2| == 0 ==> r == 1.0
    ensures r == 1.0 <==> str1 == str2
  {
    var longer := if |str1| > |str2| then str1 else str2;
    var shorter := if |str1| > |str2| then str2 else str1;
    if |longer| == 0 then 1.0
    else
      DistZeroIff(longer, shorter);
      Ratio(|longer|, Dist(longer, shorter))
  }

  /** Similarity does not depend on the order of its arguments. */
  lemma SimilaritySymmetric(a: string, b: string)
    ensures CalculateSimilarity(a, b) == CalculateSimilarity(b, a)
  {
    DistSymmetric(a, b);
  }

  /** The duplicate threshold of `isDuplicate`: similarity strictly above 0.9. */
  predicate IsSimilar(a: string, b: string) {
    CalculateSimilarity(a, b) > 0.9
  }

  /** The threshold test in whole numbers: ten times the matching length beats nine times the longer length. */
  lemma SimilarIffIntegers(a: string, b: string)
    requires |a| > 0 || |b| > 0
    ensures IsSimilar(a, b) <==> 10 * (Max(|a|, |b|) - Dist(a, b)) > 9 * Max(|a|, |b|)
  {
    if |a| <= |b| {
      DistSymmetric(a, b);
    }
  }

  lemma RatioAbove(n: int, len: int)
    requires len > 0
    ensures n as real / len as real > 0.9 <==> 10 * n > 9 * len
  {
    var x := n as real / len as real;
    assert x * len as real == n as real;
    PositiveProduct(x - 0.9, len as real);
    assert (x - 0.9) * len as real == n as real - 0.9 * len as real;
  }

  lemma PositiveProduct(a: real, b: real)
    requires b > 0.0
    ensures a > 0.0 <==> a * b > 0.0
  {
    if a > 0.0 {
      assert a * b > 0.0;
    } else {
      assert (-a) * b >= 0.0;
    }
  }
}
