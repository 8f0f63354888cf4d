/** The one-row dynamic program of `_edit_dist` against the Levenshtein distance, and the
    facts about that distance which the prefix and catalogue snapping rely on. */
module EditDistance {
  /** Levenshtein distance of the first `i` letters of `a` and the first `j` of `b`. */
  ghost function Lev(a: string, b: string, i: nat, j: nat): nat
    requires i <= |a| && j <= |b|
  {
    if i == 0 then j
    else if j == 0 then i
    else Min3(Lev(a, b, i - 1, j) + 1, Lev(a, b, i, j - 1) + 1,
              Lev(a, b, i - 1, j - 1) + Cost(a[i - 1], b[j - 1]))
  }

  ghost function Distance(a: string, b: string): nat {
    Lev(a, b, |a|, |b|)
  }

  function Cost(x: char, y: char): nat {
    if x != y then 1 else 0
  }

  function Min3(x: nat, y: nat, z: nat): nat {
    var m := if y < x then y else x;
    if z < m then z else m
  }

  /** The definition, read as border values and three bounds of which one is met. */
  lemma LevCases(a: string, b: string, i: nat, j: nat)
    requires i <= |a| && j <= |b|
    ensures i == 0 ==> Lev(a, b, i, j) == j
    ensures j == 0 ==> Lev(a, b, i, j) == i
    ensures i > 0 && j > 0 ==>
      && Lev(a, b, i, j) == Min3(Lev(a, b, i - 1, j) + 1, Lev(a, b, i, j - 1) + 1,
                                 Lev(a, b, i - 1, j - 1) + Cost(a[i - 1], b[j - 1]))
  {
  }

  lemma LevBorders(a: string, b: string)
    ensures forall j :: 0 <= j <= |b| ==> Lev(a, b, 0, j) == j
    ensures forall i :: 0 <= i <= |a| ==> Lev(a, b, i, 0) == i
  {
  }

  method EditDist(a: string, b: string) returns (d: nat)
    ensures d == Distance(a, b)
  {
    hide Lev;
    var dp := new nat[|b| + 1](j requires j >= 0 => j);
    LevBorders(a, b);
    for i := 1 to |a| + 1
      invariant forall j :: 0 <= j <= |b| ==> dp[j] == Lev(a, b, i - 1, j)
    {
      var prev := dp[0];
      dp[0] := i;
      for j := 1 to |b| + 1
        invariant prev == Lev(a, b, i - 1, j - 1)
        invariant forall k :: 0 <= k < j ==> dp[k] == Lev(a, b, i, k)
        invariant forall k :: j <= k <= |b| ==> dp[k] == Lev(a, b, i - 1, k)
      {
        LevCases(a, b, i, j);
        prev, dp[j] := dp[j], Min3(dp[j] + 1, dp[j - 1] + 1, prev + Cost(a[i - 1], b[j - 1]));
      }
    }
    d := dp[|b|];
  }

  // ---- what the distance means: cheapest edit script -------------------------------

  datatype Edit = Match(from: char, to: char) | Insert(to: char) | Delete(from: char)

  function Read(e: Edit): string {
    match e { case Match(x, _) => [x] case Insert(_) => [] case Delete(x) => [x] }
  }

  function Written(e: Edit): string {
    match e { case Match(_, y) => [y] case Insert(y) => [y] case Delete(_) => [] }
  }

  function PriceOf(e: Edit): nat {
    match e { case Match(x, y) => Cost(x, y) case _ => 1 }
  }

  ghost function Source(script: seq<Edit>): string {
    if script == [] then [] else Source(script[..|script| - 1]) + Read(script[|script| - 1])
  }

  ghost function Target(script: seq<Edit>): string {
    if script == [] then [] else Target(script[..|script| - 1]) + Written(script[|script| - 1])
  }

  /** A substitution, an insertion and a deletion cost one each; keeping a letter is free. */
  ghost function Price(script: seq<Edit>): nat {
    if script == [] then 0 else Price(script[..|script| - 1]) + PriceOf(script[|script| - 1])
  }

  lemma {:induction false} LevSamePrefix(a: string, b: string, c: string, d: string, i: nat, j: nat)
    requires i <= |a| && j <= |b| && i <= |c| && j <= |d|
    requires a[..i] == c[..i] && b[..j] == d[..j]
    ensures Lev(a, b, i, j) == Lev(c, d, i, j)
  {
    if i > 0 && j > 0 {
      assert a[i - 1] == a[..i][i - 1] && b[j - 1] == b[..j][j - 1];
      assert a[..i - 1] == a[..i][..i - 1] && c[..i - 1] == c[..i][..i - 1];
      assert b[..j - 1] == b[..j][..j - 1] && d[..j - 1] == d[..j][..j - 1];
      LevSamePrefix(a, b, c, d, i - 1, j);
      LevSamePrefix(a, b, c, d, i, j - 1);
      LevSamePrefix(a, b, c, d, i - 1, j - 1);
    }
  }

  /** One more letter on either side, or on both, raises the distance by at most its price. */
  lemma DistanceStep(a: string, b: string, x: char, y: char)
    ensures Distance(a + [x], b) <= Distance(a, b) + 1
    ensures Distance(a, b + [y]) <= Distance(a, b) + 1
    ensures Distance(a + [x], b + [y]) <= Distance(a, b) + Cost(x, y)
  {
    LevSamePrefix(a + [x], b, a, b, |a|, |b|);
    LevSamePrefix(a, b + [y], a, b, |a|, |b|);
    LevSamePrefix(a + [x], b + [y], a, b, |a|, |b|);
  }

  /** No script is cheaper than the distance ... */
  lemma {:induction false} NoCheaperScript(script: seq<Edit>)
    ensures Distance(Source(script), Target(script)) <= Price(script)
  {
    if script != [] {
      var front := script[..|script| - 1];
      NoCheaperScript(front);
      match script[|script| - 1]
      case Match(x, y) => DistanceStep(Source(front), Target(front), x, y);
      case Insert(y) => DistanceStep(Source(front), Target(front), y, y);
                        assert Source(front) + [] == Source(front);
      case Delete(x) => DistanceStep(Source(front), Target(front), x, x);
                        assert Target(front) + [] == Target(front);
    }
  }

  lemma OneMoreEdit(script: seq<Edit>, e: Edit)
    ensures Source(script + [e]) == Source(script) + Read(e)
    ensures Target(script + [e]) == Target(script) + Written(e)
    ensures Price(script + [e]) == Price(script) + PriceOf(e)
  {
    assert (script + [e])[..|script|] == script;
  }

  lemma NoEdits()
    ensures Source([]) == [] && Target([]) == [] && Price([]) == 0
  {
  }

  lemma OneMoreLetter(s: string, i: nat)
    requires 0 < i <= |s|
    ensures s[..i] == s[..i - 1] + [s[i - 1]]
  {
  }

  /** ... and some script has exactly that price. */
  lemma {:induction false} CheapestScript(a: string, b: string, i: nat, j: nat) returns (script: seq<Edit>)
    requires i <= |a| && j <= |b|
    ensures Source(script) == a[..i] && Target(script) == b[..j]
    ensures Price(script) == Lev(a, b, i, j)
    decreases i + j
  {
    hide Lev, Source, Target, Price;
    LevCases(a, b, i, j);
    if i == 0 && j == 0 {
      NoEdits();
      script := [];
    } else if i == 0 || (j > 0 && Lev(a, b, i, j) == Lev(a, b, i, j - 1) + 1) {
      script := CheapestScript(a, b, i, j - 1);
      LevBorders(a, b);
      OneMoreEdit(script, Insert(b[j - 1]));
      OneMoreLetter(b, j);
      script := script + [Insert(b[j - 1])];
    } else if j == 0 || Lev(a, b, i, j) == Lev(a, b, i - 1, j) + 1 {
      script := CheapestScript(a, b, i - 1, j);
      LevBorders(a, b);
      OneMoreEdit(script, Delete(a[i - 1]));
      OneMoreLetter(a, i);
      script := script + [Delete(a[i - 1])];
    } else {
      script := CheapestScript(a, b, i - 1, j - 1);
      OneMoreEdit(script, Match(a[i - 1], b[j - 1]));
      OneMoreLetter(a, i);
      OneMoreLetter(b, j);
      script := script + [Match(a[i - 1], b[j - 1])];
    }
  }

  // ---- the distance is a metric -----------------------------------------------------

  lemma {:induction false} LevZero(a: string, b: string, i: nat, j: nat)
    requires i <= |a| && j <= |b|
    ensures Lev(a, b, i, j) == 0 <==> a[..i] == b[..j]
  {
    if i > 0 && j > 0 {
      LevZero(a, b, i - 1, j - 1);
      assert a[..i] == a[..i - 1] + [a[i - 1]] && b[..j] == b[..j - 1] + [b[j - 1]];
    }
  }

  lemma {:induction false} LevSymmetric(a: string, b: string, i: nat, j: nat)
    requires i <= |a| && j <= |b|
    ensures Lev(a, b, i, j) == Lev(b, a, j, i)
  {
    hide Lev;
    LevCases(a, b, i, j);
    LevCases(b, a, j, i);
    if i > 0 && j > 0 {
      LevSymmetric(a, b, i - 1, j);
      LevSymmetric(a, b, i, j - 1);
      LevSymmetric(a, b, i - 1, j - 1);
    }
  }

  lemma {:induction false} LevTriangle(a: string, b: string, c: string, i: nat, j: nat, k: nat)
    requires i <= |a| && j <= |b| && k <= |c|
    ensures Lev(a, c, i, k) <= Lev(a, b, i, j) + Lev(b, c, j, k)
    decreases i + j + k
  {
    hide Lev, Min3, Cost;
    LevCases(a, b, i, j);
    LevCases(b, c, j, k);
    LevCases(a, c, i, k);
    if i > 0 { LevTriangle(a, b, c, i - 1, j, k); }
    if k > 0 { LevTriangle(a, b, c, i, j, k - 1); }
    if j > 0 { LevTriangle(a, b, c, i, j - 1, k); }
    if i > 0 && j > 0 && k > 0 {
      LevTriangle(a, b, c, i - 1, j - 1, k);
      LevTriangle(a, b, c, i, j - 1, k - 1);
      LevTriangle(a, b, c, i - 1, j - 1, k - 1);
      Least(Lev(a, b, i - 1, j) + 1, Lev(a, b, i, j - 1) + 1, Lev(a, b, i - 1, j - 1) + Cost(a[i - 1], b[j - 1]));
      Least(Lev(b, c, j - 1, k) + 1, Lev(b, c, j, k - 1) + 1, Lev(b, c, j - 1, k - 1) + Cost(b[j - 1], c[k - 1]));
      Least(Lev(a, c, i - 1, k) + 1, Lev(a, c, i, k - 1) + 1, Lev(a, c, i - 1, k - 1) + Cost(a[i - 1], c[k - 1]));
      CostTriangle(a[i - 1], b[j - 1], c[k - 1]);
    } else {
      TriangleAtBorder(a, b, c, i, j, k);
    }
  }

  lemma Least(x: nat, y: nat, z: nat)
    ensures Min3(x, y, z) <= x && Min3(x, y, z) <= y && Min3(x, y, z) <= z
    ensures Min3(x, y, z) == x || Min3(x, y, z) == y || Min3(x, y, z) == z
  {
  }

  lemma CostTriangle(x: char, y: char, z: char)
    ensures Cost(x, z) <= Cost(x, y) + Cost(y, z)
  {
  }

  /** The cases in which one of the three words is empty. */
  lemma TriangleAtBorder(a: string, b: string, c: string, i: nat, j: nat, k: nat)
    requires i <= |a| && j <= |b| && k <= |c| && (i == 0 || j == 0 || k == 0)
    ensures Lev(a, c, i, k) <= Lev(a, b, i, j) + Lev(b, c, j, k)
  {
    hide Lev;
    LevBorders(a, b);
    LevBorders(b, c);
    LevBorders(a, c);
    LevBetween(a, b, i, j);
    LevBetween(b, c, j, k);
    LevBetween(a, c, i, k);
  }

  /** The distance is at least the difference of the lengths and at most their sum. */
  lemma {:induction false} LevBetween(a: string, b: string, i: nat, j: nat)
    requires i <= |a| && j <= |b|
    ensures i <= Lev(a, b, i, j) + j && j <= Lev(a, b, i, j) + i && Lev(a, b, i, j) <= i + j
  {
    hide Lev;
    LevCases(a, b, i, j);
    if i > 0 && j > 0 {
      LevBetween(a, b, i - 1, j);
      LevBetween(a, b, i, j - 1);
      LevBetween(a, b, i - 1, j - 1);
    }
  }

  /** Zero exactly on equal strings, symmetric, and the triangle inequality. */
  lemma Metric(a: string, b: string, c: string)
    ensures Distance(a, b) == 0 <==> a == b
    ensures Distance(a, b) == Distance(b, a)
    ensures Distance(a, c) <= Distance(a, b) + Distance(b, c)
  {
    LevZero(a, b, |a|, |b|);
    LevSymmetric(a, b, |a|, |b|);
    LevTriangle(a, b, c, |a|, |b|, |c|);
    assert a[..|a|] == a && b[..|b|] == b;
  }
}
