/** The edit distance behind name suggestions, computed with two rows of a table. */
module EditDistance {

  function Min(a: nat, b: nat): nat {
    if a < b then a else b
  }

  function SubstCost(c: char, d: char): nat {
    if c == d then 0 else 1
  }

  /** The distance by its recurrence on the last characters. */
  function Dist(a: string, b: string): nat
    decreases |a| + |b|
  {
    if a == [] then |b|
    else if b == [] then |a|
    else
      var a', b' := a[..|a| - 1], b[..|b| - 1];
      Min(Min(Dist(a', b) + 1, Dist(a, b') + 1), Dist(a', b') + SubstCost(a[|a| - 1], b[|b| - 1]))
  }

  lemma DistLast(a: string, c: char, b: string, d: char)
    ensures Dist(a + [c], b + [d])
         == Min(Min(Dist(a, b + [d]) + 1, Dist(a + [c], b) + 1), Dist(a, b) + SubstCost(c, d))
  {
    assert (a + [c])[..|a|] == a && (b + [d])[..|b|] == b;
  }

  lemma DistDeleteLast(a: string, c: char, b: string)
    ensures Dist(a + [c], b) <= Dist(a, b) + 1
  {
    assert (a + [c])[..|a|] == a;
  }

  /** One cell of the table, over prefixes. */
  lemma DistCell(a: string, i: nat, b: string, j: nat)
    requires 0 < i <= |a| && 0 < j <= |b|
    ensures Dist(a[..i], b[..j])
         == Min(Min(Dist(a[..i - 1], b[..j]) + 1, Dist(a[..i], b[..j - 1]) + 1),
                Dist(a[..i - 1], b[..j - 1]) + SubstCost(a[i - 1], b[j - 1]))
  {
    hide Dist, Min, SubstCost;
    assert a[..i] == a[..i - 1] + [a[i - 1]] && b[..j] == b[..j - 1] + [b[j - 1]];
    DistLast(a[..i - 1], a[i - 1], b[..j - 1], b[j - 1]);
  }

  lemma DistEdge(a: string)
    ensures Dist(a, []) == |a| && Dist([], a) == |a|
  {}

  /** `levenshtein_distance`. */
  method LevenshteinDistance(a: string, b: string) returns (d: nat)
    ensures d == Dist(a, b)
  {
    hide Dist;
    DistEdge(a);
    DistEdge(b);
    if |a| == 0 {
      return |b|;
    }
    if |b| == 0 {
      return |a|;
    }
    forall j | 0 <= j <= |b| ensures Dist(a[..0], b[..j]) == j {
      DistEdge(b[..j]);
    }
    var prev := new nat[|b| + 1](j => j);
    var curr := new nat[|b| + 1](_ => 0);
    var i := 1;
    while i <= |a|
      invariant 1 <= i <= |a| + 1
      invariant prev.Length == curr.Length == |b| + 1 && prev != curr && fresh(prev) && fresh(curr)
      invariant forall j :: 0 <= j <= |b| ==> prev[j] == Dist(a[..i - 1], b[..j])
    {
      curr[0] := i;
      DistEdge(a[..i]);
      var j := 1;
      while j <= |b|
        invariant 1 <= j <= |b| + 1
        invariant forall k :: 0 <= k <= |b| ==> prev[k] == Dist(a[..i - 1], b[..k])
        invariant forall k :: 0 <= k < j ==> curr[k] == Dist(a[..i], b[..k])
      {
        DistCell(a, i, b, j);
        curr[j] := Min(Min(prev[j] + 1, curr[j - 1] + 1), prev[j - 1] + SubstCost(a[i - 1], b[j - 1]));
        j := j + 1;
      }
      prev, curr := curr, prev;
      i := i + 1;
    }
    assert a[..|a|] == a && b[..|b|] == b;
    d := prev[|b|];
  }

  // ---- The distance is a metric ----

  lemma {:induction false} DistSymmetric(a: string, b: string)
    ensures Dist(a, b) == Dist(b, a)
    decreases |a| + |b|
  {
    if a != [] && b != [] {
      DistSymmetric(a[..|a| - 1], b);
      DistSymmetric(a, b[..|b| - 1]);
      DistSymmetric(a[..|a| - 1], b[..|b| - 1]);
    }
  }

  lemma {:induction false} DistZero(a: string, b: string)
    ensures Dist(a, b) == 0 <==> a == b
    decreases |a| + |b|
  {
    if a != [] && b != [] {
      var a', b' := a[..|a| - 1], b[..|b| - 1];
      DistZero(a', b');
      assert a == a' + [a[|a| - 1]] && b == b' + [b[|b| - 1]];
    }
  }

  lemma {:induction false} DistLength(a: string, b: string)
    ensures |a| <= |b| + Dist(a, b) && |b| <= |a| + Dist(a, b)
    ensures Dist(a, b) <= |a| + |b|
    decreases |a| + |b|
  {
    if a != [] && b != [] {
      DistLength(a[..|a| - 1], b);
      DistLength(a, b[..|b| - 1]);
      DistLength(a[..|a| - 1], b[..|b| - 1]);
    }
  }

  lemma {:induction false} DistTriangle(a: string, b: string, c: string)
    ensures Dist(a, c) <= Dist(a, b) + Dist(b, c)
    decreases |a| + |b| + |c|
  {
    hide Dist;
    DistLength(a, b);
    DistLength(b, c);
    DistLength(a, c);
    if a != [] && b != [] && c != [] {
      var a', b', c' := a[..|a| - 1], b[..|b| - 1], c[..|c| - 1];
      var x, y, z := a[|a| - 1], b[|b| - 1], c[|c| - 1];
      assert a == a' + [x] && b == b' + [y] && c == c' + [z];
      DistTriangle(a', b, c);
      DistTriangle(a, b, c');
      DistTriangle(a, b', c);
      DistTriangle(a, b', c');
      DistTriangle(a', b', c);
      DistTriangle(a', b', c');
      DistLast(a', x, b', y);
      DistLast(b', y, c', z);
      DistLast(a', x, c', z);
    } else {
      DistEdge(a);
      DistEdge(b);
      DistEdge(c);
    }
  }

  // ---- The distance counts edits ----

  /** One insertion, deletion or substitution of a character. */
  ghost predicate OneEdit(a: string, b: string) {
    exists pre: string, x: string, y: string, post: string ::
      a == pre + x + post && b == pre + y + post && |x| <= 1 && |y| <= 1
  }

  /** `steps` leads from its first text to its last by single edits. */
  ghost predicate IsScript(steps: seq<string>) {
    |steps| > 0 && (|steps| > 1 ==> OneEdit(steps[|steps| - 2], steps[|steps| - 1]) && IsScript(steps[..|steps| - 1]))
  }

  lemma {:induction false} DistCommonEnd(a: string, b: string, post: string)
    ensures Dist(a + post, b + post) <= Dist(a, b)
  {
    if post == [] {
      assert a + post == a && b + post == b;
    } else {
      var init := post[..|post| - 1];
      DistCommonEnd(a, b, init);
      assert (a + post)[..|a + post| - 1] == a + init && (b + post)[..|b + post| - 1] == b + init;
    }
  }

  lemma DistChangeLast(pre: string, x: string, y: string)
    requires |x| <= 1 && |y| <= 1
    ensures Dist(pre + x, pre + y) <= 1
  {
    hide Dist;
    DistZero(pre, pre);
    assert pre + [] == pre;
    assert x != [] ==> x == [x[0]];
    assert y != [] ==> y == [y[0]];
    if x != [] && y != [] {
      DistLast(pre, x[0], pre, y[0]);
    } else if x != [] {
      DistDeleteLast(pre, x[0], pre);
    } else if y != [] {
      DistDeleteLast(pre, y[0], pre);
      DistSymmetric(pre, pre + y);
    }
  }

  lemma DistOneEdit(a: string, b: string)
    requires OneEdit(a, b)
    ensures Dist(a, b) <= 1
  {
    hide Dist;
    var pre: string, x: string, y: string, post: string :|
      a == pre + x + post && b == pre + y + post && |x| <= 1 && |y| <= 1;
    DistCommonEnd(pre + x, pre + y, post);
    DistChangeLast(pre, x, y);
  }

  /** No sequence of single edits is shorter than the distance. */
  lemma {:induction false} ScriptAtLeastDist(steps: seq<string>)
    requires IsScript(steps)
    ensures Dist(steps[0], steps[|steps| - 1]) <= |steps| - 1
  {
    hide OneEdit;
    if |steps| == 1 {
      DistZero(steps[0], steps[0]);
    } else {
      ScriptAtLeastDist(steps[..|steps| - 1]);
      DistOneEdit(steps[|steps| - 2], steps[|steps| - 1]);
      DistTriangle(steps[0], steps[|steps| - 2], steps[|steps| - 1]);
    }
  }

  function Extend(steps: seq<string>, post: string): seq<string> {
    seq(|steps|, i requires 0 <= i < |steps| => steps[i] + post)
  }

  lemma {:induction false} ExtendScript(steps: seq<string>, post: string)
    requires IsScript(steps)
    ensures IsScript(Extend(steps, post))
  {
    hide OneEdit;
    if |steps| > 1 {
      ExtendScript(steps[..|steps| - 1], post);
      var s := Extend(steps, post);
      assert s[|s| - 2] == steps[|steps| - 2] + post && s[|s| - 1] == steps[|steps| - 1] + post;
      assert s[..|s| - 1] == Extend(steps[..|steps| - 1], post);
      ExtendEdit(steps[|steps| - 2], steps[|steps| - 1], post);
    }
  }

  lemma ExtendEdit(a: string, b: string, post: string)
    requires OneEdit(a, b)
    ensures OneEdit(a + post, b + post)
  {
    var pre: string, x: string, y: string, tail: string :|
      a == pre + x + tail && b == pre + y + tail && |x| <= 1 && |y| <= 1;
    assert a + post == pre + x + (tail + post) && b + post == pre + y + (tail + post);
  }

  lemma PushScript(steps: seq<string>, b: string)
    requires IsScript(steps) && OneEdit(steps[|steps| - 1], b)
    ensures IsScript(steps + [b])
  {
    assert (steps + [b])[..|steps|] == steps;
  }

  lemma EditLast(pre: string, x: string, y: string)
    requires |x| <= 1 && |y| <= 1
    ensures OneEdit(pre + x, pre + y)
  {
    assert pre + x == pre + x + [] && pre + y == pre + y + [];
  }

  /** Carry a script over to texts with one more character `x`, and then change that to `y`. */
  lemma ScriptThenLast(s: seq<string>, x: string, y: string) returns (steps: seq<string>)
    requires IsScript(s) && |x| <= 1 && |y| <= 1
    ensures IsScript(steps) && |steps| == |s| + (if x == y then 0 else 1)
    ensures steps[0] == s[0] + x && steps[|steps| - 1] == s[|s| - 1] + y
  {
    steps := Extend(s, x);
    ExtendScript(s, x);
    if x != y {
      hide IsScript, OneEdit;
      EditLast(s[|s| - 1], x, y);
      PushScript(steps, s[|s| - 1] + y);
      steps := steps + [s[|s| - 1] + y];
    }
  }

  /** Which of the three predecessors the distance comes from: drop the last character of `a`
      when `x` holds it, and of `b` when `y` holds it. */
  lemma DistFrom(a: string, b: string) returns (x: string, y: string)
    requires a != [] || b != []
    ensures |x| <= 1 && |y| <= 1 && |x| + |y| > 0 && |x| <= |a| && |y| <= |b|
    ensures a == a[..|a| - |x|] + x && b == b[..|b| - |y|] + y
    ensures Dist(a, b) == Dist(a[..|a| - |x|], b[..|b| - |y|]) + if x == y then 0 else 1
  {
    hide Dist;
    DistEdge(a);
    DistEdge(b);
    DistEdge(a[..if a == [] then 0 else |a| - 1]);
    DistEdge(b[..if b == [] then 0 else |b| - 1]);
    if a != [] && b != [] {
      assert a == a[..|a| - 1] + [a[|a| - 1]] && b == b[..|b| - 1] + [b[|b| - 1]];
      DistLast(a[..|a| - 1], a[|a| - 1], b[..|b| - 1], b[|b| - 1]);
    }
    var m, n := |a|, |b|;
    if a == [] || (b != [] && Dist(a, b) == Dist(a, b[..n - 1]) + 1) {
      x, y := [], b[n - 1..];
      assert a[..m] == a;
    } else if b == [] || Dist(a, b) == Dist(a[..m - 1], b) + 1 {
      x, y := a[m - 1..], [];
      assert b[..n] == b;
    } else {
      x, y := a[m - 1..], b[n - 1..];
    }
  }

  /** And some sequence of single edits is exactly as long. */
  lemma {:induction false} ScriptOfDist(a: string, b: string) returns (steps: seq<string>)
    ensures IsScript(steps) && steps[0] == a && steps[|steps| - 1] == b && |steps| - 1 == Dist(a, b)
    decreases |a| + |b|
  {
    if a == [] && b == [] {
      steps := [[]];
    } else {
      hide Dist, OneEdit;
      var x, y := DistFrom(a, b);
      var s := ScriptOfDist(a[..|a| - |x|], b[..|b| - |y|]);
      steps := ScriptThenLast(s, x, y);
    }
  }
}
