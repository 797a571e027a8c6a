/** The parts of Rust's `str` the model relies on. A string is a sequence of
    Unicode scalar values, as in Rust. */
module Text {

  /** The Unicode White_Space property, which `str::trim` and `char::is_whitespace` use. */
  predicate IsSpace(c: char) {
    || '\t' <= c <= '\r'
    || c == ' '
    || c == '\U{85}'
    || c == '\U{A0}'
    || c == '\U{1680}'
    || '\U{2000}' <= c <= '\U{200A}'
    || c == '\U{2028}' || c == '\U{2029}'
    || c == '\U{202F}'
    || c == '\U{205F}'
    || c == '\U{3000}'
  }

  function TrimStart(s: string): string {
    if s != [] && IsSpace(s[0]) then TrimStart(s[1..]) else s
  }

  function TrimEnd(s: string): string {
    if s != [] && IsSpace(s[|s| - 1]) then TrimEnd(s[..|s| - 1]) else s
  }

  function Trim(s: string): string {
    TrimEnd(TrimStart(s))
  }

  ghost predicate AllSpace(s: string) {
    forall i :: 0 <= i < |s| ==> IsSpace(s[i])
  }

  ghost predicate IsTrimmed(s: string) {
    s != [] ==> !IsSpace(s[0]) && !IsSpace(s[|s| - 1])
  }

  lemma {:induction false} TrimStartSplits(s: string) returns (pre: string)
    ensures s == pre + TrimStart(s) && AllSpace(pre)
    ensures TrimStart(s) != [] ==> !IsSpace(TrimStart(s)[0])
  {
    if s != [] && IsSpace(s[0]) {
      var p := TrimStartSplits(s[1..]);
      pre := [s[0]] + p;
    } else {
      pre := [];
    }
  }

  lemma {:induction false} TrimEndSplits(s: string) returns (post: string)
    ensures s == TrimEnd(s) + post && AllSpace(post)
    ensures TrimEnd(s) != [] ==> !IsSpace(TrimEnd(s)[|TrimEnd(s)| - 1])
  {
    if s != [] && IsSpace(s[|s| - 1]) {
      var p := TrimEndSplits(s[..|s| - 1]);
      post := p + [s[|s| - 1]];
      assert s == s[..|s| - 1] + [s[|s| - 1]];
    } else {
      post := [];
    }
  }

  /** Trimming removes exactly a run of white space at each end. */
  lemma TrimSplits(s: string) returns (pre: string, post: string)
    ensures s == pre + Trim(s) + post
    ensures AllSpace(pre) && AllSpace(post)
    ensures IsTrimmed(Trim(s))
  {
    pre := TrimStartSplits(s);
    post := TrimEndSplits(TrimStart(s));
    assert pre + TrimStart(s) == pre + Trim(s) + post;
  }

  lemma TrimIsTrimmed(s: string)
    ensures IsTrimmed(Trim(s))
  {
    var _, _ := TrimSplits(s);
  }

  lemma TrimFixed(s: string)
    requires IsTrimmed(s)
    ensures Trim(s) == s
  {
  }

  lemma TrimIdempotent(s: string)
    ensures Trim(Trim(s)) == Trim(s)
  {
    TrimIsTrimmed(s);
    TrimFixed(Trim(s));
  }

  lemma {:induction false} TrimStartSkips(pre: string, s: string)
    requires AllSpace(pre)
    ensures TrimStart(pre + s) == TrimStart(s)
  {
    if pre == [] {
      assert pre + s == s;
    } else {
      TrimStartSkips(pre[1..], s);
      assert (pre + s)[1..] == pre[1..] + s;
    }
  }

  lemma {:induction false} TrimEndSkips(s: string, post: string)
    requires AllSpace(post)
    ensures TrimEnd(s + post) == TrimEnd(s)
  {
    if post == [] {
      assert s + post == s;
    } else {
      var rest := post[..|post| - 1];
      TrimEndSkips(s, rest);
      assert (s + post)[..|s + post| - 1] == s + rest;
    }
  }

  /** Padding with white space does not change what trimming leaves. */
  lemma TrimUnique(pre: string, t: string, post: string)
    requires AllSpace(pre) && AllSpace(post) && IsTrimmed(t)
    ensures Trim(pre + t + post) == t
  {
    assert pre + t + post == pre + (t + post);
    TrimStartSkips(pre, t + post);
    if t == [] {
      assert t + post == post + [];
      TrimStartSkips(post, []);
    } else {
      assert TrimStart(t + post) == t + post;
      TrimEndSkips(t, post);
    }
  }

  lemma TrimBlank(s: string)
    ensures Trim(s) == [] <==> AllSpace(s)
  {
    var pre, post := TrimSplits(s);
    if AllSpace(s) {
      TrimUnique(s, [], []);
      assert s + [] + [] == s;
    }
  }

  /** ASCII lowering of one scalar. */
  function LowerChar(c: char): char {
    if 'A' <= c <= 'Z' then (c as int + 32) as char else c
  }

  function Lower(s: string): (r: string)
    ensures |r| == |s|
  {
    seq(|s|, i requires 0 <= i < |s| => LowerChar(s[i]))
  }

  /** `s.contains(needle)`. */
  predicate Contains(s: string, needle: string) {
    exists i | 0 <= i <= |s| :: OccursAt(s, needle, i)
  }

  predicate OccursAt(s: string, needle: string, i: nat) {
    i + |needle| <= |s| && s[i..i + |needle|] == needle
  }

  lemma ContainsInfix(pre: string, s: string, post: string, needle: string)
    requires Contains(s, needle)
    ensures Contains(pre + s + post, needle)
  {
    var i :| 0 <= i <= |s| && OccursAt(s, needle, i);
    assert (pre + s + post)[|pre| + i..|pre| + i + |needle|] == s[i..i + |needle|];
    assert OccursAt(pre + s + post, needle, |pre| + i);
  }

  /** A fragment absent from a text, ignoring ASCII case, is absent from its trimmed form. */
  lemma LowerTrimContains(s: string, needle: string)
    requires Contains(Lower(Trim(s)), needle)
    ensures Contains(Lower(s), needle)
  {
    var pre, post := TrimSplits(s);
    assert Lower(s) == Lower(pre) + Lower(Trim(s)) + Lower(post);
    ContainsInfix(Lower(pre), Lower(Trim(s)), Lower(post), needle);
  }

  /** `s.split(c)`: never empty, and blank pieces are kept. */
  function Split(s: string, c: char): (r: seq<string>)
    ensures |r| >= 1
  {
    if s == [] then [[]]
    else
      var rest := Split(s[1..], c);
      if s[0] == c then [[]] + rest else [[s[0]] + rest[0]] + rest[1..]
  }

  function Join(parts: seq<string>, sep: string): string {
    if parts == [] then []
    else if |parts| == 1 then parts[0]
    else parts[0] + sep + Join(parts[1..], sep)
  }

  lemma {:induction false} SplitWhole(a: string, c: char)
    requires c !in a
    ensures Split(a, c) == [a]
  {
    if a != [] {
      SplitWhole(a[1..], c);
      assert [a[0]] + a[1..] == a;
    }
  }

  lemma {:induction false} SplitHead(a: string, c: char, b: string)
    requires c !in a
    ensures Split(a + [c] + b, c) == [a] + Split(b, c)
  {
    var s := a + [c] + b;
    if a == [] {
      assert s[1..] == b;
    } else {
      SplitHead(a[1..], c, b);
      assert s[1..] == a[1..] + [c] + b;
      assert [a[0]] + a[1..] == a;
    }
  }

  /** Splitting undoes joining on pieces free of the separator. */
  lemma {:induction false} SplitJoin(parts: seq<string>, c: char)
    requires parts != [] && forall i :: 0 <= i < |parts| ==> c !in parts[i]
    ensures Split(Join(parts, [c]), c) == parts
  {
    if |parts| == 1 {
      SplitWhole(parts[0], c);
    } else {
      SplitHead(parts[0], c, Join(parts[1..], [c]));
      SplitJoin(parts[1..], c);
    }
  }

  /** Joining undoes splitting, on every text. */
  lemma {:induction false} JoinSplit(s: string, c: char)
    ensures Join(Split(s, c), [c]) == s
    ensures forall i :: 0 <= i < |Split(s, c)| ==> c !in Split(s, c)[i]
  {
    if s != [] {
      JoinSplit(s[1..], c);
      var rest := Split(s[1..], c);
      if s[0] == c {
        assert ([[]] + rest)[1..] == rest;
        assert [] + [c] + s[1..] == s;
      } else {
        var r := [[s[0]] + rest[0]] + rest[1..];
        assert r[1..] == rest[1..];
        assert Join(r, [c]) == [s[0]] + Join(rest, [c]);
      }
    }
  }

  // ---- Cutting a text at its first or last separator ----

  function First(s: string, c: char): nat
    requires c in s
  {
    if s[0] == c then 0 else 1 + First(s[1..], c)
  }

  function Last(s: string, c: char): nat
    requires c in s
  {
    if s[|s| - 1] == c then |s| - 1 else Last(s[..|s| - 1], c)
  }

  lemma {:induction false} FirstAt(a: string, c: char, b: string)
    requires c !in a
    ensures c in a + [c] + b && First(a + [c] + b, c) == |a|
  {
    assert (a + [c] + b)[|a|] == c;
    if a != [] {
      assert (a + [c] + b)[1..] == a[1..] + [c] + b;
      FirstAt(a[1..], c, b);
    }
  }

  lemma {:induction false} LastAt(a: string, c: char, b: string)
    requires c !in b
    ensures c in a + [c] + b && Last(a + [c] + b, c) == |a|
  {
    var s := a + [c] + b;
    assert s[|a|] == c;
    if b != [] {
      assert s[..|s| - 1] == a + [c] + b[..|b| - 1];
      LastAt(a, c, b[..|b| - 1]);
    }
  }

  lemma SplitAtFirst(a1: string, c: char, b1: string, a2: string, b2: string)
    requires a1 + [c] + b1 == a2 + [c] + b2 && c !in a1 && c !in a2
    ensures a1 == a2 && b1 == b2
  {
    FirstAt(a1, c, b1);
    FirstAt(a2, c, b2);
    var s, t := a1 + [c] + b1, a2 + [c] + b2;
    assert a1 == s[..|a1|] && a2 == t[..|a2|];
    assert b1 == s[|a1| + 1..] && b2 == t[|a2| + 1..];
  }

  lemma SplitAtLast(a1: string, c: char, b1: string, a2: string, b2: string)
    requires a1 + [c] + b1 == a2 + [c] + b2 && c !in b1 && c !in b2
    ensures a1 == a2 && b1 == b2
  {
    LastAt(a1, c, b1);
    LastAt(a2, c, b2);
    var s, t := a1 + [c] + b1, a2 + [c] + b2;
    assert a1 == s[..|a1|] && a2 == t[..|a2|];
    assert b1 == s[|a1| + 1..] && b2 == t[|a2| + 1..];
  }
}
