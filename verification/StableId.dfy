/** Identifiers of golden seeds that stay the same between runs. */
module StableId {
  import opened Wrappers
  import opened Text

  predicate IsAlnum(c: char) {
    'a' <= c <= 'z' || 'A' <= c <= 'Z' || '0' <= c <= '9'
  }

  predicate EndsInUnderscore(s: string) {
    s != [] && s[|s| - 1] == '_'
  }

  /** Letters and digits are lowered and kept; a run of anything else becomes one underscore. */
  function Collapse(value: string): string {
    if value == [] then []
    else
      var out, c := Collapse(value[..|value| - 1]), value[|value| - 1];
      if IsAlnum(c) then out + [LowerChar(c)]
      else if EndsInUnderscore(out) then out
      else out + ['_']
  }

  function DropStart(s: string): string {
    if s != [] && s[0] == '_' then DropStart(s[1..]) else s
  }

  function DropEnd(s: string): string {
    if EndsInUnderscore(s) then DropEnd(s[..|s| - 1]) else s
  }

  function Fragment(value: string): string {
    var t := DropEnd(DropStart(Collapse(value)));
    if t == [] then "none" else t
  }

  /** `stable_id_fragment`: the loop with its flag. */
  method StableIdFragment(value: string) returns (r: string)
    ensures r == Fragment(value)
    ensures IsNormal(r)
  {
    var out, previousUnderscore, i := "", false, 0;
    while i < |value|
      invariant 0 <= i <= |value|
      invariant out == Collapse(value[..i])
      invariant previousUnderscore == EndsInUnderscore(out)
    {
      var c := value[i];
      assert value[..i + 1][..i] == value[..i];
      if IsAlnum(c) {
        out := out + [LowerChar(c)];
        previousUnderscore := false;
      } else if !previousUnderscore {
        out := out + ['_'];
        previousUnderscore := true;
      }
      i := i + 1;
    }
    assert value[..i] == value;
    FragmentIsNormal(value);
    var trimmed := DropEnd(DropStart(out));
    r := if trimmed == [] then "none" else trimmed;
  }

  // ---- The shape of a fragment ----

  predicate IsFragmentChar(c: char) {
    'a' <= c <= 'z' || '0' <= c <= '9' || c == '_'
  }

  /** Lower-case letters, digits and single underscores. */
  ghost predicate IsCollapsed(s: string) {
    && (forall i :: 0 <= i < |s| ==> IsFragmentChar(s[i]))
    && (forall i, j :: 0 <= i < j == i + 1 < |s| ==> s[i] != '_' || s[j] != '_')
  }

  /** A collapsed text that is not empty and neither starts nor ends with an underscore. */
  ghost predicate IsNormal(s: string) {
    IsCollapsed(s) && s != [] && s[0] != '_' && s[|s| - 1] != '_'
  }

  lemma {:induction false} CollapseIsCollapsed(value: string)
    ensures IsCollapsed(Collapse(value))
  {
    if value != [] {
      CollapseIsCollapsed(value[..|value| - 1]);
    }
  }

  lemma {:induction false} DropStartKeeps(s: string)
    requires IsCollapsed(s)
    ensures IsCollapsed(DropStart(s)) && (DropStart(s) != [] ==> DropStart(s)[0] != '_')
  {
    if s != [] && s[0] == '_' {
      DropStartKeeps(s[1..]);
    }
  }

  lemma {:induction false} DropEndKeeps(s: string)
    requires IsCollapsed(s) && (s != [] ==> s[0] != '_')
    ensures IsCollapsed(DropEnd(s))
    ensures DropEnd(s) != [] ==> DropEnd(s)[0] != '_' && DropEnd(s)[|DropEnd(s)| - 1] != '_'
  {
    if EndsInUnderscore(s) {
      DropEndKeeps(s[..|s| - 1]);
    }
  }

  /** Every fragment is normal. */
  lemma FragmentIsNormal(value: string)
    ensures IsNormal(Fragment(value))
  {
    CollapseIsCollapsed(value);
    DropStartKeeps(Collapse(value));
    DropEndKeeps(DropStart(Collapse(value)));
  }

  lemma {:induction false} CollapsedStays(s: string)
    requires IsCollapsed(s)
    ensures Collapse(s) == s
  {
    if s != [] {
      var t := s[..|s| - 1];
      CollapsedStays(t);
      assert s == t + [s[|s| - 1]];
    }
  }

  /** A normal text is its own fragment, so fragments are exactly the normal texts and making
      one twice changes nothing. */
  lemma NormalIsFixed(s: string)
    requires IsNormal(s)
    ensures Fragment(s) == s
  {
    CollapsedStays(s);
  }

  lemma FragmentIdempotent(value: string)
    ensures Fragment(Fragment(value)) == Fragment(value)
  {
    FragmentIsNormal(value);
    NormalIsFixed(Fragment(value));
  }

  lemma {:induction false} CollapseIgnoresCase(value: string)
    ensures Collapse(Lower(value)) == Collapse(value)
  {
    if value != [] {
      var init, c := value[..|value| - 1], value[|value| - 1];
      CollapseIgnoresCase(init);
      assert Lower(value)[..|value| - 1] == Lower(init);
      assert IsAlnum(LowerChar(c)) <==> IsAlnum(c);
    }
  }

  /** Upper and lower case letters make the same fragment. */
  lemma FragmentIgnoresCase(value: string)
    ensures Fragment(Lower(value)) == Fragment(value)
  {
    CollapseIgnoresCase(value);
  }

  // ---- Which texts share a fragment ----

  /** The maximal runs of letters and digits, lowered. */
  function Words(value: string): seq<string> {
    if value == [] then []
    else
      var init, c := value[..|value| - 1], value[|value| - 1];
      var words := Words(init);
      if !IsAlnum(c) then words
      else if init != [] && IsAlnum(init[|init| - 1]) && words != []
      then words[..|words| - 1] + [words[|words| - 1] + [LowerChar(c)]]
      else words + [[LowerChar(c)]]
  }

  lemma {:induction false} JoinPush(words: seq<string>, w: string)
    requires words != []
    ensures Join(words + [w], "_") == Join(words, "_") + "_" + w
  {
    if |words| > 1 {
      JoinPush(words[1..], w);
      assert (words + [w])[1..] == words[1..] + [w];
    } else {
      assert (words + [w])[1..] == [w];
    }
  }

  lemma {:induction false} JoinExtend(words: seq<string>, c: char)
    requires words != []
    ensures Join(words[..|words| - 1] + [words[|words| - 1] + [c]], "_") == Join(words, "_") + [c]
  {
    var longer := words[..|words| - 1] + [words[|words| - 1] + [c]];
    if |words| > 1 {
      JoinExtend(words[1..], c);
      assert longer[1..] == words[1..][..|words| - 2] + [words[1..][|words| - 2] + [c]];
      assert longer[0] == words[0];
    }
  }

  function Before(value: string): string {
    if value != [] && !IsAlnum(value[0]) then "_" else ""
  }

  function After(value: string): string {
    if value != [] && Words(value) != [] && !IsAlnum(value[|value| - 1]) then "_" else ""
  }

  lemma {:induction false} WordsNotEmpty(value: string)
    requires value != [] && (IsAlnum(value[0]) || IsAlnum(value[|value| - 1]))
    ensures Words(value) != []
  {
    if !IsAlnum(value[|value| - 1]) {
      WordsNotEmpty(value[..|value| - 1]);
    }
  }

  lemma JoinAlnum(init: string, c: char)
    requires IsAlnum(c)
    ensures Join(Words(init + [c]), "_") == Join(Words(init), "_") + After(init) + [LowerChar(c)]
  {
    var value, words, l := init + [c], Words(init), LowerChar(c);
    assert value[..|value| - 1] == init;
    if words != [] {
      if IsAlnum(init[|init| - 1]) {
        assert Words(value) == words[..|words| - 1] + [words[|words| - 1] + [l]];
        hide Words, Join;
        JoinExtend(words, l);
      } else {
        assert Words(value) == words + [[l]];
        hide Words, Join;
        JoinPush(words, [l]);
      }
    } else {
      if init != [] && IsAlnum(init[|init| - 1]) {
        WordsNotEmpty(init);
      }
      assert Words(value) == [[l]];
    }
  }

  lemma CollapseAlnum(init: string, c: char)
    requires IsAlnum(c)
    requires Collapse(init) == Before(init) + Join(Words(init), "_") + After(init)
    ensures Collapse(init + [c]) == Before(init + [c]) + Join(Words(init + [c]), "_") + After(init + [c])
  {
    hide Collapse, Words, Join, Before, After;
    EndsAlnum(init, c);
    JoinAlnum(init, c);
    var b, j, a := Before(init), Join(Words(init), "_"), After(init);
    assert b + (j + a + [LowerChar(c)]) + [] == b + j + a + [LowerChar(c)];
  }

  lemma EndsAlnum(init: string, c: char)
    requires IsAlnum(c)
    ensures Collapse(init + [c]) == Collapse(init) + [LowerChar(c)]
    ensures Before(init + [c]) == Before(init) && After(init + [c]) == []
  {
    hide Words, Join;
    assert (init + [c])[..|init|] == init;
  }

  lemma CollapseOther(init: string, c: char)
    requires !IsAlnum(c)
    requires Collapse(init) == Before(init) + Join(Words(init), "_") + After(init)
    ensures Collapse(init + [c]) == Before(init + [c]) + Join(Words(init + [c]), "_") + After(init + [c])
  {
    hide *;
    JoinEnds(init);
    EndsOther(init, c);
    UnderscoreLast(Before(init), Join(Words(init), "_"), After(init));
  }

  lemma UnderscoreLast(b: string, j: string, a: string)
    ensures (a == "_" ==> EndsInUnderscore(b + j + a))
    ensures a == [] && j != [] ==> (EndsInUnderscore(b + j + a) <==> EndsInUnderscore(j))
    ensures a == [] && j == [] ==> b + j + a == b
    ensures a == [] ==> b + j + a + "_" == b + j + "_"
  {
  }

  lemma EndsOther(init: string, c: char)
    requires !IsAlnum(c)
    ensures Collapse(init + [c]) == if EndsInUnderscore(Collapse(init)) then Collapse(init) else Collapse(init) + "_"
    ensures Words(init + [c]) == Words(init)
    ensures Words(init) == [] ==> Join(Words(init), "_") == [] && Before(init + [c]) == "_" && After(init + [c]) == After(init) == []
    ensures Words(init) == [] ==> Before(init) == if init == [] then "" else "_"
    ensures Words(init) != [] ==> Before(init + [c]) == Before(init) && After(init + [c]) == "_" && (After(init) == [] || After(init) == "_")
    ensures !EndsInUnderscore("") && EndsInUnderscore("_")
  {
    assert (init + [c])[..|init|] == init;
    if Words(init) == [] && init != [] && IsAlnum(init[0]) {
      WordsNotEmpty(init);
    }
  }

  /** The collapsed text is the words joined by underscores, with an underscore at each end
      where the value has something else there. */
  lemma {:induction false} CollapseJoinsWords(value: string)
    ensures Collapse(value) == Before(value) + Join(Words(value), "_") + After(value)
  {
    if value != [] {
      var init, c := value[..|value| - 1], value[|value| - 1];
      CollapseJoinsWords(init);
      hide Collapse, Words, Join, Before, After;
      assert init + [c] == value;
      if IsAlnum(c) {
        CollapseAlnum(init, c);
      } else {
        CollapseOther(init, c);
      }
    }
  }

  /** The last character of the joined words is a letter or digit. */
  lemma {:induction false} JoinEnds(value: string)
    ensures forall i :: 0 <= i < |Words(value)| ==> Words(value)[i] != [] && '_' !in Words(value)[i]
    ensures Words(value) != [] ==> Join(Words(value), "_") != [] && !EndsInUnderscore(Join(Words(value), "_"))
                                   && Join(Words(value), "_")[0] != '_'
  {
    if value != [] {
      JoinEnds(value[..|value| - 1]);
    }
    JoinedEnds(Words(value));
  }

  lemma {:induction false} JoinedEnds(words: seq<string>)
    requires forall i :: 0 <= i < |words| ==> words[i] != [] && '_' !in words[i]
    ensures words != [] ==> Join(words, "_") != [] && !EndsInUnderscore(Join(words, "_")) && Join(words, "_")[0] != '_'
  {
    if |words| > 1 {
      JoinedEnds(words[1..]);
    }
  }

  /** A fragment is the words of the value joined by underscores, or "none" without words. */
  lemma FragmentJoinsWords(value: string)
    ensures Fragment(value) == if Words(value) == [] then "none" else Join(Words(value), "_")
  {
    CollapseJoinsWords(value);
    JoinEnds(value);
    var j, pre, post := Join(Words(value), "_"), Before(value), After(value);
    if Words(value) != [] {
      hide Collapse, Words, Join;
      StripJoined(pre, j, post);
    }
  }

  lemma StripJoined(pre: string, j: string, post: string)
    requires (pre == [] || pre == "_") && (post == [] || post == "_")
    requires j != [] && j[0] != '_' && !EndsInUnderscore(j)
    ensures DropEnd(DropStart(pre + j + post)) == j
  {
    var s, t := pre + j + post, j + post;
    assert s[|pre|..] == t && t[0] == j[0];
    assert pre == [] ==> s == t;
    assert DropStart(s) == t;
    assert post != [] ==> t[..|t| - 1] == j;
    assert post == [] ==> t == j;
  }

  /** Two values share a fragment exactly when they have the same words, the one word "none"
      counting as no words at all. */
  lemma FragmentsAgree(a: string, b: string)
    ensures Fragment(a) == Fragment(b) <==>
      Words(a) == Words(b) || (NoWords(Words(a)) && NoWords(Words(b)))
  {
    FragmentJoinsWords(a);
    FragmentJoinsWords(b);
    JoinEnds(a);
    JoinEnds(b);
    var x := if Words(a) == [] then ["none"] else Words(a);
    var y := if Words(b) == [] then ["none"] else Words(b);
    assert Join(["none"], "_") == "none";
    SplitJoin(x, '_');
    SplitJoin(y, '_');
  }

  predicate NoWords(words: seq<string>) {
    words == [] || words == ["none"]
  }

  // ---- Seed ids ----

  function SeedParts(seedType: string, uniqueId: string, indicatorType: Option<string>, indicatorName: Option<string>): seq<string> {
    ["golden_seed", seedType, uniqueId,
     if indicatorType.Some? then indicatorType.value else "-",
     if indicatorName.Some? then indicatorName.value else "-"]
  }

  function Fragments(parts: seq<string>): seq<string> {
    seq(|parts|, i requires 0 <= i < |parts| => Fragment(parts[i]))
  }

  /** `stable_seed_id`. */
  function StableSeedId(seedType: string, uniqueId: string, indicatorType: Option<string>, indicatorName: Option<string>): string {
    Join(Fragments(SeedParts(seedType, uniqueId, indicatorType, indicatorName)), "::")
  }

  /** Splitting on a double colon. */
  function SplitColons(s: string): (r: seq<string>)
    ensures |r| >= 1
  {
    if s == [] then [[]]
    else if |s| >= 2 && s[0] == ':' && s[1] == ':' then [[]] + SplitColons(s[2..])
    else
      var rest := SplitColons(s[1..]);
      [[s[0]] + rest[0]] + rest[1..]
  }

  lemma {:induction false} SplitColonsWhole(a: string)
    requires ':' !in a
    ensures SplitColons(a) == [a]
  {
    if a != [] {
      SplitColonsWhole(a[1..]);
      assert [a[0]] + a[1..] == a;
    }
  }

  lemma {:induction false} SplitColonsHead(a: string, b: string)
    requires ':' !in a
    ensures SplitColons(a + "::" + b) == [a] + SplitColons(b)
  {
    var s := a + "::" + b;
    if a == [] {
      assert s[2..] == b;
    } else {
      SplitColonsHead(a[1..], b);
      assert s[1..] == a[1..] + "::" + b;
      assert [a[0]] + a[1..] == a;
    }
  }

  lemma {:induction false} SplitColonsJoin(parts: seq<string>)
    requires parts != [] && forall i :: 0 <= i < |parts| ==> ':' !in parts[i]
    ensures SplitColons(Join(parts, "::")) == parts
  {
    if |parts| == 1 {
      SplitColonsWhole(parts[0]);
    } else {
      SplitColonsHead(parts[0], Join(parts[1..], "::"));
      SplitColonsJoin(parts[1..]);
    }
  }

  /** Splitting a seed id recovers its five fragments. */
  lemma SeedIdSplits(seedType: string, uniqueId: string, indicatorType: Option<string>, indicatorName: Option<string>)
    ensures SplitColons(StableSeedId(seedType, uniqueId, indicatorType, indicatorName))
         == Fragments(SeedParts(seedType, uniqueId, indicatorType, indicatorName))
  {
    var fragments := Fragments(SeedParts(seedType, uniqueId, indicatorType, indicatorName));
    forall i | 0 <= i < |fragments| ensures ':' !in fragments[i] {
      FragmentIsNormal(SeedParts(seedType, uniqueId, indicatorType, indicatorName)[i]);
    }
    SplitColonsJoin(fragments);
  }

  /** Two seed ids are equal exactly when all their fragments are. */
  lemma SeedIdsAgree(t1: string, u1: string, it1: Option<string>, in1: Option<string>,
                     t2: string, u2: string, it2: Option<string>, in2: Option<string>)
    ensures StableSeedId(t1, u1, it1, in1) == StableSeedId(t2, u2, it2, in2)
       <==> forall i :: 0 <= i < 5 ==> Fragment(SeedParts(t1, u1, it1, in1)[i]) == Fragment(SeedParts(t2, u2, it2, in2)[i])
  {
    SeedIdSplits(t1, u1, it1, in1);
    SeedIdSplits(t2, u2, it2, in2);
    hide Fragment, Join, SplitColons;
    var p, q := SeedParts(t1, u1, it1, in1), SeedParts(t2, u2, it2, in2);
    assert |p| == 5 && |q| == 5;
    hide SeedParts;
    var a, b := Fragments(p), Fragments(q);
    if forall i :: 0 <= i < 5 ==> Fragment(p[i]) == Fragment(q[i]) {
      assert a == b;
    }
    if a == b {
      forall i | 0 <= i < 5 ensures Fragment(p[i]) == Fragment(q[i]) {
        assert a[i] == b[i];
      }
    }
  }

  /** A seed id begins with its kind, and an indicator that is not there shows as "none". */
  lemma SeedIdShape(seedType: string, uniqueId: string, indicatorType: Option<string>, indicatorName: Option<string>)
    ensures var parts := SplitColons(StableSeedId(seedType, uniqueId, indicatorType, indicatorName));
            && |parts| == 5 && parts[0] == "golden_seed" && parts[1] == Fragment(seedType) && parts[2] == Fragment(uniqueId)
            && parts[3] == (if indicatorType.Some? then Fragment(indicatorType.value) else "none")
            && parts[4] == (if indicatorName.Some? then Fragment(indicatorName.value) else "none")
  {
    SeedIdSplits(seedType, uniqueId, indicatorType, indicatorName);
    GoldenIsNormal();
    NormalIsFixed("golden_seed");
    DashIsNone();
    hide Fragment, StableSeedId, SplitColons;
  }

  lemma GoldenIsNormal()
    ensures IsNormal("golden_seed")
  {
  }

  lemma DashIsNone()
    ensures Fragment("-") == "none"
  {
    FragmentJoinsWords("-");
    assert Words("-") == [] by { assert "-"[..0] == []; }
  }

  lemma JoinCons(x: string, rest: seq<string>)
    requires rest != []
    ensures Join([x] + rest, "::") == x + "::" + Join(rest, "::")
  {
    assert ([x] + rest)[1..] == rest;
  }

  lemma JoinGrows(c: char, rest: seq<string>)
    requires rest != []
    ensures Join([[c] + rest[0]] + rest[1..], "::") == [c] + Join(rest, "::")
  {
    var all := [[c] + rest[0]] + rest[1..];
    assert all[1..] == rest[1..];
    if |rest| > 1 {
      assert [c] + (rest[0] + "::" + Join(rest[1..], "::")) == ([c] + rest[0]) + "::" + Join(rest[1..], "::");
    }
  }

  /** Joining the pieces again gives every text back. */
  lemma {:induction false} SplitColonsLosesNothing(s: string)
    ensures Join(SplitColons(s), "::") == s
  {
    hide Join;
    if s == [] {
      JoinOne([]);
    } else if |s| >= 2 && s[0] == ':' && s[1] == ':' {
      SplitColonsLosesNothing(s[2..]);
      JoinCons([], SplitColons(s[2..]));
      assert s == [] + "::" + s[2..];
    } else {
      SplitColonsLosesNothing(s[1..]);
      JoinGrows(s[0], SplitColons(s[1..]));
      assert s == [s[0]] + s[1..];
    }
  }

  lemma JoinOne(x: string)
    ensures Join([x], "::") == x
  {
  }
}
