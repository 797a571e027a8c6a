/** The compact text `serde_json` prints for lists of strings, and that it loses nothing. */
module JsonText {
  import opened Text

  function HexDigit(n: nat): char
    requires n < 16
  {
    if n < 10 then ('0' as int + n) as char else ('a' as int + n - 10) as char
  }

  function HexValue(c: char): int {
    if '0' <= c <= '9' then c as int - '0' as int
    else if 'a' <= c <= 'f' then c as int - 'a' as int + 10
    else -1
  }

  const QUOTE: char := '\"'
  const BACKSLASH: char := '\\'

  /** The letter of a two-character escape, for the characters that have one. */
  function ShortEscape(c: char): char {
    if c == QUOTE then QUOTE
    else if c == BACKSLASH then BACKSLASH
    else if c == '\U{08}' then 'b'
    else if c == '\U{09}' then 't'
    else if c == '\U{0A}' then 'n'
    else if c == '\U{0C}' then 'f'
    else if c == '\U{0D}' then 'r'
    else 'u'
  }

  function EscapeOf(c: char): string {
    if ShortEscape(c) != 'u' then [BACKSLASH, ShortEscape(c)]
    else if c < ' ' then [BACKSLASH, 'u', '0', '0', HexDigit(c as int / 16), HexDigit(c as int % 16)]
    else [c]
  }

  function FromShort(e: char): char {
    if e == 'b' then '\U{08}'
    else if e == 't' then '\U{09}'
    else if e == 'n' then '\U{0A}'
    else if e == 'f' then '\U{0C}'
    else if e == 'r' then '\U{0D}'
    else e
  }

  /** The character an escaped text begins with, and how long its escape is. */
  function FirstChar(s: string): (int, nat) {
    if s == [] then (0, 0)
    else if s[0] != BACKSLASH || |s| < 2 then (s[0] as int, 1)
    else if s[1] != 'u' then (FromShort(s[1]) as int, 2)
    else if |s| < 6 then (0, 0)
    else (((HexValue(s[2]) * 16 + HexValue(s[3])) * 16 + HexValue(s[4])) * 16 + HexValue(s[5]), 6)
  }

  lemma FirstOfEscape(c: char, x: string)
    ensures FirstChar(EscapeOf(c) + x) == (c as int, |EscapeOf(c)|)
    ensures EscapeOf(c) != [] && EscapeOf(c)[0] != QUOTE
  {
    var v := c as int;
    assert v == v / 16 * 16 + v % 16;
  }

  /** Only quotes, backslashes and control characters are escaped, and the common ones in short. */
  lemma EscapesOnlyWhatItMust(c: char)
    ensures EscapeOf(c) == [c] <==> c >= ' ' && c != QUOTE && c != BACKSLASH
    ensures |EscapeOf(c)| == 2 <==> c in [QUOTE, BACKSLASH, '\U{08}', '\U{09}', '\U{0A}', '\U{0C}', '\U{0D}']
  {
  }

  lemma EscapesApart(c: char, x: string, d: char, y: string)
    requires EscapeOf(c) + x == EscapeOf(d) + y
    ensures c == d && x == y
  {
    FirstOfEscape(c, x);
    FirstOfEscape(d, y);
    hide FirstChar, EscapeOf;
    assert x == (EscapeOf(c) + x)[|EscapeOf(c)|..] && y == (EscapeOf(d) + y)[|EscapeOf(d)|..];
  }

  function Escaped(s: string): string {
    if s == [] then [] else EscapeOf(s[0]) + Escaped(s[1..])
  }

  /** A string with its closing quote, and whatever follows. */
  function Closed(s: string, x: string): string {
    Escaped(s) + [QUOTE] + x
  }

  lemma ClosedSplits(s: string, x: string)
    ensures s == [] ==> Closed(s, x) == [QUOTE] + x
    ensures s != [] ==> Closed(s, x) == EscapeOf(s[0]) + Closed(s[1..], x) && Closed(s, x)[0] != QUOTE
  {
    if s != [] {
      FirstOfEscape(s[0], x);
    }
  }

  lemma {:induction false} StringsApart(s: string, x: string, t: string, y: string)
    requires Closed(s, x) == Closed(t, y)
    ensures s == t && x == y
  {
    hide Closed, EscapeOf;
    ClosedSplits(s, x);
    ClosedSplits(t, y);
    if s != [] && t != [] {
      EscapesApart(s[0], Closed(s[1..], x), t[0], Closed(t[1..], y));
      StringsApart(s[1..], x, t[1..], y);
      assert s == [s[0]] + s[1..] && t == [t[0]] + t[1..];
    } else {
      assert s == t == [];
      assert x == ([QUOTE] + x)[1..] && y == ([QUOTE] + y)[1..];
    }
  }

  /** The rest of a list after an item, and whatever follows the list. */
  function Rest(items: seq<string>, x: string): string {
    if items == [] then "]" + x else [',', QUOTE] + Closed(items[0], Rest(items[1..], x))
  }

  function List(items: seq<string>, x: string): string {
    if items == [] then "[]" + x else ['[', QUOTE] + Closed(items[0], Rest(items[1..], x))
  }

  lemma {:induction false} RestsApart(a: seq<string>, x: string, b: seq<string>, y: string)
    requires Rest(a, x) == Rest(b, y)
    ensures a == b && x == y
  {
    hide Closed;
    if a != [] && b != [] {
      var u, v := Closed(a[0], Rest(a[1..], x)), Closed(b[0], Rest(b[1..], y));
      assert u == Rest(a, x)[2..] && v == Rest(b, y)[2..];
      StringsApart(a[0], Rest(a[1..], x), b[0], Rest(b[1..], y));
      RestsApart(a[1..], x, b[1..], y);
      assert a == [a[0]] + a[1..] && b == [b[0]] + b[1..];
    } else {
      assert Rest(a, x)[0] == Rest(b, y)[0];
      assert a == b == [];
      assert x == ("]" + x)[1..] && y == ("]" + y)[1..];
    }
  }

  lemma ListsApart(a: seq<string>, x: string, b: seq<string>, y: string)
    requires List(a, x) == List(b, y)
    ensures a == b && x == y
  {
    hide Closed, Rest;
    if a != [] && b != [] {
      var u, v := Closed(a[0], Rest(a[1..], x)), Closed(b[0], Rest(b[1..], y));
      assert u == List(a, x)[2..] && v == List(b, y)[2..];
      StringsApart(a[0], Rest(a[1..], x), b[0], Rest(b[1..], y));
      RestsApart(a[1..], x, b[1..], y);
      assert a == [a[0]] + a[1..] && b == [b[0]] + b[1..];
    } else {
      assert List(a, x)[1] == List(b, y)[1];
      assert a == b == [];
      assert x == ("[]" + x)[2..] && y == ("[]" + y)[2..];
    }
  }

  /** An object with two lists; `serde_json` keeps its members in order of their names. */
  function TwoLists(first: string, a: seq<string>, second: string, b: seq<string>): string {
    ['{', QUOTE] + Closed(first, [':'] + List(a, [',', QUOTE] + Closed(second, [':'] + List(b, "}"))))
  }

  /** The printed object determines both lists. */
  lemma TwoListsApart(first: string, second: string, a: seq<string>, b: seq<string>, c: seq<string>, d: seq<string>)
    requires TwoLists(first, a, second, b) == TwoLists(first, c, second, d)
    ensures a == c && b == d
  {
    hide Closed, List;
    var xb, xd := [':'] + List(b, "}"), [':'] + List(d, "}");
    var yb, yd := [',', QUOTE] + Closed(second, xb), [',', QUOTE] + Closed(second, xd);
    var za, zc := [':'] + List(a, yb), [':'] + List(c, yd);
    assert Closed(first, za) == TwoLists(first, a, second, b)[2..];
    assert Closed(first, zc) == TwoLists(first, c, second, d)[2..];
    StringsApart(first, za, first, zc);
    assert List(a, yb) == za[1..] && List(c, yd) == zc[1..];
    ListsApart(a, yb, c, yd);
    assert Closed(second, xb) == yb[2..] && Closed(second, xd) == yd[2..];
    StringsApart(second, xb, second, xd);
    assert List(b, "}") == xb[1..] && List(d, "}") == xd[1..];
    ListsApart(b, "}", d, "}");
  }

  // ---- What the text looks like ----

  function Quoted(s: string): string {
    [QUOTE] + Escaped(s) + [QUOTE]
  }

  function AllQuoted(items: seq<string>): seq<string> {
    if items == [] then [] else [Quoted(items[0])] + AllQuoted(items[1..])
  }

  lemma RestUnfolds(items: seq<string>, x: string)
    requires items != []
    ensures Rest(items, x) == "," + (Quoted(items[0]) + Rest(items[1..], x))
    ensures List(items, x) == "[" + (Quoted(items[0]) + Rest(items[1..], x))
    ensures AllQuoted(items) == [Quoted(items[0])] + AllQuoted(items[1..])
  {
    hide Escaped;
    var e, tail := Escaped(items[0]), Rest(items[1..], x);
    assert [',', QUOTE] + (e + [QUOTE] + tail) == "," + ([QUOTE] + e + [QUOTE] + tail);
    assert ['[', QUOTE] + (e + [QUOTE] + tail) == "[" + ([QUOTE] + e + [QUOTE] + tail);
  }

  /** What follows the first item: the rest of the list, each item after a comma. */
  lemma {:induction false} RestShape(items: seq<string>, x: string)
    requires items != []
    ensures Quoted(items[0]) + Rest(items[1..], x) == Join(AllQuoted(items), ",") + ("]" + x)
    decreases |items|
  {
    hide *;
    RestUnfolds(items, x);
    var q, rest := Quoted(items[0]), items[1..];
    if rest == [] {
      RestOfNothing(x);
      JoinQuoted(q, []);
    } else {
      RestUnfolds(rest, x);
      RestShape(rest, x);
      JoinQuoted(q, AllQuoted(rest));
      CommaBetween(q, Join(AllQuoted(rest), ","), "]" + x);
    }
  }

  lemma RestOfNothing(x: string)
    ensures Rest([], x) == "]" + x && AllQuoted([]) == []
  {
  }

  lemma CommaBetween(q: string, j: string, x: string)
    ensures q + ("," + (j + x)) == (q + "," + j) + x
  {
  }

  lemma JoinQuoted(q: string, rest: seq<string>)
    ensures Join([q] + rest, ",") == if rest == [] then q else q + "," + Join(rest, ",")
  {
    assert ([q] + rest)[1..] == rest;
  }

  /** A list is its quoted strings, separated by commas, in brackets. */
  lemma ListShape(items: seq<string>, x: string)
    ensures List(items, x) == "[" + (Join(AllQuoted(items), ",") + ("]" + x))
  {
    if items == [] {
      assert "[" + ([] + ("]" + x)) == "[]" + x;
    } else {
      RestUnfolds(items, x);
      hide *;
      RestShape(items, x);
    }
  }

  /** And the object is its two members in braces. */
  lemma ObjectShape(first: string, a: seq<string>, second: string, b: seq<string>)
    ensures TwoLists(first, a, second, b) ==
      "{" + Quoted(first) + ":" + List(a, "") + "," + Quoted(second) + ":" + List(b, "") + "}"
  {
    hide Escaped, List;
    var y := [',', QUOTE] + Closed(second, [':'] + List(b, "}"));
    ListTail(a, y);
    ListTail(b, "}");
    assert y == "," + Quoted(second) + ":" + (List(b, "") + "}");
    assert TwoLists(first, a, second, b) == "{" + Quoted(first) + ":" + (List(a, "") + y);
  }

  lemma ListTail(items: seq<string>, x: string)
    ensures List(items, x) == List(items, "") + x
  {
    ListShape(items, x);
    ListShape(items, "");
    hide List, AllQuoted;
    var j := Join(AllQuoted(items), ",");
    assert "[" + (j + ("]" + x)) == ("[" + (j + ("]" + ""))) + x;
  }
}
