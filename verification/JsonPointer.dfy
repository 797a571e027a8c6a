/** JSON Pointer (section 4 of RFC 6901), which resolves local schema references. */
module JsonPointer {
  import opened Wrappers
  import opened Text
  import J = Json
  import Decimal

  /** `s.replace("xy", "r")` for a two-character pattern. */
  function ReplacePair(s: string, x: char, y: char, r: char): string {
    if s == [] then []
    else if |s| >= 2 && s[0] == x && s[1] == y then [r] + ReplacePair(s[2..], x, y, r)
    else [s[0]] + ReplacePair(s[1..], x, y, r)
  }

  /** First `~1` becomes `/`, then `~0` becomes `~`. */
  function Unescape(token: string): string {
    ReplacePair(ReplacePair(token, '~', '1', '/'), '~', '0', '~')
  }

  function Escape(token: string): string {
    if token == [] then []
    else (if token[0] == '~' then "~0" else if token[0] == '/' then "~1" else [token[0]]) + Escape(token[1..])
  }

  function EscapeTildes(token: string): string {
    if token == [] then []
    else (if token[0] == '~' then "~0" else [token[0]]) + EscapeTildes(token[1..])
  }

  lemma ReplaceOther(c: char, s: string, x: char, y: char, r: char)
    requires c != x
    ensures ReplacePair([c] + s, x, y, r) == [c] + ReplacePair(s, x, y, r)
  {
    assert ([c] + s)[1..] == s;
  }

  lemma ReplaceMatch(s: string, x: char, y: char, r: char)
    ensures ReplacePair([x, y] + s, x, y, r) == [r] + ReplacePair(s, x, y, r)
  {
    assert ([x, y] + s)[2..] == s;
  }

  lemma ReplaceMiss(d: char, s: string, x: char, y: char, r: char)
    requires d != y && d != x
    ensures ReplacePair([x, d] + s, x, y, r) == [x, d] + ReplacePair(s, x, y, r)
  {
    assert ([x, d] + s)[1..] == [d] + s;
    ReplaceOther(d, s, x, y, r);
  }

  lemma {:induction false} UnescapeSlashes(token: string)
    ensures ReplacePair(Escape(token), '~', '1', '/') == EscapeTildes(token)
  {
    if token != [] {
      UnescapeSlashes(token[1..]);
      var rest := Escape(token[1..]);
      if token[0] == '~' {
        ReplaceMiss('0', rest, '~', '1', '/');
      } else if token[0] == '/' {
        ReplaceMatch(rest, '~', '1', '/');
      } else {
        ReplaceOther(token[0], rest, '~', '1', '/');
      }
    }
  }

  lemma {:induction false} UnescapeTildes(token: string)
    ensures ReplacePair(EscapeTildes(token), '~', '0', '~') == token
  {
    if token != [] {
      UnescapeTildes(token[1..]);
      var rest := EscapeTildes(token[1..]);
      if token[0] == '~' {
        ReplaceMatch(rest, '~', '0', '~');
      } else {
        ReplaceOther(token[0], rest, '~', '0', '~');
      }
      assert [token[0]] + token[1..] == token;
    }
  }

  lemma UnescapeEscape(token: string)
    ensures Unescape(Escape(token)) == token
  {
    UnescapeSlashes(token);
    UnescapeTildes(token);
  }

  /** An array index is a run of digits without a leading zero. */
  function ParseIndex(token: string): Option<nat> {
    if token == [] || (token[0] == '0' && |token| != 1) then None
    else if forall i :: 0 <= i < |token| ==> Decimal.IsDigit(token[i]) then Some(Decimal.Value(token))
    else None
  }

  function Child(v: J.Value, token: string): Option<J.Value> {
    match v
    case Obj(fields) => if token in fields then Some(fields[token]) else None
    case Arr(items) =>
      (match ParseIndex(token)
       case Some(i) => if i < |items| then Some(items[i]) else None
       case None => None)
    case _ => None
  }

  function Follow(v: J.Value, tokens: seq<string>): Option<J.Value> {
    if tokens == [] then Some(v)
    else
      match Child(v, tokens[0])
      case Some(c) => Follow(c, tokens[1..])
      case None => None
  }

  function UnescapeAll(tokens: seq<string>): seq<string> {
    seq(|tokens|, i requires 0 <= i < |tokens| => Unescape(tokens[i]))
  }

  /** `value.pointer(p)`. */
  function Pointer(root: J.Value, p: string): Option<J.Value> {
    if p == [] then Some(root)
    else if p[0] != '/' then None
    else Follow(root, UnescapeAll(Split(p[1..], '/')))
  }

  // ---- Every place in a document has a pointer ----

  /** One step down into a document. */
  datatype Step = Member(key: string) | Item(index: nat)

  function Down(v: J.Value, steps: seq<Step>): Option<J.Value> {
    if steps == [] then Some(v)
    else
      match steps[0]
      case Member(k) => if v.Obj? && k in v.fields then Down(v.fields[k], steps[1..]) else None
      case Item(i) => if v.Arr? && i < |v.items| then Down(v.items[i], steps[1..]) else None
  }

  function Token(step: Step): string {
    match step
    case Member(k) => k
    case Item(i) => Decimal.ToDecimal(i)
  }

  function EscapedTokens(steps: seq<Step>): seq<string> {
    seq(|steps|, i requires 0 <= i < |steps| => Escape(Token(steps[i])))
  }

  function PrintPointer(steps: seq<Step>): string {
    if steps == [] then [] else "/" + Join(EscapedTokens(steps), "/")
  }

  lemma {:induction false} EscapeHasNoSlash(token: string)
    ensures '/' !in Escape(token)
  {
    if token != [] {
      EscapeHasNoSlash(token[1..]);
    }
  }

  lemma {:induction false} FollowDown(v: J.Value, steps: seq<Step>, tokens: seq<string>)
    requires |tokens| == |steps| && forall i :: 0 <= i < |steps| ==> tokens[i] == Token(steps[i])
    requires Down(v, steps).Some?
    ensures Follow(v, tokens) == Down(v, steps)
  {
    if steps != [] {
      match steps[0]
      case Member(k) =>
        FollowDown(v.fields[k], steps[1..], tokens[1..]);
      case Item(i) =>
        Decimal.DecimalDigits(i);
        Decimal.DecimalValue(i);
        LeadingZero(i);
        FollowDown(v.items[i], steps[1..], tokens[1..]);
    }
  }

  lemma LeadingZero(i: nat)
    ensures ParseIndex(Decimal.ToDecimal(i)) == Some(i)
  {
    Decimal.DecimalDigits(i);
    Decimal.DecimalValue(i);
  }

  /** Evaluating the printed pointer of a place yields the value at that place, whatever
      tildes, slashes or digits its member names contain. */
  lemma PointerRoundTrip(root: J.Value, steps: seq<Step>)
    requires Down(root, steps).Some?
    ensures Pointer(root, PrintPointer(steps)) == Down(root, steps)
  {
    if steps != [] {
      var escaped := EscapedTokens(steps);
      forall i | 0 <= i < |escaped| ensures '/' !in escaped[i] && Unescape(escaped[i]) == Token(steps[i]) {
        EscapeHasNoSlash(Token(steps[i]));
        UnescapeEscape(Token(steps[i]));
      }
      SplitJoin(escaped, '/');
      assert PrintPointer(steps)[1..] == Join(escaped, "/");
      FollowDown(root, steps, UnescapeAll(escaped));
    }
  }
}
