/** Rust compares strings byte by byte on their UTF-8 form; that is the order of their scalar values. */
module Utf8Order {
  import opened Octets
  import opened Ordering
  import opened Utf8

  predicate BytesLe(a: Bytes, b: Bytes) {
    a == [] || (b != [] && (a[0] < b[0] || (a[0] == b[0] && BytesLe(a[1..], b[1..]))))
  }

  lemma {:induction false} EncodeCons(c: char, s: string)
    ensures Encode([c] + s) == EncodeChar(c) + Encode(s)
  {
    if s == [] {
      assert [c] + s == [] + [c];
      EncodePush([], c);
    } else {
      var init, last := s[..|s| - 1], s[|s| - 1];
      EncodeCons(c, init);
      assert [c] + s == ([c] + init) + [last] && s == init + [last];
      EncodePush([c] + init, last);
      EncodePush(init, last);
    }
  }

  lemma {:induction false} BytesLePrefix(p: Bytes, a: Bytes, b: Bytes)
    ensures BytesLe(p + a, p + b) <==> BytesLe(a, b)
  {
    if p == [] {
      assert p + a == a && p + b == b;
    } else {
      BytesLePrefix(p[1..], a, b);
      assert (p + a)[1..] == p[1..] + a && (p + b)[1..] == p[1..] + b;
    }
  }

  /** `x` and `y` first differ at `k`, where `x` is smaller. */
  predicate SmallerAt(x: Bytes, y: Bytes, k: nat) {
    k < |x| && k < |y| && x[..k] == y[..k] && x[k] < y[k]
  }

  lemma SmallerDecides(x: Bytes, y: Bytes, k: nat, a: Bytes, b: Bytes)
    requires SmallerAt(x, y, k)
    ensures BytesLe(x + a, y + b) && !BytesLe(y + b, x + a)
  {
    var p, u, v := x[..k], x[k..] + a, y[k..] + b;
    assert x + a == p + u && y + b == p + v;
    BytesLePrefix(p, u, v);
    BytesLePrefix(p, v, u);
  }

  lemma DigitsDiffer(v: nat, w: nat)
    requires v < w
    ensures v / 64 < w / 64 || (v / 64 == w / 64 && v % 64 < w % 64)
  {
    assert v == v / 64 * 64 + v % 64 && w == w / 64 * 64 + w % 64;
  }

  lemma ShortChars(c: char, d: char) returns (k: nat)
    requires c < d && d as int < 0x800
    ensures SmallerAt(EncodeChar(c), EncodeChar(d), k)
  {
    var v, w := c as int, d as int;
    DigitsDiffer(v, w);
    k := if v >= 0x80 && v / 64 == w / 64 then 1 else 0;
  }

  lemma MiddleChars(c: char, d: char) returns (k: nat)
    requires c < d && 0x800 <= d as int < 0x1_0000
    ensures SmallerAt(EncodeChar(c), EncodeChar(d), k)
  {
    var v, w := c as int, d as int;
    if v < 0x800 {
      k := 0;
    } else {
      DigitsDiffer(v, w);
      if v / 64 < w / 64 {
        DigitsDiffer(v / 64, w / 64);
      }
      k := if v / 64 / 64 < w / 64 / 64 then 0 else if v / 64 < w / 64 then 1 else 2;
    }
  }

  lemma LongChars(c: char, d: char) returns (k: nat)
    requires c < d && 0x1_0000 <= d as int
    ensures SmallerAt(EncodeChar(c), EncodeChar(d), k)
  {
    var v, w := c as int, d as int;
    if v < 0x1_0000 {
      k := 0;
    } else {
      DigitsDiffer(v, w);
      if v / 64 < w / 64 {
        DigitsDiffer(v / 64, w / 64);
        if v / 64 / 64 < w / 64 / 64 {
          DigitsDiffer(v / 64 / 64, w / 64 / 64);
        }
      }
      k := if v / 64 / 64 / 64 < w / 64 / 64 / 64 then 0
           else if v / 64 / 64 < w / 64 / 64 then 1
           else if v / 64 < w / 64 then 2 else 3;
    }
  }

  lemma CharsDecide(c: char, d: char, a: Bytes, b: Bytes)
    requires c < d
    ensures BytesLe(EncodeChar(c) + a, EncodeChar(d) + b) && !BytesLe(EncodeChar(d) + b, EncodeChar(c) + a)
  {
    hide EncodeChar, BytesLe;
    var k: nat;
    if d as int < 0x800 {
      k := ShortChars(c, d);
    } else if d as int < 0x1_0000 {
      k := MiddleChars(c, d);
    } else {
      k := LongChars(c, d);
    }
    SmallerDecides(EncodeChar(c), EncodeChar(d), k, a, b);
  }

  /** The order the model sorts by is the one the program sorts by. */
  lemma {:induction false} StringLeIsBytesLe(a: string, b: string)
    ensures StringLe(a, b) <==> BytesLe(Encode(a), Encode(b))
  {
    hide Encode, EncodeChar;
    if a == [] || b == [] {
      EncodesToNothing(a);
      EncodesToNothing(b);
    } else {
      var c, d, s, t := a[0], b[0], a[1..], b[1..];
      assert a == [c] + s && b == [d] + t;
      EncodeCons(c, s);
      EncodeCons(d, t);
      hide BytesLe;
      if c == d {
        StringLeIsBytesLe(s, t);
        BytesLePrefix(EncodeChar(c), Encode(s), Encode(t));
      } else if c < d {
        CharsDecide(c, d, Encode(s), Encode(t));
      } else {
        CharsDecide(d, c, Encode(t), Encode(s));
      }
    }
  }

  lemma EncodesToNothing(s: string)
    ensures Encode(s) == [] <==> s == []
  {
  }
}
