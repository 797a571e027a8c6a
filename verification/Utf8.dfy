/** UTF-8 (section 3 of RFC 3629) and the cap of a value to a number of bytes. */
module Utf8 {
  import opened Wrappers
  import opened Octets
  import opened Text

  predicate IsContinuation(b: Byte) {
    0x80 <= b < 0xC0
  }

  /** The encoding of one scalar value. */
  function EncodeChar(c: char): (r: Bytes)
    ensures 1 <= |r| <= 4
    ensures !IsContinuation(r[0]) && forall i :: 0 < i < |r| ==> IsContinuation(r[i])
  {
    var v := c as int;
    if v < 0x80 then [v]
    else if v < 0x800 then [0xC0 + v / 64, 0x80 + v % 64]
    else if v < 0x1_0000 then [0xE0 + v / 64 / 64, 0x80 + v / 64 % 64, 0x80 + v % 64]
    else [0xF0 + v / 64 / 64 / 64, 0x80 + v / 64 / 64 % 64, 0x80 + v / 64 % 64, 0x80 + v % 64]
  }

  function Encode(s: string): Bytes {
    if s == [] then [] else Encode(s[..|s| - 1]) + EncodeChar(s[|s| - 1])
  }

  function Size(s: string): nat {
    |Encode(s)|
  }

  /** `str::is_char_boundary`, which looks at bytes only. */
  predicate IsCharBoundary(b: Bytes, i: nat) {
    i == 0 || (if i >= |b| then i == |b| else !IsContinuation(b[i]))
  }

  lemma EncodePush(s: string, c: char)
    ensures Encode(s + [c]) == Encode(s) + EncodeChar(c)
  {
    assert (s + [c])[..|s|] == s;
  }

  lemma {:induction false} EncodePrefix(s: string, k: nat)
    requires k <= |s|
    ensures Encode(s[..k]) <= Encode(s)
    ensures k < |s| ==> Size(s[..k]) + |EncodeChar(s[k])| <= Size(s)
    ensures k < |s| ==> Encode(s[..k + 1]) == Encode(s[..k]) + EncodeChar(s[k])
  {
    if k == |s| {
      assert s[..k] == s;
    } else {
      assert s[..k + 1] == s[..k] + [s[k]];
      EncodePush(s[..k], s[k]);
      if k + 1 == |s| {
        assert s[..k + 1] == s;
      } else {
        EncodePrefix(s[..|s| - 1], k);
        assert s[..|s| - 1][..k] == s[..k];
      }
    }
  }

  lemma PrefixEndIsBoundary(s: string, k: nat)
    requires k <= |s|
    ensures Size(s[..k]) <= Size(s) && IsCharBoundary(Encode(s), Size(s[..k]))
  {
    EncodePrefix(s, k);
    assert s[..|s|] == s;
    if k < |s| {
      hide Encode, EncodeChar;
      EncodePrefix(s, k + 1);
      assert Encode(s[..k + 1])[Size(s[..k])] == EncodeChar(s[k])[0];
    }
  }

  lemma {:induction false} BoundaryEndsPrefix(s: string, i: nat) returns (k: nat)
    requires i <= Size(s) && IsCharBoundary(Encode(s), i)
    ensures k <= |s| && Size(s[..k]) == i
  {
    if i == Size(s) {
      k := |s|;
      assert s[..k] == s;
    } else {
      var t := s[..|s| - 1];
      hide EncodeChar;
      assert i <= Size(t);
      k := BoundaryEndsPrefix(t, i);
      assert t[..k] == s[..k];
    }
  }

  /** Byte-level boundaries are exactly the ends of the encodings of prefixes. */
  lemma BoundaryIsPrefixEnd(s: string, i: nat)
    requires i <= Size(s)
    ensures IsCharBoundary(Encode(s), i) <==> exists k :: 0 <= k <= |s| && Size(s[..k]) == i
  {
    if IsCharBoundary(Encode(s), i) {
      var k := BoundaryEndsPrefix(s, i);
      assert Size(s[..k]) == i;
    }
    forall k | 0 <= k <= |s| && Size(s[..k]) == i ensures IsCharBoundary(Encode(s), i) {
      PrefixEndIsBoundary(s, k);
    }
  }

  /** The scalar an encoding stands for, by the length its bytes have. */
  function DecodeChar(b: Bytes): int {
    if |b| == 1 then b[0] as int
    else if |b| == 2 then (b[0] as int - 0xC0) * 64 + (b[1] as int - 0x80)
    else if |b| == 3 then ((b[0] as int - 0xE0) * 64 + (b[1] as int - 0x80)) * 64 + (b[2] as int - 0x80)
    else if |b| == 4 then (((b[0] as int - 0xF0) * 64 + (b[1] as int - 0x80)) * 64 + (b[2] as int - 0x80)) * 64 + (b[3] as int - 0x80)
    else 0
  }

  lemma DecodeEncodeChar(c: char)
    ensures DecodeChar(EncodeChar(c)) == c as int
  {
    var v := c as int;
    var q := v / 64;
    var r := q / 64;
    assert v == q * 64 + v % 64 && q == r * 64 + q % 64 && r == r / 64 * 64 + r % 64;
    if v < 0x80 {
    } else if v < 0x800 {
      assert EncodeChar(c) == [0xC0 + q, 0x80 + v % 64];
    } else if v < 0x1_0000 {
      assert EncodeChar(c) == [0xE0 + r, 0x80 + q % 64, 0x80 + v % 64];
    } else {
      assert EncodeChar(c) == [0xF0 + r / 64, 0x80 + r % 64, 0x80 + q % 64, 0x80 + v % 64];
    }
  }

  /** Where the last character of an encoded text starts. */
  function LastLead(b: Bytes): nat {
    if b == [] then 0 else if !IsContinuation(b[|b| - 1]) then |b| - 1 else LastLead(b[..|b| - 1])
  }

  lemma {:induction false} LastLeadAt(b: Bytes, x: Bytes)
    requires x != [] && !IsContinuation(x[0]) && forall i :: 0 < i < |x| ==> IsContinuation(x[i])
    ensures LastLead(b + x) == |b|
  {
    if |x| > 1 {
      assert (b + x)[..|b + x| - 1] == b + x[..|x| - 1];
      LastLeadAt(b, x[..|x| - 1]);
    }
  }

  /** UTF-8 loses nothing: equal bytes come from equal texts. */
  lemma {:induction false} EncodeInjective(s: string, t: string)
    requires Encode(s) == Encode(t)
    ensures s == t
  {
    if s != [] && t != [] {
      var s', t', c, d := s[..|s| - 1], t[..|t| - 1], s[|s| - 1], t[|t| - 1];
      assert s == s' + [c] && t == t' + [d];
      EncodePush(s', c);
      EncodePush(t', d);
      hide *;
      LastLeadAt(Encode(s'), EncodeChar(c));
      LastLeadAt(Encode(t'), EncodeChar(d));
      SameHalves(Encode(s'), EncodeChar(c), Encode(t'), EncodeChar(d));
      DecodeEncodeChar(c);
      DecodeEncodeChar(d);
      EncodeInjective(s', t');
    }
  }

  lemma SameHalves(a: Bytes, x: Bytes, b: Bytes, y: Bytes)
    requires a + x == b + y && |a| == |b|
    ensures a == b && x == y
  {
    assert a == (a + x)[..|a|] && b == (b + y)[..|b|];
    assert x == (a + x)[|a|..] && y == (b + y)[|b|..];
  }

  // ---- Capping ----

  /** `s.get(..end)`: the prefix with that many bytes, if the cut falls between characters. */
  function GetPrefix(s: string, end: nat): Option<string> {
    if Size(s) == end then Some(s)
    else if s == [] then None
    else GetPrefix(s[..|s| - 1], end)
  }

  /** `k` is the number of characters of `s` that fit into `maxBytes` bytes. */
  ghost predicate Fits(s: string, maxBytes: nat, k: nat) {
    && k <= |s| && Size(s[..k]) <= maxBytes
    && (k < |s| ==> Size(s[..k + 1]) > maxBytes)
  }

  lemma {:induction false} GetPrefixAt(s: string, k: nat)
    requires k <= |s|
    ensures GetPrefix(s, Size(s[..k])) == Some(s[..k])
  {
    if k == |s| {
      assert s[..k] == s;
    } else {
      EncodePrefix(s, k);
      assert s[..|s| - 1][..k] == s[..k];
      GetPrefixAt(s[..|s| - 1], k);
    }
  }

  lemma PrefixSizesIncrease(s: string, j: nat, k: nat)
    requires j < k <= |s|
    ensures Size(s[..j]) < Size(s[..k])
  {
    EncodePrefix(s[..k], j);
    assert s[..k][..j] == s[..j];
  }

  /** At most one number of characters fits exactly. */
  lemma FitsUnique(s: string, maxBytes: nat, j: nat, k: nat)
    requires Fits(s, maxBytes, j) && Fits(s, maxBytes, k)
    ensures j == k
  {
    if j < k {
      assert j + 1 == k || Size(s[..j + 1]) < Size(s[..k]) by {
        if j + 1 < k {
          PrefixSizesIncrease(s, j + 1, k);
        }
      }
    } else if k < j {
      assert k + 1 == j || Size(s[..k + 1]) < Size(s[..j]) by {
        if k + 1 < j {
          PrefixSizesIncrease(s, k + 1, j);
        }
      }
    }
  }

  /** What a capped value is: the trimmed text when it fits; otherwise what trimming leaves of
      the longest prefix of it that fits, which ends within three bytes of the cap. Nothing is
      returned exactly when the cap is zero, the text is blank, or its first character is too
      long; and the flag tells exactly whether the trimmed text was longer than the cap. */
  ghost predicate IsCapped(value: string, maxBytes: nat, r: Option<(string, bool)>) {
    var t := Trim(value);
    && (r.None? <==> maxBytes == 0 || t == [] || |EncodeChar(t[0])| > maxBytes)
    && (r.Some? ==>
          && r.value.0 != [] && IsTrimmed(r.value.0)
          && Size(r.value.0) <= maxBytes
          && (r.value.1 <==> Size(t) > maxBytes)
          && (!r.value.1 ==> r.value.0 == t)
          && exists k: nat :: CutAt(t, maxBytes, k, r.value.0, r.value.1))
  }

  ghost predicate CutAt(t: string, maxBytes: nat, k: nat, text: string, truncated: bool) {
    && Fits(t, maxBytes, k) && text == Trim(t[..k])
    && (truncated ==> maxBytes - 3 <= Size(t[..k]))
  }

  /** The description leaves no choice. */
  lemma CappedUnique(value: string, maxBytes: nat, r: Option<(string, bool)>, q: Option<(string, bool)>)
    requires IsCapped(value, maxBytes, r) && IsCapped(value, maxBytes, q)
    ensures r == q
  {
    hide Size, Trim, EncodeChar, IsTrimmed;
    var t := Trim(value);
    if r.Some? {
      var j: nat :| CutAt(t, maxBytes, j, r.value.0, r.value.1);
      var k: nat :| CutAt(t, maxBytes, k, q.value.0, q.value.1);
      FitsUnique(t, maxBytes, j, k);
    }
  }

  lemma TrimPrefix(t: string, k: nat)
    requires IsTrimmed(t) && 0 < k <= |t|
    ensures Trim(t[..k]) != [] && IsTrimmed(Trim(t[..k])) && Trim(t[..k]) <= t[..k]
  {
    TrimIsTrimmed(t[..k]);
    TrimBlank(t[..k]);
    assert !IsSpace(t[..k][0]);
    var post := TrimEndSplits(t[..k]);
  }

  /** The loop of `capped_non_empty_value`: back up to the nearest boundary. */
  method BackUp(bytes: Bytes, start: nat) returns (end: nat)
    ensures end <= start && (end == 0 || IsCharBoundary(bytes, end))
    ensures forall i :: end < i <= start ==> !IsCharBoundary(bytes, i)
  {
    end := start;
    while end > 0 && !IsCharBoundary(bytes, end)
      invariant 0 <= end <= start
      invariant forall i :: end < i <= start ==> !IsCharBoundary(bytes, i)
      decreases end
    {
      end := end - 1;
    }
  }

  lemma NothingToCap(value: string, maxBytes: nat)
    requires maxBytes == 0 || Trim(value) == []
    ensures IsCapped(value, maxBytes, None) && Capped(value, maxBytes) == None
  {
  }

  /** `capped_non_empty_value`. */
  method CappedNonEmptyValue(value: string, maxBytes: nat) returns (r: Option<(string, bool)>)
    ensures IsCapped(value, maxBytes, r) && r == Capped(value, maxBytes)
  {
    hide Capped, Fits, IsCapped, Encode, EncodeChar, Trim, IsCharBoundary, GetPrefix;
    if maxBytes == 0 {
      NothingToCap(value, maxBytes);
      return None;
    }
    var t := Trim(value);
    if t == [] {
      NothingToCap(value, maxBytes);
      return None;
    }
    var bytes := Encode(t);
    var start := if |bytes| < maxBytes then |bytes| else maxBytes;
    var end := BackUp(bytes, start);
    ghost var k := BoundaryFits(t, maxBytes, start, end);
    var truncated := end < |bytes|;
    GetPrefixAt(t, k);
    match GetPrefix(t, end)
    case Some(prefix) =>
      var capped := Trim(prefix);
      r := if capped == [] then None else Some((capped, truncated));
      CutIsCapped(value, maxBytes, k, end, r);
      CappedIsCapped(value, maxBytes);
      CappedUnique(value, maxBytes, r, Capped(value, maxBytes));
  }

  lemma CutIsCapped(value: string, maxBytes: nat, k: nat, end: nat, r: Option<(string, bool)>)
    requires maxBytes > 0 && Trim(value) != []
    requires var t := Trim(value);
             && Fits(t, maxBytes, k) && Size(t[..k]) == end
             && (k == 0 <==> |EncodeChar(t[0])| > maxBytes)
             && (end < Size(t) <==> Size(t) > maxBytes)
             && (end < Size(t) ==> maxBytes - 3 <= end)
             && (end >= Size(t) ==> k == |t|)
             && r == if Trim(t[..k]) == [] then None else Some((Trim(t[..k]), end < Size(t)))
    ensures IsCapped(value, maxBytes, r)
  {
    hide EncodeChar, Encode, TrimStart, TrimEnd;
    var t := Trim(value);
    TrimIsTrimmed(value);
    if k == 0 {
      TrimBlank(t[..k]);
    } else {
      TrimPrefix(t, k);
      var capped := Trim(t[..k]);
      EncodePrefix(t[..k], |capped|);
      assert t[..k][..|capped|] == capped;
      assert t[..|t|] == t;
      TrimFixed(t);
      assert CutAt(t, maxBytes, k, r.value.0, r.value.1);
    }
  }

  /** Backing up to a boundary finds the longest prefix that fits, at most three bytes away. */
  lemma BoundaryFits(t: string, maxBytes: nat, start: nat, end: nat) returns (k: nat)
    requires t != [] && maxBytes > 0
    requires start == if Size(t) < maxBytes then Size(t) else maxBytes
    requires end <= start && (end == 0 || IsCharBoundary(Encode(t), end))
    requires forall i :: end < i <= start ==> !IsCharBoundary(Encode(t), i)
    ensures Fits(t, maxBytes, k) && Size(t[..k]) == end
    ensures k == 0 <==> |EncodeChar(t[0])| > maxBytes
    ensures end < Size(t) <==> Size(t) > maxBytes
    ensures end < Size(t) ==> maxBytes - 3 <= end
    ensures end >= Size(t) ==> k == |t|
  {
    BoundaryIsPrefixEnd(t, end);
    k :| 0 <= k <= |t| && Size(t[..k]) == end;
    assert t[..|t|] == t;
    if k < |t| {
      EncodePrefix(t, k);
      EncodePrefix(t, k + 1);
      BoundaryIsPrefixEnd(t, Size(t[..k + 1]));
    }
    FitEnds(t, maxBytes, k);
  }

  function FitCount(t: string, maxBytes: nat): nat {
    if t == [] || Size(t) <= maxBytes then |t| else FitCount(t[..|t| - 1], maxBytes)
  }

  lemma {:induction false} FitCountFits(t: string, maxBytes: nat)
    ensures Fits(t, maxBytes, FitCount(t, maxBytes))
  {
    assert t[..|t|] == t;
    if Size(t) > maxBytes {
      var u := t[..|t| - 1];
      FitCountFits(u, maxBytes);
      var k := FitCount(u, maxBytes);
      assert u[..k] == t[..k];
      if k < |u| {
        assert u[..k + 1] == t[..k + 1];
      }
    }
  }

  /** The capped value as a function of the text and the cap. */
  function Capped(value: string, maxBytes: nat): Option<(string, bool)> {
    var t := Trim(value);
    if maxBytes == 0 || t == [] then None
    else
      FitCountFits(t, maxBytes);
      var p := Trim(t[..FitCount(t, maxBytes)]);
      if p == [] then None else Some((p, Size(t) > maxBytes))
  }

  lemma CappedIsCapped(value: string, maxBytes: nat)
    ensures IsCapped(value, maxBytes, Capped(value, maxBytes))
  {
    var t := Trim(value);
    if maxBytes > 0 && t != [] {
      var k := FitCount(t, maxBytes);
      FitCountFits(t, maxBytes);
      FitEnds(t, maxBytes, k);
      CutIsCapped(value, maxBytes, k, Size(t[..k]), Capped(value, maxBytes));
    }
  }

  lemma FitEnds(t: string, maxBytes: nat, k: nat)
    requires t != [] && Fits(t, maxBytes, k)
    ensures k == 0 <==> |EncodeChar(t[0])| > maxBytes
    ensures Size(t[..k]) < Size(t) <==> Size(t) > maxBytes
    ensures Size(t[..k]) < Size(t) ==> maxBytes - 3 <= Size(t[..k])
    ensures Size(t[..k]) >= Size(t) ==> k == |t|
  {
    hide EncodeChar;
    assert t[..|t|] == t;
    EncodePrefix(t, k);
    assert t[..0] == [];
    EncodePrefix(t, 0);
    if k < |t| {
      EncodePrefix(t, k + 1);
    }
    if k > 1 {
      PrefixSizesIncrease(t, 1, k);
    }
  }
}
