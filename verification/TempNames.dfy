/** The temporary file names of atomic saves. */
module TempNames {
  import opened Text
  import Decimal

  /** `unique_suffix`: process id, clock reading and per-process counter. */
  function UniqueSuffix(pid: nat, nanos: nat, counter: nat): string {
    Decimal.ToDecimal(pid) + "-" + Decimal.ToDecimal(nanos) + "-" + Decimal.ToDecimal(counter)
  }

  function TempName(file: string, suffix: string): string {
    file + "." + suffix + ".tmp"
  }

  predicate IsTempLike(name: string) {
    |name| >= 4 && name[|name| - 4..] == ".tmp"
  }

  lemma SuffixCharacters(pid: nat, nanos: nat, counter: nat)
    ensures '.' !in UniqueSuffix(pid, nanos, counter)
    ensures '-' !in Decimal.ToDecimal(pid)
  {
    Decimal.DecimalDigits(pid);
    Decimal.DecimalDigits(nanos);
    Decimal.DecimalDigits(counter);
  }

  /** Two suffixes agree only when all three of their parts do. */
  lemma SuffixInjective(p1: nat, n1: nat, c1: nat, p2: nat, n2: nat, c2: nat)
    requires UniqueSuffix(p1, n1, c1) == UniqueSuffix(p2, n2, c2)
    ensures p1 == p2 && n1 == n2 && c1 == c2
  {
    var a1, b1, d1 := Decimal.ToDecimal(p1), Decimal.ToDecimal(n1), Decimal.ToDecimal(c1);
    var a2, b2, d2 := Decimal.ToDecimal(p2), Decimal.ToDecimal(n2), Decimal.ToDecimal(c2);
    SuffixCharacters(p1, n1, c1);
    SuffixCharacters(p2, n2, c2);
    SuffixCharacters(n1, c1, p1);
    SuffixCharacters(n2, c2, p2);
    assert UniqueSuffix(p1, n1, c1) == a1 + ['-'] + (b1 + "-" + d1);
    assert UniqueSuffix(p2, n2, c2) == a2 + ['-'] + (b2 + "-" + d2);
    SplitAtFirst(a1, '-', b1 + "-" + d1, a2, b2 + "-" + d2);
    SplitAtFirst(b1, '-', d1, b2, d2);
    Decimal.DecimalValue(p1);
    Decimal.DecimalValue(n1);
    Decimal.DecimalValue(c1);
    Decimal.DecimalValue(p2);
    Decimal.DecimalValue(n2);
    Decimal.DecimalValue(c2);
  }

  /** A temporary name determines the file it stands for and the suffix it was given, so
      different suffixes never share a temporary file, even across targets. */
  lemma TempNameInjective(f1: string, s1: string, f2: string, s2: string)
    requires '.' !in s1 && '.' !in s2 && TempName(f1, s1) == TempName(f2, s2)
    ensures f1 == f2 && s1 == s2
  {
    var a, b := f1 + ['.'] + s1, f2 + ['.'] + s2;
    assert TempName(f1, s1) == a + ".tmp" && TempName(f2, s2) == b + ".tmp";
    assert a == (a + ".tmp")[..|a + ".tmp"| - 4] && b == (b + ".tmp")[..|b + ".tmp"| - 4];
    SplitAtLast(f1, '.', s1, f2, s2);
  }

  lemma TempNameIsTempLike(file: string, suffix: string)
    ensures IsTempLike(TempName(file, suffix))
  {
  }

  /** Two saves share a temporary file exactly when they are the same save of the same file:
      same target, same process, same clock reading and same counter. */
  lemma TempNamesDistinct(f1: string, p1: nat, n1: nat, c1: nat, f2: string, p2: nat, n2: nat, c2: nat)
    ensures TempName(f1, UniqueSuffix(p1, n1, c1)) == TempName(f2, UniqueSuffix(p2, n2, c2))
       <==> f1 == f2 && p1 == p2 && n1 == n2 && c1 == c2
  {
    var s1, s2 := UniqueSuffix(p1, n1, c1), UniqueSuffix(p2, n2, c2);
    SuffixCharacters(p1, n1, c1);
    SuffixCharacters(p2, n2, c2);
    if TempName(f1, s1) == TempName(f2, s2) {
      TempNameInjective(f1, s1, f2, s2);
      SuffixInjective(p1, n1, c1, p2, n2, c2);
    }
  }
}
