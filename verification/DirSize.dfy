/** The size of a storage directory, summed over its tree with saturating arithmetic. */
module DirSize {
  import opened Octets

  /** A directory entry: a file, a directory, or something whose metadata or listing cannot be
      read. A directory has no order of its own. */
  datatype Node = File(len: nat) | Dir(entries: multiset<Node>) | Unreadable

  /** The true number of bytes below a node. */
  ghost function Bytes(n: Node): nat
    decreases n, 1, 0
  {
    if n.File? then n.len else if n.Dir? then BytesOf(n, n.entries) else 0
  }

  /** The bytes of some of the entries of a directory. */
  ghost function BytesOf(dir: Node, part: multiset<Node>): nat
    requires dir.Dir? && part <= dir.entries
    decreases dir, 0, |part|
  {
    if part == multiset{} then 0
    else
      var n :| n in part;
      assert n in dir.entries;
      Bytes(n) + BytesOf(dir, part - multiset{n})
  }

  lemma BytesSome(dir: Node, part: multiset<Node>) returns (n: Node)
    requires dir.Dir? && part <= dir.entries && part != multiset{}
    ensures n in part && BytesOf(dir, part) == Bytes(n) + BytesOf(dir, part - multiset{n})
  {
    n :| n in part && BytesOf(dir, part) == Bytes(n) + BytesOf(dir, part - multiset{n});
  }

  lemma BytesNone(dir: Node)
    requires dir.Dir?
    ensures BytesOf(dir, multiset{}) == 0
  {
  }

  lemma BytesAll(n: Node)
    ensures Bytes(n) == if n.File? then n.len else if n.Dir? then BytesOf(n, n.entries) else 0
  {
  }

  /** The sum does not depend on the order in which the entries are taken. */
  lemma {:induction false} BytesPick(dir: Node, part: multiset<Node>, x: Node)
    requires dir.Dir? && part <= dir.entries && x in part
    ensures BytesOf(dir, part) == Bytes(x) + BytesOf(dir, part - multiset{x})
    decreases |part|
  {
    hide Bytes, BytesOf;
    var n := BytesSome(dir, part);
    if n != x {
      var less, other := part - multiset{n}, part - multiset{x};
      BytesPick(dir, less, x);
      BytesPick(dir, other, n);
      assert less - multiset{x} == other - multiset{n};
    }
  }

  function Saturated(n: nat): nat {
    if n > U64_MAX then U64_MAX else n
  }

  /** With `todo` still to come, `total` is on its way to the size of `dir`. */
  ghost predicate Counting(dir: Node, todo: seq<Node>, total: nat) {
    && dir.Dir? && multiset(todo) <= dir.entries
    && Saturated(total + BytesOf(dir, multiset(todo))) == Saturated(Bytes(dir))
  }

  lemma CountingEnds(dir: Node, total: nat)
    requires Counting(dir, [], total) && total <= U64_MAX
    ensures total == Saturated(Bytes(dir))
  {
    BytesNone(dir);
  }

  lemma CountingStep(dir: Node, todo: seq<Node>, total: nat)
    requires Counting(dir, todo, total) && todo != []
    ensures todo[0] in dir.entries
    ensures Counting(dir, todo[1..], Saturated(total + Saturated(Bytes(todo[0]))))
  {
    hide Bytes, BytesOf;
    var n, rest := todo[0], todo[1..];
    assert todo == [n] + rest;
    assert multiset(rest) == multiset(todo) - multiset{n};
    BytesPick(dir, multiset(todo), n);
  }

  /** `dir_size_bytes`, under any order `list` in which directories happen to be listed: the true
      total, or the largest representable number when that is exceeded. */
  method DirSizeBytes(dir: Node, list: multiset<Node> -> seq<Node>) returns (total: nat)
    requires forall m {:trigger list(m)} :: multiset(list(m)) == m
    ensures total == Saturated(if dir.Dir? then Bytes(dir) else 0)
    decreases dir
  {
    hide Bytes, BytesOf;
    total := 0;
    if !dir.Dir? {
      return;
    }
    var todo := list(dir.entries);
    BytesAll(dir);
    assert Counting(dir, todo, 0);
    hide Counting;
    while todo != []
      invariant Counting(dir, todo, total) && total <= U64_MAX
      decreases |todo|
    {
      var n := todo[0];
      BytesAll(n);
      CountingStep(dir, todo, total);
      match n {
        case File(len) => total := Saturated(total + len);
        case Dir(_) =>
          var size := DirSizeBytes(n, list);
          total := Saturated(total + size);
        case Unreadable =>
      }
      todo := todo[1..];
    }
    CountingEnds(dir, total);
  }
}
