/** Machine integers and result types shared by every component. */
module Basics {

  const TWO_63: nat := 0x8000_0000_0000_0000
  const TWO_64: nat := 0x1_0000_0000_0000_0000
  const TWO_128: nat := 0x1_0000_0000_0000_0000_0000_0000_0000_0000

  type byte = n: nat | n < 0x100
  type u64 = n: nat | n < 0x1_0000_0000_0000_0000
  type i64 = n: int | -0x8000_0000_0000_0000 <= n < 0x8000_0000_0000_0000

  datatype Option<+T> = None | Some(value: T)

  datatype Result<+T, +E> = Ok(value: T) | Err(error: E)

  /** What a call does: it returns, or it stops at a failed assertion or a division by zero. */
  datatype Outcome<+T> = Returns(value: T) | Panics

  datatype Ordering = Less | Equal | Greater {
    /** Lexicographic continuation, as in comparing tuples. */
    function Then(next: Ordering): Ordering {
      if Equal? then next else this
    }

    function Flip(): Ordering {
      match this
      case Less => Greater
      case Equal => Equal
      case Greater => Less
    }
  }

  function CompareNat(x: nat, y: nat): Ordering {
    if x < y then Less else if x == y then Equal else Greater
  }

  function Min(x: nat, y: nat): nat {
    if x <= y then x else y
  }
}

/** Sequence functions used to state what loops over vectors compute. */
module Sequences {

  /** The elements of `s` that satisfy `p`, in order. */
  function Filter<T>(s: seq<T>, p: T -> bool): (r: seq<T>)
    ensures |r| <= |s|
  {
    if s == [] then []
    else
      var rest := Filter(s[..|s| - 1], p);
      if p(s[|s| - 1]) then rest + [s[|s| - 1]] else rest
  }

  ghost predicate NoDuplicates<T>(s: seq<T>) {
    forall i, j :: 0 <= i < j < |s| ==> s[i] != s[j]
  }

  ghost function Elements<T>(s: seq<T>): set<T> {
    set x | x in s
  }

  lemma {:induction false} FilterElements<T>(s: seq<T>, p: T -> bool)
    ensures forall x :: x in Filter(s, p) <==> x in s && p(x)
  {
    if s != [] {
      var prefix, last := s[..|s| - 1], s[|s| - 1];
      assert s == prefix + [last];
      FilterElements(prefix, p);
    }
  }

  lemma {:induction false} FilterAll<T>(s: seq<T>, p: T -> bool)
    requires forall x :: x in s ==> p(x)
    ensures Filter(s, p) == s
  {
    if s != [] {
      FilterAll(s[..|s| - 1], p);
      assert s == s[..|s| - 1] + [s[|s| - 1]];
    }
  }

  lemma {:induction false} FilterConcat<T>(a: seq<T>, b: seq<T>, p: T -> bool)
    ensures Filter(a + b, p) == Filter(a, p) + Filter(b, p)
  {
    if b == [] {
      assert a + b == a;
    } else {
      FilterConcat(a, b[..|b| - 1], p);
      assert (a + b)[..|a + b| - 1] == a + b[..|b| - 1];
    }
  }

  /** Leaving out the one element that does not satisfy the test. */
  lemma FilterWithout<T>(a: seq<T>, x: T, b: seq<T>, p: T -> bool)
    requires !p(x) && (forall y :: y in a ==> p(y)) && (forall y :: y in b ==> p(y))
    ensures Filter(a + [x] + b, p) == a + b
  {
    FilterConcat(a + [x], b, p);
    FilterConcat(a, [x], p);
    FilterAll(a, p);
    FilterAll(b, p);
    assert Filter([x], p) == [];
  }

  lemma {:induction false} FilterNoDuplicates<T>(s: seq<T>, p: T -> bool)
    requires NoDuplicates(s)
    ensures NoDuplicates(Filter(s, p))
  {
    if s != [] {
      var prefix := s[..|s| - 1];
      FilterNoDuplicates(prefix, p);
      FilterElements(prefix, p);
    }
  }

  lemma ConcatNoDuplicates<T>(a: seq<T>, b: seq<T>)
    requires NoDuplicates(a) && NoDuplicates(b)
    requires forall x :: x in a ==> x !in b
    ensures NoDuplicates(a + b)
  {
    forall i, j | 0 <= i < j < |a + b| ensures (a + b)[i] != (a + b)[j] {
      if i < |a| <= j { assert a[i] in a && b[j - |a|] in b; }
    }
  }

  /** A sequence without repetitions has as many entries as elements. */
  lemma {:induction false} NoDuplicatesSize<T>(s: seq<T>)
    requires NoDuplicates(s)
    ensures |Elements(s)| == |s|
  {
    if s == [] {
      assert Elements(s) == {};
    } else {
      var prefix, last := s[..|s| - 1], s[|s| - 1];
      NoDuplicatesSize(prefix);
      assert s == prefix + [last];
      assert Elements(s) == Elements(prefix) + {last};
      assert last !in Elements(prefix);
    }
  }

  /** A listing without repetitions holds each element once. */
  lemma {:induction false} NoDuplicatesMultiset<T>(s: seq<T>)
    requires NoDuplicates(s)
    ensures multiset(s) == multiset(Elements(s))
  {
    if s == [] {
      assert Elements(s) == {};
    } else {
      var prefix, last := s[..|s| - 1], s[|s| - 1];
      NoDuplicatesMultiset(prefix);
      assert s == prefix + [last];
      assert last !in prefix;
      assert Elements(s) == Elements(prefix) + {last};
    }
  }
}
