/** Searching, counting and splitting sequences: the string primitives the page
    script leans on (`indexOf`, the implicit counting in a regular expression,
    splitting a query at `&`). */
module Seqs {

  /** Position of the first `x` in `s`, or `|s|` when there is none. */
  function IndexOf<T(==)>(s: seq<T>, x: T): (i: nat)
    ensures i <= |s|
    ensures i < |s| ==> s[i] == x
    ensures x !in s[..i]
    ensures i == |s| <==> x !in s
  {
    if |s| == 0 then 0
    else if s[0] == x then 0
    else
      var i := 1 + IndexOf(s[1..], x);
      assert s[..i] == [s[0]] + s[1..][..i - 1];
      i
  }

  /** Number of occurrences of `x` in `s`. */
  function Count<T(==)>(s: seq<T>, x: T): nat
  {
    if |s| == 0 then 0
    else (if s[0] == x then 1 else 0) + Count(s[1..], x)
  }

  lemma {:induction false} CountZero<T>(s: seq<T>, x: T)
    ensures Count(s, x) == 0 <==> x !in s
  {
    if |s| > 0 {
      CountZero(s[1..], x);
      assert s == [s[0]] + s[1..];
    }
  }

  lemma {:induction false} CountConcat<T>(a: seq<T>, b: seq<T>, x: T)
    ensures Count(a + b, x) == Count(a, x) + Count(b, x)
  {
    if |a| > 0 {
      assert (a + b)[1..] == a[1..] + b;
      CountConcat(a[1..], b, x);
    } else {
      assert a + b == b;
    }
  }

  /** When `x` does not occur in `a`, the first `x` of `a + [x] + b` sits right after `a`. */
  lemma IndexOfAfterPrefix<T>(a: seq<T>, x: T, b: seq<T>)
    requires x !in a
    ensures IndexOf(a + [x] + b, x) == |a|
  {
    var s := a + [x] + b;
    assert s[|a|] == x;
    assert s[..|a|] == a;
  }

  lemma SplitAt<T>(s: seq<T>, i: nat)
    requires i <= |s|
    ensures s == s[..i] + s[i..]
  {
  }

  lemma SplitAround<T>(s: seq<T>, i: nat)
    requires i < |s|
    ensures s == s[..i] + [s[i]] + s[i + 1..]
  {
  }

  lemma SplitThree<T>(s: seq<T>, i: nat, j: nat)
    requires i <= j <= |s|
    ensures s == s[..i] + s[i..j] + s[j..]
  {
  }

  /** Everything counted beyond the first occurrence lies after it. */
  lemma CountAfterFirst<T>(s: seq<T>, x: T)
    requires x in s
    ensures Count(s, x) == 1 + Count(s[IndexOf(s, x) + 1..], x)
  {
    var i := IndexOf(s, x);
    SplitAround(s, i);
    CountConcat(s[..i] + [x], s[i + 1..], x);
    CountConcat(s[..i], [x], x);
    CountZero(s[..i], x);
  }

  /** `y` stays in a sequence that grows in the middle. */
  lemma InsertKeeps<T>(a: seq<T>, x: T, b: seq<T>, y: T)
    requires y in a + b
    ensures y in a + [x] + b
  {
    var k :| 0 <= k < |a + b| && (a + b)[k] == y;
    if k < |a| {
      assert (a + [x] + b)[k] == y;
    } else {
      assert (a + [x] + b)[k + 1] == y;
    }
  }

  /** Any `y` other than `x` stays in a sequence that loses `x`. */
  lemma DropKeeps<T>(a: seq<T>, x: T, b: seq<T>, y: T)
    requires y in a + [x] + b && y != x
    ensures y in a + b
  {
    var k :| 0 <= k < |a + [x] + b| && (a + [x] + b)[k] == y;
    if k < |a| {
      assert (a + b)[k] == y;
    } else {
      assert (a + b)[k - 1] == y;
    }
  }

  /** Pieces of `s` between the occurrences of `sep`, in order (`split` with a
      one-element separator). */
  function Split<T(==)>(s: seq<T>, sep: T): (parts: seq<seq<T>>)
    ensures |parts| == Count(s, sep) + 1
    ensures forall k :: 0 <= k < |parts| ==> sep !in parts[k]
    decreases |s|
  {
    var i := IndexOf(s, sep);
    if i == |s| then
      CountZero(s, sep);
      [s]
    else
      CountAfterFirst(s, sep);
      [s[..i]] + Split(s[i + 1..], sep)
  }

  /** Joining pieces that contain no separator and splitting again gives the pieces back. */
  lemma {:induction false} SplitJoin<T>(a: seq<T>, sep: T, b: seq<T>)
    requires sep !in a
    ensures Split(a + [sep] + b, sep) == [a] + Split(b, sep)
  {
    var s := a + [sep] + b;
    IndexOfAfterPrefix(a, sep, b);
    assert s[..|a|] == a;
    assert s[|a| + 1..] == b;
  }

  /** Two pieces without the separator, joined by it, split back into the two pieces. */
  lemma SplitPair<T>(a: seq<T>, sep: T, b: seq<T>)
    requires sep !in a && sep !in b
    ensures Split(a + [sep] + b, sep) == [a, b]
  {
    SplitJoin(a, sep, b);
    assert Split(b, sep) == [b];
  }
}
