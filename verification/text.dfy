/** The ECMAScript notion of white space and `String.prototype.trim`.

    Both `trim` and the `\s` class of a regular expression use the same set of
    code points: the WhiteSpace and LineTerminator productions of ECMA-262
    (sections 12.2 and 12.3 of the 2024 edition). It is defined once here and
    shared by the trimming of the form fields and by the e-mail check. */
module Text {
  import Seqs

  /** WhiteSpace (TAB, VT, FF, ZWNBSP and every Unicode "Zs" space separator)
      or LineTerminator (LF, CR, LS, PS). */
  predicate IsWhiteSpace(c: char)
  {
    || c == '\t' || c == '\U{000B}' || c == '\U{000C}' || c == '\U{FEFF}'
    || c == ' ' || c == '\U{00A0}' || c == '\U{1680}'
    || ('\U{2000}' <= c <= '\U{200A}')
    || c == '\U{202F}' || c == '\U{205F}' || c == '\U{3000}'
    || c == '\n' || c == '\r' || c == '\U{2028}' || c == '\U{2029}'
  }

  predicate AllWhiteSpace(s: string)
  {
    forall k :: 0 <= k < |s| ==> IsWhiteSpace(s[k])
  }

  predicate NoWhiteSpace(s: string)
  {
    forall k :: 0 <= k < |s| ==> !IsWhiteSpace(s[k])
  }

  /** Neither the first nor the last character is white space: the shape of
      every trimmed string. */
  predicate NoEdgeWhiteSpace(s: string)
  {
    |s| > 0 ==> !IsWhiteSpace(s[0]) && !IsWhiteSpace(s[|s| - 1])
  }

  /** Number of white-space characters at the start of `s`. */
  function LeadingSpace(s: string): (n: nat)
    ensures n <= |s|
    ensures forall k :: 0 <= k < n ==> IsWhiteSpace(s[k])
    ensures n < |s| ==> !IsWhiteSpace(s[n])
  {
    if |s| > 0 && IsWhiteSpace(s[0]) then 1 + LeadingSpace(s[1..]) else 0
  }

  /** Number of white-space characters at the end of `s`. */
  function TrailingSpace(s: string): (n: nat)
    ensures n <= |s|
    ensures forall k :: |s| - n <= k < |s| ==> IsWhiteSpace(s[k])
    ensures n < |s| ==> !IsWhiteSpace(s[|s| - n - 1])
  {
    if |s| > 0 && IsWhiteSpace(s[|s| - 1]) then 1 + TrailingSpace(s[..|s| - 1]) else 0
  }

  /** `String.prototype.trim`: the string with white space removed at both ends. */
  function Trim(s: string): (r: string)
    ensures NoEdgeWhiteSpace(r)
    ensures |r| <= |s|
  {
    var i := LeadingSpace(s);
    if i == |s| then []
    else
      var n := TrailingSpace(s);
      assert |s| - n > i;
      s[i..|s| - n]
  }

  /** The count of leading white space is the only position that has white
      space before it and something else (or the end) at it. */
  lemma LeadingSpaceUnique(s: string, n: nat)
    requires n <= |s|
    requires forall k :: 0 <= k < n ==> IsWhiteSpace(s[k])
    requires n < |s| ==> !IsWhiteSpace(s[n])
    ensures LeadingSpace(s) == n
  {
    var m := LeadingSpace(s);
    if m < n {
      assert false;
    } else if m > n {
      assert false;
    }
  }

  lemma TrailingSpaceUnique(s: string, n: nat)
    requires n <= |s|
    requires forall k :: |s| - n <= k < |s| ==> IsWhiteSpace(s[k])
    requires n < |s| ==> !IsWhiteSpace(s[|s| - n - 1])
    ensures TrailingSpace(s) == n
  {
    var m := TrailingSpace(s);
    if m < n {
      assert false;
    } else if m > n {
      assert false;
    }
  }

  /** `trim` is characterised by its result alone: a string without white
      space at its ends, surrounded by white space, trims to itself. */
  lemma TrimOfPadded(a: string, t: string, b: string)
    requires AllWhiteSpace(a) && AllWhiteSpace(b)
    requires NoEdgeWhiteSpace(t)
    ensures Trim(a + t + b) == t
  {
    var s := a + t + b;
    if |t| > 0 {
      assert s[..|a|] == a;
      assert s[|a|] == t[0];
      LeadingSpaceUnique(s, |a|);
      assert s[|s| - |b|..] == b;
      assert s[|s| - |b| - 1] == t[|t| - 1];
      TrailingSpaceUnique(s, |b|);
      assert s[|a|..|s| - |b|] == t;
    } else {
      assert s == a + b;
      AllWhiteSpaceConcat(a, b);
      assert s[..|s|] == s;
      LeadingSpaceUnique(s, |s|);
    }
  }

  lemma AllWhiteSpaceConcat(a: string, b: string)
    requires AllWhiteSpace(a) && AllWhiteSpace(b)
    ensures AllWhiteSpace(a + b)
  {
    forall k | 0 <= k < |a + b|
      ensures IsWhiteSpace((a + b)[k])
    {
      if k < |a| { assert (a + b)[k] == a[k]; } else { assert (a + b)[k] == b[k - |a|]; }
    }
  }

  /** Every string is its trimmed value surrounded by white space. */
  lemma TrimSplits(s: string) returns (front: string, back: string)
    ensures AllWhiteSpace(front) && AllWhiteSpace(back)
    ensures s == front + Trim(s) + back
  {
    var i := LeadingSpace(s);
    if i == |s| {
      front, back := s, [];
      assert Trim(s) == [];
      assert s == s + [] + [];
    } else {
      var j := |s| - TrailingSpace(s);
      assert Trim(s) == s[i..j];
      front, back := s[..i], s[j..];
      WhiteSpaceSlice(s, 0, i);
      WhiteSpaceSlice(s, j, |s|);
      Seqs.SplitThree(s, i, j);
    }
  }

  lemma WhiteSpaceSlice(s: string, i: nat, j: nat)
    requires i <= j <= |s|
    requires forall k :: i <= k < j ==> IsWhiteSpace(s[k])
    ensures AllWhiteSpace(s[i..j])
  {
    assert forall k :: 0 <= k < j - i ==> s[i..j][k] == s[i + k];
  }

  lemma RegroupPadding(a: string, f: string, t: string, k: string, b: string)
    ensures a + (f + t + k) + b == (a + f) + t + (k + b)
  {
  }

  /** Adding white space around a value never changes what `trim` returns. */
  lemma TrimIgnoresPadding(a: string, s: string, b: string)
    requires AllWhiteSpace(a) && AllWhiteSpace(b)
    ensures Trim(a + s + b) == Trim(s)
  {
    var front, back := TrimSplits(s);
    var t := Trim(s);
    AllWhiteSpaceConcat(a, front);
    AllWhiteSpaceConcat(back, b);
    TrimOfPadded(a + front, t, back + b);
    RegroupPadding(a, front, t, back, b);
  }

  /** A string without white space at its ends is its own trimmed value. */
  lemma TrimKeepsTrimmed(s: string)
    requires NoEdgeWhiteSpace(s)
    ensures Trim(s) == s
  {
    TrimOfPadded([], s, []);
    assert [] + s + [] == s;
  }

  /** Trimming twice is trimming once. */
  lemma TrimIdempotent(s: string)
    ensures Trim(Trim(s)) == Trim(s)
  {
    TrimKeepsTrimmed(Trim(s));
  }
}
