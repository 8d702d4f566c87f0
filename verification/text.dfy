/** String operations the script relies on: Python's ordering of `str`
    values (used by `sorted`) and `str.upper` on column names. */
module Text {
  import Sorting

  /** Python's `a <= b` on strings: lexicographic by code point, a proper
      prefix sorting before any of its extensions. */
  function LexLe(a: string, b: string): (r: bool)
    ensures r <==> a <= b || exists i :: FirstDifferenceBelow(a, b, i)
  {
    if |a| == 0 then true
    else if |b| == 0 then false
    else if a[0] < b[0] then
      assert FirstDifferenceBelow(a, b, 0);
      true
    else if b[0] < a[0] then false
    else
      LexLeStep(a, b);
      LexLe(a[1..], b[1..])
  }

  /** `a` and `b` agree before position `i`, where `a` has the smaller
      character. */
  predicate FirstDifferenceBelow(a: string, b: string, i: int) {
    0 <= i < |a| && i < |b| && a[..i] == b[..i] && a[i] < b[i]
  }

  /** Equal first characters: both the prefix relation and the first
      difference carry over to the tails. */
  lemma LexLeStep(a: string, b: string)
    requires |a| > 0 && |b| > 0 && a[0] == b[0]
    ensures (a <= b) <==> (a[1..] <= b[1..])
    ensures (exists i :: FirstDifferenceBelow(a, b, i)) <==> (exists j :: FirstDifferenceBelow(a[1..], b[1..], j))
  {
    if exists i :: FirstDifferenceBelow(a, b, i) {
      var i :| FirstDifferenceBelow(a, b, i);
      assert i > 0;
      assert a[1..][..i - 1] == a[..i][1..];
      assert b[1..][..i - 1] == b[..i][1..];
      assert FirstDifferenceBelow(a[1..], b[1..], i - 1);
    }
    if exists j :: FirstDifferenceBelow(a[1..], b[1..], j) {
      var j :| FirstDifferenceBelow(a[1..], b[1..], j);
      assert a[..j + 1] == [a[0]] + a[1..][..j];
      assert b[..j + 1] == [b[0]] + b[1..][..j];
      assert FirstDifferenceBelow(a, b, j + 1);
    }
    if a[1..] <= b[1..] {
      assert a == [a[0]] + a[1..] && b == [b[0]] + b[1..];
    }
  }

  lemma {:induction false} LexLeReflexive(a: string)
    ensures LexLe(a, a)
  {
    if |a| > 0 {
      LexLeReflexive(a[1..]);
    }
  }

  lemma {:induction false} LexLeAntisymmetric(a: string, b: string)
    requires LexLe(a, b) && LexLe(b, a)
    ensures a == b
  {
    if |a| > 0 && |b| > 0 {
      LexLeAntisymmetric(a[1..], b[1..]);
      assert a == [a[0]] + a[1..];
      assert b == [b[0]] + b[1..];
    }
  }

  lemma {:induction false} LexLeTransitive(a: string, b: string, c: string)
    requires LexLe(a, b) && LexLe(b, c)
    ensures LexLe(a, c)
  {
    if |a| > 0 && |b| > 0 && |c| > 0 && a[0] == b[0] == c[0] {
      LexLeTransitive(a[1..], b[1..], c[1..]);
    }
  }

  lemma {:induction false} LexLeTotal(a: string, b: string)
    ensures LexLe(a, b) || LexLe(b, a)
  {
    if |a| > 0 && |b| > 0 && a[0] == b[0] {
      LexLeTotal(a[1..], b[1..]);
    }
  }

  /** Python's string order is a total order, so `sorted` has one answer. */
  lemma LexLeTotalOrder()
    ensures Sorting.TotalOrder(LexLe)
  {
    forall a
      ensures LexLe(a, a)
    {
      LexLeReflexive(a);
    }
    forall a, b | LexLe(a, b) && LexLe(b, a)
      ensures a == b
    {
      LexLeAntisymmetric(a, b);
    }
    forall a, b, c | LexLe(a, b) && LexLe(b, c)
      ensures LexLe(a, c)
    {
      LexLeTransitive(a, b, c);
    }
    forall a, b
      ensures LexLe(a, b) || LexLe(b, a)
    {
      LexLeTotal(a, b);
    }
  }

  predicate IsLowerAscii(c: char) {
    'a' <= c <= 'z'
  }

  /** `str.upper` on one character, restricted to ASCII letters. */
  function UpperChar(c: char): (u: char)
    ensures !IsLowerAscii(u)
    ensures !IsLowerAscii(c) ==> u == c
    ensures IsLowerAscii(c) ==> 'A' <= u <= 'Z' && u as int + 32 == c as int
  {
    if IsLowerAscii(c) then (c as int - 32) as char else c
  }

  /** `str.upper` on a whole string, character by character. */
  function Upper(s: string): (u: string)
    ensures |u| == |s|
    ensures forall i :: 0 <= i < |s| ==> u[i] == UpperChar(s[i])
  {
    seq(|s|, i requires 0 <= i < |s| => UpperChar(s[i]))
  }

  /** No ASCII lower-case letter occurs in `s`. */
  predicate IsUpper(s: string) {
    forall i :: 0 <= i < |s| ==> !IsLowerAscii(s[i])
  }

  /** Upper-casing yields an upper-case string, leaves upper-case strings
      alone, and is therefore idempotent. */
  lemma UpperProperties(s: string)
    ensures IsUpper(Upper(s))
    ensures IsUpper(s) ==> Upper(s) == s
    ensures Upper(Upper(s)) == Upper(s)
  {
  }
}
