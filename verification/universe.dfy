/** The ticker universe built when a `Market_Analysis` is created: the
    FTSE 100 and FTSE 250 constituent symbols, concatenated, without those
    containing '.', each given the London exchange suffix ".L", sorted.
    Nothing is de-duplicated. The two constituent lists come from a web
    service and are parameters here. */
module Universe {
  import opened Sorting
  import opened Text

  const ExchangeSuffix := ".L"

  /** The symbols of `s` that contain no '.', in their original order. */
  function Undotted(s: seq<string>): (r: seq<string>)
    ensures forall x :: multiset(r)[x] == if '.' in x then 0 else multiset(s)[x]
  {
    if |s| == 0 then []
    else
      assert s == [s[0]] + s[1..];
      (if '.' in s[0] then [] else [s[0]]) + Undotted(s[1..])
  }

  /** Each symbol with the exchange suffix appended. */
  function WithSuffix(s: seq<string>): (r: seq<string>)
    ensures |r| == |s|
    ensures forall i :: 0 <= i < |s| ==> r[i] == s[i] + ExchangeSuffix
  {
    seq(|s|, i requires 0 <= i < |s| => s[i] + ExchangeSuffix)
  }

  /** The list comprehension before sorting: filter, then suffix. Every
      entry is a dot-free symbol followed by ".L", and each dot-free symbol
      occurs, suffixed, as often as in the two lists together. */
  function Candidates(ftse100: seq<string>, ftse250: seq<string>): (r: seq<string>)
    ensures forall i :: 0 <= i < |r| ==>
      |r[i]| >= 2 && r[i][|r[i]| - 2..] == ExchangeSuffix && '.' !in r[i][..|r[i]| - 2]
    ensures forall b :: '.' !in b ==>
      multiset(r)[b + ExchangeSuffix] == multiset(ftse100)[b] + multiset(ftse250)[b]
  {
    var u := Undotted(ftse100 + ftse250);
    UndottedEntries(ftse100 + ftse250);
    SuffixedCounts(u);
    WithSuffix(u)
  }

  /** No kept symbol contains '.'. */
  lemma UndottedEntries(s: seq<string>)
    ensures forall i :: 0 <= i < |Undotted(s)| ==> '.' !in Undotted(s)[i]
  {
    var u := Undotted(s);
    forall i | 0 <= i < |u|
      ensures '.' !in u[i]
    {
      assert multiset(u)[u[i]] > 0;
    }
  }

  /** `WithSuffixCount` for every symbol at once. */
  lemma SuffixedCounts(s: seq<string>)
    ensures forall b :: multiset(WithSuffix(s))[b + ExchangeSuffix] == multiset(s)[b]
  {
    forall b {
      WithSuffixCount(s, b);
    }
  }

  /** `sorted([f + '.L' for f in ftse100 + ftse250 if '.' not in f])`. */
  function Build(ftse100: seq<string>, ftse250: seq<string>): (r: seq<string>)
    ensures Sorted(r, LexLe)
    ensures multiset(r) == multiset(Candidates(ftse100, ftse250))
  {
    LexLeTotalOrder();
    SortBy(Candidates(ftse100, ftse250), LexLe)
  }

  /** Appending the suffix is injective. */
  lemma SuffixInjective(a: string, b: string)
    requires a + ExchangeSuffix == b + ExchangeSuffix
    ensures a == b
  {
    assert a == (a + ExchangeSuffix)[..|a|];
    assert b == (b + ExchangeSuffix)[..|b|];
  }

  /** Suffixing every symbol carries each symbol's count over to the
      suffixed symbol. */
  lemma {:induction false} WithSuffixCount(s: seq<string>, b: string)
    ensures multiset(WithSuffix(s))[b + ExchangeSuffix] == multiset(s)[b]
  {
    if |s| > 0 {
      var head, tail := s[0], s[1..];
      WithSuffixCount(tail, b);
      assert multiset(s) == multiset{head} + multiset(tail) by {
        assert s == [head] + tail;
      }
      WithSuffixCons(s);
      var x := head + ExchangeSuffix;
      var y := b + ExchangeSuffix;
      assert (x == y) == (head == b) by {
        if x == y {
          SuffixInjective(head, b);
        }
      }
    }
  }

  lemma WithSuffixCons(s: seq<string>)
    requires |s| > 0
    ensures multiset(WithSuffix(s)) == multiset{s[0] + ExchangeSuffix} + multiset(WithSuffix(s[1..]))
  {
    assert WithSuffix(s) == [s[0] + ExchangeSuffix] + WithSuffix(s[1..]);
  }

  /** Every entry of the universe is a dot-free constituent symbol followed
      by ".L", and every such symbol appears. */
  lemma Membership(ftse100: seq<string>, ftse250: seq<string>, t: string)
    ensures t in Build(ftse100, ftse250) <==>
      exists b :: b in ftse100 + ftse250 && '.' !in b && t == b + ExchangeSuffix
  {
    var r := Build(ftse100, ftse250);
    var u := Undotted(ftse100 + ftse250);
    assert t in r <==> t in multiset(Candidates(ftse100, ftse250));
    if t in r {
      var i :| 0 <= i < |WithSuffix(u)| && WithSuffix(u)[i] == t;
      assert u[i] in multiset(u);
    }
    if exists b :: b in ftse100 + ftse250 && '.' !in b && t == b + ExchangeSuffix {
      var b :| b in ftse100 + ftse250 && '.' !in b && t == b + ExchangeSuffix;
      WithSuffixCount(u, b);
      assert b in multiset(ftse100 + ftse250);
    }
  }

  /** The universe has as many copies of `b` + ".L" as the two lists
      together have of `b`: a symbol in both indices appears twice. */
  lemma NoDeduplication(ftse100: seq<string>, ftse250: seq<string>, b: string)
    requires '.' !in b
    ensures multiset(Build(ftse100, ftse250))[b + ExchangeSuffix]
         == multiset(ftse100)[b] + multiset(ftse250)[b]
  {
    WithSuffixCount(Undotted(ftse100 + ftse250), b);
  }

  /** Every entry ends in ".L" and has no '.' before it. */
  lemma EntryShape(ftse100: seq<string>, ftse250: seq<string>, i: int)
    requires 0 <= i < |Build(ftse100, ftse250)|
    ensures var t := Build(ftse100, ftse250)[i];
      |t| >= 2 && t[|t| - 2..] == ExchangeSuffix && '.' !in t[..|t| - 2]
  {
    var t := Build(ftse100, ftse250)[i];
    Membership(ftse100, ftse250, t);
    var b :| b in ftse100 + ftse250 && '.' !in b && t == b + ExchangeSuffix;
    assert t[..|t| - 2] == b;
  }

  /** The universe is the only ascending arrangement of the candidates. */
  lemma OnlySortedArrangement(ftse100: seq<string>, ftse250: seq<string>, s: seq<string>)
    requires Sorted(s, LexLe)
    requires multiset(s) == multiset(Candidates(ftse100, ftse250))
    ensures s == Build(ftse100, ftse250)
  {
    LexLeTotalOrder();
    SortedPermutationsEqual(s, Build(ftse100, ftse250), LexLe);
  }
}
