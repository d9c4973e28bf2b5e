/** Sequences without repetitions, and taking one element out of them. */
module Sequences {

  ghost predicate Distinct<T>(s: seq<T>) {
    forall i, j :: 0 <= i < j < |s| ==> s[i] != s[j]
  }

  function Without<T>(s: seq<T>, i: nat): seq<T>
    requires i < |s|
  {
    s[..i] + s[i + 1..]
  }

  /** What is left is everything else, still once each. */
  lemma WithoutOne<T>(s: seq<T>, i: nat)
    requires Distinct(s) && i < |s|
    ensures Distinct(Without(s, i))
    ensures forall x :: x in Without(s, i) <==> x in s && x != s[i]
  {
    var rest := Without(s, i);
    forall x | x in s && x != s[i] ensures x in rest {
      var k :| 0 <= k < |s| && s[k] == x;
      assert rest[if k < i then k else k - 1] == x;
    }
  }

  /** What is left of a sequence, in its order, when the given elements are taken out. */
  ghost function Sifted<T(!new)>(s: seq<T>, gone: set<T>): (r: seq<T>)
    ensures forall x :: x in r <==> x in s && x !in gone
  {
    if s == [] then []
    else if s[0] in gone then Sifted(s[1..], gone)
    else [s[0]] + Sifted(s[1..], gone)
  }

  lemma {:induction false} SiftedNone<T(!new)>(s: seq<T>, gone: set<T>)
    requires forall x :: x in s ==> x !in gone
    ensures Sifted(s, gone) == s
  {
    if s != [] {
      SiftedNone(s[1..], gone);
    }
  }

  lemma {:induction false} SiftedTwice<T(!new)>(s: seq<T>, a: set<T>, b: set<T>)
    ensures Sifted(Sifted(s, a), b) == Sifted(s, a + b)
  {
    if s != [] {
      SiftedTwice(s[1..], a, b);
      if s[0] !in a {
        assert Sifted(s, a)[1..] == Sifted(s[1..], a);
      }
    }
  }

  lemma {:induction false} WithoutIsSifted<T(!new)>(s: seq<T>, i: nat)
    requires Distinct(s) && i < |s|
    ensures Without(s, i) == Sifted(s, {s[i]})
  {
    if i == 0 {
      assert forall x :: x in s[1..] ==> x != s[0];
      SiftedNone(s[1..], {s[0]});
      assert Without(s, 0) == s[1..];
    } else {
      WithoutIsSifted(s[1..], i - 1);
      assert Without(s, i) == [s[0]] + Without(s[1..], i - 1);
    }
  }
}
