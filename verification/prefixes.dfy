/**
 * The radix tree of shortener.go, seen from the outside: a finite set of
 * keys and the one query the shortener asks of it, "which keys start with
 * this prefix?". A prefix walk visits exactly those keys, each once, in an
 * order the tree chooses; `Enumerates` describes such a visit order.
 */
module Prefixes {

  /** The keys a prefix walk from `p` visits. Sequence `<=` is "is a prefix of". */
  function Matches(keys: set<string>, p: string): set<string> {
    set k | k in keys && p <= k
  }

  /** A longer prefix is shared by no more keys than a shorter one. */
  lemma MatchesShrink(keys: set<string>, p: string, q: string)
    requires p <= q
    ensures Matches(keys, q) <= Matches(keys, p)
  {
  }

  /** Adding keys never removes a match. */
  lemma MatchesGrow(keys: set<string>, more: set<string>, p: string)
    requires keys <= more
    ensures Matches(keys, p) <= Matches(more, p)
  {
  }

  lemma SubsetSize(a: set<string>, b: set<string>)
    requires a <= b
    ensures |a| <= |b|
  {
    assert b == a + (b - a);
  }

  predicate Distinct(s: seq<string>) {
    forall i, j :: 0 <= i < j < |s| ==> s[i] != s[j]
  }

  /** `visits` lists every element of `ks` exactly once. */
  predicate Enumerates(visits: seq<string>, ks: set<string>) {
    && Distinct(visits)
    && (forall i :: 0 <= i < |visits| ==> visits[i] in ks)
    && (forall k :: k in ks ==> k in visits)
  }

  /** A walk makes exactly as many callback calls as there are matching keys. */
  lemma {:induction false} EnumerationSize(visits: seq<string>, ks: set<string>)
    requires Enumerates(visits, ks)
    ensures |visits| == |ks|
  {
    if |visits| == 0 {
      assert ks == {};
    } else {
      var rest := ks - {visits[0]};
      assert Enumerates(visits[1..], rest) by {
        forall k | k in rest
          ensures k in visits[1..]
        {
          assert k in visits;
          var i :| 0 <= i < |visits| && visits[i] == k;
          assert i != 0;
          assert visits[1..][i - 1] == k;
        }
        forall i | 0 <= i < |visits| - 1
          ensures visits[1..][i] in rest
        {
          assert visits[1..][i] == visits[i + 1];
        }
      }
      EnumerationSize(visits[1..], rest);
    }
  }

  /** A set with exactly one element has no two different members. */
  lemma SingletonMembers(ks: set<string>)
    requires |ks| == 1
    ensures forall a, b :: a in ks && b in ks ==> a == b
  {
    forall a, b | a in ks && b in ks
      ensures a == b
    {
      assert |ks - {a}| == |ks| - 1;
      assert b in ks - {a} || b == a;
    }
  }

  /** The outcome of a prefix query, distinguishing the two ways it can fail. */
  datatype Lookup = NotFound | Unique(key: string) | Ambiguous

  /** Classifies a prefix by the keys that start with it. */
  function Classify(keys: set<string>, p: string): (r: Lookup)
    ensures r.NotFound? <==> forall k :: k in keys ==> !(p <= k)
    ensures r.Unique? ==> r.key in keys && p <= r.key
    ensures r.Unique? ==> forall k :: k in keys && p <= k ==> k == r.key
    ensures r.Ambiguous? <==> exists a, b :: a in keys && b in keys && a != b && p <= a && p <= b
  {
    var m := Matches(keys, p);
    assert forall k :: k in keys && p <= k ==> k in m;
    if |m| == 0 then
      NotFound
    else if |m| == 1 then
      SingletonMembers(m);
      var k :| k in m;
      Unique(k)
    else
      var a :| a in m;
      assert |m - {a}| > 0;
      var b :| b in m - {a};
      Ambiguous
  }
}
