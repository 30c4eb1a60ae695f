/**
 * The string-key Shortener of package shortstr (shortener.go). The radix
 * tree it wraps is modelled as the finite set of keys it holds; its prefix
 * walk is `Prefixes.Matches`. Strings are sequences of chars, one char per
 * byte of the Go string, so lengths and slices agree with Go's byte indexing.
 */
module Shortstr {
  import opened Chunks
  import opened Prefixes

  datatype Shortener = Shortener(keys: set<string>)

  /** Adds one key; the tree overwrites, so an existing key is left as it is. */
  function Insert(s: Shortener, k: string): (r: Shortener)
    ensures k in r.keys
    ensures forall x :: x != k ==> (x in r.keys <==> x in s.keys)
    ensures k in s.keys ==> r == s
  {
    Shortener(s.keys + {k})
  }

  /** Removes one key; deleting a missing key changes nothing. */
  function Delete(s: Shortener, k: string): (r: Shortener)
    ensures k !in r.keys
    ensures forall x :: x != k ==> (x in r.keys <==> x in s.keys)
    ensures k !in s.keys ==> r == s
  {
    Shortener(s.keys - {k})
  }

  /** Builds a shortener by inserting the strings of `data` in order. */
  function NewStrings(data: seq<string>): (s: Shortener)
    ensures forall k :: k in s.keys <==> k in data
    decreases |data|
  {
    if |data| == 0 then
      Shortener({})
    else
      var init := data[..|data| - 1];
      assert forall k :: k in data <==> k in init || k == data[|data| - 1];
      Insert(NewStrings(init), data[|data| - 1])
  }

  lemma InsertIdempotent(s: Shortener, k: string)
    ensures Insert(Insert(s, k), k) == Insert(s, k)
  {
  }

  lemma DeleteUndoesInsert(s: Shortener, k: string)
    requires k !in s.keys
    ensures Delete(Insert(s, k), k) == s
  {
  }

  // ---------------------------------------------------------------------
  // The two prefix-walk callbacks, as written
  // ---------------------------------------------------------------------

  /** What `min` learns from one prefix walk. */
  datatype Flags = Flags(found: bool, ambiguous: bool)

  /**
   * The callback `min` hands to the prefix walk, folded over the keys the
   * walk visits: the first visit sets `found`, the second sets `ambiguous`
   * and stops the walk.
   */
  function MinVisit(visits: seq<string>, found: bool): (r: Flags)
    ensures r.found <==> found || |visits| >= 1
    ensures r.ambiguous <==> (found && |visits| >= 1) || |visits| >= 2
    decreases |visits|
  {
    if |visits| == 0 then
      Flags(found, false)
    else if found then
      Flags(true, true)
    else
      MinVisit(visits[1..], true)
  }

  /** The flags of a walk from `p`, read off the set of matching keys. */
  function Probe(keys: set<string>, p: string): Flags {
    var n := |Matches(keys, p)|;
    Flags(n >= 1, n >= 2)
  }

  /** Whatever order the tree visits the matching keys in, the callback computes `Probe`. */
  lemma ProbeIsWalk(keys: set<string>, p: string, visits: seq<string>)
    requires Enumerates(visits, Matches(keys, p))
    ensures MinVisit(visits, false) == Probe(keys, p)
  {
    EnumerationSize(visits, Matches(keys, p));
  }

  /**
   * The callback `Expand` hands to the prefix walk, folded over the visited
   * keys. It takes `full != ""` to mean "a key was already seen", so a
   * visited empty key goes uncounted.
   */
  function ExpandVisit(visits: seq<string>, full: string): (r: (string, bool))
    ensures |visits| == 0 ==> r == (full, false)
    ensures "" !in visits && full != "" && |visits| >= 1 ==> r == (full, true)
    ensures "" !in visits && full == "" && |visits| == 1 ==> r == (visits[0], false)
    ensures "" !in visits && full == "" && |visits| >= 2 ==> r == (visits[0], true)
    decreases |visits|
  {
    if |visits| == 0 then
      (full, false)
    else if full != "" then
      (full, true)
    else
      ExpandVisit(visits[1..], visits[0])
  }

  /** `Expand` exactly as shortener.go writes it, given the order the walk visits keys in. */
  function ExpandAsWritten(visits: seq<string>): (r: string)
    ensures "" !in visits && |visits| == 1 ==> r == visits[0]
    ensures "" !in visits && |visits| != 1 ==> r == ""
  {
    var (full, ambiguous) := ExpandVisit(visits, "");
    if ambiguous then "" else full
  }

  // ---------------------------------------------------------------------
  // Expand
  // ---------------------------------------------------------------------

  /** The full key a short string stands for, or "" when zero or several keys start with it. */
  function Expand(s: Shortener, p: string): (r: string)
    ensures r != "" ==> r in s.keys && p <= r
    ensures r != "" ==> forall k :: k in s.keys && p <= k ==> k == r
    ensures forall k :: k in s.keys && p <= k && Matches(s.keys, p) == {k} ==> r == k
    ensures (exists a, b :: a in s.keys && b in s.keys && a != b && p <= a && p <= b) ==> r == ""
    ensures (forall k :: k in s.keys ==> !(p <= k)) ==> r == ""
  {
    match Classify(s.keys, p)
    case Unique(k) => k
    case _ => ""
  }

  /** When the walk visits no empty key, the code as written agrees with `Expand`. */
  lemma ExpandAgreesWithCallback(s: Shortener, p: string, visits: seq<string>)
    requires Enumerates(visits, Matches(s.keys, p))
    requires p != "" || "" !in s.keys
    ensures ExpandAsWritten(visits) == Expand(s, p)
  {
    var m := Matches(s.keys, p);
    EnumerationSize(visits, m);
    assert "" !in visits;
    if |visits| == 1 {
      assert visits[0] in m;
      SingletonMembers(m);
    } else if |visits| >= 2 {
      assert visits[0] in m && visits[1] in m;
    }
  }

  // ---------------------------------------------------------------------
  // min, ShortestChunk, Shortest
  // ---------------------------------------------------------------------

  /** Every length `min` tests strictly between `lo` and `hi` gives a prefix two or more keys share. */
  ghost predicate AmbiguousBetween(keys: set<string>, input: string, l: int, lo: int, hi: int) {
    forall m :: lo < m < hi && ChunkEnd(input, l, m) ==> |Matches(keys, input[..m])| >= 2
  }

  /**
   * `m` is where the chunked search over `input` succeeds: the first tested
   * length whose prefix is not ambiguous, and exactly one key starts with it.
   */
  ghost predicate Resolves(keys: set<string>, input: string, l: int, m: int) {
    && ChunkEnd(input, l, m)
    && AmbiguousBetween(keys, input, l, 0, m)
    && |Matches(keys, input[..m])| == 1
  }

  /** The search of `min` resumed after `n` bytes have been consumed. */
  function ShortestPrefixFrom(keys: set<string>, input: string, l: int, n: int): (r: string)
    requires l >= 1 && 0 <= n <= |input| && n % l == 0
    ensures r != "" ==> n < |r| && ChunkEnd(input, l, |r|) && r == input[..|r|]
    ensures r != "" ==> |Matches(keys, r)| == 1 && AmbiguousBetween(keys, input, l, n, |r|)
    ensures r == "" ==>
              forall m :: (n < m && ChunkEnd(input, l, m) && AmbiguousBetween(keys, input, l, n, m))
                            ==> |Matches(keys, input[..m])| != 1
    decreases |input| - n
  {
    var lidx := n + l;
    NextChunk(input, l, n);
    if lidx > |input| then
      ""
    else
      var result := input[..lidx];
      var w := Probe(keys, result);
      if !w.found then
        ""
      else if w.ambiguous then
        ShortestPrefixFrom(keys, input, l, lidx)
      else
        result
  }

  /** After `n` aligned bytes, the next length tested is `n + l`; nothing in between is. */
  lemma NextChunk(input: string, l: int, n: int)
    requires l >= 1 && n % l == 0
    ensures (n + l) % l == 0
    ensures forall m :: n < m && ChunkEnd(input, l, m) ==> n + l <= m
  {
    NextAligned(n, l);
    forall m | n < m && ChunkEnd(input, l, m)
      ensures n + l <= m
    {
      AlignedGap(n, m, l);
    }
  }

  /**
   * `min`: the shortest chunk-aligned prefix of `input` that exactly one key
   * starts with, or "" when a tested prefix matches no key first, or every
   * whole chunk up to the length of `input` stays ambiguous.
   */
  function ShortestPrefix(s: Shortener, input: string, l: int): (r: string)
    requires l >= 1
    ensures r != "" ==> Resolves(s.keys, input, l, |r|) && r == input[..|r|]
    ensures r == "" ==> forall m :: !Resolves(s.keys, input, l, m)
  {
    ShortestPrefixFrom(s.keys, input, l, 0)
  }

  /** The search succeeds at one length at most. */
  lemma ResolvesUnique(keys: set<string>, input: string, l: int, m1: int, m2: int)
    requires Resolves(keys, input, l, m1) && Resolves(keys, input, l, m2)
    ensures m1 == m2
  {
  }

  /** Wherever the search succeeds, `min` returns that prefix. */
  lemma ShortestPrefixAt(s: Shortener, input: string, l: int, m: int)
    requires l >= 1 && Resolves(s.keys, input, l, m)
    ensures ShortestPrefix(s, input, l) == input[..m]
  {
  }

  /** A tested prefix nobody shares, reached while every earlier one was ambiguous, gives "". */
  lemma ShortestPrefixNotFound(s: Shortener, input: string, l: int, m: int)
    requires l >= 1 && ChunkEnd(input, l, m) && AmbiguousBetween(s.keys, input, l, 0, m)
    requires Matches(s.keys, input[..m]) == {}
    ensures ShortestPrefix(s, input, l) == ""
  {
  }

  /** Ambiguity that lasts to the last whole chunk gives "": a partial trailing chunk is never tried. */
  lemma ShortestPrefixAllAmbiguous(s: Shortener, input: string, l: int)
    requires l >= 1 && AmbiguousBetween(s.keys, input, l, 0, |input| + 1)
    ensures ShortestPrefix(s, input, l) == ""
  {
  }

  /** `min` as shortener.go writes it: a loop that appends one chunk per round. */
  method ShortestPrefixLoop(s: Shortener, input: string, l: int) returns (r: string)
    requires l >= 1
    ensures r == ShortestPrefix(s, input, l)
  {
    var result := "";
    var i := 0;
    while true
      invariant 0 <= i && i * l <= |input| && (i * l) % l == 0
      invariant result == input[..i * l]
      invariant ShortestPrefixFrom(s.keys, input, l, i * l) == ShortestPrefix(s, input, l)
      decreases |input| - i * l
    {
      ChunkIndex(i, l);
      var lidx := (i + 1) * l;
      if lidx > |input| {
        break;
      }
      result := result + input[i * l..lidx];
      assert result == input[..lidx];
      var w := Probe(s.keys, result);
      if !w.found {
        return "";
      }
      if w.ambiguous {
        ChunkIndex(i + 1, l);
        i := i + 1;
        continue;
      }
      return result;
    }
    return "";
  }

  /** ShortestChunk: the shortest unique prefix whose length is a multiple of `l`. */
  function ShortestChunk(s: Shortener, input: string, l: int): (r: string)
    requires l >= 1
    ensures r != "" ==> l <= |r| <= |input| && |r| % l == 0 && r <= input
    ensures r != "" ==> |Matches(s.keys, r)| == 1
    ensures r != "" ==> forall m :: l <= m < |r| && m % l == 0 ==> |Matches(s.keys, input[..m])| >= 2
    ensures r == "" ==> forall m :: !Resolves(s.keys, input, l, m)
  {
    ShortestPrefix(s, input, l)
  }

  /** Shortest: the shortest prefix of `input` that exactly one key starts with. */
  function Shortest(s: Shortener, input: string): (r: string)
    ensures r != "" ==> 1 <= |r| <= |input| && r <= input
    ensures r != "" ==> |Matches(s.keys, r)| == 1
    ensures r != "" ==> forall m :: 1 <= m < |r| ==> |Matches(s.keys, input[..m])| >= 2
    ensures r == "" ==> forall m :: !Resolves(s.keys, input, 1, m)
  {
    ShortestPrefix(s, input, 1)
  }

  // ---------------------------------------------------------------------
  // Properties relating several calls
  // ---------------------------------------------------------------------

  /** Expanding the short form of a key gives the key back. */
  lemma ShortestChunkExpands(s: Shortener, k: string, l: int)
    requires l >= 1 && k in s.keys && ShortestChunk(s, k, l) != ""
    ensures Expand(s, ShortestChunk(s, k, l)) == k
  {
  }

  lemma ShortestExpands(s: Shortener, k: string)
    requires k in s.keys && Shortest(s, k) != ""
    ensures Expand(s, Shortest(s, k)) == k
  {
  }

  /** No key other than `k` itself starts with `k`. */
  ghost predicate Unextended(keys: set<string>, k: string) {
    forall x :: x in keys && k <= x ==> x == k
  }

  /** Searching upwards from `m`, some length from `m` on resolves: at the latest, the whole key does. */
  lemma {:induction false} MemberResolvesFrom(s: Shortener, k: string, m: int)
    requires k in s.keys && Unextended(s.keys, k)
    requires 1 <= m <= |k| && AmbiguousBetween(s.keys, k, 1, 0, m)
    ensures exists r :: Resolves(s.keys, k, 1, r)
    decreases |k| - m
  {
    var mk := Matches(s.keys, k[..m]);
    assert k in mk;
    if m == |k| {
      assert k[..m] == k;
      assert mk == {k};
      assert Resolves(s.keys, k, 1, m);
    } else if |mk| == 1 {
      assert Resolves(s.keys, k, 1, m);
    } else {
      assert AmbiguousBetween(s.keys, k, 1, 0, m + 1);
      MemberResolvesFrom(s, k, m + 1);
    }
  }

  /** A non-empty key that no other key extends always has a short form. */
  lemma MemberHasShortForm(s: Shortener, k: string)
    requires k in s.keys && k != "" && Unextended(s.keys, k)
    ensures Shortest(s, k) != ""
  {
    MemberResolvesFrom(s, k, 1);
  }

  /** A key that is a proper prefix of another key has no short form: every prefix of it stays ambiguous. */
  lemma {:induction false} ExtendedKeyHasNoShortForm(s: Shortener, k: string, x: string)
    requires k in s.keys && x in s.keys && x != k && k <= x
    ensures Shortest(s, k) == ""
  {
    forall m | 0 < m < |k| + 1 && ChunkEnd(k, 1, m)
      ensures |Matches(s.keys, k[..m])| >= 2
    {
      var mk := Matches(s.keys, k[..m]);
      assert k[..m] <= x by {
        assert x[..m] == k[..m];
      }
      assert k in mk && x in mk - {k};
      assert |mk - {k}| == |mk| - 1;
    }
    ShortestPrefixAllAmbiguous(s, k, 1);
  }

  /** For a non-empty member, a short form exists exactly when no other key extends it. */
  lemma ShortFormExistsIff(s: Shortener, k: string)
    requires k in s.keys && k != ""
    ensures Shortest(s, k) != "" <==> Unextended(s.keys, k)
  {
    if Unextended(s.keys, k) {
      MemberHasShortForm(s, k);
    } else {
      var x :| x in s.keys && k <= x && x != k;
      ExtendedKeyHasNoShortForm(s, k, x);
    }
  }

  /** A chunked short form is never shorter than the unchunked one. */
  lemma ChunkNoShorter(s: Shortener, input: string, l: int)
    requires l >= 1 && ShortestChunk(s, input, l) != "" && Shortest(s, input) != ""
    ensures |Shortest(s, input)| <= |ShortestChunk(s, input, l)|
  {
  }

  /**
   * For a key of the set, the chunked short form is the unchunked one
   * rounded up to the next chunk boundary, whenever that boundary fits.
   */
  lemma ChunkRoundsUp(s: Shortener, k: string, c: int, m: int)
    requires c >= 1 && k in s.keys && Shortest(s, k) != ""
    requires m % c == 0 && |Shortest(s, k)| <= m < |Shortest(s, k)| + c && m <= |k|
    ensures ShortestChunk(s, k, c) == k[..m]
  {
    var q := Shortest(s, k);
    assert ChunkEnd(k, c, m) by {
      ModUnique(0, c, 0, 0);
      AlignedGap(0, m, c);
    }
    assert Matches(s.keys, k[..m]) == {k} by {
      var mq := Matches(s.keys, q);
      MatchesShrink(s.keys, q, k[..m]);
      assert k in mq;
      SingletonMembers(mq);
      assert k in Matches(s.keys, k[..m]);
    }
    assert AmbiguousBetween(s.keys, k, c, 0, m) by {
      forall m' | 0 < m' < m && ChunkEnd(k, c, m')
        ensures |Matches(s.keys, k[..m'])| >= 2
      {
        AlignedGap(m', m, c);
        assert 1 <= m' < |q|;
      }
    }
    ShortestPrefixAt(s, k, c, m);
  }

  /**
   * Inserting a new key that shares the short form of `k` makes the short
   * forms of both `k` and the new key longer, or unavailable.
   */
  lemma InsertLengthens(s: Shortener, k: string, l: int, x: string)
    requires l >= 1 && k in s.keys && x !in s.keys
    requires ShortestChunk(s, k, l) != "" && ShortestChunk(s, k, l) <= x
    ensures var r := ShortestChunk(Insert(s, x), k, l); r == "" || |r| > |ShortestChunk(s, k, l)|
    ensures var r := ShortestChunk(Insert(s, x), x, l); r == "" || |r| > |ShortestChunk(s, k, l)|
  {
    var p := ShortestChunk(s, k, l);
    var t := Insert(s, x);
    forall m | 0 < m <= |p| && ChunkEnd(k, l, m)
      ensures |Matches(t.keys, k[..m])| >= 2
    {
      MatchesGrow(s.keys, t.keys, k[..m]);
      if m == |p| {
        assert k[..m] == p;
        var mp := Matches(t.keys, p);
        assert k in mp && x in mp - {k};
        assert |mp - {k}| == |mp| - 1;
      } else {
        assert |Matches(s.keys, k[..m])| >= 2;
        SubsetSize(Matches(s.keys, k[..m]), Matches(t.keys, k[..m]));
      }
    }
    forall m | 0 < m <= |p| && m <= |x| && ChunkEnd(x, l, m)
      ensures |Matches(t.keys, x[..m])| >= 2
    {
      assert x[..m] == k[..m];
      assert ChunkEnd(k, l, m);
    }
  }
}
