/**
 * Concrete scenarios: the basic checks of shortener_test.go on the set
 * {"aaaa", "aabb", "aacc"}, a short form that matches a different key than
 * the input, and the empty-key case of `Expand`.
 */
module ShortstrScenarios {
  import opened Prefixes
  import opened Shortstr

  /** The shortener the basic checks run against. */
  function Basic(): (s: Shortener)
    ensures s.keys == {"aaaa", "aabb", "aacc"}
  {
    NewStrings(["aaaa", "aabb", "aacc"])
  }

  /** Strings that differ at a position inside both are not prefixes of each other. */
  lemma NotPrefixAt(p: string, q: string, i: nat)
    requires i < |p| && i < |q| && p[i] != q[i]
    ensures !(p <= q)
  {
  }

  lemma BasicMatches()
    ensures Matches(Basic().keys, "a") == {"aaaa", "aabb", "aacc"}
    ensures Matches(Basic().keys, "aa") == {"aaaa", "aabb", "aacc"}
    ensures Matches(Basic().keys, "aaa") == {"aaaa"}
    ensures Matches(Basic().keys, "aaaa") == {"aaaa"}
    ensures Matches(Basic().keys, "n") == {}
  {
    var keys := Basic().keys;
    assert "a" <= "aaaa" && "a" <= "aabb" && "a" <= "aacc";
    assert "aa" <= "aaaa" && "aa" <= "aabb" && "aa" <= "aacc";
    NotPrefixAt("aaa", "aabb", 2);
    NotPrefixAt("aaa", "aacc", 2);
    assert "aaa" <= "aaaa";
    NotPrefixAt("aaaa", "aabb", 2);
    NotPrefixAt("aaaa", "aacc", 2);
    NotPrefixAt("n", "aaaa", 0);
    NotPrefixAt("n", "aabb", 0);
    NotPrefixAt("n", "aacc", 0);
  }

  lemma BasicShortestResolves()
    ensures Shortest(Basic(), "aaaa") == "aaa"
  {
    BasicMatches();
    assert |{"aaaa", "aabb", "aacc"}| == 3;
    assert "aaaa"[..1] == "a" && "aaaa"[..2] == "aa" && "aaaa"[..3] == "aaa";
    ShortestPrefixAt(Basic(), "aaaa", 1, 3);
  }

  lemma BasicShortestNotFound()
    ensures Shortest(Basic(), "nope") == ""
  {
    BasicMatches();
    assert "nope"[..1] == "n";
    ShortestPrefixNotFound(Basic(), "nope", 1, 1);
  }

  lemma BasicShortestAmbiguous()
    ensures Shortest(Basic(), "aa") == ""
  {
    BasicMatches();
    assert |{"aaaa", "aabb", "aacc"}| == 3;
    assert "aa"[..1] == "a" && "aa"[..2] == "aa";
    ShortestPrefixAllAmbiguous(Basic(), "aa", 1);
  }

  lemma BasicShortestChunk()
    ensures ShortestChunk(Basic(), "aaaa", 2) == "aaaa"
    ensures ShortestChunk(Basic(), "nope", 2) == ""
    ensures ShortestChunk(Basic(), "aa", 2) == ""
  {
    var s := Basic();
    BasicMatches();
    assert |{"aaaa", "aabb", "aacc"}| == 3;
    assert "aaaa"[..2] == "aa" && "aaaa"[..4] == "aaaa";
    ShortestPrefixAt(s, "aaaa", 2, 4);
    assert "nope"[..2] == "no";
    assert Matches(s.keys, "no") == {} by {
      NotPrefixAt("no", "aaaa", 0);
      NotPrefixAt("no", "aabb", 0);
      NotPrefixAt("no", "aacc", 0);
    }
    ShortestPrefixNotFound(s, "nope", 2, 2);
    assert "aa"[..2] == "aa";
    ShortestPrefixAllAmbiguous(s, "aa", 2);
  }

  lemma BasicExpand()
    ensures Expand(Basic(), "aaa") == "aaaa"
    ensures Expand(Basic(), "nope") == ""
    ensures Expand(Basic(), "aa") == ""
  {
    BasicMatches();
    assert "aa" <= "aaaa" && "aa" <= "aabb";
    NotPrefixAt("nope", "aaaa", 0);
    NotPrefixAt("nope", "aabb", 0);
    NotPrefixAt("nope", "aacc", 0);
  }

  /** The short form of "axy" is the prefix "a" it shares with "abc", a different key. */
  lemma ShortFormOfNonMember()
    ensures Shortest(Shortener({"abc"}), "axy") == "a"
    ensures Expand(Shortener({"abc"}), "a") == "abc"
  {
    var s := Shortener({"abc"});
    assert "a" <= "abc";
    assert Matches(s.keys, "a") == {"abc"};
    assert "axy"[..1] == "a";
    ShortestPrefixAt(s, "axy", 1, 1);
  }

  /** Outside the set, a short form need not survive chunking: "ax" matches no key. */
  lemma ChunkedNonMember()
    ensures Shortest(Shortener({"abc"}), "axy") == "a"
    ensures ShortestChunk(Shortener({"abc"}), "axy", 2) == ""
  {
    var s := Shortener({"abc"});
    ShortFormOfNonMember();
    NotPrefixAt("ax", "abc", 1);
    assert Matches(s.keys, "ax") == {};
    assert "axy"[..2] == "ax";
    ShortestPrefixNotFound(s, "axy", 2, 2);
  }

  /**
   * The empty key is not counted by the walk callback of `Expand`. The tree
   * visits a node's own key before its children, so a walk from "" over
   * {"", "a"} visits "" first; the code as written then returns "a" although
   * two keys start with "".
   */
  lemma ExpandEmptyKeyMiscount()
    ensures Enumerates(["", "a"], Matches({"", "a"}, ""))
    ensures ExpandAsWritten(["", "a"]) == "a"
    ensures Expand(Shortener({"", "a"}), "") == ""
  {
  }
}

/** The draft of short.go on the same data: it stops at the first prefix nobody has. */
module ShortDraftScenarios {
  import opened Chunks
  import opened ShortDraft
  import Shortstr
  import ShortstrScenarios

  lemma DraftMin()
    ensures Shortenable(["aaaa", "aabb", "aacc"], "abc", 1)
    ensures Min(Short(["aaaa", "aabb", "aacc"]), "abc") == "ab"
  {
    var data := ["aaaa", "aabb", "aacc"];
    assert "abc"[..1] == "a" && "abc"[..2] == "ab";
    assert "a" <= data[0];
    assert !("ab" <= data[0]) && !("ab" <= data[1]) && !("ab" <= data[2]) by {
      assert "ab"[1] != data[0][1] && "ab"[1] != data[1][1] && "ab"[1] != data[2][1];
    }
    assert ChunkEnd("abc", 1, 2) && !Claimed(data, "abc"[..2]);
    var r := Min(Short(data), "abc");
    assert |r| != 1;
  }

  /**
   * The draft cannot shorten a full value of its own data, although its
   * documentation promises a short unique string for it; the shortener
   * that replaced it gives "aaa" for the same value.
   */
  lemma DraftFailsOnMember()
    ensures !Shortenable(["aaaa", "aabb", "aacc"], "aaaa", 1)
    ensures Shortstr.Shortest(ShortstrScenarios.Basic(), "aaaa") == "aaa"
  {
    MemberNotShortenable(Short(["aaaa", "aabb", "aacc"]), "aaaa", 1);
    ShortstrScenarios.BasicShortestResolves();
  }
}
