/**
 * The earlier draft of the shortener, package short (short.go). It keeps the
 * data as a plain list and scans it linearly. Its search grows a prefix of
 * the input one chunk at a time and stops at the first prefix that NO item
 * starts with; if no such prefix fits inside the input, the Go slice goes
 * out of range, which the model turns into a precondition.
 */
module ShortDraft {
  import opened Chunks

  datatype Short = Short(data: seq<string>)

  /** Some item of `data` starts with `p`. */
  ghost predicate Claimed(data: seq<string>, p: string) {
    exists i :: 0 <= i < |data| && p <= data[i]
  }

  /** The inner scan of `min`: walks the items in order until one starts with `p`. */
  function AnyHasPrefix(data: seq<string>, p: string): (b: bool)
    ensures b <==> Claimed(data, p)
    decreases |data|
  {
    if |data| == 0 then
      false
    else if p <= data[0] then
      true
    else
      var b := AnyHasPrefix(data[1..], p);
      assert b ==> Claimed(data, p) by {
        if b {
          var i :| 0 <= i < |data| - 1 && p <= data[1..][i];
          assert data[1..][i] == data[i + 1];
        }
      }
      assert Claimed(data, p) ==> b by {
        if Claimed(data, p) {
          var i :| 0 <= i < |data| && p <= data[i];
          assert data[i] == data[1..][i - 1];
        }
      }
      b
  }

  /** `min` stays inside the input: some tested prefix is claimed by no item. */
  ghost predicate Shortenable(data: seq<string>, input: string, l: int) {
    exists m :: ChunkEnd(input, l, m) && !Claimed(data, input[..m])
  }

  /** A free prefix beyond `n` leaves room for the next chunk, and for one beyond it if that chunk is claimed. */
  lemma FreeAhead(data: seq<string>, input: string, l: int, n: int)
    requires l >= 1 && n % l == 0 && 0 <= n
    requires exists m :: n < m && ChunkEnd(input, l, m) && !Claimed(data, input[..m])
    ensures n + l <= |input| && (n + l) % l == 0
    ensures Claimed(data, input[..n + l]) ==>
              exists m :: n + l < m && ChunkEnd(input, l, m) && !Claimed(data, input[..m])
  {
    var m :| n < m && ChunkEnd(input, l, m) && !Claimed(data, input[..m]);
    AlignedGap(n, m, l);
    NextAligned(n, l);
  }

  /** The search of `min` resumed after `n` bytes have been consumed. */
  function ShortestPrefixFrom(data: seq<string>, input: string, l: int, n: int): (r: string)
    requires l >= 1 && 0 <= n <= |input| && n % l == 0
    requires exists m :: n < m && ChunkEnd(input, l, m) && !Claimed(data, input[..m])
    ensures n < |r| && ChunkEnd(input, l, |r|) && r == input[..|r|]
    ensures !Claimed(data, r)
    ensures forall m :: n < m < |r| && ChunkEnd(input, l, m) ==> Claimed(data, input[..m])
    decreases |input| - n
  {
    FreeAhead(data, input, l, n);
    var result := input[..n + l];
    if AnyHasPrefix(data, result) then
      var r := ShortestPrefixFrom(data, input, l, n + l);
      ClaimedBelow(data, input, l, n, |r|);
      r
    else
      NextChunkOnly(input, l, n);
      result
  }

  /** No tested length lies strictly between `n` and `n + l`. */
  lemma NextChunkOnly(input: string, l: int, n: int)
    requires l >= 1 && n % l == 0
    ensures forall m :: n < m < n + l ==> !ChunkEnd(input, l, m)
  {
    forall m | n < m < n + l && ChunkEnd(input, l, m)
      ensures false
    {
      AlignedGap(n, m, l);
    }
  }

  /** A claimed next chunk extends "every tested prefix below `hi` is claimed" back from `n + l` to `n`. */
  lemma ClaimedBelow(data: seq<string>, input: string, l: int, n: int, hi: int)
    requires l >= 1 && 0 <= n && n % l == 0 && n + l <= |input|
    requires Claimed(data, input[..n + l])
    requires forall m :: n + l < m < hi && ChunkEnd(input, l, m) ==> Claimed(data, input[..m])
    ensures forall m :: n < m < hi && ChunkEnd(input, l, m) ==> Claimed(data, input[..m])
  {
  }

  /**
   * `min`: the shortest chunk-aligned prefix of `input` that no item starts
   * with. It is never empty.
   */
  function ShortestPrefix(s: Short, input: string, l: int): (r: string)
    requires l >= 1 && Shortenable(s.data, input, l)
    ensures ChunkEnd(input, l, |r|) && r == input[..|r|]
    ensures !Claimed(s.data, r)
    ensures forall m :: 0 < m < |r| && ChunkEnd(input, l, m) ==> Claimed(s.data, input[..m])
  {
    assert exists m :: 0 < m && ChunkEnd(input, l, m) && !Claimed(s.data, input[..m]);
    ModUnique(0, l, 0, 0);
    ShortestPrefixFrom(s.data, input, l, 0)
  }

  /** MinChunk: the shortest unclaimed prefix whose length is a multiple of `l`. */
  function MinChunk(s: Short, input: string, l: int): (r: string)
    requires l >= 1 && Shortenable(s.data, input, l)
    ensures l <= |r| <= |input| && |r| % l == 0 && r <= input
    ensures forall i :: 0 <= i < |s.data| ==> !(r <= s.data[i])
    ensures forall m :: l <= m < |r| && m % l == 0 ==> Claimed(s.data, input[..m])
  {
    ShortestPrefix(s, input, l)
  }

  /** Min: the shortest prefix of `input` that no item starts with. */
  function Min(s: Short, input: string): (r: string)
    requires Shortenable(s.data, input, 1)
    ensures 1 <= |r| <= |input| && r <= input
    ensures forall i :: 0 <= i < |s.data| ==> !(r <= s.data[i])
    ensures forall m :: 1 <= m < |r| ==> Claimed(s.data, input[..m])
  {
    ShortestPrefix(s, input, 1)
  }

  /** An item of the data can never be shortened: every prefix of it is claimed by itself. */
  lemma MemberNotShortenable(s: Short, input: string, l: int)
    requires input in s.data
    ensures !Shortenable(s.data, input, l)
  {
  }

  /** With no data the first chunk is already unclaimed. */
  lemma EmptyDataFirstChunk(input: string, l: int)
    requires 1 <= l <= |input|
    ensures Shortenable([], input, l)
    ensures ShortestPrefix(Short([]), input, l) == input[..l]
  {
    ModUnique(l, l, 1, 0);
    assert ChunkEnd(input, l, l) && !Claimed([], input[..l]);
  }
}
