/** Phase two, `populate_hash_map`: hash every member of a size bucket that
    holds more than one entry and group the successfully hashed paths by
    digest. Hashing one path is an abstract, deterministic function that may
    fail; the driver instantiates it with `Hashing.FileHash`. */
module HashMap {
  import opened Wrappers
  import opened Hashing
  import opened SizeMap

  /** The digest multimap, as its entries in some iteration order. */
  type Digests = seq<(Digest, Path)>

  /** How many entries of the size multimap have size `n`: the length of
      `equal_range(n)`. */
  function BucketSize(sizes: Sizes, n: nat): (k: nat)
    ensures k <= |sizes|
    ensures k == 0 <==> forall i :: 0 <= i < |sizes| ==> sizes[i].0 != n
  {
    if sizes == [] then 0
    else (if sizes[0].0 == n then 1 else 0) + BucketSize(sizes[1..], n)
  }

  /** A path is a hashing candidate when it is in the size multimap under a
      size shared with at least one other entry. */
  ghost predicate Candidate(sizes: Sizes, p: Path) {
    exists i :: 0 <= i < |sizes| && sizes[i].1 == p && BucketSize(sizes, sizes[i].0) > 1
  }

  /** The digest entries produced while the loop walks over `part`, a run
      of the entries of the whole multimap `sizes`. */
  function HashMembers(sizes: Sizes, part: Sizes, hash: Path -> Option<Digest>): (r: Digests)
    ensures |r| <= |part|
    ensures forall e :: e in r ==> hash(e.1) == Some(e.0)
    ensures forall e :: e in r ==>
              exists i :: 0 <= i < |part| && part[i].1 == e.1 && BucketSize(sizes, part[i].0) > 1
    ensures forall i :: 0 <= i < |part| && BucketSize(sizes, part[i].0) > 1 && hash(part[i].1).Some? ==>
              (hash(part[i].1).value, part[i].1) in r
    decreases |part|
  {
    if part == [] then []
    else
      var here := Contribution(sizes, part[0], hash);
      var r := here + HashMembers(sizes, part[1..], hash);
      assert forall i :: 1 <= i < |part| ==> part[i] == part[1..][i - 1];
      r
  }

  /** What one entry of the size multimap contributes to the digest
      multimap: nothing unless its bucket has other members and its hash
      succeeds. */
  function Contribution(sizes: Sizes, entry: (nat, Path), hash: Path -> Option<Digest>): (r: Digests)
    ensures |r| <= 1
    ensures forall e :: e in r <==> e.1 == entry.1 && hash(entry.1) == Some(e.0) && BucketSize(sizes, entry.0) > 1
  {
    if BucketSize(sizes, entry.0) > 1 && hash(entry.1).Some? then [(hash(entry.1).value, entry.1)]
    else []
  }

  /** `populate_hash_map`: `None` exactly when the digest context cannot be
      allocated (the source returns false and leaves the multimap alone);
      otherwise the digest multimap grows at its end by pairs of a
      candidate and its successful digest, and every candidate whose hash
      succeeds is among them. */
  function PopulateHashMap(sizes: Sizes, digests: Digests, allocOk: bool, hash: Path -> Option<Digest>): (r: Option<Digests>)
    ensures r.None? <==> !allocOk
    ensures r.Some? ==> |digests| <= |r.value| <= |digests| + |sizes| && r.value[..|digests|] == digests
    ensures r.Some? ==> forall k :: |digests| <= k < |r.value| ==>
              hash(r.value[k].1) == Some(r.value[k].0) && Candidate(sizes, r.value[k].1)
    ensures r.Some? ==> forall i :: 0 <= i < |sizes| && BucketSize(sizes, sizes[i].0) > 1 && hash(sizes[i].1).Some? ==>
              (hash(sizes[i].1).value, sizes[i].1) in r.value[|digests|..]
  {
    if !allocOk then None
    else
      var added := HashMembers(sizes, sizes, hash);
      var r := digests + added;
      assert r[|digests|..] == added;
      assert forall k :: |digests| <= k < |r| ==> r[k] in added;
      Some(r)
  }

  lemma {:induction false} HashMembersAppend(sizes: Sizes, a: Sizes, b: Sizes, hash: Path -> Option<Digest>)
    ensures HashMembers(sizes, a + b, hash) == HashMembers(sizes, a, hash) + HashMembers(sizes, b, hash)
    decreases |a|
  {
    if a == [] {
      assert a + b == b;
    } else {
      assert (a + b)[1..] == a[1..] + b;
      HashMembersAppend(sizes, a[1..], b, hash);
    }
  }

  /** Hashing is order independent: visiting the entries of the size
      multimap in any other order yields the same digest entries, as a
      multiset. */
  lemma {:induction false} HashOrderIndependent(sizes: Sizes, a: Sizes, b: Sizes, hash: Path -> Option<Digest>)
    requires multiset(a) == multiset(b)
    ensures multiset(HashMembers(sizes, a, hash)) == multiset(HashMembers(sizes, b, hash))
    decreases |a|
  {
    if a == [] {
      assert |b| == |multiset(b)| == 0;
    } else {
      var x := a[0];
      assert x in multiset(b);
      var i :| 0 <= i < |b| && b[i] == x;
      var b' := b[..i] + b[i + 1..];
      RemoveAt(b, i);
      assert a == [x] + a[1..];
      assert multiset(a[1..]) == multiset(b');
      HashOrderIndependent(sizes, a[1..], b', hash);
      HashMembersRemoveAt(sizes, b, i, hash);
    }
  }

  lemma RemoveAt(b: Sizes, i: nat)
    requires i < |b|
    ensures multiset(b[..i] + b[i + 1..]) == multiset(b) - multiset{b[i]}
  {
    assert b == b[..i] + [b[i]] + b[i + 1..];
  }

  /** The digest entries of `b`, split around its entry `i`. */
  lemma HashMembersRemoveAt(sizes: Sizes, b: Sizes, i: nat, hash: Path -> Option<Digest>)
    requires i < |b|
    ensures multiset(HashMembers(sizes, b, hash))
         == multiset(Contribution(sizes, b[i], hash)) + multiset(HashMembers(sizes, b[..i] + b[i + 1..], hash))
  {
    var pre, post := b[..i], b[i + 1..];
    assert b == (pre + [b[i]]) + post;
    HashMembersAppend(sizes, pre + [b[i]], post, hash);
    HashMembersAppend(sizes, pre, [b[i]], hash);
    HashMembersAppend(sizes, pre, post, hash);
    HashMembersSingle(sizes, b[i], hash);
    var x, c, y := HashMembers(sizes, pre, hash), Contribution(sizes, b[i], hash), HashMembers(sizes, post, hash);
    assert HashMembers(sizes, b, hash) == x + c + y;
    assert multiset(x + c + y) == multiset(x) + multiset(c) + multiset(y);
  }

  lemma HashMembersSingle(sizes: Sizes, e: (nat, Path), hash: Path -> Option<Digest>)
    ensures HashMembers(sizes, [e], hash) == Contribution(sizes, e, hash)
  {
    assert HashMembers(sizes, [e], hash) == Contribution(sizes, e, hash) + HashMembers(sizes, [], hash);
  }

  /** The digest entries without those for path `p`. */
  function WithoutPath(d: Digests, p: Path): (r: Digests)
    ensures forall e :: e in r <==> e in d && e.1 != p
  {
    if d == [] then []
    else (if d[0].1 == p then [] else [d[0]]) + WithoutPath(d[1..], p)
  }

  /** A failure to hash one path only drops that path: every other bucket
      member is processed exactly as it would be had the hash succeeded. */
  lemma {:induction false} HashFailureIsolated(sizes: Sizes, part: Sizes, hash: Path -> Option<Digest>, p: Path)
    ensures HashMembers(sizes, part, q => if q == p then None else hash(q))
         == WithoutPath(HashMembers(sizes, part, hash), p)
    decreases |part|
  {
    if part != [] {
      var failing := q => if q == p then None else hash(q);
      HashFailureIsolated(sizes, part[1..], hash, p);
      var here := Contribution(sizes, part[0], hash);
      WithoutPathAppend(here, HashMembers(sizes, part[1..], hash), p);
    }
  }

  lemma {:induction false} WithoutPathAppend(a: Digests, b: Digests, p: Path)
    ensures WithoutPath(a + b, p) == WithoutPath(a, p) + WithoutPath(b, p)
    decreases |a|
  {
    if a == [] {
      assert a + b == b;
    } else {
      assert (a + b)[1..] == a[1..] + b;
      WithoutPathAppend(a[1..], b, p);
    }
  }

  /** Files whose size is shared by no other entry are never hashed: when
      the multimap holds each path once, a path alone in its bucket gets
      no digest entry. */
  lemma UniqueSizeNeverHashed(sizes: Sizes, hash: Path -> Option<Digest>, i: nat)
    requires forall j, k :: 0 <= j < k < |sizes| ==> sizes[j].1 != sizes[k].1
    requires i < |sizes| && BucketSize(sizes, sizes[i].0) == 1
    ensures forall e :: e in HashMembers(sizes, sizes, hash) ==> e.1 != sizes[i].1
  {
  }

  /** With a single pass over a multimap that holds each path once, each
      path is in the digest entries at most once. */
  lemma {:induction false} HashMembersDistinct(sizes: Sizes, part: Sizes, hash: Path -> Option<Digest>)
    requires forall j, k :: 0 <= j < k < |part| ==> part[j].1 != part[k].1
    ensures forall j, k :: 0 <= j < k < |HashMembers(sizes, part, hash)| ==>
              HashMembers(sizes, part, hash)[j].1 != HashMembers(sizes, part, hash)[k].1
    decreases |part|
  {
    if part != [] {
      var tail := HashMembers(sizes, part[1..], hash);
      HashMembersDistinct(sizes, part[1..], hash);
      assert forall e :: e in tail ==> e.1 != part[0].1;
      var r := HashMembers(sizes, part, hash);
      assert r == Contribution(sizes, part[0], hash) + tail;
      forall j, k | 0 <= j < k < |r|
        ensures r[j].1 != r[k].1
      {
        if |Contribution(sizes, part[0], hash)| == 1 && j == 0 {
          assert r[k] in tail;
        }
      }
    }
  }

  /** When all sizes in the multimap differ, nothing is hashed at all. */
  lemma DistinctSizesHashNothing(sizes: Sizes, hash: Path -> Option<Digest>)
    requires forall j, k :: 0 <= j < k < |sizes| ==> sizes[j].0 != sizes[k].0
    ensures HashMembers(sizes, sizes, hash) == []
  {
    forall i | 0 <= i < |sizes|
      ensures BucketSize(sizes, sizes[i].0) <= 1
    {
      BucketSizeOne(sizes, i);
    }
    NoSharedBucketNoHashes(sizes, sizes, hash);
  }

  lemma {:induction false} NoSharedBucketNoHashes(sizes: Sizes, part: Sizes, hash: Path -> Option<Digest>)
    requires forall i :: 0 <= i < |part| ==> BucketSize(sizes, part[i].0) <= 1
    ensures HashMembers(sizes, part, hash) == []
    decreases |part|
  {
    if part != [] {
      assert forall i :: 0 <= i < |part| - 1 ==> part[1..][i] == part[i + 1];
      NoSharedBucketNoHashes(sizes, part[1..], hash);
    }
  }

  lemma {:induction false} BucketSizeOne(sizes: Sizes, i: nat)
    requires forall j, k :: 0 <= j < k < |sizes| ==> sizes[j].0 != sizes[k].0
    requires i < |sizes|
    ensures BucketSize(sizes, sizes[i].0) == 1
    decreases |sizes|
  {
    if i == 0 {
      var t := sizes[1..];
      assert forall j :: 0 <= j < |t| ==> t[j].0 != sizes[0].0 by {
        forall j | 0 <= j < |t| ensures t[j].0 != sizes[0].0 {
          assert t[j] == sizes[j + 1];
        }
      }
    } else {
      assert sizes[1..][i - 1] == sizes[i];
      BucketSizeOne(sizes[1..], i - 1);
      assert sizes[0].0 != sizes[i].0;
    }
  }

  /** Two entries with the same size make a bucket of more than one. */
  lemma {:induction false} BucketSizeTwo(sizes: Sizes, i: nat, j: nat)
    requires i < |sizes| && j < |sizes| && i != j && sizes[i].0 == sizes[j].0
    ensures BucketSize(sizes, sizes[i].0) > 1
    decreases |sizes|
  {
    if i == 0 {
      assert sizes[1..][j - 1] == sizes[j];
    } else if j == 0 {
      assert sizes[1..][i - 1] == sizes[i];
    } else {
      assert sizes[1..][i - 1] == sizes[i] && sizes[1..][j - 1] == sizes[j];
      BucketSizeTwo(sizes[1..], i - 1, j - 1);
    }
  }

  /** A bucket has more than one entry exactly when two different entries
      of the size multimap have its size: the `> 1` test on the length of
      `equal_range` asks whether the size is shared. */
  lemma {:induction false} BucketShared(sizes: Sizes, n: nat)
    ensures BucketSize(sizes, n) > 1 <==>
              exists i, j :: 0 <= i < j < |sizes| && sizes[i].0 == n && sizes[j].0 == n
    decreases |sizes|
  {
    if BucketSize(sizes, n) > 1 {
      var t := sizes[1..];
      if sizes[0].0 == n {
        var j :| 0 <= j < |t| && t[j].0 == n;
        assert sizes[j + 1] == t[j];
      } else {
        BucketShared(t, n);
        var i, j :| 0 <= i < j < |t| && t[i].0 == n && t[j].0 == n;
        assert sizes[i + 1] == t[i] && sizes[j + 1] == t[j];
      }
    }
    if exists i, j :: 0 <= i < j < |sizes| && sizes[i].0 == n && sizes[j].0 == n {
      var i, j :| 0 <= i < j < |sizes| && sizes[i].0 == n && sizes[j].0 == n;
      BucketSizeTwo(sizes, i, j);
    }
  }
}
