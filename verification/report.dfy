/** Reporting, `print_duplicates`: walk the digest multimap in its
    iteration order and, the first time a digest is met, print its hex
    rendering followed by every path filed under it, if there are at least
    two. */
module Report {
  import opened Wrappers
  import opened Hex
  import opened Hashing
  import opened SizeMap
  import opened HashMap

  /** One block of output: a digest line, then one indented line per path. */
  datatype Block = Block(hex: string, paths: seq<Path>)

  /** The paths filed under digest `d`, in iteration order: what
      `equal_range(d)` yields. */
  function EqualRange(it: Digests, d: Digest): (ps: seq<Path>)
    ensures |ps| <= |it|
    ensures forall p :: p in ps <==> (d, p) in it
  {
    if it == [] then []
    else (if it[0].0 == d then [it[0].1] else []) + EqualRange(it[1..], d)
  }

  /** `equal_range(d)` lists each path as often as it is filed under `d`:
      the count that the `> 1` test reads. */
  lemma {:induction false} EqualRangeCount(it: Digests, d: Digest)
    ensures forall p :: multiset(EqualRange(it, d))[p] == multiset(it)[(d, p)]
    decreases |it|
  {
    if it != [] {
      EqualRangeCount(it[1..], d);
      assert it == [it[0]] + it[1..];
      var here := if it[0].0 == d then [it[0].1] else [];
      assert EqualRange(it, d) == here + EqualRange(it[1..], d);
    }
  }

  /** Entries with equal digests are adjacent in the iteration order, as
      the C++ standard guarantees for unordered associative containers:
      no digest starts two runs. */
  ghost predicate Grouped(it: Digests) {
    forall i, j :: 0 <= i < j < |it| && RunStart(it, i) && RunStart(it, j) ==> it[i].0 != it[j].0
  }

  /** Position `k` starts a run of equal digests. */
  ghost predicate RunStart(it: Digests, k: int)
    requires 0 <= k < |it|
  {
    k == 0 || it[k - 1].0 != it[k].0
  }

  /** The block printed for digest `d`. */
  function BlockFor(it: Digests, d: Digest): (b: Block)
    ensures FromHex(b.hex) == Some(d)
    ensures forall p :: p in b.paths <==> (d, p) in it
  {
    HexRoundTrip(d);
    Block(ToHex(d), EqualRange(it, d))
  }

  /** Block `b` is what the loop prints at a run start at or after
      position `i` whose digest has more than one path. */
  ghost predicate PrintedFrom(it: Digests, i: nat, b: Block) {
    exists k :: i <= k < |it| && RunStart(it, k) && |EqualRange(it, it[k].0)| > 1 && b == BlockFor(it, it[k].0)
  }

  /** No two blocks carry the same digest line. */
  ghost predicate DistinctDigests(out: seq<Block>) {
    forall x, y :: 0 <= x < y < |out| ==> out[x].hex != out[y].hex
  }

  /** The loop of `print_duplicates` from position `i` on, `current` being
      the last digest considered (initially the empty string, which no
      64-byte digest equals). An entry whose digest equals `current` is
      skipped; otherwise `current` moves to it, and its equal range is
      printed when it holds more than one path. Only run starts print. */
  function PrintFrom(it: Digests, i: nat, current: seq<byte>): (out: seq<Block>)
    requires i <= |it|
    requires if i == 0 then current == [] else current == it[i - 1].0
    ensures forall b :: b in out ==> PrintedFrom(it, i, b)
    decreases |it| - i
  {
    if i == |it| then []
    else if current == it[i].0 then
      PrintFrom(it, i + 1, current)
    else
      var d := it[i].0;
      var range := EqualRange(it, d);
      var here := if |range| > 1 then [BlockFor(it, d)] else [];
      var rest := PrintFrom(it, i + 1, d);
      assert RunStart(it, i);
      here + rest
  }

  /** Every run start at or after `i` whose digest has more than one path
      is printed. */
  lemma {:induction false} PrintFromComplete(it: Digests, i: nat, current: seq<byte>, k: nat)
    requires i <= k < |it|
    requires if i == 0 then current == [] else current == it[i - 1].0
    requires RunStart(it, k) && |EqualRange(it, it[k].0)| > 1
    ensures BlockFor(it, it[k].0) in PrintFrom(it, i, current)
    decreases |it| - i
  {
    if k == i {
      assert current != it[i].0;
    } else if current == it[i].0 {
      PrintFromComplete(it, i + 1, current, k);
    } else {
      PrintFromComplete(it, i + 1, it[i].0, k);
    }
  }

  /** When no digest has two paths, the loop prints nothing from any
      position on. */
  lemma {:induction false} PrintFromNothing(it: Digests, i: nat, current: seq<byte>)
    requires i <= |it|
    requires if i == 0 then current == [] else current == it[i - 1].0
    requires forall k :: i <= k < |it| ==> |EqualRange(it, it[k].0)| < 2
    ensures PrintFrom(it, i, current) == []
    decreases |it| - i
  {
    if i < |it| {
      PrintQuiet(it, i, current);
      PrintFromNothing(it, i + 1, it[i].0);
    }
  }

  /** A position whose digest has at most one path prints nothing there. */
  lemma PrintQuiet(it: Digests, i: nat, current: seq<byte>)
    requires i < |it|
    requires if i == 0 then current == [] else current == it[i - 1].0
    requires |EqualRange(it, it[i].0)| < 2
    ensures PrintFrom(it, i, current) == PrintFrom(it, i + 1, it[i].0)
  {
  }

  /** A multimap in which every digest has at most one path prints
      nothing. */
  lemma NothingDoubledNoOutput(it: Digests)
    requires forall d :: |EqualRange(it, d)| < 2
    ensures PrintDuplicates(it) == []
  {
    PrintFromNothing(it, 0, []);
  }

  /** When equal digests are adjacent, the loop prints each digest at most
      once. */
  lemma {:induction false} PrintFromDistinct(it: Digests, i: nat, current: seq<byte>)
    requires i <= |it|
    requires if i == 0 then current == [] else current == it[i - 1].0
    requires Grouped(it)
    ensures DistinctDigests(PrintFrom(it, i, current))
    decreases |it| - i
  {
    if i == |it| {
      assert PrintFrom(it, i, current) == [];
    } else if current == it[i].0 {
      PrintFromDistinct(it, i + 1, current);
      DistinctInRun(it, i, current);
    } else {
      PrintFromDistinct(it, i + 1, it[i].0);
      DistinctAtRunStart(it, i, current);
    }
  }

  /** Inside a run the loop prints nothing, so distinctness carries over. */
  lemma DistinctInRun(it: Digests, i: nat, current: seq<byte>)
    requires i < |it| && current == it[i].0
    requires if i == 0 then current == [] else current == it[i - 1].0
    requires DistinctDigests(PrintFrom(it, i + 1, current))
    ensures DistinctDigests(PrintFrom(it, i, current))
  {
    PrintSkip(it, i, current);
  }

  /** A run start's block, if any, differs from everything printed
      after it. */
  lemma DistinctAtRunStart(it: Digests, i: nat, current: seq<byte>)
    requires i < |it| && current != it[i].0
    requires if i == 0 then current == [] else current == it[i - 1].0
    requires Grouped(it)
    requires DistinctDigests(PrintFrom(it, i + 1, it[i].0))
    ensures DistinctDigests(PrintFrom(it, i, current))
  {
    var rest := PrintFrom(it, i + 1, it[i].0);
    var here := PrintAt(it, i, current);
    LaterRunsDiffer(it, i, rest);
    DistinctPrepend(here, rest, ToHex(it[i].0));
  }

  /** Inside a run the loop prints nothing. */
  lemma PrintSkip(it: Digests, i: nat, current: seq<byte>)
    requires i < |it| && current == it[i].0
    requires if i == 0 then current == [] else current == it[i - 1].0
    ensures PrintFrom(it, i, current) == PrintFrom(it, i + 1, current)
  {
  }

  /** At a run start the loop prints at most that run's block, then goes
      on. */
  lemma PrintAt(it: Digests, i: nat, current: seq<byte>) returns (here: seq<Block>)
    requires i < |it| && current != it[i].0
    requires if i == 0 then current == [] else current == it[i - 1].0
    ensures RunStart(it, i)
    ensures |here| <= 1 && forall b :: b in here ==> b.hex == ToHex(it[i].0)
    ensures PrintFrom(it, i, current) == here + PrintFrom(it, i + 1, it[i].0)
  {
    here := if |EqualRange(it, it[i].0)| > 1 then [BlockFor(it, it[i].0)] else [];
  }

  /** Under grouping, nothing the loop prints after a run start repeats
      that run's digest. */
  lemma LaterRunsDiffer(it: Digests, i: nat, rest: seq<Block>)
    requires i < |it| && RunStart(it, i)
    requires Grouped(it)
    requires forall b :: b in rest ==> PrintedFrom(it, i + 1, b)
    ensures forall b :: b in rest ==> b.hex != ToHex(it[i].0)
  {
    forall b | b in rest
      ensures b.hex != ToHex(it[i].0)
    {
      assert PrintedFrom(it, i + 1, b);
      var k :| i + 1 <= k < |it| && RunStart(it, k) && |EqualRange(it, it[k].0)| > 1 && b == BlockFor(it, it[k].0);
      assert it[k].0 != it[i].0;
      ToHexInjective(it[k].0, it[i].0);
    }
  }

  lemma DistinctPrepend(here: seq<Block>, rest: seq<Block>, hex: string)
    requires |here| <= 1 && forall b :: b in here ==> b.hex == hex
    requires forall b :: b in rest ==> b.hex != hex
    requires DistinctDigests(rest)
    ensures DistinctDigests(here + rest)
  {
    var out := here + rest;
    forall x, y | 0 <= x < y < |out|
      ensures out[x].hex != out[y].hex
    {
      if |here| == 1 && x == 0 {
        assert out[y] in rest;
      } else {
        assert out[x] == rest[x - |here|] && out[y] == rest[y - |here|];
      }
    }
  }

  /** Every digest occurs at some run start: its first occurrence. */
  lemma {:induction false} HasRunStart(it: Digests, k: nat)
    requires k < |it|
    ensures exists s :: 0 <= s <= k && RunStart(it, s) && it[s].0 == it[k].0
    decreases k
  {
    if !RunStart(it, k) {
      HasRunStart(it, k - 1);
    }
  }

  /** `print_duplicates`. Every block is the hex rendering of a digest with
      at least two paths followed by exactly the paths filed under it;
      every digest with at least two paths gets its block; a digest with a
      single path prints nothing; and, because equal digests are adjacent,
      no digest is printed twice. */
  function PrintDuplicates(it: Digests): (out: seq<Block>)
    ensures forall b :: b in out ==>
              exists k :: 0 <= k < |it| && |EqualRange(it, it[k].0)| >= 2 && b == BlockFor(it, it[k].0)
    ensures forall k :: 0 <= k < |it| && |EqualRange(it, it[k].0)| >= 2 ==> BlockFor(it, it[k].0) in out
    ensures forall k :: 0 <= k < |it| && |EqualRange(it, it[k].0)| == 1 ==>
              forall b :: b in out ==> b.hex != ToHex(it[k].0)
    ensures Grouped(it) ==> forall x, y :: 0 <= x < y < |out| ==> out[x].hex != out[y].hex
  {
    PrintSound(it);
    PrintComplete(it);
    assert Grouped(it) ==> DistinctDigests(PrintFrom(it, 0, [])) by {
      if Grouped(it) {
        PrintFromDistinct(it, 0, []);
      }
    }
    PrintFrom(it, 0, [])
  }

  /** What the whole loop prints is a block for some digest with at least
      two paths, and never one for a digest with a single path. */
  lemma PrintSound(it: Digests)
    ensures forall b :: b in PrintFrom(it, 0, []) ==>
              exists k :: 0 <= k < |it| && |EqualRange(it, it[k].0)| >= 2 && b == BlockFor(it, it[k].0)
    ensures forall k :: 0 <= k < |it| && |EqualRange(it, it[k].0)| == 1 ==>
              forall b :: b in PrintFrom(it, 0, []) ==> b.hex != ToHex(it[k].0)
  {
    var out := PrintFrom(it, 0, []);
    forall b | b in out
      ensures exists k :: 0 <= k < |it| && |EqualRange(it, it[k].0)| >= 2 && b == BlockFor(it, it[k].0)
    {
      assert PrintedFrom(it, 0, b);
    }
    forall k, b | 0 <= k < |it| && |EqualRange(it, it[k].0)| == 1 && b in out
      ensures b.hex != ToHex(it[k].0)
    {
      assert PrintedFrom(it, 0, b);
      var k' :| 0 <= k' < |it| && RunStart(it, k') && |EqualRange(it, it[k'].0)| > 1 && b == BlockFor(it, it[k'].0);
      ToHexInjective(it[k'].0, it[k].0);
    }
  }

  /** The whole loop prints a block for every digest with at least two
      paths. */
  lemma PrintComplete(it: Digests)
    ensures forall k :: 0 <= k < |it| && |EqualRange(it, it[k].0)| >= 2 ==> BlockFor(it, it[k].0) in PrintFrom(it, 0, [])
  {
    forall k | 0 <= k < |it| && |EqualRange(it, it[k].0)| >= 2
      ensures BlockFor(it, it[k].0) in PrintFrom(it, 0, [])
    {
      HasRunStart(it, k);
      var s :| 0 <= s <= k && RunStart(it, s) && it[s].0 == it[k].0;
      PrintFromComplete(it, 0, [], s);
    }
  }

  /** The entries filed under digest `d`, in order. */
  function WithDigest(s: Digests, d: Digest): (r: Digests)
    ensures forall x :: 0 <= x < |r| ==> r[x].0 == d
    ensures forall e :: e in r <==> e in s && e.0 == d
  {
    if s == [] then []
    else (if s[0].0 == d then [s[0]] else []) + WithDigest(s[1..], d)
  }

  /** The entries filed under other digests than `d`, in order. */
  function WithoutDigest(s: Digests, d: Digest): (r: Digests)
    ensures |r| <= |s| && (s != [] && s[0].0 == d ==> |r| < |s|)
    ensures forall e :: e in r <==> e in s && e.0 != d
  {
    if s == [] then []
    else (if s[0].0 == d then [] else [s[0]]) + WithoutDigest(s[1..], d)
  }

  /** An iteration order for the digest multimap in which equal digests
      are adjacent: digests in order of first insertion, each followed by
      all its entries in insertion order. The real container's order is
      implementation-defined; the driver uses this one, and everything
      proved about printing holds for any grouped order. */
  function GroupByKey(s: Digests): (r: Digests)
    ensures Grouped(r)
    ensures forall e :: e in r <==> e in s
    ensures forall d :: EqualRange(r, d) == EqualRange(s, d)
    decreases |s|
  {
    if s == [] then []
    else
      var k := s[0].0;
      var same := WithDigest(s, k);
      var rest := GroupByKey(WithoutDigest(s, k));
      GroupedAppend(same, rest, k);
      forall d
        ensures EqualRange(same + rest, d) == EqualRange(s, d)
      {
        EqualRangeAppend(same, rest, d);
        EqualRangeSplit(s, k, d);
      }
      same + rest
  }

  lemma {:induction false} EqualRangeAppend(a: Digests, b: Digests, d: Digest)
    ensures EqualRange(a + b, d) == EqualRange(a, d) + EqualRange(b, d)
    decreases |a|
  {
    if a == [] {
      assert a + b == b;
    } else {
      assert (a + b)[1..] == a[1..] + b;
      EqualRangeAppend(a[1..], b, d);
    }
  }

  /** Splitting by digest `k` keeps each digest's equal range intact. */
  lemma {:induction false} EqualRangeSplit(s: Digests, k: Digest, d: Digest)
    ensures EqualRange(WithDigest(s, k), d) == if d == k then EqualRange(s, d) else []
    ensures EqualRange(WithoutDigest(s, k), d) == if d == k then [] else EqualRange(s, d)
    decreases |s|
  {
    if s != [] {
      EqualRangeSplit(s[1..], k, d);
      EqualRangeAppend(if s[0].0 == k then [s[0]] else [], WithDigest(s[1..], k), d);
      EqualRangeAppend(if s[0].0 == k then [] else [s[0]], WithoutDigest(s[1..], k), d);
    }
  }

  /** A run of one digest followed by a grouped sequence free of it is
      grouped. */
  lemma GroupedAppend(a: Digests, b: Digests, k: Digest)
    requires forall x :: 0 <= x < |a| ==> a[x].0 == k
    requires forall e :: e in b ==> e.0 != k
    requires Grouped(b)
    ensures Grouped(a + b)
  {
    var s := a + b;
    forall i, j | 0 <= i < j < |s| && RunStart(s, i) && RunStart(s, j)
      ensures s[i].0 != s[j].0
    {
      if i >= |a| {
        assert s[i] == b[i - |a|] && s[j] == b[j - |a|] && s[j - 1] == b[j - 1 - |a|];
        assert i > |a| ==> s[i - 1] == b[i - 1 - |a|];
        assert RunStart(b, i - |a|) && RunStart(b, j - |a|);
      } else if j >= |a| {
        assert s[i] == a[i] && s[j] == b[j - |a|] && s[j] in b;
      }
    }
  }

  /** No path is listed twice. */
  ghost predicate NoRepeats(ps: seq<Path>) {
    forall x, y :: 0 <= x < y < |ps| ==> ps[x] != ps[y]
  }

  /** No path has two entries. */
  ghost predicate DistinctPaths(it: Digests) {
    forall x, y :: 0 <= x < y < |it| ==> it[x].1 != it[y].1
  }

  lemma {:induction false} EqualRangeNoRepeats(it: Digests, d: Digest)
    requires DistinctPaths(it)
    ensures NoRepeats(EqualRange(it, d))
    decreases |it|
  {
    if it != [] {
      assert DistinctPaths(it[1..]) by {
        forall x, y | 0 <= x < y < |it| - 1
          ensures it[1..][x].1 != it[1..][y].1
        {
          assert it[1..][x] == it[x + 1] && it[1..][y] == it[y + 1];
        }
      }
      EqualRangeNoRepeats(it[1..], d);
      var rest := EqualRange(it[1..], d);
      assert forall p :: p in rest ==> (d, p) in it[1..];
      assert (d, it[0].1) !in it[1..];
    }
  }

  /** When the digest multimap holds each path once, no printed block lists
      a path twice. */
  lemma PrintedPathsDistinct(digests: Digests)
    requires DistinctPaths(digests)
    ensures forall b :: b in PrintDuplicates(GroupByKey(digests)) ==> NoRepeats(b.paths)
  {
    BlocksNoRepeats(GroupByKey(digests), digests);
  }

  /** Printing any multimap with the same paths per digest as `digests`
      lists no path twice in a block. */
  lemma BlocksNoRepeats(it: Digests, digests: Digests)
    requires DistinctPaths(digests)
    requires forall d :: EqualRange(it, d) == EqualRange(digests, d)
    ensures forall b :: b in PrintDuplicates(it) ==> NoRepeats(b.paths)
  {
    forall b | b in PrintDuplicates(it)
      ensures NoRepeats(b.paths)
    {
      var k :| 0 <= k < |it| && |EqualRange(it, it[k].0)| >= 2 && b == BlockFor(it, it[k].0);
      EqualRangeNoRepeats(digests, it[k].0);
    }
  }

  /** Two different paths filed under the same digest make that digest's
      block appear, listing both. */
  lemma PairPrinted(digests: Digests, d: Digest, p: Path, q: Path)
    requires p != q && (d, p) in digests && (d, q) in digests
    ensures exists b :: b in PrintDuplicates(GroupByKey(digests)) && b.hex == ToHex(d) && p in b.paths && q in b.paths
    ensures BlockFor(GroupByKey(digests), d) in PrintDuplicates(GroupByKey(digests))
  {
    PairPrintedIn(GroupByKey(digests), d, p, q);
  }

  lemma PairPrintedIn(it: Digests, d: Digest, p: Path, q: Path)
    requires p != q && (d, p) in it && (d, q) in it
    ensures exists b :: b in PrintDuplicates(it) && b.hex == ToHex(d) && p in b.paths && q in b.paths
    ensures BlockFor(it, d) in PrintDuplicates(it)
  {
    var range := EqualRange(it, d);
    TwoMembers(range, p, q);
    var k :| 0 <= k < |it| && it[k] == (d, p);
    assert BlockFor(it, it[k].0) in PrintDuplicates(it);
  }

  lemma TwoMembers<T>(s: seq<T>, x: T, y: T)
    requires x in s && y in s && x != y
    ensures |s| >= 2
  {
  }

  /** A digest multimap whose entries all carry digest `d` prints as one
      block listing every path in order, when it has at least two. */
  lemma SingleDigestPrint(it: Digests, d: Digest)
    requires |it| >= 2 && forall x :: 0 <= x < |it| ==> it[x].0 == d
    ensures PrintDuplicates(GroupByKey(it)) == [Block(ToHex(d), Paths(it))]
  {
    assert WithDigest(it, d) == it by {
      WithDigestAll(it, d);
    }
    assert WithoutDigest(it, d) == [] by {
      if WithoutDigest(it, d) != [] {
        assert WithoutDigest(it, d)[0] in WithoutDigest(it, d);
      }
    }
    assert GroupByKey(it) == it;
    EqualRangeAll(it, d);
    SkipTail(it, 1, d);
    assert PrintFrom(it, 0, []) == [BlockFor(it, d)] + PrintFrom(it, 1, d);
  }

  /** The paths of the entries, in order. */
  function Paths(it: Digests): (ps: seq<Path>)
    ensures |ps| == |it| && forall x :: 0 <= x < |it| ==> ps[x] == it[x].1
  {
    if it == [] then [] else [it[0].1] + Paths(it[1..])
  }

  lemma {:induction false} WithDigestAll(it: Digests, d: Digest)
    requires forall x :: 0 <= x < |it| ==> it[x].0 == d
    ensures WithDigest(it, d) == it
    decreases |it|
  {
    if it != [] {
      WithDigestAll(it[1..], d);
    }
  }

  lemma {:induction false} EqualRangeAll(it: Digests, d: Digest)
    requires forall x :: 0 <= x < |it| ==> it[x].0 == d
    ensures EqualRange(it, d) == Paths(it)
    decreases |it|
  {
    if it != [] {
      EqualRangeAll(it[1..], d);
    }
  }

  lemma {:induction false} SkipTail(it: Digests, i: nat, d: Digest)
    requires 0 < i <= |it| && forall x :: 0 <= x < |it| ==> it[x].0 == d
    ensures PrintFrom(it, i, d) == []
    decreases |it| - i
  {
    if i < |it| {
      SkipTail(it, i + 1, d);
    }
  }

  /** Scaffolding for the worked examples: the paths of two entries. */
  lemma PathsPair(x: (Digest, Path), y: (Digest, Path))
    ensures Paths([x, y]) == [x.1, y.1]
  {
    assert [x, y][1..] == [y];
    assert [y][1..] == [];
  }

  lemma {:induction false} PathsAppend(a: Digests, b: Digests)
    ensures Paths(a + b) == Paths(a) + Paths(b)
    decreases |a|
  {
    if a == [] {
      assert a + b == b;
    } else {
      assert (a + b)[1..] == a[1..] + b;
      PathsAppend(a[1..], b);
    }
  }
}
