/** Phase one, `populate_size_map`: walk one root and group every regular
    file not seen before by its exact size. The recursive directory walk is
    given as the sequence of entries it yields; the process-wide set of
    already processed paths is threaded through explicitly. */
module SizeMap {

  type Path = string

  /** Outcome of asking the filesystem for a file's size. */
  datatype SizeQuery = Size(bytes: nat) | SizeError

  /** One entry produced by the directory walk: its path, whether it is a
      regular file, and what a size query on it returns. */
  datatype Entry = Entry(path: Path, regular: bool, size: SizeQuery)

  /** The size multimap, as its entries in some iteration order; only the
      multiset of (size, path) pairs is meaningful. */
  type Sizes = seq<(nat, Path)>

  /** The size multimap together with the set of processed paths. */
  datatype Collected = Collected(sizes: Sizes, visited: set<Path>)

  /** The invariant the collector keeps: every path in the size multimap
      has been processed, and no path is in the multimap twice. */
  ghost predicate Wf(c: Collected) {
    && (forall i :: 0 <= i < |c.sizes| ==> c.sizes[i].1 in c.visited)
    && (forall i, j :: 0 <= i < j < |c.sizes| ==> c.sizes[i].1 != c.sizes[j].1)
  }

  /** The set of paths a walk yields. */
  function PathsOf(walk: seq<Entry>): (ps: set<Path>)
    ensures forall e :: e in walk ==> e.path in ps
    ensures forall p :: p in ps ==> exists e :: e in walk && e.path == p
  {
    set e | e in walk :: e.path
  }

  /** `(n, p)` could legitimately be emplaced: some entry of the walk is a
      regular file at `p` whose size query returned exactly `n`. */
  ghost predicate Admissible(walk: seq<Entry>, n: nat, p: Path) {
    exists e :: e in walk && e.path == p && e.regular && e.size == Size(n)
  }

  /** Processing one entry: a path already processed is skipped; otherwise
      it is marked processed, and it enters the multimap only when it is a
      regular file whose size could be read. */
  function Visit(e: Entry, c: Collected): (r: Collected)
    ensures r.visited == c.visited + {e.path}
    ensures r.sizes == c.sizes || (e.path !in c.visited && e.regular && e.size.Size? &&
                                   r.sizes == c.sizes + [(e.size.bytes, e.path)])
    ensures e.path !in c.visited && e.regular && e.size.Size? ==> r.sizes == c.sizes + [(e.size.bytes, e.path)]
    ensures Wf(c) ==> Wf(r)
  {
    if e.path in c.visited then c
    else
      var visited := c.visited + {e.path};
      if e.regular && e.size.Size? then Collected(c.sizes + [(e.size.bytes, e.path)], visited)
      else Collected(c.sizes, visited)
  }

  /** `populate_size_map`: visit the entries of one walk in order. The
      multimap only grows at its end, by pairs that are admissible for this
      walk and whose paths were not processed before; all paths of the walk
      end up processed; and the collector invariant is preserved. */
  function PopulateSizeMap(walk: seq<Entry>, c: Collected): (r: Collected)
    ensures r.visited == c.visited + PathsOf(walk)
    ensures |c.sizes| <= |r.sizes| && r.sizes[..|c.sizes|] == c.sizes
    ensures forall k :: |c.sizes| <= k < |r.sizes| ==>
              r.sizes[k].1 !in c.visited && Admissible(walk, r.sizes[k].0, r.sizes[k].1)
    ensures Wf(c) ==> Wf(r)
    decreases |walk|
  {
    if walk == [] then c
    else
      var c' := Visit(walk[0], c);
      var r := PopulateSizeMap(walk[1..], c');
      assert PathsOf(walk) == {walk[0].path} + PathsOf(walk[1..]);
      PrefixTrans(c.sizes, c'.sizes, r.sizes);
      forall k | |c.sizes| <= k < |r.sizes|
        ensures r.sizes[k].1 !in c.visited && Admissible(walk, r.sizes[k].0, r.sizes[k].1)
      {
        if k < |c'.sizes| {
          assert r.sizes[k] == c'.sizes[k] == (walk[0].size.bytes, walk[0].path);
          assert walk[0] in walk;
        } else {
          AdmissibleTail(walk, r.sizes[k].0, r.sizes[k].1);
        }
      }
      r
  }

  lemma PrefixTrans<T>(a: seq<T>, b: seq<T>, c: seq<T>)
    requires |a| <= |b| <= |c| && c[..|b|] == b && b[..|a|] == a
    ensures c[..|a|] == a
  {
    assert c[..|a|] == c[..|b|][..|a|];
  }

  /** An entry admissible for the rest of a walk is admissible for the
      whole walk. */
  lemma AdmissibleTail(walk: seq<Entry>, n: nat, p: Path)
    requires walk != [] && Admissible(walk[1..], n, p)
    ensures Admissible(walk, n, p)
  {
    var e :| e in walk[1..] && e.path == p && e.regular && e.size == Size(n);
    assert e in walk;
  }

  /** Completeness: the first occurrence in the walk of a path not
      processed before, if it is a regular file with a readable size, is in
      the resulting multimap under exactly that size. */
  lemma {:induction false} FirstOccurrenceAdded(walk: seq<Entry>, c: Collected, i: nat)
    requires i < |walk|
    requires walk[i].regular && walk[i].size.Size?
    requires walk[i].path !in c.visited
    requires forall j :: 0 <= j < i ==> walk[j].path != walk[i].path
    ensures (walk[i].size.bytes, walk[i].path) in PopulateSizeMap(walk, c).sizes
    decreases |walk|
  {
    var c' := Visit(walk[0], c);
    if i == 0 {
      var r := PopulateSizeMap(walk[1..], c');
      assert c'.sizes[|c'.sizes| - 1] == (walk[0].size.bytes, walk[0].path);
      assert r.sizes[..|c'.sizes|] == c'.sizes;
      assert r.sizes[|c'.sizes| - 1] == c'.sizes[|c'.sizes| - 1];
    } else {
      assert walk[0].path != walk[i].path;
      assert walk[1..][i - 1] == walk[i];
      FirstOccurrenceAdded(walk[1..], c', i - 1);
    }
  }
}
