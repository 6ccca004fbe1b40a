/** The driver, `main`: check the arguments, then for each root argument
    extend the size multimap and run the hashing pass over it, and finally
    print the duplicate groups. The filesystem and the digest engine are
    part of the environment. */
module Driver {
  import opened Wrappers
  import opened Hex
  import opened Hashing
  import opened SizeMap
  import opened HashMap
  import opened Report

  /** How the process ends: `EXIT_SUCCESS` (falling off the end of `main`),
      `EXIT_FAILURE`, or termination by an uncaught exception. */
  datatype Status = ExitSuccess | ExitFailure | Terminated

  /** Exit status and the blocks written to standard output. */
  datatype Outcome = Outcome(status: Status, output: seq<Block>)

  /** The environment of one run.
      - `walk`: the entries a recursive walk of a root yields, or `None`
        when the walk throws (a missing or unreadable root);
      - `files`: what opening each path for reading yields;
      - `engine`: the digest engine;
      - `allocOk(k)`: whether the digest context allocation of the `k`-th
        hashing pass (counting from 0) succeeds. */
  datatype Env = Env(walk: Path -> Option<seq<Entry>>, files: Path -> FileState, engine: Engine, allocOk: nat -> bool)

  /** The per-path hash the hashing pass uses: `compute_file_hash`. */
  function Hasher(env: Env): Path -> Option<Digest> {
    p => HashOf(env, p)
  }

  function HashOf(env: Env, p: Path): Option<Digest> {
    FileHash(env.engine, env.files(p))
  }

  /** The state `main` keeps between roots: the size multimap with the
      processed paths, and the digest multimap. */
  datatype State = State(collected: Collected, digests: Digests)

  const Initial := State(Collected([], {}), [])

  /** The first `n` roots are walked and hashed without a fatal error. */
  ghost predicate Proceeds(env: Env, roots: seq<Path>, calls: nat, n: nat)
    requires n <= |roots|
  {
    forall j :: 0 <= j < n ==> env.walk(roots[j]).Some? && env.allocOk(calls + j)
  }

  /** Every digest entry pairs a path with that path's successful digest. */
  ghost predicate Confirmed(env: Env, digests: Digests) {
    forall e :: e in digests ==> HashOf(env, e.1) == Some(e.0)
  }

  /** Every candidate of the size multimap whose hash succeeds is in the
      digest multimap with its digest. */
  ghost predicate Covers(env: Env, sizes: Sizes, digests: Digests) {
    forall i :: 0 <= i < |sizes| && BucketSize(sizes, sizes[i].0) > 1 && HashOf(env, sizes[i].1).Some? ==>
      (HashOf(env, sizes[i].1).value, sizes[i].1) in digests
  }

  /** One iteration of the loop of `main`: walk `root` into the size
      multimap, then allocate a digest context and hash the whole size
      multimap into the digest multimap. A walk that throws terminates the
      process; a context that cannot be allocated fails the run. On success
      the size multimap has only grown at its end, the collector invariant
      is kept, every digest entry stays confirmed, and the pass covered the
      new size multimap. */
  function ProcessRoot(env: Env, root: Path, calls: nat, st: State): (r: Result<State, Status>)
    ensures r.Err? <==> env.walk(root).None? || !env.allocOk(calls)
    ensures r.Err? ==> r.error == if env.walk(root).None? then Terminated else ExitFailure
    ensures r.Ok? ==> |st.collected.sizes| <= |r.value.collected.sizes|
    ensures r.Ok? ==> r.value.collected.sizes[..|st.collected.sizes|] == st.collected.sizes
    ensures r.Ok? && Wf(st.collected) ==> Wf(r.value.collected)
    ensures r.Ok? && Confirmed(env, st.digests) ==> Confirmed(env, r.value.digests)
    ensures r.Ok? ==> Covers(env, r.value.collected.sizes, r.value.digests)
  {
    match env.walk(root)
    case None => Err(Terminated)
    case Some(entries) =>
      var collected := PopulateSizeMap(entries, st.collected);
      match PopulateHashMap(collected.sizes, st.digests, env.allocOk(calls), Hasher(env))
      case None => Err(ExitFailure)
      case Some(digests) =>
        HashStepKeepsConfirmed(env, collected.sizes, st.digests, digests, env.allocOk(calls));
        Ok(State(collected, digests))
  }

  /** The loop of `main` over the remaining roots, `calls` hashing passes
      having run before. It stops at the first root whose iteration fails,
      with that iteration's status (see `ProcessRootsStatus`). On success
      the collector invariant is kept, every digest entry is confirmed, and
      the last pass covered the final size multimap. */
  function ProcessRoots(env: Env, roots: seq<Path>, calls: nat, st: State): (r: Result<State, Status>)
    ensures r.Ok? && Wf(st.collected) ==> Wf(r.value.collected)
    ensures r.Ok? && Confirmed(env, st.digests) ==> Confirmed(env, r.value.digests)
    ensures r.Ok? && roots != [] ==> Covers(env, r.value.collected.sizes, r.value.digests)
    decreases |roots|
  {
    if roots == [] then Ok(st)
    else
      match ProcessRoot(env, roots[0], calls, st)
      case Err(status) => Err(status)
      case Ok(st') => ProcessRoots(env, roots[1..], calls + 1, st')
  }

  /** One hashing pass keeps every digest entry confirmed and covers the
      size multimap it was given. */
  lemma HashStepKeepsConfirmed(env: Env, sizes: Sizes, before: Digests, after: Digests, allocOk: bool)
    requires PopulateHashMap(sizes, before, allocOk, Hasher(env)) == Some(after)
    ensures Confirmed(env, before) ==> Confirmed(env, after)
    ensures Covers(env, sizes, after)
  {
    assert forall e :: e in after ==> e in before || e in after[|before|..] by {
      assert after == before + after[|before|..];
    }
    assert forall e :: e in after[|before|..] ==> e in after;
  }

  /** Root `k` is the first fatal one and ends the run with `status`: the
      roots before it were processed, and its walk throws (`Terminated`) or
      its hashing pass cannot allocate a context (`ExitFailure`). */
  ghost predicate FailsAt(env: Env, roots: seq<Path>, calls: nat, k: nat, status: Status) {
    && k < |roots|
    && Proceeds(env, roots, calls, k)
    && (if env.walk(roots[k]).None? then status == Terminated
        else !env.allocOk(calls + k) && status == ExitFailure)
  }

  /** How the loop ends: normally exactly when every root can be walked and
      every hashing pass allocates its context; otherwise with the status
      of the first fatal root. */
  lemma {:induction false} ProcessRootsStatus(env: Env, roots: seq<Path>, calls: nat, st: State)
    ensures ProcessRoots(env, roots, calls, st).Ok? <==> Proceeds(env, roots, calls, |roots|)
    ensures ProcessRoots(env, roots, calls, st).Err? ==>
              exists k :: FailsAt(env, roots, calls, k, ProcessRoots(env, roots, calls, st).error)
    decreases |roots|
  {
    if roots != [] {
      if env.walk(roots[0]).None? || !env.allocOk(calls) {
        FirstRootFails(env, roots, calls, st);
      } else {
        ProcessRootsCons(env, roots, calls, st);
        var st' := ProcessRoot(env, roots[0], calls, st).value;
        var r := ProcessRoots(env, roots[1..], calls + 1, st');
        ProcessRootsStatus(env, roots[1..], calls + 1, st');
        ProceedsShift(env, roots, calls, |roots| - 1);
        if r.Err? {
          var k: nat :| FailsAt(env, roots[1..], calls + 1, k, r.error);
          FailsAtShift(env, roots, calls, k, r.error);
        }
      }
    }
  }

  /** The loop stops at a first root that is fatal. */
  lemma FirstRootFails(env: Env, roots: seq<Path>, calls: nat, st: State)
    requires roots != [] && (env.walk(roots[0]).None? || !env.allocOk(calls))
    ensures ProcessRoots(env, roots, calls, st).Err? && !Proceeds(env, roots, calls, |roots|)
    ensures FailsAt(env, roots, calls, 0, ProcessRoots(env, roots, calls, st).error)
  {
    assert Proceeds(env, roots, calls, 0);
  }

  /** The loop goes on past a first root that is not fatal. */
  lemma ProcessRootsCons(env: Env, roots: seq<Path>, calls: nat, st: State)
    requires roots != [] && env.walk(roots[0]).Some? && env.allocOk(calls)
    ensures ProcessRoot(env, roots[0], calls, st).Ok?
    ensures ProcessRoots(env, roots, calls, st) == ProcessRoots(env, roots[1..], calls + 1, ProcessRoot(env, roots[0], calls, st).value)
  {
  }

  /** A failure at root `k` of the remaining roots is a failure at root
      `k + 1` when the first root went through. */
  lemma FailsAtShift(env: Env, roots: seq<Path>, calls: nat, k: nat, s: Status)
    requires roots != [] && env.walk(roots[0]).Some? && env.allocOk(calls)
    requires FailsAt(env, roots[1..], calls + 1, k, s)
    ensures FailsAt(env, roots, calls, k + 1, s)
  {
    ProceedsShift(env, roots, calls, k);
    assert roots[1..][k] == roots[k + 1];
  }

  /** At most one root is the first fatal one. */
  lemma FailsAtUnique(env: Env, roots: seq<Path>, calls: nat, k: nat, s: Status, k': nat, s': Status)
    requires FailsAt(env, roots, calls, k, s) && FailsAt(env, roots, calls, k', s')
    ensures k == k' && s == s'
  {
  }

  /** `Proceeds` over the roots, shifted by the first root. */
  lemma ProceedsShift(env: Env, roots: seq<Path>, calls: nat, n: nat)
    requires n < |roots|
    ensures Proceeds(env, roots, calls, n + 1) <==>
              env.walk(roots[0]).Some? && env.allocOk(calls) && Proceeds(env, roots[1..], calls + 1, n)
  {
    if Proceeds(env, roots, calls, n + 1) {
      ProceedsTail(env, roots, calls, n);
    }
    if env.walk(roots[0]).Some? && env.allocOk(calls) && Proceeds(env, roots[1..], calls + 1, n) {
      ProceedsCons(env, roots, calls, n);
    }
  }

  lemma ProceedsTail(env: Env, roots: seq<Path>, calls: nat, n: nat)
    requires n < |roots| && Proceeds(env, roots, calls, n + 1)
    ensures env.walk(roots[0]).Some? && env.allocOk(calls) && Proceeds(env, roots[1..], calls + 1, n)
  {
    forall j | 0 <= j < n
      ensures env.walk(roots[1..][j]).Some? && env.allocOk(calls + 1 + j)
    {
      assert roots[1..][j] == roots[j + 1];
      assert env.walk(roots[j + 1]).Some? && env.allocOk(calls + (j + 1));
    }
  }

  lemma ProceedsCons(env: Env, roots: seq<Path>, calls: nat, n: nat)
    requires n < |roots| && env.walk(roots[0]).Some? && env.allocOk(calls)
    requires Proceeds(env, roots[1..], calls + 1, n)
    ensures Proceeds(env, roots, calls, n + 1)
  {
    forall j | 0 <= j < n + 1
      ensures env.walk(roots[j]).Some? && env.allocOk(calls + j)
    {
      if j > 0 {
        var i := j - 1;
        assert env.walk(roots[1..][i]).Some? && env.allocOk(calls + 1 + i);
        assert roots[1..][i] == roots[j];
        assert calls + 1 + i == calls + j;
      }
    }
  }

  /** `main`. Fewer than two arguments (the program name and at least one
      root) fail at once. Otherwise the run succeeds exactly when every
      root's walk and every hashing pass go through, and then prints the
      duplicate groups: each block lists at least two paths, all with the
      digest the block shows. A failed run prints nothing and ends with the
      status of its first fatal root. */
  function Main(args: seq<string>, env: Env): (r: Outcome)
    ensures |args| < 2 ==> r == Outcome(ExitFailure, [])
    ensures r.status != ExitSuccess ==> r.output == []
    ensures |args| >= 2 ==> (r.status == ExitSuccess <==> Proceeds(env, args[1..], 0, |args| - 1))
    ensures |args| >= 2 && r.status != ExitSuccess ==> exists k :: FailsAt(env, args[1..], 0, k, r.status)
    ensures forall b :: b in r.output ==> ConfirmedBlock(env, b)
    ensures forall x, y :: 0 <= x < y < |r.output| ==> r.output[x].hex != r.output[y].hex
  {
    if |args| < 2 then Outcome(ExitFailure, [])
    else
      var roots := args[1..];
      ProcessRootsStatus(env, roots, 0, Initial);
      match ProcessRoots(env, roots, 0, Initial)
      case Err(status) => Outcome(status, [])
      case Ok(st) =>
        OutputConfirmed(env, st.digests);
        Outcome(ExitSuccess, PrintDuplicates(GroupByKey(st.digests)))
  }

  /** A block lists at least two path lines and shows a digest that every
      one of them hashes to (digest collisions are not checked byte by
      byte). The lines need not name different files: see
      `RehashFalsePositive`. */
  ghost predicate ConfirmedBlock(env: Env, b: Block) {
    |b.paths| >= 2 && exists d: Digest :: b.hex == ToHex(d) && AllHashTo(env, b.paths, d)
  }

  /** Every path of `ps` hashes to `d`. */
  ghost predicate AllHashTo(env: Env, ps: seq<Path>, d: Digest) {
    forall p :: p in ps ==> HashOf(env, p) == Some(d)
  }

  /** What the driver prints for a confirmed digest multimap: confirmed
      blocks with pairwise different digest lines. */
  lemma OutputConfirmed(env: Env, digests: Digests)
    requires Confirmed(env, digests)
    ensures forall b :: b in PrintDuplicates(GroupByKey(digests)) ==> ConfirmedBlock(env, b)
    ensures forall x, y :: 0 <= x < y < |PrintDuplicates(GroupByKey(digests))| ==>
              PrintDuplicates(GroupByKey(digests))[x].hex != PrintDuplicates(GroupByKey(digests))[y].hex
  {
    PrintedConfirmed(env, GroupByKey(digests));
  }

  lemma PrintedConfirmed(env: Env, it: Digests)
    requires Confirmed(env, it)
    ensures forall b :: b in PrintDuplicates(it) ==> ConfirmedBlock(env, b)
  {
    forall b | b in PrintDuplicates(it)
      ensures ConfirmedBlock(env, b)
    {
      var k :| 0 <= k < |it| && |EqualRange(it, it[k].0)| >= 2 && b == BlockFor(it, it[k].0);
      var d := it[k].0;
      RangeConfirmed(env, it, d);
      assert b.hex == ToHex(d) && AllHashTo(env, b.paths, d);
    }
  }

  /** The paths filed under a digest all hash to it. */
  lemma RangeConfirmed(env: Env, digests: Digests, d: Digest)
    requires Confirmed(env, digests)
    ensures AllHashTo(env, EqualRange(digests, d), d)
  {
    forall p | p in EqualRange(digests, d)
      ensures HashOf(env, p) == Some(d)
    {
      assert (d, p) in digests;
    }
  }

  /** The final state of a run of `main` that gets past the argument
      check. */
  function FinalState(args: seq<string>, env: Env): Result<State, Status>
    requires |args| >= 2
  {
    ProcessRoots(env, args[1..], 0, Initial)
  }

  /** Two different files in one size bucket of the final size multimap
      that hash to the same digest are reported together, under that
      digest. */
  lemma DuplicatesReported(args: seq<string>, env: Env, i: nat, j: nat, d: Digest)
    requires |args| >= 2 && FinalState(args, env).Ok?
    requires i < |FinalState(args, env).value.collected.sizes| && j < |FinalState(args, env).value.collected.sizes|
    requires FinalState(args, env).value.collected.sizes[i].0 == FinalState(args, env).value.collected.sizes[j].0
    requires FinalState(args, env).value.collected.sizes[i].1 != FinalState(args, env).value.collected.sizes[j].1
    requires HashOf(env, FinalState(args, env).value.collected.sizes[i].1) == Some(d)
    requires HashOf(env, FinalState(args, env).value.collected.sizes[j].1) == Some(d)
    ensures exists b :: b in Main(args, env).output && b.hex == ToHex(d) &&
              FinalState(args, env).value.collected.sizes[i].1 in b.paths &&
              FinalState(args, env).value.collected.sizes[j].1 in b.paths
    ensures forall b :: b in Main(args, env).output ==>
              (FinalState(args, env).value.collected.sizes[i].1 in b.paths ||
               FinalState(args, env).value.collected.sizes[j].1 in b.paths) ==> b.hex == ToHex(d)
  {
    var st := FinalState(args, env).value;
    var sizes := st.collected.sizes;
    var p, q := sizes[i].1, sizes[j].1;
    BucketSizeTwo(sizes, i, j);
    assert Covers(env, sizes, st.digests);
    PairPrinted(st.digests, d, p, q);
    MainOk(args, env);
    var b := BlockFor(GroupByKey(st.digests), d);
    assert b in Main(args, env).output && b.hex == ToHex(d) && p in b.paths && q in b.paths;
    ShownDigest(args, env, p, d);
    ShownDigest(args, env, q, d);
  }

  /** A path that hashes to `d` is printed only in the block for `d`. */
  lemma ShownDigest(args: seq<string>, env: Env, p: Path, d: Digest)
    requires HashOf(env, p) == Some(d)
    ensures forall b :: b in Main(args, env).output && p in b.paths ==> b.hex == ToHex(d)
  {
  }

  /** The size multimap only grows at its end from root to root. */
  lemma {:induction false} ProcessRootsExtends(env: Env, roots: seq<Path>, calls: nat, st: State)
    requires ProcessRoots(env, roots, calls, st).Ok?
    ensures |st.collected.sizes| <= |ProcessRoots(env, roots, calls, st).value.collected.sizes|
    ensures ProcessRoots(env, roots, calls, st).value.collected.sizes[..|st.collected.sizes|] == st.collected.sizes
    decreases |roots|
  {
    if roots != [] {
      var st' := ProcessRoot(env, roots[0], calls, st).value;
      ProcessRootsExtends(env, roots[1..], calls + 1, st');
      var fin := ProcessRoots(env, roots, calls, st).value.collected.sizes;
      PrefixTrans(st.collected.sizes, st'.collected.sizes, fin);
    }
  }

  /** All sizes in the multimap differ. */
  ghost predicate DistinctSizes(sizes: Sizes) {
    forall j, k :: 0 <= j < k < |sizes| ==> sizes[j].0 != sizes[k].0
  }

  /** When the final size multimap holds no two files of equal size, no
      hashing pass of the loop hashed anything. */
  lemma {:induction false} DistinctSizesNothingHashed(env: Env, roots: seq<Path>, calls: nat, st: State)
    requires ProcessRoots(env, roots, calls, st).Ok?
    requires DistinctSizes(ProcessRoots(env, roots, calls, st).value.collected.sizes)
    ensures ProcessRoots(env, roots, calls, st).value.digests == st.digests
    decreases |roots|
  {
    if roots != [] {
      var st' := ProcessRoot(env, roots[0], calls, st).value;
      var collected := st'.collected;
      var digests := st'.digests;
      assert PopulateHashMap(collected.sizes, st.digests, env.allocOk(calls), Hasher(env)) == Some(digests);
      ProcessRootsExtends(env, roots[1..], calls + 1, st');
      var fin := ProcessRoots(env, roots, calls, st).value.collected.sizes;
      assert DistinctSizes(collected.sizes) by {
        forall j, k | 0 <= j < k < |collected.sizes|
          ensures collected.sizes[j].0 != collected.sizes[k].0
        {
          assert collected.sizes[j] == fin[j] && collected.sizes[k] == fin[k];
        }
      }
      DistinctSizesHashNothing(collected.sizes, Hasher(env));
      assert digests == st.digests + [];
      DistinctSizesNothingHashed(env, roots[1..], calls + 1, st');
    }
  }

  /** Files of pairwise different sizes are never reported: when no two
      files found share a size, `main` prints nothing. */
  lemma DistinctSizesNoOutput(args: seq<string>, env: Env)
    requires |args| >= 2 && FinalState(args, env).Ok?
    requires DistinctSizes(FinalState(args, env).value.collected.sizes)
    ensures Main(args, env).output == []
  {
    DistinctSizesNothingHashed(env, args[1..], 0, Initial);
    MainOk(args, env);
  }

  /** Each path enters the size multimap at most once, however many roots
      are given and however they overlap. */
  lemma SizeMapPathsUnique(args: seq<string>, env: Env)
    requires |args| >= 2 && FinalState(args, env).Ok?
    ensures Wf(FinalState(args, env).value.collected)
  {
    assert Wf(Initial.collected);
  }

  /** With a single root, each path is hashed at most once, so no printed
      block lists a path twice. */
  lemma SingleRootNoRepeats(args: seq<string>, env: Env)
    requires |args| == 2
    ensures forall b :: b in Main(args, env).output ==> NoRepeats(b.paths)
  {
    var roots := args[1..];
    if ProcessRoots(env, roots, 0, Initial).Ok? {
      var entries := env.walk(roots[0]).value;
      var collected := PopulateSizeMap(entries, Initial.collected);
      assert Wf(Initial.collected);
      var digests := PopulateHashMap(collected.sizes, [], env.allocOk(0), Hasher(env)).value;
      assert ProcessRoots(env, roots, 0, Initial) == Ok(State(collected, digests));
      HashMembersDistinct(collected.sizes, collected.sizes, Hasher(env));
      assert digests == HashMembers(collected.sizes, collected.sizes, Hasher(env));
      PrintedPathsDistinct(digests);
    }
  }

  /** Walks every root in turn into the size multimap, stopping at the
      first walk that throws. */
  function CollectAll(env: Env, roots: seq<Path>, c: Collected): (r: Option<Collected>)
    ensures r.Some? <==> forall k :: 0 <= k < |roots| ==> env.walk(roots[k]).Some?
    ensures r.Some? && Wf(c) ==> Wf(r.value)
    decreases |roots|
  {
    if roots == [] then Some(c)
    else
      match env.walk(roots[0])
      case None => None
      case Some(entries) =>
        assert forall k :: 1 <= k < |roots| ==> roots[k] == roots[1..][k - 1];
        CollectAll(env, roots[1..], PopulateSizeMap(entries, c))
  }

  /** `main` with the hashing pass moved after the loop over the roots, so
      that every size bucket is complete before any of its members is
      hashed and each path is hashed once. It succeeds exactly when `main`
      would with a single context allocation, but all roots are walked
      before that allocation, so a thrown walk is reported even when `main`
      would have failed to allocate first (see `StatusDiverges`). Each
      printed block lists at least two different paths, all hashing to the
      digest it shows, whatever the number of roots. */
  function MainCorrected(args: seq<string>, env: Env): (r: Outcome)
    ensures |args| < 2 ==> r == Outcome(ExitFailure, [])
    ensures r.status != ExitSuccess ==> r.output == []
    ensures |args| >= 2 ==>
              (r.status == ExitSuccess <==> (forall k :: 1 <= k < |args| ==> env.walk(args[k]).Some?) && env.allocOk(0))
    ensures |args| >= 2 ==>
              (r.status == Terminated <==> exists k :: 1 <= k < |args| && env.walk(args[k]).None?)
    ensures |args| >= 2 ==>
              (r.status == ExitFailure <==> (forall k :: 1 <= k < |args| ==> env.walk(args[k]).Some?) && !env.allocOk(0))
    ensures forall b :: b in r.output ==> ConfirmedBlock(env, b) && NoRepeats(b.paths)
    ensures forall x, y :: 0 <= x < y < |r.output| ==> r.output[x].hex != r.output[y].hex
  {
    if |args| < 2 then Outcome(ExitFailure, [])
    else
      var roots := args[1..];
      assert forall k :: 1 <= k < |args| ==> args[k] == roots[k - 1];
      match CollectAll(env, roots, Initial.collected)
      case None => Outcome(Terminated, [])
      case Some(collected) =>
        match PopulateHashMap(collected.sizes, [], env.allocOk(0), Hasher(env))
        case None => Outcome(ExitFailure, [])
        case Some(digests) =>
          assert Wf(Initial.collected);
          HashMembersDistinct(collected.sizes, collected.sizes, Hasher(env));
          assert digests == HashMembers(collected.sizes, collected.sizes, Hasher(env));
          PrintedPathsDistinct(digests);
          HashStepKeepsConfirmed(env, collected.sizes, [], digests, env.allocOk(0));
          OutputConfirmed(env, digests);
          Outcome(ExitSuccess, PrintDuplicates(GroupByKey(digests)))
  }

  // Worked examples. `RehashRepeatsPaths`, `RehashFalsePositive` and
  // `StatusDiverges` state what the two drivers do on concrete runs; the
  // lemmas after them are scaffolding that computes those runs step by
  // step and states nothing general about the program. The one-line
  // helpers keep sequence-literal facts out of the larger proofs.

  const ZeroDigest: Digest := seq(DigestSize, _ => 0)
  const OneDigest: Digest := seq(DigestSize, _ => 1)

  /** The walks of the examples: root "r1" holds two regular files "a" and
      "b" of one byte each; every other root is empty. */
  function ExampleWalk(r: Path): Option<seq<Entry>> {
    if r == "r1" then Some([Entry("a", true, Size(1)), Entry("b", true, Size(1))]) else Some([])
  }

  /** An environment over `ExampleWalk` in which nothing fails except what
      `files` and `finish` say. */
  function ExampleEnv(files: Path -> FileState, finish: seq<byte> -> Option<Digest>): Env {
    Env(ExampleWalk, files, Engine(true, true, finish), k => true)
  }

  /** "a" and "b" have equal content. */
  function TwoRootsEnv(): Env {
    ExampleEnv(p => Readable([7], false), c => Some(ZeroDigest))
  }

  /** "a" and "b" have the same size but different content, with different
      digests. */
  function SizeCollisionEnv(): Env {
    ExampleEnv(p => if p == "a" then Readable([1], false) else Readable([2], false),
               c => if c == [1] then Some(ZeroDigest) else Some(OneDigest))
  }

  /** `main` hashes the cumulative size multimap again after every root, so
      the pair found under the first root is inserted into the digest
      multimap a second time after the second root and each of its paths is
      printed twice. The corrected driver prints each once. */
  lemma RehashRepeatsPaths()
    ensures Main(["dedup", "r1", "r2"], TwoRootsEnv()).output == [Block(ToHex(ZeroDigest), ["a", "b", "a", "b"])]
    ensures !NoRepeats(Main(["dedup", "r1", "r2"], TwoRootsEnv()).output[0].paths)
    ensures MainCorrected(["dedup", "r1", "r2"], TwoRootsEnv()).output == [Block(ToHex(ZeroDigest), ["a", "b"])]
  {
    EqualHashes();
    TwoRootsRun(TwoRootsEnv(), ZeroDigest, ZeroDigest);
    ExamplePrint(ZeroDigest, "a", "b");
    RepeatedPair("a", "b");
  }

  /** Worse, the re-hash reports a file that has no duplicate: "a" and "b"
      share a size but not their content, yet after the second root "a" is
      filed twice under its digest and printed as a group of two lines
      naming the same file. The corrected driver prints nothing. */
  lemma RehashFalsePositive()
    ensures Block(ToHex(ZeroDigest), ["a", "a"]) in Main(["dedup", "r1", "r2"], SizeCollisionEnv()).output
    ensures HashOf(SizeCollisionEnv(), "a") != HashOf(SizeCollisionEnv(), "b")
    ensures MainCorrected(["dedup", "r1", "r2"], SizeCollisionEnv()).output == []
  {
    var once := [(ZeroDigest, "a"), (OneDigest, "b")];
    CollidingHashes();
    assert ZeroDigest[0] != OneDigest[0];
    TwoRootsRun(SizeCollisionEnv(), ZeroDigest, OneDigest);
    TwiceFiled(ZeroDigest, OneDigest, "a", "b");
    SelfPairPrinted(once + once, ZeroDigest, "a");
    NoPairNoOutput(once);
  }

  lemma EqualHashes()
    ensures HashOf(TwoRootsEnv(), "a") == Some(ZeroDigest) && HashOf(TwoRootsEnv(), "b") == Some(ZeroDigest)
  {
  }

  lemma CollidingHashes()
    ensures HashOf(SizeCollisionEnv(), "a") == Some(ZeroDigest) && HashOf(SizeCollisionEnv(), "b") == Some(OneDigest)
  {
  }

  /** Running both drivers on roots "r1" and "r2" of an example
      environment: `main` prints the grouping of the pair's digest entries
      filed twice, the corrected driver that of the entries filed once. */
  lemma TwoRootsRun(env: Env, da: Digest, db: Digest)
    requires env.walk == ExampleWalk && env.allocOk(0) && env.allocOk(1)
    requires HashOf(env, "a") == Some(da) && HashOf(env, "b") == Some(db)
    ensures Main(["dedup", "r1", "r2"], env).output
         == PrintDuplicates(GroupByKey([(da, "a"), (db, "b")] + [(da, "a"), (db, "b")]))
    ensures MainCorrected(["dedup", "r1", "r2"], env).output == PrintDuplicates(GroupByKey([(da, "a"), (db, "b")]))
  {
    var args := ["dedup", "r1", "r2"];
    var once := [(da, "a"), (db, "b")];
    Args(args);
    PairHashPass(env, da, db);
    ExampleRunAsWritten(env, once);
    ExampleRunCorrected(env, once);
    MainOk(args, env);
    MainCorrectedOk(args, env);
  }

  /** The two drivers can report different failures for the same run: with
      an empty first root, a second root whose walk throws, and no context
      to allocate, `main` stops with `EXIT_FAILURE` after the first root,
      while the corrected driver walks both roots first and terminates. */
  lemma StatusDiverges()
    ensures Main(["dedup", "r1", "r2"], MissingRootEnv()).status == ExitFailure
    ensures MainCorrected(["dedup", "r1", "r2"], MissingRootEnv()).status == Terminated
  {
  }

  /** Root "r1" is empty, the walk of every other root throws, and no
      digest context can be allocated. */
  function MissingRootEnv(): Env {
    Env(r => if r == "r1" then Some([]) else None,
        p => Unreadable, Engine(true, true, c => Some(ZeroDigest)), k => false)
  }

  /** Scaffolding: the roots of the example command line. */
  lemma Args(args: seq<string>)
    requires args == ["dedup", "r1", "r2"]
    ensures args[1..] == ["r1", "r2"]
  {
  }

  /** A run of `main` past the argument check whose loop succeeds prints
      the grouped digest multimap. */
  lemma MainOk(args: seq<string>, env: Env)
    requires |args| >= 2 && ProcessRoots(env, args[1..], 0, Initial).Ok?
    ensures Main(args, env).output == PrintDuplicates(GroupByKey(ProcessRoots(env, args[1..], 0, Initial).value.digests))
  {
  }

  lemma MainCorrectedOk(args: seq<string>, env: Env)
    requires |args| >= 2 && CollectAll(env, args[1..], Initial.collected).Some? && env.allocOk(0)
    ensures MainCorrected(args, env).output
         == PrintDuplicates(GroupByKey(PopulateHashMap(CollectAll(env, args[1..], Initial.collected).value.sizes, [], true, Hasher(env)).value))
  {
  }

  /** Under the driver as written, the second root adds the first pass's
      entries again. */
  lemma ExampleRunAsWritten(env: Env, once: Digests)
    requires env.walk == ExampleWalk && env.allocOk(0) && env.allocOk(1)
    requires HashMembers([(1, "a"), (1, "b")], [(1, "a"), (1, "b")], Hasher(env)) == once
    ensures ProcessRoots(env, ["r1", "r2"], 0, Initial).Ok?
    ensures ProcessRoots(env, ["r1", "r2"], 0, Initial).value.digests == once + once
  {
    var c1 := ExampleCollected();
    HashPass(c1.sizes, [], Hasher(env), once);
    assert [] + once == once;
    ProcessRootsStep(env, ["r1", "r2"], 0, Initial, env.walk("r1").value, once);
    Tails("r1", "r2");
    assert PopulateSizeMap([], c1) == c1;
    HashPass(c1.sizes, once, Hasher(env), once);
    ProcessRootsStep(env, ["r2"], 1, State(c1, once), [], once + once);
  }

  /** One iteration of the loop of `main` that neither throws nor fails to
      allocate. */
  lemma ProcessRootsStep(env: Env, roots: seq<Path>, calls: nat, st: State, entries: seq<Entry>, digests: Digests)
    requires roots != [] && env.walk(roots[0]) == Some(entries)
    requires PopulateHashMap(PopulateSizeMap(entries, st.collected).sizes, st.digests, env.allocOk(calls), Hasher(env)) == Some(digests)
    ensures ProcessRoots(env, roots, calls, st)
         == ProcessRoots(env, roots[1..], calls + 1, State(PopulateSizeMap(entries, st.collected), digests))
  {
  }

  /** The corrected driver collects both roots, then hashes once. */
  lemma ExampleRunCorrected(env: Env, once: Digests)
    requires env.walk == ExampleWalk
    requires HashMembers([(1, "a"), (1, "b")], [(1, "a"), (1, "b")], Hasher(env)) == once
    ensures CollectAll(env, ["r1", "r2"], Initial.collected).Some?
    ensures PopulateHashMap(CollectAll(env, ["r1", "r2"], Initial.collected).value.sizes, [], true, Hasher(env)) == Some(once)
  {
    var c1 := ExampleCollected();
    Tails("r1", "r2");
    CollectStep(env, ["r1", "r2"], Initial.collected, ExampleWalk("r1").value);
    CollectStep(env, ["r2"], c1, []);
    assert PopulateSizeMap([], c1) == c1;
    HashPass(c1.sizes, [], Hasher(env), once);
  }

  /** A hashing pass that allocates its context appends the pass's entries. */
  lemma HashPass(sizes: Sizes, digests: Digests, hash: Path -> Option<Digest>, added: Digests)
    requires HashMembers(sizes, sizes, hash) == added
    ensures PopulateHashMap(sizes, digests, true, hash) == Some(digests + added)
  {
  }

  /** One root of the corrected driver's walk loop. */
  lemma CollectStep(env: Env, roots: seq<Path>, c: Collected, entries: seq<Entry>)
    requires roots != [] && env.walk(roots[0]) == Some(entries)
    ensures CollectAll(env, roots, c) == CollectAll(env, roots[1..], PopulateSizeMap(entries, c))
  {
  }

  /** Walking "r1" yields the size multimap [(1, "a"), (1, "b")]. */
  lemma ExampleCollected() returns (c: Collected)
    ensures c.sizes == [(1, "a"), (1, "b")]
    ensures c == PopulateSizeMap(ExampleWalk("r1").value, Collected([], {}))
  {
    var walk1 := [Entry("a", true, Size(1)), Entry("b", true, Size(1))];
    assert ExampleWalk("r1").value == walk1;
    var v1 := Visit(walk1[0], Collected([], {}));
    assert v1.sizes == [(1, "a")];
    var v2 := Visit(walk1[1], v1);
    assert "b" !in v1.visited;
    assert v2.sizes == [(1, "a"), (1, "b")];
    assert walk1[1..][1..] == [];
    c := PopulateSizeMap(walk1, Collected([], {}));
    assert c == PopulateSizeMap(walk1[1..], v1);
    assert c == v2;
  }

  /** Both one-byte files share a bucket, so both are hashed. */
  lemma PairHashPass(env: Env, da: Digest, db: Digest)
    requires HashOf(env, "a") == Some(da) && HashOf(env, "b") == Some(db)
    ensures HashMembers([(1, "a"), (1, "b")], [(1, "a"), (1, "b")], Hasher(env)) == [(da, "a"), (db, "b")]
  {
    var sizes: Sizes := [(1, "a"), (1, "b")];
    assert sizes[1..][1..] == [];
    assert BucketSize(sizes[1..][1..], 1) == 0;
    assert BucketSize(sizes[1..], 1) == 1;
    assert BucketSize(sizes, 1) == 2;
    assert Hasher(env)("a") == Some(da) && Hasher(env)("b") == Some(db);
    assert HashMembers(sizes, sizes[1..][1..], Hasher(env)) == [];
  }

  /** Scaffolding: filing two passes of [(d, p), (e, q)] lists `p` twice
      under `d`. */
  lemma TwiceFiled(d: Digest, e: Digest, p: Path, q: Path)
    requires d != e
    ensures EqualRange([(d, p), (e, q)] + [(d, p), (e, q)], d) == [p, p]
  {
    var twice: Digests := [(d, p), (e, q)] + [(d, p), (e, q)];
    var t1, t2, t3: Digests := [(e, q), (d, p), (e, q)], [(d, p), (e, q)], [(e, q)];
    assert twice[1..] == t1 && t1[1..] == t2 && t2[1..] == t3 && t3[1..] == [];
    assert EqualRange(t3, d) == [];
    assert EqualRange(t2, d) == [p];
    assert EqualRange(t1, d) == [p];
    assert EqualRange(twice, d) == [p] + [p];
  }

  /** A digest filed twice under the same path prints a block naming that
      path twice. */
  lemma SelfPairPrinted(digests: Digests, d: Digest, p: Path)
    requires EqualRange(digests, d) == [p, p]
    ensures Block(ToHex(d), [p, p]) in PrintDuplicates(GroupByKey(digests))
  {
    DoubledPrinted(GroupByKey(digests), d, p);
  }

  lemma DoubledPrinted(it: Digests, d: Digest, p: Path)
    requires EqualRange(it, d) == [p, p]
    ensures Block(ToHex(d), [p, p]) in PrintDuplicates(it)
  {
    assert (d, p) in it;
    var k :| 0 <= k < |it| && it[k] == (d, p);
    assert BlockFor(it, it[k].0) == Block(ToHex(d), [p, p]);
  }

  /** [(d, p), (e, q)] with different digests prints nothing. */
  lemma NoPairNoOutput(once: Digests)
    requires |once| == 2 && once[0].0 != once[1].0
    ensures PrintDuplicates(GroupByKey(once)) == []
  {
    var it := GroupByKey(once);
    forall d
      ensures |EqualRange(it, d)| < 2
    {
      SingleFiled(once, d);
    }
    NothingDoubledNoOutput(it);
  }

  lemma SingleFiled(once: Digests, d: Digest)
    requires |once| == 2 && once[0].0 != once[1].0
    ensures |EqualRange(once, d)| < 2
  {
    assert once[1..][1..] == [];
  }

  /** Printing the digest multimap after one pass, and after two. */
  lemma ExamplePrint(d: Digest, p: Path, q: Path)
    ensures PrintDuplicates(GroupByKey([(d, p), (d, q)])) == [Block(ToHex(d), [p, q])]
    ensures PrintDuplicates(GroupByKey([(d, p), (d, q)] + [(d, p), (d, q)])) == [Block(ToHex(d), [p, q, p, q])]
  {
    PrintOnePass(d, p, q);
    PrintTwoPasses(d, p, q);
  }

  lemma PrintOnePass(d: Digest, p: Path, q: Path)
    ensures PrintDuplicates(GroupByKey([(d, p), (d, q)])) == [Block(ToHex(d), [p, q])]
  {
    SingleDigestPrint([(d, p), (d, q)], d);
    PathsPair((d, p), (d, q));
  }

  lemma PrintTwoPasses(d: Digest, p: Path, q: Path)
    ensures PrintDuplicates(GroupByKey([(d, p), (d, q)] + [(d, p), (d, q)])) == [Block(ToHex(d), [p, q, p, q])]
  {
    var once: Digests := [(d, p), (d, q)];
    var twice := once + once;
    assert forall x :: 0 <= x < |twice| ==> twice[x].0 == d;
    SingleDigestPrint(twice, d);
    PathsPair((d, p), (d, q));
    PathsAppend(once, once);
    var ps := Paths(twice);
    assert ps == [p, q] + [p, q];
    RepeatPair(p, q);
  }

  /** Scaffolding: a pair listed twice repeats a path. */
  lemma RepeatedPair(p: Path, q: Path)
    ensures !NoRepeats([p, q, p, q])
  {
    assert [p, q, p, q][0] == [p, q, p, q][2];
  }

  /** Scaffolding: a pair appended to itself. */
  lemma RepeatPair(p: Path, q: Path)
    ensures [p, q] + [p, q] == [p, q, p, q]
  {
  }

  /** Scaffolding: the tails of a two-root list. */
  lemma Tails(x: Path, y: Path)
    ensures [x, y][1..] == [y] && [y][1..] == []
  {
  }
}
