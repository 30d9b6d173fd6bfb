/**
 multicore_manager.py: the numbers that processes take from shared memory under
 a semaphore, and the merge of their coverage maps into the shared one.
 */
module MulticoreManager {

  // -------------------------------------------------------- number lock

  /** Where a process is between read_num and write_num. */
  datatype PC =
    | Idle
    | Starting               // the manager, before its own write_num
    | Locked                 // read_num: the semaphore is taken
    | Holding(num: nat)      //           the number is read; the caller has it
    | Wrote                  // write_num: the next number is written

  /** sem and shm are the semaphore and the shared number; ids are the numbers handed out so far. */
  datatype State = State(sem: nat, shm: nat, pc: seq<PC>, ids: seq<nat>)

  function Initial(n: nat): State
    requires n > 0
  {
    State(0, 0, [Starting] + seq(n - 1, _ => Idle), [])
  }

  /** One atomic step of process i; first is the number that the manager starts with. */
  predicate Step(s: State, s': State, i: nat, first: nat) {
    && i < |s.pc|
    && match s.pc[i]
       case Idle => s.sem > 0 && s' == s.(sem := s.sem - 1, pc := s.pc[i := Locked])
       case Locked => s' == s.(pc := s.pc[i := Holding(s.shm)], ids := s.ids + [s.shm])
       case Holding(v) => s' == s.(shm := v + 1, pc := s.pc[i := Wrote])
       case Wrote => s' == s.(sem := s.sem + 1, pc := s.pc[i := Idle])
       case Starting => s' == s.(shm := first, pc := s.pc[i := Wrote])
  }

  /** The number that comes next. */
  function NextId(s: State, first: nat): nat {
    first + |s.ids|
  }

  /** At most one process, h, is between the two calls; the numbers so far are consecutive. */
  predicate Inv(s: State, first: nat, h: int) {
    && -1 <= h < |s.pc|
    && s.sem == (if h < 0 then 1 else 0)
    && (forall i :: 0 <= i < |s.pc| ==> (s.pc[i].Idle? <==> i != h))
    && (forall k :: 0 <= k < |s.ids| ==> s.ids[k] == first + k)
    && (if h < 0 then s.shm == NextId(s, first)
        else
          match s.pc[h]
          case Idle => false
          case Starting => s.ids == []
          case Locked => s.shm == NextId(s, first)
          case Holding(v) => v + 1 == NextId(s, first) && s.ids != []
          case Wrote => s.shm == NextId(s, first))
  }

  lemma StepKeeps(s: State, s': State, i: nat, first: nat, h: int) returns (g: int)
    requires Inv(s, first, h) && Step(s, s', i, first)
    ensures Inv(s', first, g)
  {
    g := if s.pc[i].Wrote? then -1 else i;
  }

  ghost predicate AnyStep(s: State, s': State, first: nat) {
    exists i: nat :: Step(s, s', i, first)
  }

  /** A run of n processes in any interleaving. */
  ghost predicate IsRun(run: seq<State>, n: nat, first: nat) {
    && n > 0 && |run| > 0 && run[0] == Initial(n)
    && forall k :: 0 < k < |run| ==> AnyStep(run[k - 1], run[k], first)
  }

  lemma {:induction false} RunInv(run: seq<State>, n: nat, first: nat, k: nat) returns (h: int)
    requires IsRun(run, n, first) && k < |run|
    ensures Inv(run[k], first, h)
    decreases k
  {
    hide Inv;
    if k == 0 {
      h := 0;
      StartInv(n, first);
    } else {
      h := RunInv(run, n, first, k - 1);
      assert AnyStep(run[k - 1], run[k], first);
      var i: nat :| Step(run[k - 1], run[k], i, first);
      h := StepKeeps(run[k - 1], run[k], i, first, h);
    }
  }

  lemma StartInv(n: nat, first: nat)
    requires n > 0
    ensures Inv(Initial(n), first, 0)
  {
  }

  /** In every interleaving the numbers handed out are distinct and consecutive. */
  lemma IdsConsecutive(run: seq<State>, n: nat, first: nat, k: nat, a: nat, b: nat)
    requires IsRun(run, n, first) && k < |run| && a < |run[k].ids| && b < |run[k].ids|
    ensures run[k].ids[a] == first + a
    ensures run[k].ids[a] == run[k].ids[b] ==> a == b
  {
    hide IsRun;
    var h := RunInv(run, n, first, k);
  }

  /** Two processes are never both between read_num and write_num. */
  lemma OneHolder(run: seq<State>, n: nat, first: nat, k: nat, i: nat, j: nat)
    requires IsRun(run, n, first) && k < |run| && i < |run[k].pc| && j < |run[k].pc|
    requires !run[k].pc[i].Idle? && !run[k].pc[j].Idle?
    ensures i == j
  {
    hide IsRun;
    var h := RunInv(run, n, first, k);
  }

  // ------------------------------------------------------- coverage maps

  type Bit = b: int | 0 <= b <= 1
  type Bits = seq<Bit>
  type Dir = map<string, Bits>

  function Or(a: Bit, b: Bit): Bit {
    if a == 1 || b == 1 then 1 else 0
  }

  function Count(m: Bits): nat {
    if m == [] then 0 else Count(m[..|m| - 1]) + m[|m| - 1]
  }

  /** The bits that are set in the listed maps of a directory. */
  function Total(dir: Dir, names: seq<string>): nat
    requires forall k :: 0 <= k < |names| ==> names[k] in dir
  {
    if names == [] then 0 else Total(dir, names[..|names| - 1]) + Count(dir[names[|names| - 1]])
  }

  lemma {:induction false} TotalConcat(dir: Dir, a: seq<string>, b: seq<string>)
    requires forall k :: 0 <= k < |a| ==> a[k] in dir
    requires forall k :: 0 <= k < |b| ==> b[k] in dir
    ensures Total(dir, a + b) == Total(dir, a) + Total(dir, b)
  {
    if b == [] {
      assert a + b == a;
    } else {
      assert (a + b)[..|a + b| - 1] == a + b[..|b| - 1];
      TotalConcat(dir, a, b[..|b| - 1]);
    }
  }

  predicate Distinct(names: seq<string>) {
    forall i, j :: 0 <= i < j < |names| ==> names[i] != names[j]
  }

  ghost predicate SameFiles(a: seq<string>, b: seq<string>) {
    forall f :: f in a <==> f in b
  }

  /** The order in which the files are listed does not matter. */
  lemma {:induction false} TotalReordered(dir: Dir, a: seq<string>, b: seq<string>)
    requires Distinct(a) && Distinct(b) && SameFiles(a, b)
    requires (forall k :: 0 <= k < |a| ==> a[k] in dir) && (forall k :: 0 <= k < |b| ==> b[k] in dir)
    ensures Total(dir, a) == Total(dir, b)
    decreases |a|
  {
    assert b != [] ==> b[0] in b;
    if a != [] {
      var init, x := a[..|a| - 1], a[|a| - 1];
      assert x in b;
      var k :| 0 <= k < |b| && b[k] == x;
      Removed(a, b, k);
      TotalWithout(dir, b, k);
      TotalReordered(dir, init, b[..k] + b[k + 1..]);
    }
  }

  lemma TotalWithout(dir: Dir, b: seq<string>, k: nat)
    requires k < |b| && forall i :: 0 <= i < |b| ==> b[i] in dir
    ensures var c := b[..k] + b[k + 1..];
            (forall i :: 0 <= i < |c| ==> c[i] in dir) && Total(dir, b) == Total(dir, c) + Count(dir[b[k]])
  {
    hide Count;
    var l, x, r := b[..k], b[k], b[k + 1..];
    TotalConcat(dir, l, r);
    TotalConcat(dir, l + [x], r);
    assert (l + [x])[..k] == l && l + [x] + r == b;
  }

  lemma Removed(a: seq<string>, b: seq<string>, k: nat)
    requires Distinct(a) && Distinct(b) && SameFiles(a, b) && a != [] && k < |b| && b[k] == a[|a| - 1]
    ensures Distinct(a[..|a| - 1]) && Distinct(b[..k] + b[k + 1..]) && SameFiles(a[..|a| - 1], b[..k] + b[k + 1..])
  {
    var init, c := a[..|a| - 1], b[..k] + b[k + 1..];
    forall f
      ensures f in init <==> f in c
    {
      if f in init {
        var i :| 0 <= i < |init| && init[i] == f;
        assert a[i] == f && f in b;
        var j :| 0 <= j < |b| && b[j] == f;
        assert c[if j < k then j else j - 1] == f;
      }
      if f in c {
        var j :| 0 <= j < |c| && c[j] == f;
        assert b[if j < k then j else j + 1] == f;
        assert f in a;
        var i :| 0 <= i < |a| && a[i] == f;
        assert init[i] == f;
      }
    }
  }

  /** Setting bits does not lower the counts. */
  predicate Below(a: Bits, b: Bits) {
    |a| == |b| && forall n :: 0 <= n < |a| ==> a[n] <= b[n]
  }

  lemma {:induction false} CountGrows(a: Bits, b: Bits)
    requires Below(a, b)
    ensures Count(a) <= Count(b)
  {
    if a != [] {
      CountGrows(a[..|a| - 1], b[..|b| - 1]);
    }
  }

  lemma {:induction false} TotalGrows(a: Dir, b: Dir, names: seq<string>)
    requires forall k :: 0 <= k < |names| ==> names[k] in a && names[k] in b && Below(a[names[k]], b[names[k]])
    ensures Total(a, names) <= Total(b, names)
    decreases |names|
  {
    if names != [] {
      CountGrows(a[names[|names| - 1]], b[names[|names| - 1]]);
      TotalGrows(a, b, names[..|names| - 1]);
    }
  }

  lemma {:induction false} TotalSame(a: Dir, b: Dir, names: seq<string>)
    requires forall k :: 0 <= k < |names| ==> names[k] in a && names[k] in b && a[names[k]] == b[names[k]]
    ensures Total(a, names) == Total(b, names)
    decreases |names|
  {
    if names != [] {
      TotalSame(a, b, names[..|names| - 1]);
    }
  }

  /** Bit n of file f is set in the i-th stored map. */
  predicate SetIn(stored: seq<Dir>, f: string, n: int, i: int) {
    0 <= i < |stored| && f in stored[i] && 0 <= n < |stored[i][f]| && stored[i][f][n] == 1
  }

  /** Each bit of the shared map is the bitwise or of that bit in all stored maps. */
  ghost predicate IsOr(shared: Dir, stored: seq<Dir>) {
    forall f, n :: f in shared && 0 <= n < |shared[f]| ==> (shared[f][n] == 1 <==> exists i :: SetIn(stored, f, n, i))
  }

  /** File f of files is what it was or-ed with the process's own. */
  predicate MergedFile(was: Dir, dir: Dir, files: Dir, f: string) {
    && f in files && f in dir && |files[f]| == |dir[f]| && (f in was ==> |was[f]| == |dir[f]|)
    && forall n :: 0 <= n < |files[f]| ==> files[f][n] == if f in was then Or(was[f][n], dir[f][n]) else dir[f][n]
  }

  /** Merging one more directory into the or of those before. */
  lemma OrStays(was: Dir, stored: seq<Dir>, dir: Dir, files: Dir)
    requires forall f :: f in files ==> MergedFile(was, dir, files, f)
    requires if stored == [] then was == map[] else IsOr(was, stored) && forall f :: f in files ==> f in was
    ensures IsOr(files, stored + [dir])
  {
    var all := stored + [dir];
    forall f, n | f in files && 0 <= n < |files[f]|
      ensures files[f][n] == 1 <==> exists i :: SetIn(all, f, n, i)
    {
      assert MergedFile(was, dir, files, f);
      if exists i :: SetIn(stored, f, n, i) {
        var i :| SetIn(stored, f, n, i);
        assert SetIn(all, f, n, i);
      }
      if dir[f][n] == 1 {
        assert SetIn(all, f, n, |stored|);
      }
      forall i | SetIn(all, f, n, i)
        ensures files[f][n] == 1
      {
        if i < |stored| {
          assert SetIn(stored, f, n, i);
        }
      }
    }
  }

  /** The shared coverage directory and its log; stored are the directories merged so far. */
  class Coverage {
    const names: seq<string>
    const sizes: map<string, nat>
    var shared: Dir
    var log: seq<nat>
    ghost var stored: seq<Dir>

    /** A directory with the usual files, each of its usual size. */
    ghost predicate Fits(dir: Dir) {
      && (forall f :: f in dir <==> f in sizes)
      && (forall f :: f in dir ==> |dir[f]| == sizes[f])
      && (forall k :: 0 <= k < |names| ==> names[k] in dir)
      && (forall f :: f in dir ==> f in names)
    }

    /** The shared maps are the bitwise or of the stored ones; the last logged sum is their bit count; sums never fall. */
    ghost predicate Valid()
      reads this
    {
      && |log| == |stored|
      && (stored == [] ==> shared == map[])
      && (stored != [] ==> Fits(shared) && IsOr(shared, stored) && log[|log| - 1] == Total(shared, names))
      && (forall i, j :: 0 <= i < j < |log| ==> log[i] <= log[j])
    }

    /** One file of store_covmap: the shared map, if there is one, or-ed with the process's own. */
    method MergeFile(files: Dir, dir: Dir, f: string) returns (m: Bits, sum: nat)
      requires f in dir && (f in files ==> |files[f]| == |dir[f]|)
      ensures |m| == |dir[f]| && sum == Count(m)
      ensures forall n :: 0 <= n < |m| ==> m[n] == if f in files then Or(files[f][n], dir[f][n]) else dir[f][n]
    {
      var covMap: Bits := seq(|dir[f]|, _ => 0);
      if f in files {
        covMap := files[f];
      }
      m, sum := [], 0;
      for n := 0 to |covMap|
        invariant |m| == n && sum == Count(m)
        invariant forall k :: 0 <= k < n ==> m[k] == Or(covMap[k], dir[f][k])
      {
        var b := Or(covMap[n], dir[f][n]);
        assert (m + [b])[..n] == m;
        m := m + [b];
        sum := sum + b;
      }
    }

    /** The loop of store_covmap over the files, in any order. */
    method MergeFiles(was: Dir, dir: Dir, listing: seq<string>) returns (files: Dir, covSum: nat)
      requires Fits(dir) && (Fits(was) || was == map[]) && Distinct(listing) && SameFiles(listing, names)
      ensures Fits(files) && (forall f :: f in files ==> MergedFile(was, dir, files, f))
      ensures (forall k :: 0 <= k < |listing| ==> listing[k] in files) && covSum == Total(files, listing)
    {
      hide Total, MergedFile, Halfway, Fits;
      covSum := 0;
      files := was;
      NoTotal(files);
      StartHalfway(was, dir, listing);
      for k := 0 to |listing|
        invariant Halfway(files, was, dir, listing, k)
        invariant forall j :: 0 <= j < k ==> listing[j] in files
        invariant covSum == Total(files, listing[..k])
      {
        var f := listing[k];
        HalfwayFacts(files, was, dir, listing, k);
        var m, sum := MergeFile(files, dir, f);
        HalfwayStep(files, was, dir, listing, k, m);
        ghost var before := files;
        files := files[f := m];
        TotalSame(before, files, listing[..k]);
        TotalOneMore(files, listing, k);
        covSum := covSum + sum;
      }
      assert listing[..|listing|] == listing;
      EndHalfway(files, was, dir, listing);
    }

    /** The first k files are merged, the others as they were. */
    ghost predicate Halfway(files: Dir, was: Dir, dir: Dir, listing: seq<string>, k: nat) {
      && k <= |listing| && Fits(dir) && (Fits(was) || was == map[]) && Distinct(listing) && SameFiles(listing, names)
      && (forall j :: 0 <= j < k ==> MergedFile(was, dir, files, listing[j]))
      && (forall j :: k <= j < |listing| ==> (listing[j] in files <==> listing[j] in was))
      && (forall j :: k <= j < |listing| && listing[j] in was ==> listing[j] in files && files[listing[j]] == was[listing[j]])
      && (forall f :: f in files ==> f in dir)
    }

    lemma StartHalfway(was: Dir, dir: Dir, listing: seq<string>)
      requires Fits(dir) && (Fits(was) || was == map[]) && Distinct(listing) && SameFiles(listing, names)
      ensures Halfway(was, was, dir, listing, 0)
    {
    }

    lemma HalfwayFacts(files: Dir, was: Dir, dir: Dir, listing: seq<string>, k: nat)
      requires Halfway(files, was, dir, listing, k) && k < |listing|
      ensures listing[k] in dir && (listing[k] in files ==> |files[listing[k]]| == |dir[listing[k]]|)
      ensures forall j :: 0 <= j < k ==> listing[j] in files && listing[j] != listing[k]
    {
      assert listing[k] in names;
    }

    lemma HalfwayStep(files: Dir, was: Dir, dir: Dir, listing: seq<string>, k: nat, m: Bits)
      requires Halfway(files, was, dir, listing, k) && k < |listing| && listing[k] in dir && |m| == |dir[listing[k]]|
      requires var f := listing[k];
               && (f in files ==> |files[f]| == |m|)
               && forall n :: 0 <= n < |m| ==> m[n] == if f in files then Or(files[f][n], dir[f][n]) else dir[f][n]
      ensures Halfway(files[listing[k] := m], was, dir, listing, k + 1)
    {
      var after := files[listing[k] := m];
      forall j | 0 <= j < k + 1
        ensures MergedFile(was, dir, after, listing[j])
      {
        if j < k {
          assert MergedFile(was, dir, files, listing[j]);
        }
      }
    }

    lemma EndHalfway(files: Dir, was: Dir, dir: Dir, listing: seq<string>)
      requires Halfway(files, was, dir, listing, |listing|)
      ensures Fits(files) && forall f :: f in files ==> MergedFile(was, dir, files, f)
    {
      forall f | f in dir
        ensures f in files && MergedFile(was, dir, files, f)
      {
        assert f in names && f in listing;
        var j :| 0 <= j < |listing| && listing[j] == f;
        assert MergedFile(was, dir, files, listing[j]);
      }
      forall k | 0 <= k < |names|
        ensures names[k] in files
      {
        assert names[k] in dir;
      }
    }

    /** store_covmap, between taking and releasing the semaphore. */
    method StoreCovmap(dir: Dir, listing: seq<string>)
      requires Valid() && Fits(dir) && Distinct(listing) && Distinct(names) && SameFiles(listing, names)
      modifies this
      ensures Valid() && stored == old(stored) + [dir] && |log| == |old(log)| + 1 && log[..|old(log)|] == old(log)
    {
      hide Total;
      ghost var was := shared;
      var files, covSum := MergeFiles(shared, dir, listing);
      TotalReordered(files, listing, names);
      OrStays(was, stored, dir, files);
      if stored != [] {
        NeverFalls(was, dir, files);
      }
      shared := files;
      log := log + [covSum];
      stored := stored + [dir];
    }

    lemma NeverFalls(was: Dir, dir: Dir, files: Dir)
      requires Fits(was) && Fits(files) && forall f :: f in files ==> MergedFile(was, dir, files, f)
      ensures Total(was, names) <= Total(files, names)
    {
      forall k | 0 <= k < |names|
        ensures Below(was[names[k]], files[names[k]])
      {
        assert MergedFile(was, dir, files, names[k]);
      }
      TotalGrows(was, files, names);
    }
  }

  lemma NoTotal(files: Dir)
    ensures Total(files, []) == 0
  {
  }

  lemma TotalOneMore(files: Dir, listing: seq<string>, k: nat)
    requires k < |listing| && forall j :: 0 <= j <= k ==> listing[j] in files
    ensures Total(files, listing[..k + 1]) == Total(files, listing[..k]) + Count(files[listing[k]])
  {
    assert listing[..k + 1][..k] == listing[..k];
  }
}
