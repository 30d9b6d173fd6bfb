/**
 cachesim.cc and cachesim.h: a set-associative cache simulator whose misses and
 writebacks go to a next cache, and the fully associative variant. Tags are
 64-bit words with the line number in the low bits and two flags on top; sets
 and line sizes are powers of two, so masks and shifts are written as % and /.
 */
module CacheSim {
  import opened Bytes

  const VALID := 0x8000_0000_0000_0000
  const DIRTY := 0x4000_0000_0000_0000
  const LINES := 0x2000_0000_0000_0000

  /** A tag word: a line number and the flags. */
  predicate IsTag(t: nat) {
    t == 0 || VALID <= t < VALID + LINES || VALID + DIRTY <= t < VALID + DIRTY + LINES
  }

  predicate IsValid(t: nat) {
    t >= VALID
  }

  predicate IsDirty(t: nat) {
    t >= VALID + DIRTY
  }

  /** t & ~(VALID | DIRTY) */
  function Line(t: nat): nat
    requires IsTag(t) && IsValid(t)
  {
    if IsDirty(t) then t - VALID - DIRTY else t - VALID
  }

  /** t & ~DIRTY */
  function Clean(t: nat): nat {
    if IsDirty(t) then t - DIRTY else t
  }

  /** t | DIRTY, for a valid tag */
  function SetDirty(t: nat): nat {
    if IsDirty(t) then t else t + DIRTY
  }

  /** The number of dirty tags. */
  function DirtyCount(tags: seq<nat>): nat {
    if tags == [] then 0 else DirtyCount(tags[..|tags| - 1]) + (if IsDirty(tags[|tags| - 1]) then 1 else 0)
  }

  lemma {:induction false} DirtyUpdate(tags: seq<nat>, i: nat, t: nat)
    requires i < |tags|
    ensures DirtyCount(tags[i := t]) == DirtyCount(tags) - (if IsDirty(tags[i]) then 1 else 0) + (if IsDirty(t) then 1 else 0)
  {
    var n := |tags| - 1;
    if i == n {
      assert tags[i := t][..n] == tags[..n];
    } else {
      assert tags[i := t][..n] == tags[..n][i := t];
      DirtyUpdate(tags[..n], i, t);
    }
  }

  lemma {:induction false} NoneDirty(tags: seq<nat>)
    requires forall i :: 0 <= i < |tags| ==> !IsDirty(tags[i])
    ensures DirtyCount(tags) == 0
  {
    if tags != [] {
      NoneDirty(tags[..|tags| - 1]);
    }
  }

  /** The set of the i-th tag. */
  predicate InSet(tags: seq<nat>, sets: nat, ways: nat, i: nat)
    requires sets > 0 && ways > 0 && i < |tags|
  {
    IsTag(tags[i]) && (IsValid(tags[i]) ==> Line(tags[i]) % sets == i / ways)
  }

  /** Every valid line sits in its own set, and no line is held twice. */
  predicate TagsOk(tags: seq<nat>, sets: nat, ways: nat)
    requires sets > 0 && ways > 0
  {
    && |tags| == sets * ways
    && (forall i :: 0 <= i < |tags| ==> InSet(tags, sets, ways, i))
    && (forall i, j :: 0 <= i < j < |tags| && IsValid(tags[i]) && IsValid(tags[j]) ==> Clean(tags[i]) != Clean(tags[j]))
  }

  /** The held lines are lines of 64-bit addresses. */
  predicate LinesFit(tags: seq<nat>, linesz: nat) {
    forall i :: 0 <= i < |tags| && IsTag(tags[i]) && IsValid(tags[i]) ==> Line(tags[i]) * linesz < ADDRESSES
  }

  const ADDRESSES := 0x1_0000_0000_0000_0000

  /** The line is held, by the i-th tag. */
  predicate HeldAt(tags: seq<nat>, line: nat, i: nat) {
    i < |tags| && Clean(tags[i]) == line + VALID
  }

  ghost predicate Held(tags: seq<nat>, line: nat) {
    exists i :: HeldAt(tags, line, i)
  }

  /** The index of a way of a set lies in the array, and belongs to that set. */
  lemma WayIndex(idx: nat, way: nat, sets: nat, ways: nat)
    requires idx < sets && way < ways
    ensures idx * ways + way < sets * ways && (idx * ways + way) / ways == idx
  {
    MulOrder(idx + 1, sets, ways);
    ModUnique(idx * ways + way, idx, way, ways);
  }

  /** A tag that holds a line is in the line's set. */
  lemma HeldInSet(tags: seq<nat>, sets: nat, ways: nat, line: nat, i: nat)
    requires sets > 0 && ways > 0 && TagsOk(tags, sets, ways) && line < LINES && HeldAt(tags, line, i)
    ensures i / ways == line % sets && i == (line % sets) * ways + i % ways
  {
    assert InSet(tags, sets, ways, i);
  }

  /** A tag replaced by one of the same set whose line nobody else holds. */
  lemma TagsReplaced(tags: seq<nat>, sets: nat, ways: nat, i: nat, t: nat)
    requires sets > 0 && ways > 0 && TagsOk(tags, sets, ways) && i < |tags|
    requires IsTag(t) && IsValid(t) && Line(t) % sets == i / ways
    requires forall j :: 0 <= j < |tags| && j != i && IsValid(tags[j]) ==> Clean(tags[j]) != Clean(t)
    ensures TagsOk(tags[i := t], sets, ways)
  {
    var after := tags[i := t];
    forall j | 0 <= j < |after|
      ensures InSet(after, sets, ways, j)
    {
      assert InSet(tags, sets, ways, j);
    }
  }

  // --------------------------------------------------------------- lfsr

  /** lfsr_t::next; from a register that is not zero it never reaches zero. */
  function Lfsr(reg: bv32): (r: bv32)
    ensures reg != 0 ==> r != 0
  {
    (reg >> 1) ^ (if reg & 1 == 1 then 0xd000_0001 else 0)
  }

  // ------------------------------------------------- what an access does

  datatype Request = Request(addr: nat, bytes: nat, store: bool)

  /** A line is held and dirty. */
  ghost predicate HeldDirty(tags: seq<nat>, line: nat) {
    exists i: nat :: HeldAt(tags, line, i) && IsDirty(tags[i])
  }

  /** The tag of a line that has just come. */
  function NewTag(line: nat, store: bool): nat {
    line + VALID + (if store then DIRTY else 0)
  }

  /** An access to a line, at the i-th tag: on a hit a store sets its flag, on a miss the line takes its place. */
  ghost predicate Turn(was: seq<nat>, now: seq<nat>, sets: nat, ways: nat, line: nat, store: bool, i: nat)
    requires sets > 0 && ways > 0
  {
    && i < |was| && i / ways == line % sets
    && if Held(was, line) then
         HeldAt(was, line, i) && now == (if store then was[i := SetDirty(was[i])] else was)
       else
         now == was[i := NewTag(line, store)]
  }

  /** A miss that replaces a dirty line writes it back. */
  ghost function Writeback(was: seq<nat>, line: nat, i: nat): nat {
    if !Held(was, line) && i < |was| && IsDirty(was[i]) then 1 else 0
  }

  /** A store to a line that is not held and dirty makes a line dirty. */
  ghost function Transition(was: seq<nat>, line: nat, store: bool): nat {
    if store && !HeldDirty(was, line) then 1 else 0
  }

  /** What goes to the next cache: the dirty victim, then the line that is missing. */
  ghost function Sent(was: seq<nat>, linesz: nat, addr: nat, i: nat): seq<Request>
    requires linesz > 0
  {
    if Held(was, addr / linesz) then []
    else VictimSent(was, linesz, i) + [Refill(addr, linesz)]
  }

  /** The request for the line of an address. */
  function Refill(addr: nat, linesz: nat): Request
    requires linesz > 0
  {
    Request(addr - addr % linesz, linesz, false)
  }

  function VictimSent(was: seq<nat>, linesz: nat, i: nat): seq<Request> {
    if i < |was| && IsDirty(was[i]) && IsTag(was[i]) then [Request(Line(was[i]) * linesz, linesz, true)] else []
  }

  lemma NewTagFlags(line: nat, store: bool)
    requires line < LINES
    ensures var t := NewTag(line, store);
            IsTag(t) && IsValid(t) && Line(t) == line && Clean(t) == line + VALID && IsDirty(t) == store
  {
  }

  lemma SetDirtyFlags(t: nat)
    requires IsTag(t) && IsValid(t)
    ensures var u := SetDirty(t);
            IsTag(u) && IsValid(u) && Line(u) == Line(t) && Clean(u) == Clean(t) && IsDirty(u)
  {
  }

  lemma HeldTag(tags: seq<nat>, sets: nat, ways: nat, line: nat, i: nat)
    requires sets > 0 && ways > 0 && TagsOk(tags, sets, ways) && line < LINES && HeldAt(tags, line, i)
    ensures IsTag(tags[i]) && IsValid(tags[i]) && Line(tags[i]) == line && i / ways == line % sets
    ensures forall j: nat :: HeldAt(tags, line, j) ==> j == i
  {
    assert InSet(tags, sets, ways, i);
    forall j: nat | HeldAt(tags, line, j)
      ensures j == i
    {
      assert InSet(tags, sets, ways, j);
    }
  }

  lemma DirtyIsHeld(tags: seq<nat>, line: nat)
    ensures HeldDirty(tags, line) ==> Held(tags, line)
  {
  }

  /** A line is dirty exactly if the tag that holds it is. */
  lemma DirtyAt(tags: seq<nat>, sets: nat, ways: nat, line: nat, i: nat)
    requires sets > 0 && ways > 0 && TagsOk(tags, sets, ways) && line < LINES && HeldAt(tags, line, i)
    ensures HeldDirty(tags, line) <==> IsDirty(tags[i])
  {
    HeldTag(tags, sets, ways, line, i);
    hide TagsOk, IsDirty, Clean, HeldAt;
    assert IsDirty(tags[i]) ==> HeldAt(tags, line, i) && IsDirty(tags[i]);
  }

  /** The new i-th tag, and that the other tags hold what they held. */
  lemma TurnTag(was: seq<nat>, now: seq<nat>, sets: nat, ways: nat, line: nat, store: bool, i: nat)
    requires sets > 0 && ways > 0 && TagsOk(was, sets, ways) && line < LINES && Turn(was, now, sets, ways, line, store, i)
    ensures |now| == |was| && HeldAt(now, line, i) && IsTag(now[i]) && IsValid(now[i]) && Line(now[i]) == line
    ensures IsDirty(now[i]) <==> store || HeldDirty(was, line)
    ensures Held(was, line) ==> HeldAt(was, line, i) && (IsDirty(was[i]) <==> HeldDirty(was, line))
    ensures forall l: nat, j: nat :: j != i ==> (HeldAt(now, l, j) <==> HeldAt(was, l, j)) && (j < |was| ==> now[j] == was[j])
  {
    DirtyIsHeld(was, line);
    if Held(was, line) {
      HeldTag(was, sets, ways, line, i);
      DirtyAt(was, sets, ways, line, i);
      SetDirtyFlags(was[i]);
    } else {
      NewTagFlags(line, store);
    }
    hide TagsOk, IsTag, IsValid, Line, Clean, IsDirty, HeldDirty, Held;
  }

  /** The line is held; others stay, but for the one whose place it took. */
  lemma TurnHolds(was: seq<nat>, now: seq<nat>, sets: nat, ways: nat, line: nat, store: bool, i: nat)
    requires sets > 0 && ways > 0 && TagsOk(was, sets, ways) && line < LINES && Turn(was, now, sets, ways, line, store, i)
    ensures Held(now, line)
    ensures forall l: nat :: Held(now, l) && l != line ==> Held(was, l)
    ensures forall l: nat :: Held(was, l) && !Held(now, l) ==>
              !Held(was, line) && HeldAt(was, l, i) && (l < LINES ==> l % sets == line % sets)
  {
    TurnTag(was, now, sets, ways, line, store, i);
    var hit := Held(was, line);
    hide Turn, Clean, IsTag, IsValid, Line, IsDirty, TagsOk;
    forall l: nat | Held(was, l) && !Held(now, l)
      ensures !hit && HeldAt(was, l, i) && (l < LINES ==> l % sets == line % sets)
    {
      var j: nat :| HeldAt(was, l, j);
      assert j == i;
      if l < LINES {
        HeldTag(was, sets, ways, l, i);
      }
    }
    forall l: nat | Held(now, l) && l != line
      ensures Held(was, l)
    {
      var j: nat :| HeldAt(now, l, j);
      assert j != i ==> HeldAt(was, l, j);
    }
  }

  /** The line is dirty after a store; apart from that a line is dirty exactly if it was and is still held. */
  lemma TurnDirties(was: seq<nat>, now: seq<nat>, sets: nat, ways: nat, line: nat, store: bool, i: nat, l: nat)
    requires sets > 0 && ways > 0 && TagsOk(was, sets, ways) && line < LINES && Turn(was, now, sets, ways, line, store, i)
    ensures HeldDirty(now, l) <==> (l == line && store) || (HeldDirty(was, l) && Held(now, l))
  {
    TurnTag(was, now, sets, ways, line, store, i);
    TurnHolds(was, now, sets, ways, line, store, i);
    TurnKeeps(was, now, sets, ways, line, store, i);
    DirtyIsHeld(now, l);
    if l == line {
      DirtyAt(now, sets, ways, line, i);
    } else if Held(now, l) {
      OthersKeep(was, now, sets, ways, line, store, i, l);
    }
    hide Turn, TagsOk, IsDirty, HeldDirty, Held, HeldAt;
  }

  /** Another line that is still held is so by the same tag. */
  lemma OthersKeep(was: seq<nat>, now: seq<nat>, sets: nat, ways: nat, line: nat, store: bool, i: nat, l: nat)
    requires sets > 0 && ways > 0 && TagsOk(was, sets, ways) && line < LINES && Turn(was, now, sets, ways, line, store, i)
    requires l != line && Held(now, l)
    ensures HeldDirty(now, l) <==> HeldDirty(was, l)
  {
    TurnTag(was, now, sets, ways, line, store, i);
    TurnKeeps(was, now, sets, ways, line, store, i);
    var j: nat :| HeldAt(now, l, j);
    assert j != i && HeldAt(was, l, j);
    hide Turn, IsDirty;
    forall k: nat | HeldAt(was, l, k)
      ensures k == j
    {
      HeldTwice(was, sets, ways, l, j, k);
    }
    forall k: nat | HeldAt(now, l, k)
      ensures k == j
    {
      HeldTwice(now, sets, ways, l, j, k);
    }
    hide TagsOk;
  }

  /** No line is held by two tags. */
  lemma HeldTwice(tags: seq<nat>, sets: nat, ways: nat, line: nat, j: nat, k: nat)
    requires sets > 0 && ways > 0 && TagsOk(tags, sets, ways) && HeldAt(tags, line, j) && HeldAt(tags, line, k)
    ensures j == k
  {
    assert InSet(tags, sets, ways, j) && InSet(tags, sets, ways, k);
  }

  /** Every valid line stays in its own set, and none is held twice. */
  lemma TurnKeeps(was: seq<nat>, now: seq<nat>, sets: nat, ways: nat, line: nat, store: bool, i: nat)
    requires sets > 0 && ways > 0 && TagsOk(was, sets, ways) && line < LINES && Turn(was, now, sets, ways, line, store, i)
    ensures TagsOk(now, sets, ways)
  {
    TurnTag(was, now, sets, ways, line, store, i);
    var hit := Held(was, line);
    forall j | 0 <= j < |was| && j != i && IsValid(was[j])
      ensures Clean(was[j]) != Clean(now[i])
    {
      if hit {
        HeldTag(was, sets, ways, line, i);
      }
      assert !HeldAt(was, line, j);
    }
    hide Turn;
    assert now == was[i := now[i]];
    TagsReplaced(was, sets, ways, i, now[i]);
  }

  /** Lines dirty afterwards and written back are those dirty before and newly dirtied. */
  lemma TurnCounts(was: seq<nat>, now: seq<nat>, sets: nat, ways: nat, line: nat, store: bool, i: nat)
    requires sets > 0 && ways > 0 && TagsOk(was, sets, ways) && line < LINES && Turn(was, now, sets, ways, line, store, i)
    ensures DirtyCount(now) + Writeback(was, line, i) == DirtyCount(was) + Transition(was, line, store)
  {
    TurnTag(was, now, sets, ways, line, store, i);
    DirtyIsHeld(was, line);
    assert now == was[i := now[i]];
    DirtyUpdate(was, i, now[i]);
    hide TagsOk, IsDirty, DirtyCount, HeldAt, HeldDirty, IsTag, IsValid, Line, SetDirty, Held;
  }

  // --------------------------------------------------- access sequences

  /** The tags before and after each request, and the tag that each touched. */
  ghost predicate IsTrace(states: seq<seq<nat>>, places: seq<nat>, requests: seq<Request>, sets: nat, ways: nat, linesz: nat)
    requires sets > 0 && ways > 0 && linesz > 0
  {
    && |places| == |requests| && |states| == |requests| + 1
    && forall k :: 0 <= k < |requests| ==>
         Turn(states[k], states[k + 1], sets, ways, requests[k].addr / linesz, requests[k].store, places[k])
  }

  ghost function Writebacks(states: seq<seq<nat>>, places: seq<nat>, requests: seq<Request>, linesz: nat, n: nat): nat
    requires linesz > 0 && n <= |places| == |requests| && |states| == |requests| + 1
  {
    if n == 0 then 0
    else
      Writebacks(states, places, requests, linesz, n - 1)
      + Writeback(states[n - 1], requests[n - 1].addr / linesz, places[n - 1])
  }

  ghost function Transitions(states: seq<seq<nat>>, requests: seq<Request>, linesz: nat, n: nat): nat
    requires linesz > 0 && n <= |requests| && |states| == |requests| + 1
  {
    if n == 0 then 0
    else
      Transitions(states, requests, linesz, n - 1)
      + Transition(states[n - 1], requests[n - 1].addr / linesz, requests[n - 1].store)
  }

  ghost function AllSent(states: seq<seq<nat>>, places: seq<nat>, requests: seq<Request>, linesz: nat, n: nat): seq<Request>
    requires linesz > 0 && n <= |places| == |requests| && |states| == |requests| + 1
  {
    if n == 0 then []
    else
      AllSent(states, places, requests, linesz, n - 1)
      + Sent(states[n - 1], linesz, requests[n - 1].addr, places[n - 1])
  }

  /** An access of one kind, to a line that is not held. */
  ghost function MissOf(was: seq<nat>, line: nat, kind: bool, store: bool): nat {
    if store == kind && !Held(was, line) then 1 else 0
  }

  /** The loads, or the stores, among the requests that missed. */
  ghost function Misses(states: seq<seq<nat>>, requests: seq<Request>, linesz: nat, kind: bool, n: nat): nat
    requires linesz > 0 && n <= |requests| && |states| == |requests| + 1
  {
    if n == 0 then 0
    else
      Misses(states, requests, linesz, kind, n - 1)
      + MissOf(states[n - 1], requests[n - 1].addr / linesz, kind, requests[n - 1].store)
  }

  /** Over every access sequence the sets stay in order, and writebacks are transitions minus the lines now dirty. */
  lemma CountsStep(states: seq<seq<nat>>, places: seq<nat>, requests: seq<Request>, linesz: nat, n: nat)
    requires linesz > 0 && n <= |places| == |requests| && |states| == |requests| + 1
    ensures n == 0 ==> Writebacks(states, places, requests, linesz, n) == 0 && Transitions(states, requests, linesz, n) == 0
    ensures n > 0 ==>
              var s, line := states[n - 1], requests[n - 1].addr / linesz;
              && Writebacks(states, places, requests, linesz, n)
                 == Writebacks(states, places, requests, linesz, n - 1) + Writeback(s, line, places[n - 1])
              && Transitions(states, requests, linesz, n)
                 == Transitions(states, requests, linesz, n - 1) + Transition(s, line, requests[n - 1].store)
  {
  }

  lemma {:induction false} Conservation(states: seq<seq<nat>>, places: seq<nat>, requests: seq<Request>, sets: nat, ways: nat, linesz: nat, n: nat)
    requires sets > 0 && ways > 0 && linesz > 0 && IsTrace(states, places, requests, sets, ways, linesz)
    requires TagsOk(states[0], sets, ways) && n <= |requests|
    requires forall r :: r in requests ==> r.addr / linesz < LINES
    ensures TagsOk(states[n], sets, ways)
    ensures Writebacks(states, places, requests, linesz, n) + DirtyCount(states[n])
            == DirtyCount(states[0]) + Transitions(states, requests, linesz, n)
  {
    hide TagsOk, Turn, DirtyCount, Writeback, Transition, Writebacks, Transitions;
    CountsStep(states, places, requests, linesz, n);
    if n > 0 {
      Conservation(states, places, requests, sets, ways, linesz, n - 1);
      var r := requests[n - 1];
      assert r in requests && states[n - 1 + 1] == states[n];
      TurnKeeps(states[n - 1], states[n], sets, ways, r.addr / linesz, r.store, places[n - 1]);
      TurnCounts(states[n - 1], states[n], sets, ways, r.addr / linesz, r.store, places[n - 1]);
    }
  }

  function Loads(requests: seq<Request>): nat {
    if requests == [] then 0 else Loads(requests[..|requests| - 1]) + (if requests[|requests| - 1].store then 0 else 1)
  }

  lemma {:induction false} LoadsAppend(a: seq<Request>, b: seq<Request>)
    ensures Loads(a + b) == Loads(a) + Loads(b) && Loads(b) <= |b|
  {
    if b == [] {
      assert a + b == a;
    } else {
      assert (a + b)[..|a + b| - 1] == a + b[..|b| - 1];
      LoadsAppend(a, b[..|b| - 1]);
    }
  }

  /** The next cache is sent one read for each miss and one write for each writeback. */
  lemma {:induction false} SentCounts(states: seq<seq<nat>>, places: seq<nat>, requests: seq<Request>, sets: nat, ways: nat, linesz: nat, n: nat)
    requires sets > 0 && ways > 0 && linesz > 0 && IsTrace(states, places, requests, sets, ways, linesz)
    requires TagsOk(states[0], sets, ways) && n <= |requests|
    requires forall r :: r in requests ==> r.addr / linesz < LINES
    ensures var sent := AllSent(states, places, requests, linesz, n);
            && Loads(sent) == Misses(states, requests, linesz, false, n) + Misses(states, requests, linesz, true, n)
            && |sent| - Loads(sent) == Writebacks(states, places, requests, linesz, n)
  {
    hide TagsOk, Turn, DirtyCount, Sent, Loads, Writeback;
    if n > 0 {
      SentCounts(states, places, requests, sets, ways, linesz, n - 1);
      Conservation(states, places, requests, sets, ways, linesz, n - 1);
      var r, was, i := requests[n - 1], states[n - 1], places[n - 1];
      assert r in requests;
      SentOnce(was, states[n - 1 + 1], sets, ways, linesz, r.addr, r.store, i);
      LoadsAppend(AllSent(states, places, requests, linesz, n - 1), Sent(was, linesz, r.addr, i));
    } else {
      LoadsNone();
    }
  }

  lemma SentOnce(was: seq<nat>, now: seq<nat>, sets: nat, ways: nat, linesz: nat, addr: nat, store: bool, i: nat)
    requires sets > 0 && ways > 0 && linesz > 0 && TagsOk(was, sets, ways) && Turn(was, now, sets, ways, addr / linesz, store, i)
    ensures var sent := Sent(was, linesz, addr, i);
            && Loads(sent) == (if Held(was, addr / linesz) then 0 else 1)
            && |sent| - Loads(sent) == Writeback(was, addr / linesz, i)
  {
    var v, last := VictimSent(was, linesz, i), [Refill(addr, linesz)];
    assert InSet(was, sets, ways, i);
    hide TagsOk, Refill, InSet;
    LoadsAppend(v, last);
    LoadsOne(last[0]);
    if v != [] {
      LoadsOne(v[0]);
    }
    hide Loads;
  }

  lemma LoadsNone()
    ensures Loads([]) == 0
  {
  }

  lemma LoadsOne(r: Request)
    ensures Loads([r]) == if r.store then 0 else 1
  {
    assert [r][..0] == [];
  }

  /** The bytes that the loads, or the stores, among the requests ask for. */
  function Moved(requests: seq<Request>, kind: bool): nat {
    if requests == [] then 0
    else
      var r := requests[|requests| - 1];
      Moved(requests[..|requests| - 1], kind) + (if r.store == kind then r.bytes else 0)
  }

  lemma MovedMore(requests: seq<Request>, r: Request)
    ensures forall kind :: Moved(requests + [r], kind) == Moved(requests, kind) + (if r.store == kind then r.bytes else 0)
  {
    assert (requests + [r])[..|requests|] == requests;
  }

  lemma {:induction false} MovedAppend(a: seq<Request>, b: seq<Request>, kind: bool)
    ensures Moved(a + b, kind) == Moved(a, kind) + Moved(b, kind)
  {
    if b == [] {
      assert a + b == a;
    } else {
      assert (a + b)[..|a + b| - 1] == a + b[..|b| - 1];
      MovedAppend(a, b[..|b| - 1], kind);
    }
  }

  // --------------------------------------------------------------- cache

  /** Counters of accesses and misses. */
  datatype Stats = Stats(readAccesses: nat, readMisses: nat, bytesRead: nat,
                         writeAccesses: nat, writeMisses: nat, bytesWritten: nat, writebacks: nat)

  function Accessed(s: Stats, bytes: nat, store: bool): Stats {
    if store then s.(writeAccesses := s.writeAccesses + 1, bytesWritten := s.bytesWritten + bytes)
    else s.(readAccesses := s.readAccesses + 1, bytesRead := s.bytesRead + bytes)
  }

  function Missed(s: Stats, store: bool, misses: nat, writebacks: nat): Stats {
    var t := s.(writebacks := s.writebacks + writebacks);
    if store then t.(writeMisses := t.writeMisses + misses) else t.(readMisses := t.readMisses + misses)
  }

  class Cache {
    const sets: nat
    const ways: nat
    const linesz: nat
    var tags: array<nat>
    var reg: bv32
    var stats: Stats
    var missHandler: Cache?
    /** The requests so far. */
    ghost var log: seq<Request>
    ghost var repr: set<object>

    ghost predicate Valid()
      reads this, repr
      decreases repr, 1
    {
      Chain() && Own()
    }

    /** This cache's own tags and counters. */
    ghost predicate Own()
      reads this, tags
    {
      && sets > 0 && ways > 0 && linesz >= 8 && TagsOk(tags[..], sets, ways) && LinesFit(tags[..], linesz)
      && stats.readAccesses == Loads(log) && stats.writeAccesses == |log| - Loads(log)
      && stats.bytesRead == Moved(log, false) && stats.bytesWritten == Moved(log, true)
    }

    /** The next cache, which shares nothing with this one. */
    ghost predicate Chain()
      reads this, repr
      decreases repr, 0
    {
      && this in repr && tags in repr
      && (missHandler != null ==>
            missHandler in repr && missHandler.repr < repr && this !in missHandler.repr && tags !in missHandler.repr && missHandler.Valid())
    }

    lemma ValidParts()
      requires Valid()
      ensures Own() && tags in repr
    {
    }

    constructor (sets: nat, ways: nat, linesz: nat)
      requires sets > 0 && ways > 0 && linesz >= 8
      ensures Valid() && fresh(repr) && missHandler == null && this.sets == sets && this.ways == ways && this.linesz == linesz
      ensures stats == Stats(0, 0, 0, 0, 0, 0, 0) && log == [] && reg == 1 && (forall line :: !Held(tags[..], line)) && DirtyCount(tags[..]) == 0
    {
      this.sets, this.ways, this.linesz := sets, ways, linesz;
      tags := new nat[sets * ways](_ => 0);
      reg := 1;
      stats := Stats(0, 0, 0, 0, 0, 0, 0);
      missHandler := null;
      log := [];
      new;
      repr := {this, tags};
      NoneDirty(tags[..]);
    }

    /** set_miss_handler, for a cache that this one is not part of. */
    method SetMissHandler(mh: Cache)
      requires Valid() && mh.Valid() && this !in mh.repr && tags !in mh.repr
      modifies this`missHandler, this`repr
      ensures Valid() && missHandler == mh && repr == old(repr) + mh.repr
    {
      missHandler := mh;
      repr := repr + mh.repr;
    }

    function LineOf(addr: nat): nat
      requires linesz > 0
    {
      addr / linesz
    }

    /** The line of an address is held. */
    ghost predicate Has(addr: nat)
      reads this, tags
    {
      linesz > 0 && Held(tags[..], LineOf(addr))
    }

    /** check_tag: the tag that holds the line of an address, or -1. */
    method CheckTag(addr: nat) returns (p: int)
      requires Valid() && LineOf(addr) < LINES
      ensures p >= 0 ==> HeldAt(tags[..], LineOf(addr), p)
      ensures p < 0 ==> p == -1 && !Held(tags[..], LineOf(addr))
    {
      hide TagsOk, IsTag, IsValid, IsDirty, Clean;
      var line := LineOf(addr);
      var idx := line % sets;
      ghost var base := idx * ways;
      for i := 0 to ways
        invariant forall j :: base <= j < base + i ==> !HeldAt(tags[..], line, j)
      {
        WayIndex(idx, i, sets, ways);
        ArraySize(tags[..], sets, ways);
        if line + VALID == Clean(tags[idx * ways + i]) {
          return idx * ways + i;
        }
      }
      p := -1;
      NobodyElse(tags[..], sets, ways, line, base);
    }

    /** victimize: a way that the register picks in the line's set takes the line; the tag that was there. */
    method Victimize(addr: nat) returns (victim: nat, ghost i: nat)
      requires Valid() && addr < ADDRESSES && LineOf(addr) < LINES && !Held(tags[..], LineOf(addr))
      modifies this`reg, tags
      ensures Valid() && i < tags.Length && victim == old(tags[i])
      ensures reg == Lfsr(old(reg)) && i == LineOf(addr) % sets * ways + (reg as int) % ways
      ensures Turn(old(tags[..]), tags[..], sets, ways, LineOf(addr), false, i)
      ensures missHandler != null ==> missHandler.log == old(missHandler.log)
    {
      hide IsTag, IsValid, IsDirty, Clean;
      var line := LineOf(addr);
      var idx := line % sets;
      reg := Lfsr(reg);
      var way := (reg as int) % ways;
      WayIndex(idx, way, sets, ways);
      ArraySize(tags[..], sets, ways);
      i := idx * ways + way;
      victim := tags[idx * ways + way];
      ghost var was := tags[..];
      tags[idx * ways + way] := line + VALID;
      TurnKeeps(was, tags[..], sets, ways, line, false, i);
      TurnFits(was, tags[..], sets, ways, linesz, addr, false, i);
      hide TagsOk, Held;
    }

    /** *hit_way |= DIRTY */
    method MarkDirty(p: nat, ghost line: nat)
      requires Valid() && line < LINES && HeldAt(tags[..], line, p)
      modifies tags
      ensures Valid() && tags[..] == old(tags[..])[p := SetDirty(old(tags[p]))]
      ensures missHandler != null ==> missHandler.log == old(missHandler.log) && missHandler.tags[..] == old(missHandler.tags[..])
    {
      hide LinesFit;
      if missHandler != null {
        missHandler.ValidParts();
      }
      ghost var was := tags[..];
      HeldTag(was, sets, ways, line, p);
      tags[p] := SetDirty(tags[p]);
      TurnKeeps(was, tags[..], sets, ways, line, true, p);
      DirtyFits(was, sets, ways, linesz, p);
    }

    /** access: what it does to the tags and the register, what it counts, and what it sends to the next cache. */
    method Access(addr: nat, bytes: nat, store: bool) returns (ghost i: nat)
      requires Valid() && addr < ADDRESSES
      modifies repr
      ensures Valid() && repr == old(repr) && tags == old(tags) && missHandler == old(missHandler)
      ensures Turn(old(tags[..]), tags[..], sets, ways, LineOf(addr), store, i)
      ensures stats == Missed(Accessed(old(stats), bytes, store), store,
                              if old(Held(tags[..], LineOf(addr))) then 0 else 1, old(Writeback(tags[..], LineOf(addr), i)))
      ensures if old(Held(tags[..], LineOf(addr))) then reg == old(reg)
              else reg == Lfsr(old(reg)) && i == LineOf(addr) % sets * ways + (reg as int) % ways
      ensures log == old(log) + [Request(addr, bytes, store)] && Has(addr)
      ensures missHandler != null ==> missHandler.log == old(missHandler.log) + Sent(old(tags[..]), linesz, addr, i)
      ensures missHandler != null && !old(Held(tags[..], LineOf(addr))) ==> missHandler.Has(addr - addr % linesz)
      decreases repr
    {
      hide TagsOk, LinesFit, Loads, IsDirty, IsTag, Moved;
      LineBound(addr);
      ghost var was := tags[..];
      NoMiss(Accessed(stats, bytes, store), store);
      CountAccess(addr, bytes, store);
      var p := CheckTag(addr);
      if p >= 0 {
        i := p;
        HeldTag(was, sets, ways, LineOf(addr), p);
        if store {
          MarkDirty(p, LineOf(addr));
        }
      } else {
        i := Miss(addr, store);
      }
      TurnHolds(was, tags[..], sets, ways, LineOf(addr), store, i);
    }

    /** The counters of an access. */
    method CountAccess(addr: nat, bytes: nat, store: bool)
      requires Valid()
      modifies this`stats, this`log
      ensures Valid() && stats == Accessed(old(stats), bytes, store) && log == old(log) + [Request(addr, bytes, store)]
    {
      hide TagsOk, LinesFit, Loads, Moved;
      ghost var r := Request(addr, bytes, store);
      LoadsAppend(log, [r]);
      LoadsOne(r);
      MovedMore(log, r);
      stats := Accessed(stats, bytes, store);
      log := log + [r];
    }

    /** A line's worth of access to the next cache, if there is one. */
    method Forward(addr: nat, store: bool)
      requires Chain() && addr < ADDRESSES
      modifies if missHandler == null then {} else missHandler.repr
      ensures Chain()
      ensures missHandler != null ==> missHandler.log == old(missHandler.log) + [Request(addr, linesz, store)]
      ensures missHandler != null ==> missHandler.Has(addr)
      decreases repr, 0
    {
      if missHandler != null {
        ghost var i := missHandler.Access(addr, linesz, store);
      }
    }

    /** The miss path of access. */
    method Miss(addr: nat, store: bool) returns (ghost i: nat)
      requires Valid() && addr < ADDRESSES && LineOf(addr) < LINES && !Held(tags[..], LineOf(addr))
      modifies repr
      ensures Valid() && repr == old(repr) && tags == old(tags) && missHandler == old(missHandler) && log == old(log)
      ensures Turn(old(tags[..]), tags[..], sets, ways, LineOf(addr), store, i)
      ensures stats == Missed(old(stats), store, 1, old(Writeback(tags[..], LineOf(addr), i)))
      ensures reg == Lfsr(old(reg)) && i == LineOf(addr) % sets * ways + (reg as int) % ways
      ensures missHandler != null ==> missHandler.log == old(missHandler.log) + Sent(old(tags[..]), linesz, addr, i)
      ensures missHandler != null ==> missHandler.Has(addr - addr % linesz)
      decreases repr, 2
    {
      hide TagsOk, LinesFit, Missed, IsTag, Loads, Turn, VictimSent, IsDirty, Moved;
      ghost var was := tags[..];
      i := Replace(addr, store);
      Forward(addr - addr % linesz, false);
      if store {
        var p := CheckTag(addr);
        FoundAgain(was, tags[..], sets, ways, LineOf(addr), i, p);
        MarkDirty(p, LineOf(addr));
      }
    }

    /** The victim leaves, and is written back if it was dirty. */
    method Replace(addr: nat, store: bool) returns (ghost i: nat)
      requires Valid() && addr < ADDRESSES && LineOf(addr) < LINES && !Held(tags[..], LineOf(addr))
      modifies repr
      ensures Valid() && repr == old(repr) && tags == old(tags) && missHandler == old(missHandler) && log == old(log)
      ensures Turn(old(tags[..]), tags[..], sets, ways, LineOf(addr), false, i)
      ensures stats == Missed(old(stats), store, 1, old(Writeback(tags[..], LineOf(addr), i)))
      ensures reg == Lfsr(old(reg)) && i == LineOf(addr) % sets * ways + (reg as int) % ways
      ensures missHandler != null ==> missHandler.log == old(missHandler.log) + VictimSent(old(tags[..]), linesz, i)
      decreases repr, 1
    {
      hide TagsOk, Held, Loads, IsTag, LinesFit, Turn, Moved;
      ghost var was := tags[..];
      var victim;
      victim, i := Victimize(addr);
      var dirty := IsDirty(victim);
      if dirty {
        VictimFits(was, sets, ways, linesz, i);
        Forward(Line(victim) * linesz, true);
      }
      stats := Missed(stats, store, 1, if dirty then 1 else 0);
    }

    /** Every sequence of accesses, on its own tags and towards the next cache. */
    method Trace(requests: seq<Request>) returns (ghost states: seq<seq<nat>>, ghost places: seq<nat>)
      requires Valid() && forall r :: r in requests ==> r.addr < ADDRESSES
      modifies repr
      ensures Valid() && repr == old(repr) && tags == old(tags) && missHandler == old(missHandler)
      ensures IsTrace(states, places, requests, sets, ways, linesz)
      ensures states[0] == old(tags[..]) && states[|requests|] == tags[..]
      ensures stats.writebacks == old(stats.writebacks) + Writebacks(states, places, requests, linesz, |requests|)
      ensures stats.writebacks - old(stats.writebacks) + DirtyCount(tags[..])
              == old(DirtyCount(tags[..])) + Transitions(states, requests, linesz, |requests|)
      ensures stats.readMisses == old(stats.readMisses) + Misses(states, requests, linesz, false, |requests|)
      ensures stats.writeMisses == old(stats.writeMisses) + Misses(states, requests, linesz, true, |requests|)
      ensures log == old(log) + requests
      ensures stats.readAccesses == old(stats.readAccesses) + Loads(requests)
      ensures stats.writeAccesses == old(stats.writeAccesses) + |requests| - Loads(requests)
      ensures stats.bytesRead == old(stats.bytesRead) + Moved(requests, false)
      ensures stats.bytesWritten == old(stats.bytesWritten) + Moved(requests, true)
      ensures missHandler != null ==>
                && missHandler.log == old(missHandler.log) + AllSent(states, places, requests, linesz, |requests|)
                && missHandler.stats.readAccesses - old(missHandler.stats.readAccesses)
                   == (stats.readMisses + stats.writeMisses) - old(stats.readMisses + stats.writeMisses)
                && missHandler.stats.writeAccesses - old(missHandler.stats.writeAccesses) == stats.writebacks - old(stats.writebacks)
    {
      hide Turn, DirtyCount, Loads, Misses, Writebacks, AllSent, Transitions, Moved;
      if missHandler != null {
        missHandler.ValidParts();
      }
      states, places := Accesses(requests);
      LoadsAppend(old(log), requests);
      MovedAppend(old(log), requests, false);
      MovedAppend(old(log), requests, true);
      AllLines(requests);
      Conservation(states, places, requests, sets, ways, linesz, |requests|);
      SentCounts(states, places, requests, sets, ways, linesz, |requests|);
      if missHandler != null {
        missHandler.ValidParts();
        LoadsAppend(old(missHandler.log), AllSent(states, places, requests, linesz, |requests|));
      }
      hide TagsOk, LinesFit;
    }

    /** The accesses of a sequence, one after the other. */
    method Accesses(requests: seq<Request>) returns (ghost states: seq<seq<nat>>, ghost places: seq<nat>)
      requires Valid() && forall r :: r in requests ==> r.addr < ADDRESSES
      modifies repr
      ensures Valid() && repr == old(repr) && tags == old(tags) && missHandler == old(missHandler)
      ensures IsTrace(states, places, requests, sets, ways, linesz)
      ensures states[0] == old(tags[..]) && states[|requests|] == tags[..]
      ensures stats.writebacks == old(stats.writebacks) + Writebacks(states, places, requests, linesz, |requests|)
      ensures stats.readMisses == old(stats.readMisses) + Misses(states, requests, linesz, false, |requests|)
      ensures stats.writeMisses == old(stats.writeMisses) + Misses(states, requests, linesz, true, |requests|)
      ensures log == old(log) + requests
      ensures missHandler != null ==> missHandler.log == old(missHandler.log) + AllSent(states, places, requests, linesz, |requests|)
      decreases repr, |requests|
    {
      hide Turn, Sent, Loads, Writeback, Held, Misses, Writebacks, AllSent, Moved;
      if requests == [] {
        states, places := [tags[..]], [];
        NoAccess(states, places, sets, ways, linesz);
        assert log + [] == log && (missHandler != null ==> missHandler.log + [] == missHandler.log);
      } else {
        var n := |requests| - 1;
        var r := requests[n];
        assert requests == requests[..n] + [r] && requests[..n + 1] == requests;
        states, places := Accesses(requests[..n]);
        ghost var i := Access(r.addr, r.bytes, r.store);
        TraceStep(states, places, requests, sets, ways, linesz, n, tags[..], i);
        states, places := states + [tags[..]], places + [i];
      }
    }

    lemma AllLines(requests: seq<Request>)
      requires linesz >= 8 && forall r :: r in requests ==> r.addr < ADDRESSES
      ensures forall r :: r in requests ==> r.addr / linesz < LINES
    {
      forall r | r in requests
        ensures r.addr / linesz < LINES
      {
        LineBound(r.addr);
      }
    }

    lemma LineBound(addr: nat)
      requires linesz >= 8 && addr < ADDRESSES
      ensures LineOf(addr) < LINES
    {
      MulOrder(8, linesz, LineOf(addr));
    }
  }

  lemma NoAccess(states: seq<seq<nat>>, places: seq<nat>, sets: nat, ways: nat, linesz: nat)
    requires sets > 0 && ways > 0 && linesz > 0 && |states| == 1 && places == []
    ensures IsTrace(states, places, [], sets, ways, linesz) && Writebacks(states, places, [], linesz, 0) == 0
    ensures (forall kind :: Misses(states, [], linesz, kind, 0) == 0) && AllSent(states, places, [], linesz, 0) == []
  {
  }

  /** One more access of a sequence. */
  lemma TraceStep(states: seq<seq<nat>>, places: seq<nat>, requests: seq<Request>, sets: nat, ways: nat, linesz: nat,
                  n: nat, now: seq<nat>, i: nat)
    requires sets > 0 && ways > 0 && linesz > 0 && n < |requests| && IsTrace(states, places, requests[..n], sets, ways, linesz)
    requires Turn(states[n], now, sets, ways, requests[n].addr / linesz, requests[n].store, i)
    ensures var (s, p, q, r) := (states + [now], places + [i], requests[..n + 1], requests[n]);
            && IsTrace(s, p, q, sets, ways, linesz)
            && Writebacks(s, p, q, linesz, n + 1)
               == Writebacks(states, places, requests[..n], linesz, n) + Writeback(states[n], r.addr / linesz, i)
            && (forall kind :: Misses(s, q, linesz, kind, n + 1)
                               == Misses(states, requests[..n], linesz, kind, n) + MissOf(states[n], r.addr / linesz, kind, r.store))
            && AllSent(s, p, q, linesz, n + 1)
               == AllSent(states, places, requests[..n], linesz, n) + Sent(states[n], linesz, r.addr, i)
            && q == requests[..n] + [r]
  {
    hide Turn, Writeback, Sent, Held;
    SamePrefix(states, states + [now], places, places + [i], requests[..n], requests[..n + 1], linesz, n);
  }

  lemma {:induction false} SamePrefix(s: seq<seq<nat>>, s': seq<seq<nat>>, p: seq<nat>, p': seq<nat>,
                                      q: seq<Request>, q': seq<Request>, linesz: nat, n: nat)
    requires linesz > 0 && n <= |p| == |q| && |s| == |q| + 1 && n <= |p'| == |q'| && |s'| == |q'| + 1
    requires s[..n] == s'[..n] && p[..n] == p'[..n] && q[..n] == q'[..n]
    ensures Writebacks(s, p, q, linesz, n) == Writebacks(s', p', q', linesz, n)
    ensures forall kind :: Misses(s, q, linesz, kind, n) == Misses(s', q', linesz, kind, n)
    ensures AllSent(s, p, q, linesz, n) == AllSent(s', p', q', linesz, n)
  {
    hide Writeback, Sent, Held;
    if n > 0 {
      var k := n - 1;
      assert s[..n][..k] == s[..k] && s'[..n][..k] == s'[..k] && p[..n][..k] == p[..k] && p'[..n][..k] == p'[..k]
             && q[..n][..k] == q[..k] && q'[..n][..k] == q'[..k];
      assert s[k] == s[..n][k] == s'[k] && p[k] == p[..n][k] == p'[k] && q[k] == q[..n][k] == q'[k];
      SamePrefix(s, s', p, p', q, q', linesz, k);
    }
  }

  lemma NoMiss(s: Stats, store: bool)
    ensures Missed(s, store, 0, 0) == s
  {
  }

  /** The line that comes is that of an address, so it fits. */
  lemma TurnFits(was: seq<nat>, now: seq<nat>, sets: nat, ways: nat, linesz: nat, addr: nat, store: bool, i: nat)
    requires sets > 0 && ways > 0 && linesz > 0 && TagsOk(was, sets, ways) && LinesFit(was, linesz) && addr < ADDRESSES
    requires addr / linesz < LINES && Turn(was, now, sets, ways, addr / linesz, store, i)
    ensures LinesFit(now, linesz)
  {
    TurnTag(was, now, sets, ways, addr / linesz, store, i);
    LineStart(addr, linesz);
    hide Turn, TagsOk, IsTag, IsValid, Line;
    forall j | 0 <= j < |now| && IsTag(now[j]) && IsValid(now[j])
      ensures Line(now[j]) * linesz < ADDRESSES
    {
      assert j != i ==> now[j] == was[j];
    }
  }

  lemma DirtyFits(tags: seq<nat>, sets: nat, ways: nat, linesz: nat, p: nat)
    requires sets > 0 && ways > 0 && TagsOk(tags, sets, ways) && LinesFit(tags, linesz) && p < |tags| && IsValid(tags[p])
    ensures LinesFit(tags[p := SetDirty(tags[p])], linesz)
  {
    assert InSet(tags, sets, ways, p);
    SetDirtyFlags(tags[p]);
  }

  lemma LineStart(addr: nat, linesz: nat)
    requires linesz > 0
    ensures addr / linesz * linesz <= addr
  {
  }

  /** check_tag after a miss finds the place that the line took; making it dirty completes the access. */
  lemma FoundAgain(was: seq<nat>, now: seq<nat>, sets: nat, ways: nat, line: nat, i: nat, p: int)
    requires sets > 0 && ways > 0 && TagsOk(was, sets, ways) && line < LINES && !Held(was, line)
    requires Turn(was, now, sets, ways, line, false, i) && TagsOk(now, sets, ways)
    requires if p >= 0 then HeldAt(now, line, p) else !Held(now, line)
    ensures p == i && HeldAt(now, line, i)
    ensures Turn(was, now[i := SetDirty(now[i])], sets, ways, line, true, i)
  {
    TurnTag(was, now, sets, ways, line, false, i);
    HeldTag(now, sets, ways, line, i);
    assert now[i := SetDirty(now[i])] == was[i := NewTag(line, true)];
  }

  lemma VictimFits(tags: seq<nat>, sets: nat, ways: nat, linesz: nat, i: nat)
    requires sets > 0 && ways > 0 && TagsOk(tags, sets, ways) && LinesFit(tags, linesz) && i < |tags| && IsDirty(tags[i])
    ensures IsTag(tags[i]) && IsValid(tags[i]) && Line(tags[i]) * linesz < ADDRESSES
  {
    assert InSet(tags, sets, ways, i);
  }

  lemma ArraySize(tags: seq<nat>, sets: nat, ways: nat)
    requires sets > 0 && ways > 0 && TagsOk(tags, sets, ways)
    ensures |tags| == sets * ways
  {
  }

  lemma NobodyElse(tags: seq<nat>, sets: nat, ways: nat, line: nat, base: nat)
    requires sets > 0 && ways > 0 && TagsOk(tags, sets, ways) && line < LINES && base == line % sets * ways
    requires forall j :: base <= j < base + ways ==> !HeldAt(tags, line, j)
    ensures !Held(tags, line)
  {
    hide TagsOk;
    forall j: nat | HeldAt(tags, line, j)
      ensures base <= j < base + ways
    {
      HeldInSet(tags, sets, ways, line, j);
    }
  }

  // ------------------------------------------------- fully associative

  /** The line that has to leave, if any. */
  datatype Leaver = Nobody | Leaves(line: nat)

  function Without(tags: map<nat, nat>, left: Leaver): map<nat, nat> {
    match left
    case Nobody => tags
    case Leaves(l) => tags - {l}
  }

  /** An access to a line: on a miss some line leaves if all ways are taken. */
  ghost predicate FaTurn(was: map<nat, nat>, now: map<nat, nat>, ways: nat, line: nat, store: bool, left: Leaver) {
    if line in was then
      left.Nobody? && now == (if store then was[line := SetDirty(was[line])] else was)
    else
      && (if |was| == ways then left.Leaves? && left.line in was else left.Nobody?)
      && now == Without(was, left)[line := NewTag(line, store)]
  }

  function FaWriteback(was: map<nat, nat>, left: Leaver): nat {
    if left.Leaves? && left.line in was && IsDirty(was[left.line]) then 1 else 0
  }

  function FaTransition(was: map<nat, nat>, line: nat, store: bool): nat {
    if store && !(line in was && IsDirty(was[line])) then 1 else 0
  }

  /** What goes to the next cache. */
  function FaSent(was: map<nat, nat>, linesz: nat, addr: nat, left: Leaver): seq<Request>
    requires linesz > 0
  {
    if addr / linesz in was then []
    else
      (if FaWriteback(was, left) == 1 then [Request(left.line * linesz, linesz, true)] else []) + [Refill(addr, linesz)]
  }

  /** The tag of each line is its own. */
  predicate FaTags(tags: map<nat, nat>) {
    forall l :: l in tags ==> l < LINES && (tags[l] == l + VALID || tags[l] == l + VALID + DIRTY)
  }

  /** The lines that are dirty. */
  function Dirties(tags: map<nat, nat>): set<nat> {
    set l | l in tags && IsDirty(tags[l])
  }

  lemma FaKeeps(was: map<nat, nat>, now: map<nat, nat>, ways: nat, line: nat, store: bool, left: Leaver)
    requires FaTags(was) && |was| <= ways && ways > 0 && line < LINES && FaTurn(was, now, ways, line, store, left)
    ensures FaTags(now) && |now| <= ways && line in now
    ensures IsDirty(now[line]) <==> store || (line in was && IsDirty(was[line]))
    ensures forall l :: l in now && l != line ==> l in was && now[l] == was[l]
    ensures forall l :: l in was && l !in now ==> line !in was && left == Leaves(l)
  {
    FaSize(was, now, ways, line, store, left);
  }

  lemma SizeUpdated(tags: map<nat, nat>, line: nat, tag: nat)
    ensures |tags[line := tag]| == |tags| + if line in tags then 0 else 1
  {
    assert tags[line := tag].Keys == tags.Keys + {line};
  }

  lemma SizeWithout(tags: map<nat, nat>, left: Leaver)
    ensures |Without(tags, left)| == |tags| - if left.Leaves? && left.line in tags then 1 else 0
  {
    if left.Leaves? {
      assert Without(tags, left).Keys == tags.Keys - {left.line};
    }
  }

  lemma FaSize(was: map<nat, nat>, now: map<nat, nat>, ways: nat, line: nat, store: bool, left: Leaver)
    requires |was| <= ways && ways > 0 && FaTurn(was, now, ways, line, store, left)
    ensures |now| <= ways
  {
    hide SetDirty, NewTag;
    if line in was {
      if store {
        SizeUpdated(was, line, SetDirty(was[line]));
      }
    } else {
      SizeWithout(was, left);
      SizeUpdated(Without(was, left), line, NewTag(line, store));
    }
  }

  /** Lines dirty afterwards and written back are those dirty before and newly dirtied. */
  lemma DirtiesUpdated(tags: map<nat, nat>, line: nat, tag: nat)
    requires line in tags && IsDirty(tags[line]) ==> IsDirty(tag)
    ensures |Dirties(tags[line := tag])| == |Dirties(tags)| + if IsDirty(tag) && line !in Dirties(tags) then 1 else 0
  {
    hide IsDirty;
    assert Dirties(tags[line := tag]) == if IsDirty(tag) then Dirties(tags) + {line} else Dirties(tags);
  }

  lemma DirtiesWithout(tags: map<nat, nat>, left: Leaver)
    ensures |Dirties(Without(tags, left))| == |Dirties(tags)| - FaWriteback(tags, left)
    ensures forall l :: l in Dirties(Without(tags, left)) ==> l in Dirties(tags)
  {
    hide IsDirty;
    if left.Leaves? {
      assert Dirties(Without(tags, left)) == Dirties(tags) - {left.line};
    }
  }

  lemma FaCounts(was: map<nat, nat>, now: map<nat, nat>, ways: nat, line: nat, store: bool, left: Leaver)
    requires FaTags(was) && line < LINES && FaTurn(was, now, ways, line, store, left)
    ensures |Dirties(now)| + FaWriteback(was, left) == |Dirties(was)| + FaTransition(was, line, store)
  {
    if line in was {
      if store {
        DirtiesUpdated(was, line, SetDirty(was[line]));
      }
    } else {
      DirtiesWithout(was, left);
      DirtiesUpdated(Without(was, left), line, NewTag(line, store));
    }
  }

  /** The tags before and after each request, and who left. */
  ghost predicate IsFaTrace(states: seq<map<nat, nat>>, lefts: seq<Leaver>, requests: seq<Request>, ways: nat, linesz: nat)
    requires linesz > 0
  {
    && |lefts| == |requests| && |states| == |requests| + 1
    && forall k :: 0 <= k < |requests| ==>
         FaTurn(states[k], states[k + 1], ways, requests[k].addr / linesz, requests[k].store, lefts[k])
  }

  ghost function FaWritebacks(states: seq<map<nat, nat>>, lefts: seq<Leaver>, n: nat): nat
    requires n <= |lefts| && |states| == |lefts| + 1
  {
    if n == 0 then 0 else FaWritebacks(states, lefts, n - 1) + FaWriteback(states[n - 1], lefts[n - 1])
  }

  ghost function FaTransitions(states: seq<map<nat, nat>>, requests: seq<Request>, linesz: nat, n: nat): nat
    requires linesz > 0 && n <= |requests| && |states| == |requests| + 1
  {
    if n == 0 then 0
    else
      FaTransitions(states, requests, linesz, n - 1)
      + FaTransition(states[n - 1], requests[n - 1].addr / linesz, requests[n - 1].store)
  }

  /** Over every access sequence, writebacks are transitions minus the lines now dirty. */
  lemma {:induction false} FaConservation(states: seq<map<nat, nat>>, lefts: seq<Leaver>, requests: seq<Request>, ways: nat, linesz: nat, n: nat)
    requires ways > 0 && linesz > 0 && IsFaTrace(states, lefts, requests, ways, linesz) && n <= |requests|
    requires FaTags(states[0]) && |states[0]| <= ways && forall r :: r in requests ==> r.addr / linesz < LINES
    ensures FaTags(states[n]) && |states[n]| <= ways
    ensures FaWritebacks(states, lefts, n) + |Dirties(states[n])| == |Dirties(states[0])| + FaTransitions(states, requests, linesz, n)
  {
    hide FaTurn, FaTags, Dirties, FaWriteback, FaTransition;
    if n > 0 {
      FaConservation(states, lefts, requests, ways, linesz, n - 1);
      var r := requests[n - 1];
      assert r in requests && states[n - 1 + 1] == states[n];
      FaKeeps(states[n - 1], states[n], ways, r.addr / linesz, r.store, lefts[n - 1]);
      FaCounts(states[n - 1], states[n], ways, r.addr / linesz, r.store, lefts[n - 1]);
    }
  }

  /** fa_cache_sim_t: the inherited access, with a map from lines to their tags. */
  class FaCache {
    const ways: nat
    const linesz: nat
    var tags: map<nat, nat>
    var stats: Stats

    ghost predicate Valid()
      reads this
    {
      ways > 0 && linesz >= 8 && |tags| <= ways && FaTags(tags)
    }

    constructor (ways: nat, linesz: nat)
      requires ways > 0 && linesz >= 8
      ensures Valid() && tags == map[] && stats == Stats(0, 0, 0, 0, 0, 0, 0)
    {
      this.ways, this.linesz := ways, linesz;
      tags := map[];
      stats := Stats(0, 0, 0, 0, 0, 0, 0);
    }

    /** victimize: if all ways are taken, some line leaves; the line of addr comes. */
    method Victimize(line: nat) returns (oldTag: nat, ghost left: Leaver)
      requires Valid() && line < LINES && line !in tags
      modifies this`tags
      ensures Valid() && FaTurn(old(tags), tags, ways, line, false, left)
      ensures oldTag == if left.Leaves? then old(tags)[left.line] else 0
    {
      oldTag := 0;
      left := Nobody;
      ghost var was := tags;
      if |tags| == ways {
        assert tags.Keys != {};
        var l :| l in tags.Keys;
        oldTag := tags[l];
        left := Leaves(l);
        tags := tags - {l};
      }
      tags := tags[line := line + VALID];
      FaKeeps(was, tags, ways, line, false, left);
      hide FaTags;
    }

    /** access: what it does to the tags, what it counts, and what it sends to the next cache. */
    method Access(addr: nat, bytes: nat, store: bool) returns (sent: seq<Request>, ghost left: Leaver)
      requires Valid() && addr < ADDRESSES
      modifies this
      ensures Valid() && FaTurn(old(tags), tags, ways, addr / linesz, store, left)
      ensures stats == Missed(Accessed(old(stats), bytes, store), store,
                              if addr / linesz in old(tags) then 0 else 1, FaWriteback(old(tags), left))
      ensures sent == FaSent(old(tags), linesz, addr, left)
    {
      MulOrder(8, linesz, addr / linesz);
      var line := addr / linesz;
      ghost var was := tags;
      NoMiss(Accessed(stats, bytes, store), store);
      stats := Accessed(stats, bytes, store);
      sent, left := [], Nobody;
      if line in tags {
        if store {
          tags := tags[line := SetDirty(tags[line])];
        }
      } else {
        sent, left := Miss(addr, store);
      }
      FaKeeps(was, tags, ways, line, store, left);
      hide FaTags, IsDirty;
    }

    /** The miss path. */
    method Miss(addr: nat, store: bool) returns (sent: seq<Request>, ghost left: Leaver)
      requires Valid() && addr / linesz < LINES && addr / linesz !in tags
      modifies this`tags, this`stats
      ensures FaTurn(old(tags), tags, ways, addr / linesz, store, left)
      ensures stats == Missed(old(stats), store, 1, FaWriteback(old(tags), left))
      ensures sent == FaSent(old(tags), linesz, addr, left)
    {
      hide IsDirty, Refill, FaTurn, FaTags, FaSent, FaWriteback, Missed, Line;
      var line := addr / linesz;
      ghost var was := tags;
      var victim;
      victim, left := Victimize(line);
      VictimFacts(was, tags, ways, linesz, addr, left, victim);
      sent := [];
      var writebacks := 0;
      if IsDirty(victim) {
        sent := [Request(Line(victim) * linesz, linesz, true)];
        writebacks := 1;
      }
      sent := sent + [Refill(addr, linesz)];
      stats := Missed(stats, store, 1, writebacks);
      if store {
        FaStore(was, tags, ways, line, left);
        tags := tags[line := SetDirty(tags[line])];
      }
    }
  }

  /** What the old tag says about the line that leaves. */
  lemma VictimFacts(was: map<nat, nat>, now: map<nat, nat>, ways: nat, linesz: nat, addr: nat, left: Leaver, victim: nat)
    requires FaTags(was) && linesz > 0 && addr / linesz !in was && FaTurn(was, now, ways, addr / linesz, false, left)
    requires victim == if left.Leaves? then was[left.line] else 0
    ensures addr / linesz in now && (IsDirty(victim) ==> IsTag(victim) && IsValid(victim))
    ensures FaWriteback(was, left) == if IsDirty(victim) then 1 else 0
    ensures FaSent(was, linesz, addr, left)
            == (if IsDirty(victim) then [Request(Line(victim) * linesz, linesz, true)] else []) + [Refill(addr, linesz)]
  {
    hide Refill;
    assert left.Leaves? && IsDirty(victim) ==> IsTag(victim) && Line(victim) == left.line;
  }

  /** Setting the flag of the line that has just come. */
  lemma FaStore(was: map<nat, nat>, now: map<nat, nat>, ways: nat, line: nat, left: Leaver)
    requires line < LINES && line !in was && FaTurn(was, now, ways, line, false, left)
    ensures line in now && FaTurn(was, now[line := SetDirty(now[line])], ways, line, true, left)
  {
    var out: map<nat, nat> := Without(was, left);
    var later: map<nat, nat> := out[line := NewTag(line, true)];
    assert SetDirty(now[line]) == NewTag(line, true);
    assert now[line := NewTag(line, true)] == later;
  }
}
