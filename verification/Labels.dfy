/**
 word.py and the relabelling of mutator.py and inst_generator.py, on the values
 of words: generation, mutation, merging and nop deletion keep every control
 transfer going forward.
 */
module Labels {

  /** One instruction of a word: a line without a label, a place for one, or a reference to a label of the part. */
  datatype Inst = Plain | Nop | Symbol | Label(n: nat)

  datatype Kind = NONE | CF_J | CF_BR | CF_RET | MEM_R | MEM_W | CSR

  predicate Transfers(kind: Kind) {
    kind in {CF_J, CF_BR, CF_RET}
  }

  /**
   A word: its label, its instructions as templates, and the lines made from
   them once it is populated, the first of which shows the label. Jumps says that the word may transfer control to
   the label it names; a word read back from a file has kind NONE and may jump.
   */
  datatype State = State(num: nat, kind: Kind, jumps: bool, insts: seq<Inst>, populated: bool,
                         shown: nat, lines: seq<Inst>)

  predicate Names(s: State, n: nat) {
    Label(n) in s.lines
  }

  /** A word as the generator makes it: nothing is written yet, and only control transfers jump. */
  predicate Unwritten(s: State) {
    && !s.populated && s.lines == []
    && (s.jumps ==> Transfers(s.kind))
    && (forall k :: 0 <= k < |s.insts| ==> !s.insts[k].Label?)
  }

  // ----------------------------------------------------------- invariants

  /** Labels are positions, every named label exists, and control only moves forward. */
  ghost predicate Forward(words: seq<State>) {
    forall i :: 0 <= i < |words| ==> ForwardAt(words[i], i, |words|)
  }

  ghost predicate ForwardAt(s: State, i: nat, len: nat) {
    && s.num == i
    && (s.populated ==> s.shown == i) && Symbol !in s.lines && Nop !in s.lines
    && (!s.populated ==> Unwritten(s))
    && (forall n: nat :: Names(s, n) ==> n <= len && (s.jumps ==> n > i))
  }

  lemma ForwardNum(words: seq<State>, i: nat)
    requires Forward(words) && i < |words|
    ensures words[i].num == i
  {
    assert ForwardAt(words[i], i, |words|);
  }

  predicate AllPopulated(words: seq<State>) {
    forall i :: 0 <= i < |words| ==> words[i].populated
  }

  /** What relabelling needs: written words in the order of their labels, jumping past their own. */
  ghost predicate Ordered(words: seq<State>) {
    && (forall i :: 0 <= i < |words| ==> OrderedAt(words[i]))
    && (forall i, j :: 0 <= i < j < |words| && words[i].populated && words[j].populated ==> words[i].num < words[j].num)
  }

  ghost predicate OrderedAt(s: State) {
    && Symbol !in s.lines && Nop !in s.lines
    && (!s.populated ==> Unwritten(s))
    && (forall n: nat :: Names(s, n) && s.jumps ==> n > s.num)
  }

  // ------------------------------------------------------------ relabelling

  /** reset_label over the list: the new position of each written word, by old label. */
  function LabelMap(words: seq<State>): map<nat, nat> {
    if words == [] then map[]
    else
      var n := |words| - 1;
      if words[n].populated then LabelMap(words[..n])[words[n].num := n] else LabelMap(words[..n])
  }

  /** reset_label: a written word also shows its new label. */
  function Reset(s: State, i: nat): State {
    if s.populated then s.(num := i, shown := i) else s.(num := i)
  }

  /** repop_label: a named label becomes its new position, or any later label if it is gone. */
  ghost predicate Repopped(s: State, t: State, labels: map<nat, nat>, maxLabel: nat) {
    && t == s.(lines := t.lines) && |t.lines| == |s.lines|
    && (forall k :: 0 <= k < |s.lines| ==> RepoppedLine(s, s.lines[k], t.lines[k], labels, maxLabel))
  }

  ghost predicate RepoppedLine(s: State, x: Inst, y: Inst, labels: map<nat, nat>, maxLabel: nat) {
    if s.populated && x.Label? then
      y.Label? && (if x.n in labels then y.n == labels[x.n] else s.num < y.n <= maxLabel)
    else y == x
  }

  /** reset_labels. */
  ghost predicate Relabelled(before: seq<State>, after: seq<State>) {
    && |after| == |before|
    && (forall i :: 0 <= i < |before| ==>
          Repopped(Reset(before[i], i), after[i], LabelMap(before), |before|))
  }

  /** The map holds exactly the labels of written words, at their positions. */
  lemma {:induction false} LabelMapFinds(words: seq<State>)
    requires Ordered(words)
    ensures forall i :: 0 <= i < |words| && words[i].populated ==>
              words[i].num in LabelMap(words) && LabelMap(words)[words[i].num] == i
    ensures forall l :: l in LabelMap(words) ==>
              LabelMap(words)[l] < |words| && words[LabelMap(words)[l]].populated && words[LabelMap(words)[l]].num == l
  {
    hide OrderedAt;
    if words != [] {
      LabelMapFinds(words[..|words| - 1]);
    }
  }

  /** Relabelling an ordered list makes it forward. */
  lemma RelabelForward(before: seq<State>, after: seq<State>)
    requires Ordered(before) && Relabelled(before, after)
    ensures Forward(after)
    ensures forall i :: 0 <= i < |after| ==> after[i].populated == before[i].populated
  {
    LabelMapFinds(before);
    forall i | 0 <= i < |after|
      ensures ForwardAt(after[i], i, |after|)
    {
      RelabelForwardAt(before, after, i);
    }
  }

  lemma RelabelForwardAt(before: seq<State>, after: seq<State>, i: nat)
    requires i < |after| && Ordered(before) && Relabelled(before, after)
    ensures ForwardAt(after[i], i, |after|)
  {
    LabelMapFinds(before);
    var labels := LabelMap(before);
    hide LabelMap;
    var s, t := before[i], after[i];
    assert OrderedAt(s) && Repopped(Reset(s, i), t, labels, |before|);
    forall n: nat | Names(t, n)
      ensures n <= |after| && (t.jumps ==> n > i)
    {
      var k :| 0 <= k < |t.lines| && t.lines[k] == Label(n);
      assert RepoppedLine(Reset(s, i), s.lines[k], t.lines[k], labels, |before|);
      assert s.lines[k].Label?;
      var old_ := s.lines[k].n;
      assert Names(s, old_);
      if old_ in labels && s.jumps {
        var j := labels[old_];
        assert before[j].num > before[i].num;
      }
    }
  }

  /** A label that named a word of the list names the same word where it is now; one whose word is gone names a later place. */
  lemma LabelFollows(before: seq<State>, after: seq<State>, i: nat, k: nat)
    requires Ordered(before) && Relabelled(before, after) && i < |before| && before[i].populated && k < |before[i].lines|
    ensures |after| == |before| && |after[i].lines| == |before[i].lines|
    ensures !before[i].lines[k].Label? ==> after[i].lines[k] == before[i].lines[k]
    ensures forall j :: 0 <= j < |before| && before[j].populated && before[i].lines[k] == Label(before[j].num) ==>
              after[i].lines[k] == Label(j) && after[j].shown == j && after[j].insts == before[j].insts
    ensures before[i].lines[k].Label? && (forall j :: 0 <= j < |before| && before[j].populated ==> before[i].lines[k] != Label(before[j].num)) ==>
              after[i].lines[k].Label? && i < after[i].lines[k].n <= |after|
  {
    LabelMapFinds(before);
    hide LabelMap, Ordered;
    var labels, x, y := LabelMap(before), before[i].lines[k], after[i].lines[k];
    assert Repopped(Reset(before[i], i), after[i], labels, |before|);
    assert RepoppedLine(Reset(before[i], i), x, y, labels, |before|);
    forall j | 0 <= j < |before| && before[j].populated && x == Label(before[j].num)
      ensures y == Label(j) && after[j].shown == j && after[j].insts == before[j].insts
    {
      assert Repopped(Reset(before[j], j), after[j], labels, |before|);
    }
  }

  // ------------------------------------------------------- mutate_words

  /** What mutate_words draws for each seed word. */
  datatype Choice = Keep | KeepAndAdd(word: State) | Drop

  predicate FreshChoices(choices: seq<Choice>) {
    forall i :: 0 <= i < |choices| && choices[i].KeepAndAdd? ==> Unwritten(choices[i].word)
  }

  function Mutate(seed: seq<State>, choices: seq<Choice>): (r: seq<State>)
    requires |choices| == |seed|
  {
    if seed == [] then []
    else
      var n := |seed| - 1;
      Mutate(seed[..n], choices[..n]) + Chosen(seed[n], choices[n])
  }

  function Chosen(s: State, choice: Choice): seq<State> {
    match choice
    case Keep => [s]
    case KeepAndAdd(word) => [s, word]
    case Drop => []
  }

  function Cut(words: seq<State>, maxNum: nat): seq<State> {
    if |words| <= maxNum then words else words[..maxNum]
  }

  /**
   Where each word of the seed goes: the place of the i-th one holds it, with
   the new word next to it if one was added, and the next word's place follows;
   a word that is dropped takes no place.
   */
  ghost predicate Goes(seed: seq<State>, choices: seq<Choice>, r: seq<State>, to: seq<nat>) {
    && |choices| == |seed| && |to| == |seed| + 1 && to[0] == 0 && to[|seed|] == |r|
    && forall i :: 0 <= i < |seed| ==> GoesAt(seed[i], choices[i], r, to[i], to[i + 1])
  }

  predicate GoesAt(s: State, choice: Choice, r: seq<State>, a: nat, b: nat) {
    match choice
    case Keep => b == a + 1 <= |r| && r[a] == s
    case KeepAndAdd(word) => b == a + 2 <= |r| && r[a] == s && r[a + 1] == word
    case Drop => b == a
  }

  lemma {:induction false} MutateGoes(seed: seq<State>, choices: seq<Choice>) returns (to: seq<nat>)
    requires |choices| == |seed|
    ensures Goes(seed, choices, Mutate(seed, choices), to)
  {
    if seed == [] {
      to := [0];
    } else {
      var n := |seed| - 1;
      var front := Mutate(seed[..n], choices[..n]);
      var before := MutateGoes(seed[..n], choices[..n]);
      to := before + [|Mutate(seed, choices)|];
      forall i | 0 <= i < n
        ensures GoesAt(seed[i], choices[i], Mutate(seed, choices), to[i], to[i + 1])
      {
        assert GoesAt(seed[..n][i], choices[..n][i], front, before[i], before[i + 1]);
      }
    }
  }

  /** Written words of a mutation stem from the seed, in order. */
  lemma {:induction false} MutateOrdered(seed: seq<State>, choices: seq<Choice>)
    requires |choices| == |seed| && Ordered(seed) && FreshChoices(choices)
    ensures Ordered(Mutate(seed, choices))
    ensures forall s :: s in Mutate(seed, choices) && s.populated ==> s in seed
  {
    hide OrderedAt, Unwritten;
    if seed != [] {
      var n := |seed| - 1;
      var front := Mutate(seed[..n], choices[..n]);
      MutateOrdered(seed[..n], choices[..n]);
      var tail := Chosen(seed[n], choices[n]);
      assert Mutate(seed, choices) == front + tail;
      hide Mutate;
      ChosenOrdered(seed[n], choices[n]);
      assert forall s :: s in seed[..n] && s.populated && seed[n].populated ==> s.num < seed[n].num;
      AppendOrdered(front, tail);
    }
  }

  lemma ChosenOrdered(s: State, choice: Choice)
    requires OrderedAt(s) && (choice.KeepAndAdd? ==> Unwritten(choice.word))
    ensures Ordered(Chosen(s, choice))
    ensures forall t :: t in Chosen(s, choice) ==> t == s || !t.populated
  {
  }

  lemma AppendOrdered(front: seq<State>, tail: seq<State>)
    requires Ordered(front) && Ordered(tail)
    requires forall s, t :: s in front && t in tail && s.populated && t.populated ==> s.num < t.num
    ensures Ordered(front + tail)
  {
    hide OrderedAt;
    var all := front + tail;
    forall i, j | 0 <= i < j < |all| && all[i].populated && all[j].populated
      ensures all[i].num < all[j].num
    {
      if i < |front| <= j {
        assert all[i] in front && all[j] in tail;
      }
    }
  }

  lemma CutOrdered(words: seq<State>, maxNum: nat)
    requires Ordered(words)
    ensures Ordered(Cut(words, maxNum))
  {
    hide OrderedAt;
  }

  /** A forward list of written words is ordered, and so is the front of one spliced to the rest of another. */
  lemma SpliceOrdered(a: seq<State>, b: seq<State>, idx: nat)
    requires Forward(a) && Forward(b) && idx <= |a| && idx <= |b|
    ensures Ordered(a[..idx] + b[idx..])
  {
    var all := a[..idx] + b[idx..];
    forall i | 0 <= i < |all|
      ensures OrderedAt(all[i]) && all[i].num == i
    {
      assert ForwardAt(if i < idx then a[i] else b[i], i, if i < idx then |a| else |b|);
    }
  }

  // -------------------------------------------------------- delete_nop

  /** The words other than a lone nop. */
  function WithoutNops(words: seq<State>): (r: seq<State>)
  {
    if words == [] then []
    else
      var n := |words| - 1;
      WithoutNops(words[..n]) + (if words[n].insts != [Nop] then [words[n]] else [])
  }

  lemma {:induction false} WithoutNopsOrdered(words: seq<State>)
    requires Ordered(words)
    ensures Ordered(WithoutNops(words))
    ensures forall s :: s in WithoutNops(words) ==> s in words && s.insts != [Nop]
  {
    if words != [] {
      var n := |words| - 1;
      WithoutNopsOrdered(words[..n]);
      var front := WithoutNops(words[..n]);
      var tail := if words[n].insts != [Nop] then [words[n]] else [];
      assert OrderedAt(words[n]);
      assert forall s :: s in words[..n] && s.populated && words[n].populated ==> s.num < words[n].num;
      hide OrderedAt;
      AppendOrdered(front, tail);
    }
  }

  /** r is the words at the places of from_, which are those of all the words that are not a lone nop, in order. */
  ghost predicate Survive(words: seq<State>, r: seq<State>, from_: seq<nat>) {
    && |from_| == |r|
    && (forall k :: 0 <= k < |r| ==> from_[k] < |words| && r[k] == words[from_[k]] && r[k].insts != [Nop])
    && (forall j, k :: 0 <= j < k < |r| ==> from_[j] < from_[k])
    && (forall i :: 0 <= i < |words| && words[i].insts != [Nop] ==> i in from_)
  }

  lemma {:induction false} NopsGo(words: seq<State>) returns (from_: seq<nat>)
    ensures Survive(words, WithoutNops(words), from_)
  {
    from_ := [];
    if words != [] {
      var n := |words| - 1;
      from_ := NopsGo(words[..n]);
      assert words == words[..n] + [words[n]];
      var r := WithoutNops(words[..n]);
      if words[n].insts != [Nop] {
        SurvivorAdded(words[..n], r, from_, words[n]);
        from_ := from_ + [n];
      } else {
        NopAdded(words[..n], r, from_, words[n]);
      }
    }
  }

  lemma SurvivorAdded(words: seq<State>, r: seq<State>, from_: seq<nat>, s: State)
    requires Survive(words, r, from_) && s.insts != [Nop]
    ensures Survive(words + [s], r + [s], from_ + [|words|])
  {
    var all, to := words + [s], from_ + [|words|];
    assert to[|from_|] == |words|;
    forall i | 0 <= i < |all| && all[i].insts != [Nop]
      ensures i in to
    {
      assert i < |words| ==> words[i].insts != [Nop] && i in from_;
    }
  }

  lemma NopAdded(words: seq<State>, r: seq<State>, from_: seq<nat>, s: State)
    requires Survive(words, r, from_) && s.insts == [Nop]
    ensures Survive(words + [s], r, from_)
  {
    var all := words + [s];
    forall i | 0 <= i < |all| && all[i].insts != [Nop]
      ensures i in from_
    {
      assert i < |words| && words[i].insts != [Nop];
    }
  }

  lemma {:induction false} NothingDeleted(words: seq<State>)
    requires forall i :: 0 <= i < |words| ==> words[i].insts != [Nop]
    ensures WithoutNops(words) == words
  {
    if words != [] {
      var n := |words| - 1;
      NothingDeleted(words[..n]);
      assert words == words[..n] + [words[n]];
    }
  }

  /** make_nop: masked words become a lone nop with the same label. */
  function NopAt(num: nat): State {
    State(num, NONE, false, [Nop], true, num, [Plain])
  }

  ghost predicate Masked(before: seq<State>, mask: seq<bool>, after: seq<State>) {
    && |mask| == |before| == |after|
    && forall i :: 0 <= i < |before| ==> after[i] == if mask[i] then NopAt(before[i].num) else before[i]
  }

  lemma MaskForward(before: seq<State>, mask: seq<bool>, after: seq<State>)
    requires Forward(before) && AllPopulated(before) && Masked(before, mask, after)
    ensures Forward(after) && AllPopulated(after)
  {
    forall i | 0 <= i < |after|
      ensures ForwardAt(after[i], i, |after|)
    {
      assert ForwardAt(before[i], i, |before|);
    }
  }

  // ------------------------------------------------------- populate_word

  /** _get_symbol: a label of the part, or none for a data symbol. */
  ghost predicate SymbolFor(kind: Kind, num: nat, maxLabel: nat, symbol: Inst) {
    match kind
    case MEM_W => symbol == Plain
    case MEM_R => symbol == Plain || (symbol.Label? && symbol.n <= maxLabel)
    case _ => symbol.Label? && num < symbol.n <= maxLabel
  }

  /** An instruction as a line of padded text, which is never the bare word nop. */
  function Line(inst: Inst, symbol: Inst): Inst {
    match inst
    case Symbol => symbol
    case Nop => Plain
    case _ => inst
  }

  function Filled(insts: seq<Inst>, symbol: Inst): (r: seq<Inst>)
    ensures |r| == |insts|
    ensures forall k :: 0 <= k < |insts| ==> r[k] == Line(insts[k], symbol)
  {
    if insts == [] then []
    else Filled(insts[..|insts| - 1], symbol) + [Line(insts[|insts| - 1], symbol)]
  }

  /** populate_word: a written word stays, another gets its symbol. */
  ghost predicate Written(s: State, t: State, maxLabel: nat) {
    if s.populated then t == s
    else exists symbol :: SymbolFor(s.kind, s.num, maxLabel, symbol) && t == s.(populated := true, shown := s.num, lines := Filled(s.insts, symbol))
  }

  ghost predicate AllWritten(before: seq<State>, after: seq<State>) {
    && |after| == |before|
    && forall i :: 0 <= i < |before| ==> Written(before[i], after[i], |before|)
  }

  lemma WriteForward(before: seq<State>, after: seq<State>)
    requires Forward(before) && AllWritten(before, after)
    ensures Forward(after) && AllPopulated(after)
  {
    forall i | 0 <= i < |after|
      ensures ForwardAt(after[i], i, |after|) && after[i].populated
    {
      WriteForwardAt(before[i], after[i], i, |before|);
    }
  }

  /** Lines made from templates name no label but that of the symbol. */
  lemma FilledLines(insts: seq<Inst>, symbol: Inst)
    requires (forall k :: 0 <= k < |insts| ==> !insts[k].Label?) && !symbol.Symbol? && !symbol.Nop?
    ensures Symbol !in Filled(insts, symbol) && Nop !in Filled(insts, symbol)
    ensures forall n: nat :: Label(n) in Filled(insts, symbol) ==> symbol == Label(n)
  {
  }

  lemma WriteForwardAt(s: State, t: State, i: nat, len: nat)
    requires i < len && ForwardAt(s, i, len) && Written(s, t, len)
    ensures ForwardAt(t, i, len) && t.populated
  {
    if !s.populated {
      var symbol :| SymbolFor(s.kind, s.num, len, symbol) && t == s.(populated := true, shown := s.num, lines := Filled(s.insts, symbol));
      FilledLines(s.insts, symbol);
    }
  }

  // ------------------------------------------------------------- execution

  /** The place a label names: the word that shows it, or the label after the last word. */
  predicate At(words: seq<State>, n: nat, q: nat) {
    if q < |words| then words[q].shown == n else q == |words| == n
  }

  /** One step of a path without traps: to the next word, or to the place of a label the word names. */
  ghost predicate Step(words: seq<State>, p: nat, q: nat) {
    p < |words| && (q == p + 1 || (words[p].jumps && exists n: nat :: Names(words[p], n) && At(words, n, q)))
  }

  /** Every label that a word names has exactly one place. */
  lemma LabelsResolve(words: seq<State>, p: nat, n: nat)
    requires Forward(words) && AllPopulated(words) && p < |words| && Names(words[p], n)
    ensures forall q: nat :: At(words, n, q) <==> q == n
  {
    assert ForwardAt(words[p], p, |words|);
    forall q: nat
      ensures At(words, n, q) <==> q == n
    {
      assert q < |words| ==> ForwardAt(words[q], q, |words|);
    }
  }

  ghost predicate Path(words: seq<State>, path: seq<nat>) {
    path != [] && forall k :: 0 < k < |path| ==> Step(words, path[k - 1], path[k])
  }

  /** A path through a part visits later and later words and leaves it at its end. */
  lemma {:induction false} PathEnds(words: seq<State>, path: seq<nat>)
    requires Forward(words) && AllPopulated(words) && Path(words, path) && path[0] <= |words|
    ensures path[0] + |path| - 1 <= path[|path| - 1] <= |words|
    decreases |path|
  {
    if |path| > 1 {
      var n := |path| - 1;
      PathEnds(words, path[..n]);
      StepForward(words, path[n - 1], path[n]);
    }
  }

  lemma StepForward(words: seq<State>, p: nat, q: nat)
    requires Forward(words) && AllPopulated(words) && Step(words, p, q)
    ensures p < q <= |words|
  {
    assert ForwardAt(words[p], p, |words|);
    if q != p + 1 {
      var n: nat :| Names(words[p], n) && At(words, n, q);
      assert q < |words| ==> ForwardAt(words[q], q, |words|);
    }
  }

  // ------------------------------------------------------------------ runs

  /** The three labelled parts of a test input. */
  datatype Parts = Parts(prefix: seq<State>, words: seq<State>, suffix: seq<State>)

  datatype Limits = Limits(prefix: nat, words: nat, suffix: nat)

  ghost predicate SoundPart(part: seq<State>) {
    Forward(part) && AllPopulated(part)
  }

  ghost predicate Sound(x: Parts) {
    SoundPart(x.prefix) && SoundPart(x.words) && SoundPart(x.suffix)
  }

  /** Words fresh from the generator, labelled by its counter. */
  predicate Fresh(words: seq<State>) {
    forall i :: 0 <= i < |words| ==> Unwritten(words[i]) && words[i].num == i
  }

  ghost predicate Generated(part: seq<State>) {
    exists words :: Fresh(words) && AllWritten(words, part)
  }

  /** mutate_words, then populate_word on every word. */
  ghost predicate Mutated(seed: seq<State>, maxNum: nat, part: seq<State>) {
    exists choices, middle :: MutatedBy(seed, choices, maxNum, middle) && AllWritten(middle, part)
  }

  ghost predicate MutatedBy(seed: seq<State>, choices: seq<Choice>, maxNum: nat, part: seq<State>) {
    && |choices| == |seed| && FreshChoices(choices)
    && Relabelled(Cut(Mutate(seed, choices), maxNum), part)
  }

  ghost predicate NopsDeleted(before: seq<State>, after: seq<State>) {
    Relabelled(WithoutNops(before), after)
  }

  ghost predicate ByMutation(s: Parts, x: Parts, most: Limits) {
    && Mutated(s.prefix, most.prefix, x.prefix)
    && Mutated(s.words, most.words, x.words)
    && Mutated(s.suffix, most.suffix, x.suffix)
  }

  ghost predicate ByMerge(s: Parts, t: Parts, idx: nat, x: Parts, most: Limits) {
    && idx <= |s.words| && idx <= |t.words|
    && ByMutation(Parts(s.prefix, s.words[..idx] + t.words[idx..], s.suffix), x, most)
  }

  ghost predicate ByGeneration(x: Parts) {
    Generated(x.prefix) && Generated(x.words) && Generated(x.suffix)
  }

  ghost predicate ByDeletion(s: Parts, x: Parts) {
    && NopsDeleted(s.prefix, x.prefix) && NopsDeleted(s.words, x.words) && NopsDeleted(s.suffix, x.suffix)
  }

  ghost predicate ByMask(s: Parts, mask: seq<bool>, x: Parts) {
    || (Masked(s.prefix, mask, x.prefix) && x == s.(prefix := x.prefix))
    || (Masked(s.words, mask, x.words) && x == s.(words := x.words))
    || (Masked(s.suffix, mask, x.suffix) && x == s.(suffix := x.suffix))
  }

  /** A new input from those of a corpus. */
  ghost predicate Derived(corpus: seq<Parts>, x: Parts, most: Limits) {
    || ByGeneration(x)
    || (exists s :: s in corpus && ByMutation(s, x, most))
    || (exists s, t, idx :: s in corpus && t in corpus && ByMerge(s, t, idx, x, most))
    || (exists s :: s in corpus && ByDeletion(s, x))
    || (exists s, mask :: s in corpus && ByMask(s, mask, x))
  }

  lemma GeneratedSound(part: seq<State>)
    requires Generated(part)
    ensures SoundPart(part)
  {
    var words :| Fresh(words) && AllWritten(words, part);
    WriteForward(words, part);
  }

  lemma ForwardOrdered(part: seq<State>)
    requires Forward(part)
    ensures Ordered(part)
  {
    SpliceOrdered(part, part, 0);
    assert part[..0] + part[0..] == part;
  }

  lemma MutatedByForward(seed: seq<State>, choices: seq<Choice>, maxNum: nat, part: seq<State>)
    requires Ordered(seed) && MutatedBy(seed, choices, maxNum, part)
    ensures Forward(part) && |part| <= maxNum
  {
    MutateOrdered(seed, choices);
    CutOrdered(Mutate(seed, choices), maxNum);
    RelabelForward(Cut(Mutate(seed, choices), maxNum), part);
  }

  lemma MutatedSound(seed: seq<State>, maxNum: nat, part: seq<State>)
    requires Ordered(seed) && Mutated(seed, maxNum, part)
    ensures SoundPart(part) && |part| <= maxNum
  {
    var choices, middle :| MutatedBy(seed, choices, maxNum, middle) && AllWritten(middle, part);
    MutatedByForward(seed, choices, maxNum, middle);
    WriteForward(middle, part);
  }

  lemma NopsDeletedSound(before: seq<State>, after: seq<State>)
    requires SoundPart(before) && NopsDeleted(before, after)
    ensures SoundPart(after)
  {
    ForwardOrdered(before);
    WithoutNopsOrdered(before);
    RelabelForward(WithoutNops(before), after);
    forall i | 0 <= i < |after|
      ensures after[i].populated
    {
      assert WithoutNops(before)[i] in WithoutNops(before);
    }
  }

  /** Whatever is derived from sound inputs is sound. */
  lemma DerivedSound(corpus: seq<Parts>, x: Parts, most: Limits)
    requires Derived(corpus, x, most) && forall s :: s in corpus ==> Sound(s)
    ensures Sound(x)
  {
    hide Generated, Mutated, NopsDeleted, SoundPart, Masked;
    if ByGeneration(x) {
      GeneratedSound(x.prefix);
      GeneratedSound(x.words);
      GeneratedSound(x.suffix);
    } else if s :| s in corpus && ByMutation(s, x, most) {
      MutationSound(s, x, most);
    } else if s, t, idx :| s in corpus && t in corpus && ByMerge(s, t, idx, x, most) {
      MergeSound(s, t, idx, x, most);
    } else if s :| s in corpus && ByDeletion(s, x) {
      NopsDeletedSound(s.prefix, x.prefix);
      NopsDeletedSound(s.words, x.words);
      NopsDeletedSound(s.suffix, x.suffix);
    } else {
      var s, mask :| s in corpus && ByMask(s, mask, x);
      MaskSound(s, mask, x);
    }
  }

  lemma MutationSound(s: Parts, x: Parts, most: Limits)
    requires Sound(s) && ByMutation(s, x, most)
    ensures Sound(x) && |x.words| <= most.words
  {
    hide Forward, AllPopulated, Mutated;
    ForwardOrdered(s.prefix);
    ForwardOrdered(s.words);
    ForwardOrdered(s.suffix);
    MutatedSound(s.prefix, most.prefix, x.prefix);
    MutatedSound(s.words, most.words, x.words);
    MutatedSound(s.suffix, most.suffix, x.suffix);
  }

  lemma MergeSound(s: Parts, t: Parts, idx: nat, x: Parts, most: Limits)
    requires Sound(s) && Sound(t) && ByMerge(s, t, idx, x, most)
    ensures Sound(x) && |x.words| <= most.words
  {
    hide Forward, AllPopulated, Mutated;
    ForwardOrdered(s.prefix);
    ForwardOrdered(s.suffix);
    SpliceOrdered(s.words, t.words, idx);
    MutatedSound(s.prefix, most.prefix, x.prefix);
    MutatedSound(s.words[..idx] + t.words[idx..], most.words, x.words);
    MutatedSound(s.suffix, most.suffix, x.suffix);
  }

  lemma MaskSound(s: Parts, mask: seq<bool>, x: Parts)
    requires Sound(s) && ByMask(s, mask, x)
    ensures Sound(x)
  {
    hide Forward, AllPopulated, Masked;
    if Masked(s.prefix, mask, x.prefix) && x == s.(prefix := x.prefix) {
      MaskForward(s.prefix, mask, x.prefix);
    } else if Masked(s.words, mask, x.words) && x == s.(words := x.words) {
      MaskForward(s.words, mask, x.words);
    } else {
      MaskForward(s.suffix, mask, x.suffix);
    }
  }

  /** A corpus grows by derived inputs and may drop its oldest. */
  ghost predicate Grows(before: seq<Parts>, after: seq<Parts>, most: Limits) {
    || (after != [] && after[..|after| - 1] == before && Derived(before, after[|after| - 1], most))
    || (before != [] && after == before[1..])
  }

  ghost predicate Run(run: seq<seq<Parts>>, most: Limits) {
    run != [] && run[0] == [] && forall k :: 0 < k < |run| ==> Grows(run[k - 1], run[k], most)
  }

  /** Over every run, every input in the corpus is sound, and every path through a part of it ends within its length. */
  lemma RunsEnd(run: seq<seq<Parts>>, most: Limits, x: Parts, part: seq<State>, path: seq<nat>)
    requires Run(run, most) && x in run[|run| - 1] && part in [x.prefix, x.words, x.suffix]
    requires Path(part, path) && path[0] == 0
    ensures |path| - 1 <= |part|
  {
    RunSound(run, most);
    assert Sound(x) && SoundPart(part);
    PathEnds(part, path);
  }

  lemma {:induction false} RunSound(run: seq<seq<Parts>>, most: Limits)
    requires Run(run, most)
    ensures forall x :: x in run[|run| - 1] ==> Sound(x)
    decreases |run|
  {
    hide Sound, Derived;
    if |run| > 1 {
      var n := |run| - 1;
      var before, after := run[n - 1], run[n];
      RunSound(run[..n], most);
      assert Grows(before, after, most);
      if after != [] && after[..|after| - 1] == before && Derived(before, after[|after| - 1], most) {
        DerivedSound(before, after[|after| - 1], most);
        assert after == before + [after[|after| - 1]];
      }
    }
  }
}
