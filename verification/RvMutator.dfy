/**
 mutator.py, the mutator object: its corpus, its data seeds and the inputs it
 makes from them.
 */
module RvMutator {
  import opened Labels
  import opened Mutator
  import opened DataSeeds

  datatype Phase = GENERATION | MUTATION | MERGE

  datatype SimInput = SimInput(prefix: seq<Word>, words: seq<Word>, suffix: seq<Word>, dataSeed: nat, template: nat)

  ghost function WordsOf(x: SimInput): seq<Word> {
    x.prefix + x.words + x.suffix
  }

  ghost function PartsOf(x: SimInput): Parts
    reads x.prefix, x.words, x.suffix
  {
    Parts(Views(x.prefix), Views(x.words), Views(x.suffix))
  }

  ghost function OwnWords(x: SimInput): set<Word> {
    set w | w in WordsOf(x)
  }

  /** The words of a corpus, among a set of them. */
  ghost predicate Within(corpus: seq<SimInput>, repr: set<Word>) {
    forall x :: x in corpus ==> InputWithin(x, repr)
  }

  ghost predicate InputWithin(x: SimInput, repr: set<Word>) {
    forall w :: w in WordsOf(x) ==> w in repr
  }

  /** Three lists of words that share none. */
  ghost predicate Separate(prefix: seq<Word>, words: seq<Word>, suffix: seq<Word>) {
    && Distinct(prefix) && Distinct(words) && Distinct(suffix)
    && (forall w :: w in prefix ==> w !in words && w !in suffix)
    && (forall w :: w in words ==> w !in suffix)
  }

  ghost predicate Proper(x: SimInput) {
    Separate(x.prefix, x.words, x.suffix)
  }

  lemma ForwardNums(words: seq<Word>)
    requires Forward(Views(words))
    ensures forall i :: 0 <= i < |words| ==> words[i].num == i
  {
    hide Forward, Views;
    forall i | 0 <= i < |words|
      ensures words[i].num == i
    {
      ForwardNum(Views(words), i);
    }
  }

  /** The populate loops of get over all three parts. */
  method PopulateParts(gen: Generator, prefix: seq<Word>, words: seq<Word>, suffix: seq<Word>)
    requires Separate(prefix, words, suffix)
    requires Forward(Views(prefix)) && Forward(Views(words)) && Forward(Views(suffix))
    modifies prefix, words, suffix
    ensures AllWritten(old(Views(prefix)), Views(prefix))
    ensures AllWritten(old(Views(words)), Views(words))
    ensures AllWritten(old(Views(suffix)), Views(suffix))
  {
    hide AllWritten, Forward, Views, Distinct;
    PopulatePart(gen, prefix, words, suffix);
    PopulatePart(gen, words, prefix, suffix);
    PopulatePart(gen, suffix, prefix, words);
  }

  /** One of the parts, which leaves two others alone. */
  method PopulatePart(gen: Generator, part: seq<Word>, ghost a: seq<Word>, ghost b: seq<Word>)
    requires Distinct(part) && Forward(Views(part)) && (forall w :: w in a ==> w !in part) && forall w :: w in b ==> w !in part
    modifies part
    ensures AllWritten(old(Views(part)), Views(part)) && Views(a) == old(Views(a)) && Views(b) == old(Views(b))
  {
    hide AllWritten, Forward, Views, Distinct;
    ForwardNums(part);
    assert forall i :: 0 <= i < |a| ==> a[i] in a;
    assert forall i :: 0 <= i < |b| ==> b[i] in b;
    gen.PopulateAll(part);
  }

  /** The generation loop of get for one part. */
  method NewWords(gen: Generator, part: Part, count: nat) returns (words: seq<Word>)
    requires gen.Count(part) == 0
    modifies gen
    ensures |words| == count && Fresh(Views(words)) && Distinct(words) && forall w :: w in words ==> fresh(w)
    ensures forall p :: p != part ==> gen.Count(p) == old(gen.Count(p))
  {
    hide Views, Unwritten, Distinct;
    words := [];
    DistinctNone();
    for n := 0 to count
      invariant |words| == n && gen.Count(part) == n && Fresh(Views(words))
      invariant Distinct(words) && forall w :: w in words ==> fresh(w)
      invariant forall p :: p != part ==> gen.Count(p) == old(gen.Count(p))
    {
      var word := gen.GetWord(part);
      ViewsAppend(words, [word]);
      DistinctOne(word);
      DistinctAppend(words, [word]);
      words := words + [word];
    }
  }

  lemma DistinctOne(word: Word)
    ensures Distinct([word])
  {
  }

  lemma FreshForward(words: seq<State>)
    requires Fresh(words)
    ensures Forward(words)
  {
    forall i | 0 <= i < |words|
      ensures ForwardAt(words[i], i, |words|)
    {
      assert Unwritten(words[i]);
    }
  }

  /** A generated input: new words in every part, then populated. */
  method Generate(gen: Generator, numPrefix: nat, numWords: nat, numSuffix: nat)
    returns (prefix: seq<Word>, words: seq<Word>, suffix: seq<Word>)
    requires gen.prefixNum == gen.mainNum == gen.suffixNum == 0
    modifies gen
    ensures |prefix| == numPrefix && |words| == numWords && |suffix| == numSuffix
    ensures Separate(prefix, words, suffix) && forall w :: w in prefix + words + suffix ==> fresh(w)
    ensures Fresh(Views(prefix)) && Fresh(Views(words)) && Fresh(Views(suffix))
  {
    hide Views, Fresh, Distinct;
    prefix := NewWords(gen, PREFIX, numPrefix);
    words := NewWords(gen, MAIN, numWords);
    suffix := NewWords(gen, SUFFIX, numSuffix);
  }

  /** One mutated part: copies of the front of one list and the rest of another, mutated. */
  method MutatePart(gen: Generator, a: seq<Word>, b: seq<Word>, idx: nat, part: Part, maxNum: nat)
    returns (words: seq<Word>, ghost choices: seq<Choice>)
    requires idx <= |a| && idx <= |b| && Distinct(a) && Distinct(b)
    modifies gen
    ensures MutatedBy(old(Views(a)[..idx] + Views(b)[idx..]), choices, maxNum, Views(words))
    ensures Distinct(words) && forall w :: w in words ==> fresh(w)
  {
    hide Views, MutatedBy, Distinct;
    var front := DeepCopy(a);
    var rest := DeepCopy(b);
    SpliceViews(front, rest, idx);
    SpliceDistinct(front, rest, idx);
    var seed := front[..idx] + rest[idx..];
    FreshSplice(front, rest, idx);
    words, choices := MutateWords(gen, seed, part, maxNum);
  }

  twostate lemma FreshSplice(new a: seq<Word>, new b: seq<Word>, idx: nat)
    requires idx <= |a| && idx <= |b| && (forall w :: w in a ==> fresh(w)) && forall w :: w in b ==> fresh(w)
    ensures forall k :: 0 <= k < |a[..idx] + b[idx..]| ==> fresh((a[..idx] + b[idx..])[k])
    ensures forall w :: w in a[..idx] + b[idx..] ==> fresh(w)
  {
    var all := a[..idx] + b[idx..];
    forall k | 0 <= k < |all|
      ensures fresh(all[k])
    {
      assert all[k] == if k < idx then a[k] else b[k];
      assert k < idx ==> a[k] in a;
      assert k >= idx ==> b[k] in b;
    }
  }

  /** A mutated or merged input. */
  method MutateParts(gen: Generator, seed: SimInput, tail: seq<Word>, idx: nat, most: Limits)
    returns (prefix: seq<Word>, words: seq<Word>, suffix: seq<Word>, ghost choices: seq<seq<Choice>>)
    requires idx <= |seed.words| && idx <= |tail| && Proper(seed) && Distinct(tail)
    modifies gen
    ensures |choices| == 3
    ensures MutatedBy(old(Views(seed.prefix)), choices[0], most.prefix, Views(prefix))
    ensures MutatedBy(old(Views(seed.words)[..idx] + Views(tail)[idx..]), choices[1], most.words, Views(words))
    ensures MutatedBy(old(Views(seed.suffix)), choices[2], most.suffix, Views(suffix))
    ensures Separate(prefix, words, suffix) && forall w :: w in prefix + words + suffix ==> fresh(w)
  {
    hide Views, MutatedBy, Distinct;
    ghost var c0, c1, c2;
    ghost var p, s := Views(seed.prefix), Views(seed.suffix);
    assert p[..|p|] + p[|p|..] == p && s[..|s|] + s[|s|..] == s;
    prefix, c0 := MutatePart(gen, seed.prefix, seed.prefix, |seed.prefix|, PREFIX, most.prefix);
    words, c1 := MutatePart(gen, seed.words, tail, idx, MAIN, most.words);
    suffix, c2 := MutatePart(gen, seed.suffix, seed.suffix, |seed.suffix|, SUFFIX, most.suffix);
    choices := [c0, c1, c2];
  }

  lemma SpliceViews(a: seq<Word>, b: seq<Word>, idx: nat)
    requires idx <= |a| && idx <= |b|
    ensures Views(a[..idx] + b[idx..]) == Views(a)[..idx] + Views(b)[idx..]
  {
    hide Views;
  }

  lemma SpliceDistinct(a: seq<Word>, b: seq<Word>, idx: nat)
    requires idx <= |a| && idx <= |b| && Distinct(a) && Distinct(b) && forall w :: w in a ==> w !in b
    ensures Distinct(a[..idx] + b[idx..])
  {
    DistinctCut(a, idx);
    assert forall w :: w in a[..idx] ==> w in a;
    assert forall w :: w in b[idx..] ==> w in b;
    forall i, j | 0 <= i < j < |b[idx..]|
      ensures b[idx..][i] != b[idx..][j]
    {
      assert b[idx + i] != b[idx + j];
    }
    DistinctAppend(a[..idx], b[idx..]);
  }

  /** The generation phase of get. */
  method GenerateParts(gen: Generator, most: Limits)
    returns (prefix: seq<Word>, words: seq<Word>, suffix: seq<Word>)
    modifies gen
    ensures |prefix| == most.prefix && |words| == most.words && |suffix| == most.suffix
    ensures ByGeneration(Parts(Views(prefix), Views(words), Views(suffix)))
    ensures Sound(Parts(Views(prefix), Views(words), Views(suffix)))
    ensures Separate(prefix, words, suffix)
    ensures forall w :: w in prefix + words + suffix ==> fresh(w)
  {
    hide Views, Fresh, Forward, AllWritten, Distinct, Sound;
    gen.ResetCounters();
    prefix, words, suffix := Generate(gen, most.prefix, most.words, most.suffix);
    FreshForward(Views(prefix));
    FreshForward(Views(words));
    FreshForward(Views(suffix));
    FreshIndices(prefix, words, suffix);
    PopulateParts(gen, prefix, words, suffix);
    GenerationSound(Parts(Views(prefix), Views(words), Views(suffix)));
  }

  twostate lemma FreshIndices(new a: seq<Word>, new b: seq<Word>, new c: seq<Word>)
    requires forall w :: w in a + b + c ==> fresh(w)
    ensures forall k :: 0 <= k < |a| ==> fresh(a[k])
    ensures forall k :: 0 <= k < |b| ==> fresh(b[k])
    ensures forall k :: 0 <= k < |c| ==> fresh(c[k])
  {
    assert forall k :: 0 <= k < |a| ==> a[k] in a + b + c;
    assert forall k :: 0 <= k < |b| ==> b[k] in a + b + c;
    assert forall k :: 0 <= k < |c| ==> c[k] in a + b + c;
  }

  /** The parts that get mutates: those of one input, or its words up to a point and another's from there. */
  ghost function SeedOf(seed: SimInput, tail: seq<Word>, idx: nat): Parts
    requires idx <= |seed.words| && idx <= |tail|
    reads seed.prefix, seed.words, seed.suffix, tail
  {
    Parts(Views(seed.prefix), Views(seed.words)[..idx] + Views(tail)[idx..], Views(seed.suffix))
  }

  /** The mutation and merge phases of get, on sound seeds. */
  method VaryParts(gen: Generator, seed: SimInput, tail: seq<Word>, idx: nat, most: Limits)
    returns (prefix: seq<Word>, words: seq<Word>, suffix: seq<Word>)
    requires idx <= |seed.words| && idx <= |tail|
    requires Sound(PartsOf(seed)) && Forward(Views(tail)) && Proper(seed) && Distinct(tail)
    modifies gen
    ensures ByMutation(old(SeedOf(seed, tail, idx)), Parts(Views(prefix), Views(words), Views(suffix)), most)
    ensures Separate(prefix, words, suffix)
    ensures forall w :: w in prefix + words + suffix ==> fresh(w)
  {
    hide Views, Forward, AllPopulated, MutatedBy, AllWritten, Distinct;
    ghost var from := SeedOf(seed, tail, idx);
    ForwardOrdered(from.prefix);
    ForwardOrdered(from.suffix);
    SpliceOrdered(Views(seed.words), Views(tail), idx);
    gen.ResetCounters();
    ghost var choices;
    prefix, words, suffix, choices := MutateParts(gen, seed, tail, idx, most);
    MutatedByForward(from.prefix, choices[0], most.prefix, Views(prefix));
    MutatedByForward(from.words, choices[1], most.words, Views(words));
    MutatedByForward(from.suffix, choices[2], most.suffix, Views(suffix));
    FreshIndices(prefix, words, suffix);
    ghost var p, w, s := Views(prefix), Views(words), Views(suffix);
    PopulateParts(gen, prefix, words, suffix);
    MutatedIs(from.prefix, choices[0], p, most.prefix, Views(prefix));
    MutatedIs(from.words, choices[1], w, most.words, Views(words));
    MutatedIs(from.suffix, choices[2], s, most.suffix, Views(suffix));
  }

  lemma MutatedIs(seed: seq<State>, choices: seq<Choice>, middle: seq<State>, maxNum: nat, part: seq<State>)
    requires MutatedBy(seed, choices, maxNum, middle) && AllWritten(middle, part)
    ensures Mutated(seed, maxNum, part)
  {
    hide MutatedBy, AllWritten;
  }

  ghost function CorpusParts(corpus: seq<SimInput>, repr: set<Word>): (r: seq<Parts>)
    requires Within(corpus, repr)
    reads repr
    ensures |r| == |corpus| && forall i :: 0 <= i < |corpus| ==> r[i] == PartsOf(corpus[i])
  {
    if corpus == [] then []
    else
      var last := corpus[|corpus| - 1];
      assert InputWithin(last, repr);
      assert forall w :: w in last.prefix ==> w in WordsOf(last);
      assert forall w :: w in last.words ==> w in WordsOf(last);
      assert forall w :: w in last.suffix ==> w in WordsOf(last);
      CorpusParts(corpus[..|corpus| - 1], repr) + [PartsOf(last)]
  }

  ghost predicate SoundCorpus(corpus: seq<SimInput>, repr: set<Word>)
    reads repr
  {
    Within(corpus, repr) && forall s :: s in CorpusParts(corpus, repr) ==> Sound(s)
  }

  /** Inputs that list no word twice and whose data seeds are in use. */
  ghost predicate ListsBelow(corpus: seq<SimInput>, seeds: nat) {
    forall x :: x in corpus ==> x.dataSeed < seeds && Proper(x)
  }

  lemma ListsMore(corpus: seq<SimInput>, n: nat, m: nat)
    requires ListsBelow(corpus, n) && n <= m
    ensures ListsBelow(corpus, m)
  {
    hide Proper;
  }

  lemma ListsAt(corpus: seq<SimInput>, n: nat, i: nat)
    requires ListsBelow(corpus, n) && i < |corpus|
    ensures corpus[i].dataSeed < n && Proper(corpus[i])
  {
    hide Proper;
    assert corpus[i] in corpus;
  }

  lemma SoundAt(corpus: seq<SimInput>, repr: set<Word>, i: nat)
    requires SoundCorpus(corpus, repr) && i < |corpus|
    ensures Within(corpus, repr) && PartsOf(corpus[i]) == CorpusParts(corpus, repr)[i] && Sound(PartsOf(corpus[i]))
  {
    hide CorpusParts, Sound;
    assert CorpusParts(corpus, repr)[i] in CorpusParts(corpus, repr);
  }

  /** Which inputs of the corpus an input is made from, and where they are spliced. */
  datatype Origin = Origin(i: nat, j: nat, idx: nat)

  /** What get makes in each phase. */
  ghost predicate Made(phase: Phase, corpus: seq<Parts>, origin: Origin, x: Parts, most: Limits) {
    match phase
    case GENERATION => ByGeneration(x)
    case MUTATION => origin.i < |corpus| && ByMutation(corpus[origin.i], x, most)
    case MERGE =>
      && origin.i < |corpus| && origin.j < |corpus|
      && ByMerge(corpus[origin.i], corpus[origin.j], origin.idx, x, most)
  }

  lemma SameWords(x: SimInput, y: SimInput)
    requires x.prefix == y.prefix && x.words == y.words && x.suffix == y.suffix
    ensures PartsOf(x) == PartsOf(y) && Proper(x) == Proper(y) && WordsOf(x) == WordsOf(y)
  {
  }

  /** What get draws when it varies inputs of the corpus. */
  predicate Drawn(origin: Origin, corpus: seq<SimInput>, phase: Phase) {
    && origin.i < |corpus| && origin.j < |corpus|
    && origin.idx <= |corpus[origin.i].words| && origin.idx <= |corpus[origin.j].words|
    && (phase == MUTATION ==> origin.i == origin.j && origin.idx == |corpus[origin.i].words|)
  }

  /** What get makes is a step of the runs whose paths all end. */
  lemma MadeDerived(phase: Phase, corpus: seq<Parts>, origin: Origin, x: Parts, most: Limits)
    requires Made(phase, corpus, origin, x, most)
    ensures Derived(corpus, x, most)
  {
    hide ByGeneration, ByMutation, ByMerge, ByDeletion, ByMask;
    match phase
    case GENERATION =>
    case MUTATION =>
      assert corpus[origin.i] in corpus;
    case MERGE =>
      assert corpus[origin.i] in corpus && corpus[origin.j] in corpus;
  }

  /** The input origin.i mutated, or merged at origin.idx with the input origin.j. */
  method VaryCorpus(gen: Generator, corpus: seq<SimInput>, ghost repr: set<Word>, phase: Phase, origin: Origin, most: Limits)
    returns (prefix: seq<Word>, words: seq<Word>, suffix: seq<Word>)
    requires Within(corpus, repr) && SoundCorpus(corpus, repr) && phase != GENERATION
    requires origin.i < |corpus| && origin.j < |corpus|
    requires origin.idx <= |corpus[origin.i].words| && origin.idx <= |corpus[origin.j].words|
    requires phase == MUTATION ==> origin.i == origin.j && origin.idx == |corpus[origin.i].words|
    requires Proper(corpus[origin.i]) && Proper(corpus[origin.j])
    modifies gen
    ensures Made(phase, old(CorpusParts(corpus, repr)), origin, Parts(Views(prefix), Views(words), Views(suffix)), most)
    ensures Sound(Parts(Views(prefix), Views(words), Views(suffix)))
    ensures Separate(prefix, words, suffix)
    ensures forall w :: w in prefix + words + suffix ==> fresh(w)
  {
    hide ByMutation, Sound, Views, CorpusParts, SoundCorpus;
    var seed, tail := corpus[origin.i], corpus[origin.j].words;
    SoundAt(corpus, repr, origin.i);
    SoundAt(corpus, repr, origin.j);
    ghost var s, t := PartsOf(seed), PartsOf(corpus[origin.j]);
    SoundWords(t);
    SeedIs(s, t, origin.idx);
    prefix, words, suffix := VaryParts(gen, seed, tail, origin.idx, most);
    MergeSound(s, t, origin.idx, Parts(Views(prefix), Views(words), Views(suffix)), most);
  }

  lemma SoundWords(x: Parts)
    requires Sound(x)
    ensures Forward(x.words)
  {
  }

  lemma SeedIs(s: Parts, t: Parts, idx: nat)
    requires idx <= |s.words| && idx <= |t.words|
    ensures s == t && idx == |s.words| ==> s.words[..idx] + t.words[idx..] == s.words
  {
  }

  lemma GenerationSound(x: Parts)
    requires ByGeneration(x)
    ensures Sound(x)
  {
    hide Generated, SoundPart;
    GeneratedSound(x.prefix);
    GeneratedSound(x.words);
    GeneratedSound(x.suffix);
  }

  class RvMutator {
    const corpusSize: nat
    const noGuide: bool
    const maxData: nat
    const maxNWords: nat := 200
    const numPrefix: nat := 3
    const numSuffix: nat := 5
    const generator: Generator
    var corpus: seq<SimInput>
    var phase: Phase
    var numWords: nat
    var randomData: map<nat, seq<nat>>
    var dataSeeds: seq<nat>
    ghost var history: seq<nat>
    ghost var repr: set<Word>

    constructor (maxDataSeeds: nat, corpusSize: nat, noGuide: bool)
      requires maxDataSeeds > 0
      ensures Valid() && corpus == []
    {
      this.corpusSize, this.noGuide, maxData := corpusSize, noGuide, maxDataSeeds;
      generator := new Generator();
      corpus, phase, numWords := [], GENERATION, 100;
      randomData, dataSeeds, history, repr := map[], [], [], {};
    }

    /** The seeds in use are numbered densely, each with its data, oldest use first. */
    ghost predicate SeedsValid()
      reads this
    {
      && 0 < maxData && |dataSeeds| <= maxData && QueueOf(dataSeeds, history)
      && (forall seed: nat :: seed in randomData <==> seed < |dataSeeds|)
    }

    ghost predicate Valid()
      reads this, repr
    {
      && SeedsValid() && numWords <= maxNWords
      && ListsBelow(corpus, |dataSeeds|)
      && Within(corpus, repr) && SoundCorpus(corpus, repr)
    }

    ghost function Most(): Limits {
      Limits(numPrefix, maxNWords, numSuffix)
    }

    /** add_data: the next number, or the seed unused for the longest time once all are taken. */
    method AddData(newData: seq<nat>) returns (seed: nat)
      requires SeedsValid()
      modifies this`randomData, this`dataSeeds, this`history
      ensures SeedsValid() && seed in dataSeeds && |dataSeeds| >= old(|dataSeeds|)
      ensures seed == if old(|dataSeeds|) == maxData then old(dataSeeds[0]) else old(|dataSeeds|)
      ensures randomData == old(randomData)[seed := randomData[seed]]
      ensures dataSeeds == (if old(|dataSeeds|) == maxData then old(dataSeeds[1..]) else old(dataSeeds)) + [seed]
      ensures if newData != [] then randomData[seed] == newData else |randomData[seed]| == 64 * 6
      ensures history == old(history) + [seed]
    {
      hide QueueOf;
      if |dataSeeds| == maxData {
        seed := dataSeeds[0];
        UseKeeps(dataSeeds, history, 0);
        QueueHas(dataSeeds, history, seed);
        assert Without(dataSeeds, 0) == dataSeeds[1..];
        dataSeeds := dataSeeds[1..];
      } else {
        seed := |dataSeeds|;
        AddKeeps(dataSeeds, history);
      }
      var data := newData;
      if newData == [] {
        data := RandomData(64 * 6);
      }
      randomData := randomData[seed := data];
      dataSeeds := dataSeeds + [seed];
      history := history + [seed];
    }

    /** update_data_seeds: its assertion holds, and the seed moves to the back. */
    method UpdateDataSeeds(seed: nat)
      requires SeedsValid() && seed < |dataSeeds|
      modifies this`dataSeeds, this`history
      ensures SeedsValid() && |dataSeeds| == old(|dataSeeds|) && history == old(history) + [seed]
      ensures dataSeeds[|dataSeeds| - 1] == seed
      ensures old(multiset(dataSeeds))[seed] == 1
    {
      hide QueueOf;
      var idx := Index(dataSeeds, history, seed);
      CountedOnce(dataSeeds, history, idx);
      UseKeeps(dataSeeds, history, idx);
      dataSeeds := dataSeeds[..idx] + dataSeeds[idx + 1..];
      dataSeeds := dataSeeds + [seed];
      history := history + [seed];
    }

    /** get: nothing comes of mutating or merging when the corpus is empty, which random.choice refuses. */
    method Get() returns (r: Option<SimInput>, origin: Origin)
      requires Valid()
      modifies this`randomData, this`dataSeeds, this`history, generator
      ensures Valid() && |dataSeeds| >= old(|dataSeeds|)
      ensures r.None? <==> phase != GENERATION && corpus == []
      ensures r.Some? ==> Proper(r.value) && forall w :: w in WordsOf(r.value) ==> fresh(w)
      ensures r.Some? ==> Made(phase, old(CorpusParts(corpus, repr)), origin, PartsOf(r.value), Most()) && Sound(PartsOf(r.value))
      ensures r.Some? && phase == GENERATION ==> |r.value.words| == numWords
      ensures r.Some? && phase != GENERATION ==>
                r.value.dataSeed == corpus[origin.i].dataSeed && r.value.template == corpus[origin.i].template
      ensures r.Some? ==> r.value.dataSeed < |dataSeeds| && dataSeeds[|dataSeeds| - 1] == r.value.dataSeed
    {
      hide Sound, Made, SeedsValid, Views, SoundCorpus, CorpusParts, Within, ListsBelow, Proper, Valid;
      origin := Origin(0, 0, 0);
      if phase == GENERATION {
        var x := GetGenerated(origin);
        return Some(x), origin;
      }
      if corpus == [] {
        return None, origin;
      }
      var i := RandInt(0, |corpus| - 1);
      var j, idx := i, |corpus[i].words|;
      if phase == MERGE {
        j := RandInt(0, |corpus| - 1);
        idx := RandInt(0, if |corpus[i].words| < |corpus[j].words| then |corpus[i].words| else |corpus[j].words|);
      }
      origin := Origin(i, j, idx);
      var x := GetVaried(origin);
      return Some(x), origin;
    }

    /** add_data without data, among the inputs there are. */
    method NewSeed(ghost x: SimInput) returns (seed: nat)
      requires Valid()
      modifies this`randomData, this`dataSeeds, this`history
      ensures Valid() && |dataSeeds| >= old(|dataSeeds|) && PartsOf(x) == old(PartsOf(x))
      ensures seed < |dataSeeds| && dataSeeds[|dataSeeds| - 1] == seed
    {
      hide QueueOf, SoundCorpus, Within, ListsBelow;
      seed := AddData([]);
      ListsMore(corpus, old(|dataSeeds|), |dataSeeds|);
      QueueHas(dataSeeds, history, seed);
    }

    /** A new input, but for its data seed and template. */
    method GenerateInput() returns (x: SimInput)
      requires Valid()
      modifies generator
      ensures Valid() && ByGeneration(PartsOf(x)) && Sound(PartsOf(x))
      ensures Proper(x) && (forall w :: w in WordsOf(x) ==> fresh(w)) && |x.words| == numWords
    {
      hide ByGeneration, Sound, Views, QueueOf, CorpusParts, SoundCorpus, Within, ListsBelow, Separate;
      var prefix, words, suffix := GenerateParts(generator, Limits(numPrefix, numWords, numSuffix));
      x := SimInput(prefix, words, suffix, 0, 0);
    }

    method GetGenerated(origin: Origin) returns (x: SimInput)
      requires Valid() && phase == GENERATION
      modifies this`randomData, this`dataSeeds, this`history, generator
      ensures Valid() && |dataSeeds| >= old(|dataSeeds|)
      ensures Made(phase, old(CorpusParts(corpus, repr)), origin, PartsOf(x), Most()) && Sound(PartsOf(x))
      ensures Proper(x) && forall w :: w in WordsOf(x) ==> fresh(w)
      ensures |x.words| == numWords
      ensures x.dataSeed < |dataSeeds| && dataSeeds[|dataSeeds| - 1] == x.dataSeed
    {
      hide ByGeneration, Sound, CorpusParts, SoundCorpus, Within, ListsBelow, QueueOf, PartsOf, Proper;
      var drawn := GenerateInput();
      var seed := NewSeed(drawn);
      var template := RandInt(0, 3);
      x := drawn.(dataSeed := seed, template := template);
      SameWords(x, drawn);
    }

    method GetVaried(origin: Origin) returns (x: SimInput)
      requires Valid() && phase != GENERATION
      requires Drawn(origin, corpus, phase)
      modifies this`randomData, this`dataSeeds, this`history, generator
      ensures Valid() && |dataSeeds| >= old(|dataSeeds|)
      ensures Made(phase, old(CorpusParts(corpus, repr)), origin, PartsOf(x), Most()) && Sound(PartsOf(x))
      ensures Proper(x) && forall w :: w in WordsOf(x) ==> fresh(w)
      ensures x.dataSeed == corpus[origin.i].dataSeed && x.template == corpus[origin.i].template
      ensures x.dataSeed < |dataSeeds| && dataSeeds[|dataSeeds| - 1] == x.dataSeed
    {
      hide Made, Sound, Views, QueueOf, CorpusParts, SoundCorpus, Within, ListsBelow, Separate;
      ListsAt(corpus, |dataSeeds|, origin.i);
      ListsAt(corpus, |dataSeeds|, origin.j);
      var seed := corpus[origin.i];
      var prefix, words, suffix := VaryCorpus(generator, corpus, repr, phase, origin, Limits(numPrefix, maxNWords, numSuffix));
      UpdateDataSeeds(seed.dataSeed);
      x := SimInput(prefix, words, suffix, seed.dataSeed, seed.template);
    }

    /** add_corpus: the newest goes in, the oldest goes out when there are too many. */
    method AddCorpus(x: SimInput)
      requires Valid() && Proper(x) && Sound(PartsOf(x)) && x.dataSeed < |dataSeeds|
      modifies this`corpus, this`numWords, this`repr
      ensures Valid()
      ensures corpus == if old(|corpus|) + 1 > corpusSize then (old(corpus) + [x])[1..] else old(corpus) + [x]
      ensures numWords == if old(numWords) + 1 < maxNWords then old(numWords) + 1 else maxNWords
    {
      hide Sound, CorpusParts, SoundCorpus, Within, QueueOf, Proper, ListsBelow, InputWithin, OwnWords;
      ghost var all := repr + OwnWords(x);
      ghost var next := if |corpus| + 1 > corpusSize then (corpus + [x])[1..] else corpus + [x];
      HasOwn(x);
      WithinMore(x, OwnWords(x), all);
      SoundCorpusFrom(next, all, corpus, repr, x);
      ListsFrom(next, corpus, x, |dataSeeds|);
      corpus := corpus + [x];
      repr := all;
      numWords := if numWords + 1 < maxNWords then numWords + 1 else maxNWords;
      if |corpus| > corpusSize {
        corpus := corpus[1..];
      }
    }

    /** update_phase: only generation until a tenth of the corpus size is reached. */
    method UpdatePhase(it: nat)
      modifies this`phase
      ensures 10 * it < corpusSize || noGuide ==> phase == GENERATION
    {
      if 10 * it < corpusSize || noGuide {
        phase := GENERATION;
      } else {
        var rand := RandInt(0, 99);
        phase := if rand < 10 then GENERATION else if rand < 55 then MUTATION else MERGE;
      }
    }
  }

  lemma HasOwn(x: SimInput)
    ensures InputWithin(x, OwnWords(x))
  {
  }

  lemma WithinMore(x: SimInput, a: set<Word>, b: set<Word>)
    requires InputWithin(x, a) && a <= b
    ensures InputWithin(x, b)
  {
  }

  lemma ListsFrom(corpus: seq<SimInput>, was: seq<SimInput>, x: SimInput, n: nat)
    requires ListsBelow(was, n) && Proper(x) && x.dataSeed < n
    requires forall y :: y in corpus ==> y == x || y in was
    ensures ListsBelow(corpus, n)
  {
    hide Proper;
  }

  lemma SoundCorpusFrom(corpus: seq<SimInput>, repr: set<Word>, was: seq<SimInput>, before: set<Word>, x: SimInput)
    requires Within(was, before) && SoundCorpus(was, before) && Sound(PartsOf(x))
    requires before <= repr && InputWithin(x, repr)
    requires forall y :: y in corpus ==> y == x || y in was
    ensures Within(corpus, repr) && SoundCorpus(corpus, repr)
  {
    hide Sound, CorpusParts;
    forall y | y in was
      ensures Sound(PartsOf(y)) && InputWithin(y, repr)
    {
      var i: nat :| i < |was| && was[i] == y;
      SoundAt(was, before, i);
      assert InputWithin(y, before);
    }
    assert Within(corpus, repr);
    forall s | s in CorpusParts(corpus, repr)
      ensures Sound(s)
    {
      var i :| 0 <= i < |corpus| && CorpusParts(corpus, repr)[i] == s;
      assert corpus[i] in corpus;
    }
  }

  // ------------------------------------------------------------- minimizer

  /** One part of delete_nop. */
  method DeletePart(words: seq<Word>) returns (out: seq<Word>)
    ensures NopsDeleted(old(Views(words)), Views(out))
    ensures Distinct(out) && forall w :: w in out ==> fresh(w)
  {
    hide Views, Distinct, Relabelled;
    ghost var was := Views(words);
    out := [];
    DistinctNone();
    for i := 0 to |words|
      invariant Views(out) == WithoutNops(was[..i])
      invariant Distinct(out) && forall w :: w in out ==> fresh(w)
    {
      assert was[..i + 1][..i] == was[..i];
      if words[i].insts != [Nop] {
        var word := new Word.Copy(words[i]);
        ViewsOne(word);
        ViewsAppend(out, [word]);
        DistinctOne(word);
        DistinctAppend(out, [word]);
        out := out + [word];
      } else {
        assert Views(out) + [] == Views(out);
      }
    }
    assert was[..|words|] == was;
    assert forall k :: 0 <= k < |out| ==> out[k] in out;
    ResetLabels(out);
  }

  /** delete_nop: copies without the lone nops, relabelled. */
  method DeleteNop(x: SimInput) returns (y: SimInput)
    requires Sound(PartsOf(x))
    ensures ByDeletion(old(PartsOf(x)), PartsOf(y)) && Sound(PartsOf(y))
    ensures Proper(y) && y.dataSeed == x.dataSeed && y.template == x.template
    ensures forall w :: w in WordsOf(y) ==> fresh(w)
  {
    hide Views, Distinct, NopsDeleted, SoundPart;
    ghost var from := PartsOf(x);
    var prefix := DeletePart(x.prefix);
    var words := DeletePart(x.words);
    var suffix := DeletePart(x.suffix);
    NopsDeletedSound(from.prefix, Views(prefix));
    NopsDeletedSound(from.words, Views(words));
    NopsDeletedSound(from.suffix, Views(suffix));
    y := SimInput(prefix, words, suffix, x.dataSeed, x.template);
  }

  /** One part of make_nop: masked words give way to a lone nop with their label. */
  method MaskPart(words: seq<Word>, mask: seq<bool>) returns (out: seq<Word>)
    requires |mask| == |words| && Distinct(words)
    ensures Masked(old(Views(words)), mask, Views(out))
    ensures Distinct(out) && forall w :: w in out ==> w in words || fresh(w)
  {
    hide Views, Distinct;
    ghost var was := Views(words);
    out := [];
    DistinctNone();
    for i := 0 to |words|
      invariant |out| == i && Distinct(out) && forall w :: w in out ==> w in words[..i] || fresh(w)
      invariant forall k :: 0 <= k < i ==> out[k].View() == if mask[k] then NopAt(was[k].num) else was[k]
    {
      var word := words[i];
      DistinctNotBefore(words, i);
      if mask[i] {
        word := new Word(words[i].num, [Nop], NONE, false);
        word.Populate(Plain);
        assert word.View() == NopAt(was[i].num);
      }
      DistinctOne(word);
      DistinctAppend(out, [word]);
      out := out + [word];
    }
    assert words[..|words|] == words;
  }

  /** make_nop. */
  method MakeNop(x: SimInput, mask: seq<bool>, part: Part) returns (y: SimInput)
    requires Sound(PartsOf(x)) && Proper(x)
    requires |mask| == match part case PREFIX => |x.prefix| case MAIN => |x.words| case SUFFIX => |x.suffix|
    ensures ByMask(old(PartsOf(x)), mask, PartsOf(y)) && Sound(PartsOf(y)) && Proper(y)
    ensures y.dataSeed == x.dataSeed && y.template == x.template
    ensures part != PREFIX ==> y.prefix == x.prefix
    ensures part != MAIN ==> y.words == x.words
    ensures part != SUFFIX ==> y.suffix == x.suffix
  {
    hide Views, Distinct, Masked, Sound;
    ghost var from := PartsOf(x);
    match part {
      case PREFIX =>
        var out := MaskPart(x.prefix, mask);
        y := x.(prefix := out);
      case MAIN =>
        var out := MaskPart(x.words, mask);
        y := x.(words := out);
      case SUFFIX =>
        var out := MaskPart(x.suffix, mask);
        y := x.(suffix := out);
    }
    MaskSound(from, mask, PartsOf(y));
  }

  // ----------------------------------------------------- saving and reading

  /** What a saved word says: its label, its lines, and whether they transfer control. */
  datatype Text = Text(num: nat, lines: seq<Inst>, jumps: bool)

  function Saved(s: State): Text {
    Text(s.shown, s.lines, s.jumps)
  }

  /** tuples_to_words: the instructions of a word that is read are padded lines. */
  function ReadWord(t: Text): State {
    var insts := Filled(t.lines, Plain);
    State(t.num, NONE, t.jumps, insts, true, t.num, Filled(insts, Plain))
  }

  ghost predicate ReadFrom(texts: seq<Text>, words: seq<State>) {
    |words| == |texts| && forall i :: 0 <= i < |texts| ==> words[i] == ReadWord(texts[i])
  }

  method TuplesToWords(texts: seq<Text>) returns (words: seq<Word>)
    ensures ReadFrom(texts, Views(words))
    ensures Distinct(words) && forall w :: w in words ==> fresh(w)
  {
    hide Views, Distinct;
    words := [];
    DistinctNone();
    for i := 0 to |texts|
      invariant |words| == i && Distinct(words) && forall w :: w in words ==> fresh(w)
      invariant forall k :: 0 <= k < i ==> words[k].View() == ReadWord(texts[k])
    {
      var word := new Word(texts[i].num, Filled(texts[i].lines, Plain), NONE, texts[i].jumps);
      word.Populate(Plain);
      DistinctOne(word);
      DistinctAppend(words, [word]);
      words := words + [word];
    }
  }

  /** A saved part reads back with its labels and lines, so what was sound still is. */
  lemma ReadBackSound(part: seq<State>, texts: seq<Text>, words: seq<State>)
    requires SoundPart(part) && |texts| == |part| && ReadFrom(texts, words)
    requires forall i :: 0 <= i < |part| ==> texts[i] == Saved(part[i])
    ensures SoundPart(words)
    ensures forall i :: 0 <= i < |part| ==> Saved(words[i]) == texts[i]
  {
    forall i | 0 <= i < |words|
      ensures ForwardAt(words[i], i, |words|)
      ensures Saved(words[i]) == texts[i]
    {
      ReadBackAt(part[i], words[i], i, |words|);
    }
  }

  lemma ReadBackAt(s: State, t: State, i: nat, len: nat)
    requires ForwardAt(s, i, len) && s.populated && t == ReadWord(Saved(s))
    ensures ForwardAt(t, i, len) && t.populated
    ensures Saved(t) == Saved(s)
  {
    assert forall k :: 0 <= k < |s.lines| ==> s.lines[k] in s.lines;
    assert t.lines == s.lines && forall n: nat :: Names(t, n) == Names(s, n);
  }

  /** delete_nop deletes no word that was read from a file. */
  lemma ReadNopStays(texts: seq<Text>, words: seq<State>)
    requires ReadFrom(texts, words)
    ensures WithoutNops(words) == words
  {
    forall i | 0 <= i < |words|
      ensures words[i].insts != [Nop]
    {
      ReadNotNop(texts[i]);
    }
    NothingDeleted(words);
  }

  lemma ReadNotNop(t: Text)
    ensures ReadWord(t).insts != [Nop]
  {
    assert |t.lines| == 1 ==> Filled(t.lines, Plain)[0] == Line(t.lines[0], Plain);
  }

  /** A lone nop is deleted, but not once it was saved and read back. */
  lemma NopReadBack(num: nat)
    ensures WithoutNops([NopAt(num)]) == []
    ensures WithoutNops([ReadWord(Saved(NopAt(num)))]) == [ReadWord(Saved(NopAt(num)))]
  {
    ReadNopStays([Saved(NopAt(num))], [ReadWord(Saved(NopAt(num)))]);
    assert [NopAt(num)][..0] == [];
  }

  lemma QueueHas(queue: seq<nat>, history: seq<nat>, seed: nat)
    requires QueueOf(queue, history) && seed in queue
    ensures seed < |queue|
  {
  }

  /** list.index. */
  method Index(queue: seq<nat>, ghost history: seq<nat>, seed: nat) returns (idx: nat)
    requires QueueOf(queue, history) && seed < |queue|
    ensures idx < |queue| && queue[idx] == seed && seed !in queue[..idx]
  {
    assert seed in queue;
    idx := 0;
    while queue[idx] != seed
      invariant idx < |queue| && seed !in queue[..idx]
      decreases |queue| - idx
    {
      assert queue[..idx + 1] == queue[..idx] + [queue[idx]];
      assert queue[..|queue|] == queue;
      idx := idx + 1;
    }
  }

  method RandomData(n: nat) returns (data: seq<nat>)
    ensures |data| == n
  {
    data := [];
    for i := 0 to n
      invariant |data| == i
    {
      var x := RandInt(0, 0xffff_ffff_ffff_ffff);
      data := data + [x];
    }
  }
}
