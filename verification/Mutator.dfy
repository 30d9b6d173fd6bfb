/**
 word.py, inst_generator.py and mutator.py as they run: words are relabelled in
 place, inputs are copied before they are changed, and data seeds are recycled
 in the order of their use.
 */
module Mutator {
  import opened Labels

  datatype Option<T> = None | Some(value: T)

  datatype Part = PREFIX | MAIN | SUFFIX

  /** random.randint. */
  method RandInt(lo: nat, hi: nat) returns (n: nat)
    requires lo <= hi
    ensures lo <= n <= hi
  {
    n :| lo <= n <= hi;
  }

  class Word {
    var num: nat
    const kind: Kind
    const jumps: bool
    const insts: seq<Inst>
    var populated: bool
    var shown: nat
    var lines: seq<Inst>

    constructor (num: nat, insts: seq<Inst>, kind: Kind, jumps: bool)
      ensures View() == State(num, kind, jumps, insts, false, 0, [])
    {
      this.num, this.kind, this.jumps, this.insts := num, kind, jumps, insts;
      populated, shown, lines := false, 0, [];
    }

    constructor Copy(word: Word)
      ensures View() == word.View()
    {
      num, kind, jumps, insts := word.num, word.kind, word.jumps, word.insts;
      populated, shown, lines := word.populated, word.shown, word.lines;
    }

    ghost function View(): State
      reads this
    {
      State(num, kind, jumps, insts, populated, shown, lines)
    }

    method ResetLabel(newLabel: nat) returns (oldLabel: Option<nat>)
      modifies this`num, this`shown
      ensures View() == Reset(old(View()), newLabel)
      ensures oldLabel == if populated then Some(old(num)) else None
    {
      oldLabel := if populated then Some(num) else None;
      num := newLabel;
      if populated {
        shown := newLabel;
      }
    }

    method RepopLabel(labels: map<nat, nat>, maxLabel: nat)
      requires num < maxLabel
      modifies this`lines
      ensures Repopped(old(View()), View(), labels, maxLabel)
    {
      if !populated {
        return;
      }
      ghost var was := lines;
      ghost var s := View();
      for i := 0 to |lines|
        invariant |lines| == |was| && View() == s.(lines := lines)
        invariant forall k :: 0 <= k < i ==> RepoppedLine(s, was[k], lines[k], labels, maxLabel)
        invariant forall k :: i <= k < |was| ==> lines[k] == was[k]
      {
        if lines[i].Label? {
          var other := RandInt(num + 1, maxLabel);
          var next := if lines[i].n in labels then labels[lines[i].n] else other;
          lines := lines[i := Label(next)];
        }
      }
    }

    method Populate(symbol: Inst)
      modifies this`populated, this`shown, this`lines
      ensures View() == old(View()).(populated := true, shown := num, lines := Filled(insts, symbol))
    {
      populated, shown, lines := true, num, Filled(insts, symbol);
    }
  }

  // ------------------------------------------------------- lists of words

  ghost function Views(words: seq<Word>): (r: seq<State>)
    reads words
    ensures |r| == |words| && forall i :: 0 <= i < |words| ==> r[i] == words[i].View()
  {
    if words == [] then [] else Views(words[..|words| - 1]) + [words[|words| - 1].View()]
  }

  ghost predicate Distinct(words: seq<Word>) {
    forall i, j :: 0 <= i < j < |words| ==> words[i] != words[j]
  }

  /** deepcopy of a list of words. */
  method DeepCopy(words: seq<Word>) returns (copy: seq<Word>)
    requires Distinct(words)
    ensures Views(copy) == Views(words) && Distinct(copy) && forall w :: w in copy ==> fresh(w)
  {
    copy := [];
    for i := 0 to |words|
      invariant |copy| == i && Distinct(copy) && forall w :: w in copy ==> fresh(w)
      invariant forall k :: 0 <= k < i ==> copy[k].View() == words[k].View()
    {
      var w := new Word.Copy(words[i]);
      copy := copy + [w];
    }
    assert Views(copy) == Views(words);
  }

  /** reset_labels. */
  method ResetLabels(words: seq<Word>)
    requires Distinct(words)
    modifies words
    ensures Relabelled(old(Views(words)), Views(words))
  {
    hide LabelMap, Repopped, Distinct, Reset;
    ghost var was := Views(words);
    var labels := ResetAll(words);
    forall k | 0 <= k < |words|
      ensures words[k].num == k
    {
      ResetNum(was[k], k);
    }
    RepopAll(words, labels);
  }

  /** The first loop of reset_labels. */
  method ResetAll(words: seq<Word>) returns (labels: map<nat, nat>)
    requires Distinct(words)
    modifies words
    ensures labels == old(LabelMap(Views(words)))
    ensures forall k :: 0 <= k < |words| ==> words[k].View() == old(Reset(words[k].View(), k))
  {
    hide LabelMap, Views, Reset;
    ghost var was := Views(words);
    labels := map[];
    LabelMapNone();
    for n := 0 to |words|
      invariant labels == LabelMap(was[..n])
      invariant forall k :: 0 <= k < n ==> words[k].View() == Reset(was[k], k)
      invariant forall k :: n <= k < |words| ==> words[k].View() == was[k]
    {
      LabelMapStep(was, n);
      assert words[n].View() == was[n];
      var oldLabel := words[n].ResetLabel(n);
      if oldLabel.Some? {
        labels := labels[oldLabel.value := n];
      }
    }
    assert was[..|words|] == was;
  }

  /** The second loop of reset_labels. */
  method RepopAll(words: seq<Word>, labels: map<nat, nat>)
    requires Distinct(words) && forall k :: 0 <= k < |words| ==> words[k].num == k
    modifies words
    ensures forall k :: 0 <= k < |words| ==> Repopped(old(words[k].View()), words[k].View(), labels, |words|)
  {
    hide Repopped;
    for n := 0 to |words|
      invariant forall k :: 0 <= k < n ==> Repopped(old(words[k].View()), words[k].View(), labels, |words|)
      invariant forall k :: n <= k < |words| ==> words[k].View() == old(words[k].View())
    {
      assert words[n].View().num == n;
      words[n].RepopLabel(labels, |words|);
    }
  }

  lemma ResetNum(s: State, k: nat)
    ensures Reset(s, k).num == k
  {
  }

  lemma LabelMapNone()
    ensures LabelMap([]) == map[]
  {
  }

  lemma LabelMapStep(words: seq<State>, n: nat)
    requires n < |words|
    ensures LabelMap(words[..n + 1])
            == if words[n].populated then LabelMap(words[..n])[words[n].num := n] else LabelMap(words[..n])
  {
    assert words[..n + 1][..n] == words[..n];
  }

  // ------------------------------------------------------------- generator

  class Generator {
    var prefixNum: nat
    var mainNum: nat
    var suffixNum: nat

    constructor ()
      ensures prefixNum == mainNum == suffixNum == 0
    {
      prefixNum, mainNum, suffixNum := 0, 0, 0;
    }

    method ResetCounters()
      modifies this
      ensures prefixNum == mainNum == suffixNum == 0
    {
      prefixNum, mainNum, suffixNum := 0, 0, 0;
    }

    function Count(part: Part): nat
      reads this
    {
      match part
      case PREFIX => prefixNum
      case MAIN => mainNum
      case SUFFIX => suffixNum
    }

    /** get_word: some opcode, its instructions, and the part's next label. */
    method GetWord(part: Part) returns (word: Word)
      modifies this
      ensures fresh(word) && Unwritten(word.View()) && word.num == old(Count(part))
      ensures forall p :: Count(p) == old(Count(p)) + (if p == part then 1 else 0)
    {
      var num := Count(part);
      match part {
        case PREFIX => prefixNum := prefixNum + 1;
        case MAIN => mainNum := mainNum + 1;
        case SUFFIX => suffixNum := suffixNum + 1;
      }
      var kind: Kind :| true;
      var len := RandInt(1, 100);
      var insts := Template(len);
      word := new Word(num, insts, kind, Transfers(kind));
    }

    /** The instructions of an opcode: some of them name the word's symbol. */
    method Template(len: nat) returns (insts: seq<Inst>)
      ensures |insts| == len && forall k :: 0 <= k < |insts| ==> !insts[k].Label?
    {
      insts := [];
      for i := 0 to len
        invariant |insts| == i && forall k :: 0 <= k < |insts| ==> !insts[k].Label?
      {
        var inst: Inst :| !inst.Label?;
        insts := insts + [inst];
      }
    }

    /** _get_symbol. */
    method GetSymbol(kind: Kind, myLabel: nat, maxLabel: nat) returns (symbol: Inst)
      requires myLabel < maxLabel
      ensures SymbolFor(kind, myLabel, maxLabel, symbol)
    {
      if kind == MEM_W {
        symbol := Plain;
      } else if kind == MEM_R {
        var rand := RandInt(0, 9);
        if rand < 2 {
          var n := RandInt(0, maxLabel);
          symbol := Label(n);
        } else {
          symbol := Plain;
        }
      } else {
        var n := RandInt(myLabel + 1, maxLabel);
        symbol := Label(n);
      }
    }

    /** populate_word: a word that is already written stays as it is. */
    method PopulateWord(word: Word, maxLabel: nat)
      requires word.num < maxLabel
      modifies word
      ensures Written(old(word.View()), word.View(), maxLabel)
    {
      if word.populated {
        return;
      }
      var symbol := GetSymbol(word.kind, word.num, maxLabel);
      word.Populate(symbol);
    }

    /** The populate loops of get. */
    method PopulateAll(words: seq<Word>)
      requires Distinct(words) && forall i :: 0 <= i < |words| ==> words[i].num == i
      modifies words
      ensures AllWritten(old(Views(words)), Views(words))
    {
      hide Written;
      ghost var was := Views(words);
      for n := 0 to |words|
        invariant forall k :: 0 <= k < n ==> Written(was[k], words[k].View(), |words|)
        invariant forall k :: n <= k < |words| ==> words[k].View() == was[k]
      {
        assert words[n].View() == was[n] && was[n].num == n;
        PopulateWord(words[n], |words|);
      }
    }
  }

  /** What becomes of one seed word: it stays, stays with a new one after it, or goes. */
  method Draw(gen: Generator, word: Word, part: Part) returns (drawn: seq<Word>, ghost choice: Choice)
    modifies gen
    ensures Views(drawn) == Chosen(word.View(), choice)
    ensures choice.KeepAndAdd? ==> Unwritten(choice.word)
    ensures Distinct(drawn) && forall w :: w in drawn ==> w == word || fresh(w)
  {
    hide Unwritten, Views;
    var rand := RandInt(0, 99);
    if rand < 50 {
      drawn, choice := [word], Keep;
      ViewsOne(word);
    } else if rand < 75 {
      var new_ := gen.GetWord(part);
      drawn, choice := [word, new_], KeepAndAdd(new_.View());
      assert drawn == [word] + [new_];
      ViewsAppend([word], [new_]);
      ViewsOne(word);
      ViewsOne(new_);
    } else {
      drawn, choice := [], Drop;
    }
  }

  /** mutate_words. */
  method MutateWords(gen: Generator, seed: seq<Word>, part: Part, maxNum: nat)
    returns (words: seq<Word>, ghost choices: seq<Choice>)
    requires Distinct(seed)
    modifies gen, seed
    ensures MutatedBy(old(Views(seed)), choices, maxNum, Views(words))
    ensures Distinct(words) && forall w :: w in words ==> w in seed || fresh(w)
  {
    hide Relabelled, Unwritten, Mutate, Chosen, Views, Distinct;
    ghost var was := Views(seed);
    words, choices := [], [];
    MutateNone();
    DistinctNone();
    for i := 0 to |seed|
      invariant |choices| == i && FreshChoices(choices) && Views(words) == Mutate(was[..i], choices)
      invariant unchanged(seed)
      invariant Distinct(words) && forall w :: w in words ==> w in seed[..i] || fresh(w)
    {
      var drawn, choice := Draw(gen, seed[i], part);
      DistinctNotBefore(seed, i);
      ViewsAppend(words, drawn);
      DistinctAppend(words, drawn);
      words := words + drawn;
      choices := choices + [choice];
      MutateStep(was, choices, i);
    }
    assert was[..|seed|] == was;
    ghost var all := words;
    words := if |words| <= maxNum then words else words[..maxNum];
    DistinctCut(all, |words|);
    assert seed[..|seed|] == seed;
    forall w | w in words
      ensures w in seed || fresh(w)
    {
      assert w in all;
    }
    assert forall k :: 0 <= k < |words| ==> words[k] in words;
    assert Views(words) == Cut(Views(all), maxNum);
    ResetLabels(words);
  }

  lemma MutateNone()
    ensures Views([]) == Mutate([], [])
  {
  }

  lemma ViewsOne(word: Word)
    ensures Views([word]) == [word.View()]
  {
  }

  lemma DistinctAppend(a: seq<Word>, b: seq<Word>)
    requires Distinct(a) && Distinct(b) && forall w :: w in a ==> w !in b
    ensures Distinct(a + b)
  {
    forall i, j | 0 <= i < j < |a + b|
      ensures (a + b)[i] != (a + b)[j]
    {
      if i < |a| <= j {
        assert a[i] in a && b[j - |a|] in b;
      }
    }
  }

  lemma DistinctNotBefore(words: seq<Word>, i: nat)
    requires i < |words| && Distinct(words)
    ensures words[i] !in words[..i]
  {
  }

  lemma DistinctCut(words: seq<Word>, n: nat)
    requires n <= |words| && Distinct(words)
    ensures Distinct(words[..n])
  {
  }

  lemma DistinctNone()
    ensures Distinct([])
  {
  }

  lemma ViewsAppend(a: seq<Word>, b: seq<Word>)
    ensures Views(a + b) == Views(a) + Views(b)
  {
  }

  lemma MutateStep(seed: seq<State>, choices: seq<Choice>, i: nat)
    requires i < |seed| && |choices| == i + 1
    ensures Mutate(seed[..i + 1], choices) == Mutate(seed[..i], choices[..i]) + Chosen(seed[i], choices[i])
  {
    assert seed[..i + 1][..i] == seed[..i];
  }
}
