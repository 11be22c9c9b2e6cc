/** The pattern stage: every run of 2 to 8 consecutive tokens is a candidate
    (`extract_token_sequences`), scored by the characters it would save
    (`calculate_savings`), the best are chosen and numbered `C0001`, ...
    (`select_best_patterns`, `build_pattern_dictionary`), and the token stream is
    rewritten left to right with the longest pattern that matches at each index
    (`substitute_patterns`). */
module Patterns {
  import opened Common
  import opened Decimal
  import opened Grouping
  import opened Sorting
  import opened Tokens

  // ----- `extract_token_sequences`

  /** The keys of the `length` tokens from `i`. */
  function Window(tokens: seq<Token>, i: nat, length: nat): seq<Key>
    requires i + length <= |tokens|
  {
    SeqKeys(tokens[i..i + length])
  }

  /** The windows of one length that start before `upTo`, by start. */
  function WindowsBefore(tokens: seq<Token>, length: nat, upTo: nat): seq<(seq<Key>, nat)>
    requires upTo == 0 || upTo + length <= |tokens| + 1
  {
    if upTo == 0 then [] else WindowsBefore(tokens, length, upTo - 1) + [(Window(tokens, upTo - 1, length), upTo - 1)]
  }

  /** The windows of one length, by start. */
  function WindowsOf(tokens: seq<Token>, length: nat): seq<(seq<Key>, nat)>
  {
    if length > |tokens| then [] else WindowsBefore(tokens, length, |tokens| - length + 1)
  }

  /** The windows the loops visit: by length from `minLength` up to, not including,
      `upTo`, and within a length by start. */
  function Windows(tokens: seq<Token>, minLength: nat, upTo: nat): seq<(seq<Key>, nat)>
  {
    if upTo <= minLength then []
    else Windows(tokens, minLength, upTo - 1) + WindowsOf(tokens, upTo - 1)
  }

  /** The table `extract_token_sequences` returns. */
  function Sequences(tokens: seq<Token>, minLength: nat, maxLength: nat): Groups<seq<Key>, nat>
  {
    GroupAll(Windows(tokens, minLength, maxLength + 1))
  }

  lemma GroupAllSnoc<K, V>(ps: seq<(K, V)>, p: (K, V))
    ensures GroupAll(ps + [p]) == Add(GroupAll(ps), p.0, p.1)
  {
    assert (ps + [p])[..|ps|] == ps;
  }

  method ExtractTokenSequences(tokens: seq<Token>, minLength: nat, maxLength: nat)
    returns (sequences: Groups<seq<Key>, nat>)
    ensures sequences == Sequences(tokens, minLength, maxLength)
  {
    sequences := Dict(map[], []);
    var length := minLength;
    while length <= maxLength
      invariant minLength <= length <= maxLength + 1 || (length == minLength && maxLength < minLength)
      invariant sequences == GroupAll(Windows(tokens, minLength, length))
      decreases maxLength + 1 - length
    {
      sequences := AddWindows(tokens, length, Windows(tokens, minLength, length), sequences);
      length := length + 1;
    }
  }

  /** The loop over the starts for one length. */
  method AddWindows(tokens: seq<Token>, length: nat, ghost before: seq<(seq<Key>, nat)>,
                    sequences: Groups<seq<Key>, nat>)
    returns (sequences': Groups<seq<Key>, nat>)
    requires sequences == GroupAll(before)
    ensures sequences' == GroupAll(before + WindowsOf(tokens, length))
  {
    sequences' := sequences;
    var i := 0;
    assert before + [] == before;
    while i + length <= |tokens|
      invariant i == 0 || i + length <= |tokens| + 1
      invariant sequences' == GroupAll(before + WindowsBefore(tokens, length, i))
    {
      var sequence := WindowKeys(tokens, i, length);
      AddWindowStep(tokens, length, before, i);
      sequences' := Add(sequences', sequence, i);
      i := i + 1;
    }
    WindowsOfAll(tokens, length, before, i);
  }

  lemma AddWindowStep(tokens: seq<Token>, length: nat, before: seq<(seq<Key>, nat)>, i: nat)
    requires i + length <= |tokens|
    ensures GroupAll(before + WindowsBefore(tokens, length, i + 1)) ==
            Add(GroupAll(before + WindowsBefore(tokens, length, i)), Window(tokens, i, length), i)
  {
    var p := (Window(tokens, i, length), i);
    assert before + WindowsBefore(tokens, length, i + 1) == (before + WindowsBefore(tokens, length, i)) + [p];
    GroupAllSnoc(before + WindowsBefore(tokens, length, i), p);
  }

  lemma WindowsOfAll(tokens: seq<Token>, length: nat, before: seq<(seq<Key>, nat)>, i: nat)
    requires i == 0 || i + length <= |tokens| + 1
    requires i + length > |tokens|
    ensures before + WindowsBefore(tokens, length, i) == before + WindowsOf(tokens, length)
  {
  }

  /** The loop that builds the key tuple of one window. */
  method WindowKeys(tokens: seq<Token>, i: nat, length: nat) returns (sequence: seq<Key>)
    requires i + length <= |tokens|
    ensures sequence == Window(tokens, i, length)
  {
    sequence := [];
    var j := 0;
    while j < length
      invariant j <= length
      invariant sequence == SeqKeys(tokens[i..i + j])
    {
      assert tokens[i..i + j + 1] == tokens[i..i + j] + [tokens[i + j]];
      sequence := sequence + [SeqKey(tokens[i + j])];
      j := j + 1;
    }
  }

  // ----- What the table holds

  /** The starts before `upTo` at which the tokens read `k`, in increasing order. */
  function StartsBefore(tokens: seq<Token>, k: seq<Key>, upTo: nat): seq<nat>
    requires upTo == 0 || upTo + |k| <= |tokens| + 1
  {
    if upTo == 0 then []
    else StartsBefore(tokens, k, upTo - 1) + (if Window(tokens, upTo - 1, |k|) == k then [upTo - 1] else [])
  }

  /** Every start at which the tokens read `k`. */
  function Starts(tokens: seq<Token>, k: seq<Key>): seq<nat>
  {
    if |k| > |tokens| then [] else StartsBefore(tokens, k, |tokens| - |k| + 1)
  }

  lemma {:induction false} StartsBeforeSpec(tokens: seq<Token>, k: seq<Key>, upTo: nat)
    requires upTo == 0 || upTo + |k| <= |tokens| + 1
    ensures forall p: nat :: p in StartsBefore(tokens, k, upTo) <==>
                               p < upTo && p + |k| <= |tokens| && Window(tokens, p, |k|) == k
    ensures forall i, j | 0 <= i < j < |StartsBefore(tokens, k, upTo)| ::
              StartsBefore(tokens, k, upTo)[i] < StartsBefore(tokens, k, upTo)[j]
  {
    if upTo > 0 {
      var front := StartsBefore(tokens, k, upTo - 1);
      StartsBeforeSpec(tokens, k, upTo - 1);
      var r := StartsBefore(tokens, k, upTo);
      forall i, j | 0 <= i < j < |r| ensures r[i] < r[j] {
        if j < |front| {
          assert r[i] == front[i] && r[j] == front[j];
        } else {
          assert r[i] == front[i] && front[i] in front;
        }
      }
    }
  }

  /** A start is recorded for `k` exactly when the `|k|` tokens from it read `k`,
      and the starts are strictly increasing; windows may overlap. */
  lemma StartsSpec(tokens: seq<Token>, k: seq<Key>)
    ensures forall p: nat :: p in Starts(tokens, k) <==> p + |k| <= |tokens| && Window(tokens, p, |k|) == k
    ensures forall i, j | 0 <= i < j < |Starts(tokens, k)| :: Starts(tokens, k)[i] < Starts(tokens, k)[j]
  {
    if |k| <= |tokens| {
      assert Starts(tokens, k) == StartsBefore(tokens, k, |tokens| - |k| + 1);
      StartsBeforeSpec(tokens, k, |tokens| - |k| + 1);
    } else {
      assert Starts(tokens, k) == [];
    }
  }

  lemma {:induction false} ValuesOfWindowsBefore(tokens: seq<Token>, length: nat, upTo: nat, k: seq<Key>)
    requires upTo == 0 || upTo + length <= |tokens| + 1
    ensures ValuesOf(WindowsBefore(tokens, length, upTo), k) ==
            if |k| == length then StartsBefore(tokens, k, upTo) else []
  {
    if upTo > 0 {
      var ws := WindowsBefore(tokens, length, upTo);
      assert ws[..|ws| - 1] == WindowsBefore(tokens, length, upTo - 1);
      ValuesOfWindowsBefore(tokens, length, upTo - 1, k);
    }
  }

  lemma {:induction false} ValuesOfWindows(tokens: seq<Token>, minLength: nat, upTo: nat, k: seq<Key>)
    ensures ValuesOf(Windows(tokens, minLength, upTo), k) ==
            if minLength <= |k| < upTo then Starts(tokens, k) else []
  {
    if upTo > minLength {
      var l := upTo - 1;
      ValuesOfWindows(tokens, minLength, l, k);
      ValuesOfAppend(Windows(tokens, minLength, l), WindowsOf(tokens, l), k);
      ValuesOfWindowsOf(tokens, l, k);
    }
  }

  lemma ValuesOfWindowsOf(tokens: seq<Token>, length: nat, k: seq<Key>)
    ensures ValuesOf(WindowsOf(tokens, length), k) == if |k| == length then Starts(tokens, k) else []
  {
    if length <= |tokens| {
      ValuesOfWindowsBefore(tokens, length, |tokens| - length + 1, k);
    }
  }

  /** `extract_token_sequences` records a key exactly when its length is in range
      and it occurs, with all its starts in increasing order. */
  lemma SequencesSpec(tokens: seq<Token>, minLength: nat, maxLength: nat, k: seq<Key>)
    ensures k in Sequences(tokens, minLength, maxLength).members <==>
              minLength <= |k| <= maxLength && Starts(tokens, k) != []
    ensures k in Sequences(tokens, minLength, maxLength).members ==>
              Sequences(tokens, minLength, maxLength).members[k] == Starts(tokens, k)
  {
    GroupHas(Windows(tokens, minLength, maxLength + 1), k);
    ValuesOfWindows(tokens, minLength, maxLength + 1, k);
  }

  /** Every key of the table is a tuple of 2-tuples, and every key in its order has
      its list of starts. */
  lemma SequencesShape(tokens: seq<Token>, minLength: nat, maxLength: nat)
    ensures Listed(Sequences(tokens, minLength, maxLength))
    ensures forall k | k in Sequences(tokens, minLength, maxLength).members :: Pairs(k)
  {
    var ws := Windows(tokens, minLength, maxLength + 1);
    GroupAllSpec(ws);
    FirstSeenSpec(KeysOf(ws));
    forall k | k in Sequences(tokens, minLength, maxLength).members ensures Pairs(k) {
      SequencesSpec(tokens, minLength, maxLength, k);
      StartsSpec(tokens, k);
      var p := Starts(tokens, k)[0];
      assert p in Starts(tokens, k);
    }
  }

  // ----- `calculate_savings`

  /** Every element is a 2-tuple, as the loop of `calculate_savings` unpacks it. */
  predicate Pairs(sequence: seq<Key>)
  {
    forall i | 0 <= i < |sequence| :: sequence[i].Pair?
  }

  /** What one element stands for in the token stream: a literal's text, or an id
      with two delimiters. */
  function ElementSize(k: Key): nat
    requires k.Pair?
  {
    if k.tag == "L" then |k.data| else |k.data| + 2
  }

  function SequenceSize(sequence: seq<Key>): nat
    requires Pairs(sequence)
  {
    if sequence == [] then 0 else SequenceSize(sequence[..|sequence| - 1]) + ElementSize(sequence[|sequence| - 1])
  }

  /** Every occurrence is written as the sequence, against one 6-character reference
      per occurrence and the sequence stored once with 10 characters of overhead. */
  function Savings(sequence: seq<Key>, count: nat): int
    requires Pairs(sequence)
  {
    SequenceSize(sequence) * count - (6 * count + SequenceSize(sequence) + 10)
  }

  method CalculateSavings(sequence: seq<Key>, positions: seq<nat>) returns (savings: int)
    requires Pairs(sequence)
    ensures savings == Savings(sequence, |positions|)
  {
    var occurrenceCount := |positions|;
    var originalSize := 0;
    var i := 0;
    while i < |sequence|
      invariant i <= |sequence|
      invariant originalSize == SequenceSize(sequence[..i])
    {
      assert sequence[..i + 1][..i] == sequence[..i];
      originalSize := originalSize + ElementSize(sequence[i]);
      i := i + 1;
    }
    assert sequence[..i] == sequence;
    var originalTotal := originalSize * occurrenceCount;
    var replacementSize := 6 * occurrenceCount;
    var patternDefinition := originalSize + 10;
    savings := originalTotal - (replacementSize + patternDefinition);
  }

  /** A sequence seen once always costs 16 characters, and each further occurrence
      adds its size less the 6 of a reference: a pattern pays only when it recurs
      and is longer than a reference. */
  lemma SavingsSpec(sequence: seq<Key>, count: nat)
    requires Pairs(sequence)
    ensures Savings(sequence, 1) == -16
    ensures Savings(sequence, count + 1) - Savings(sequence, count) == SequenceSize(sequence) - 6
    ensures Savings(sequence, count) == (count - 1) * (SequenceSize(sequence) - 6) - 16
  {
  }

  // ----- `select_best_patterns`

  datatype Candidate = Candidate(sequence: seq<Key>, positions: seq<nat>, count: nat, length: nat, savings: int)

  predicate AllPairs(g: Groups<seq<Key>, nat>)
  {
    forall k | k in g.members :: Pairs(k)
  }

  function CandidateOf(g: Groups<seq<Key>, nat>, k: seq<Key>): Candidate
    requires k in g.members && Pairs(k)
  {
    Candidate(k, g.members[k], |g.members[k]|, |k|, Savings(k, |g.members[k]|))
  }

  /** At least two occurrences and at least `minSavings` saved. */
  predicate Qualifies(g: Groups<seq<Key>, nat>, k: seq<Key>, minSavings: int)
    requires k in g.members && Pairs(k)
  {
    |g.members[k]| >= 2 && Savings(k, |g.members[k]|) >= minSavings
  }

  /** The candidates of the keys in `keys`, in that order. */
  function Candidates(g: Groups<seq<Key>, nat>, keys: seq<seq<Key>>, minSavings: int): seq<Candidate>
    requires AllPairs(g) && forall i | 0 <= i < |keys| :: keys[i] in g.members
  {
    if keys == [] then []
    else
      var k := keys[|keys| - 1];
      Candidates(g, keys[..|keys| - 1], minSavings) + (if Qualifies(g, k, minSavings) then [CandidateOf(g, k)] else [])
  }

  function BySavings(c: Candidate): int { c.savings }

  /** What `select_best_patterns` returns. */
  function Selected(g: Groups<seq<Key>, nat>, minSavings: int, maxPatterns: nat): seq<Candidate>
    requires AllPairs(g) && Listed(g)
  {
    Take(SortDesc(Candidates(g, g.order, minSavings), BySavings), maxPatterns)
  }

  method SelectBestPatterns(g: Groups<seq<Key>, nat>, minSavings: int, maxPatterns: nat)
    returns (selected: seq<Candidate>)
    requires AllPairs(g) && Listed(g)
    ensures selected == Selected(g, minSavings, maxPatterns)
  {
    var candidates := [];
    var i := 0;
    while i < |g.order|
      invariant i <= |g.order|
      invariant candidates == Candidates(g, g.order[..i], minSavings)
    {
      assert g.order[..i + 1][..i] == g.order[..i];
      var sequence := g.order[i];
      var positions := g.members[sequence];
      if |positions| >= 2 {
        var savings := CalculateSavings(sequence, positions);
        if savings >= minSavings {
          candidates := candidates + [Candidate(sequence, positions, |positions|, |sequence|, savings)];
        }
      }
      i := i + 1;
    }
    assert g.order[..i] == g.order;
    candidates := SortDesc(candidates, BySavings);
    selected := Take(candidates, maxPatterns);
  }

  lemma {:induction false} CandidatesSpec(g: Groups<seq<Key>, nat>, keys: seq<seq<Key>>, minSavings: int)
    requires AllPairs(g) && forall i | 0 <= i < |keys| :: keys[i] in g.members
    ensures forall c :: c in Candidates(g, keys, minSavings) <==>
                        exists i | 0 <= i < |keys| :: Qualifies(g, keys[i], minSavings) && c == CandidateOf(g, keys[i])
  {
    if keys != [] {
      var n := |keys| - 1;
      CandidatesSpec(g, keys[..n], minSavings);
      forall c ensures c in Candidates(g, keys, minSavings) <==>
                       exists i | 0 <= i < |keys| :: Qualifies(g, keys[i], minSavings) && c == CandidateOf(g, keys[i]) {
        if c in Candidates(g, keys[..n], minSavings) {
          var i :| 0 <= i < n && Qualifies(g, keys[..n][i], minSavings) && c == CandidateOf(g, keys[..n][i]);
          assert keys[..n][i] == keys[i];
        }
        if exists i | 0 <= i < |keys| :: Qualifies(g, keys[i], minSavings) && c == CandidateOf(g, keys[i]) {
          var i :| 0 <= i < |keys| && Qualifies(g, keys[i], minSavings) && c == CandidateOf(g, keys[i]);
          if i < n {
            assert keys[..n][i] == keys[i];
          }
        }
      }
    }
  }

  /** The selection: at most `maxPatterns` candidates, each recurring and saving at
      least `minSavings`, in order of non-increasing savings. */
  lemma SelectedSpec(g: Groups<seq<Key>, nat>, minSavings: int, maxPatterns: nat)
    requires AllPairs(g) && Listed(g)
    ensures var r := Selected(g, minSavings, maxPatterns);
            |r| <= maxPatterns && SortedDesc(r, BySavings) &&
            forall c | c in r :: c.sequence in g.members && c == CandidateOf(g, c.sequence) &&
                                 c.count >= 2 && c.savings >= minSavings
  {
    var all := Candidates(g, g.order, minSavings);
    var sorted := SortDesc(all, BySavings);
    var r := Take(sorted, maxPatterns);
    CandidatesSpec(g, g.order, minSavings);
    SortDescSpec(all, BySavings);
    assert SortedDesc(r, BySavings) by {
      forall i, j | 0 <= i < j < |r| ensures BySavings(r[i]) >= BySavings(r[j]) {
        assert r[i] == sorted[i] && r[j] == sorted[j];
      }
    }
    forall c | c in r
      ensures c.sequence in g.members && c == CandidateOf(g, c.sequence) && c.count >= 2 && c.savings >= minSavings
    {
      var q :| 0 <= q < |r| && r[q] == c;
      assert sorted[q] == c;
      assert c in multiset(all);
      assert c in all;
    }
  }

  /** A qualifying key is left out of the selection only when it is full of
      candidates that save at least as much. */
  lemma SelectedBest(g: Groups<seq<Key>, nat>, minSavings: int, maxPatterns: nat, i: nat)
    requires AllPairs(g) && Listed(g)
    requires i < |g.order| && Qualifies(g, g.order[i], minSavings)
    ensures var r := Selected(g, minSavings, maxPatterns);
            var c := CandidateOf(g, g.order[i]);
            c in r || (|r| == maxPatterns && forall x | x in r :: x.savings >= c.savings)
  {
    var all := Candidates(g, g.order, minSavings);
    var sorted := SortDesc(all, BySavings);
    var c := CandidateOf(g, g.order[i]);
    CandidatesSpec(g, g.order, minSavings);
    SortDescSpec(all, BySavings);
    assert c in all;
    assert c in multiset(sorted);
    TakeBest(sorted, BySavings, maxPatterns, c);
  }

  // ----- `build_pattern_dictionary`

  /** What the pattern dictionary stores for one pattern. */
  datatype PatternEntry = PatternEntry(sequence: seq<Key>, count: nat, length: nat, savings: int)

  /** `f"C{i:04d}"` */
  function PatternId(n: nat): string
  {
    "C" + ZeroPad(n, 4)
  }

  function EntryOf(c: Candidate): PatternEntry
  {
    PatternEntry(c.sequence, c.count, c.length, c.savings)
  }

  /** The assignments of the loop, in order. */
  function NumberedPatterns(patterns: seq<Candidate>): (es: seq<(string, PatternEntry)>)
    ensures |es| == |patterns|
    ensures forall i | 0 <= i < |patterns| :: es[i] == (PatternId(i + 1), EntryOf(patterns[i]))
  {
    seq(|patterns|, i requires 0 <= i < |patterns| => (PatternId(i + 1), EntryOf(patterns[i])))
  }

  function PatternDictionary(patterns: seq<Candidate>): Dict<string, PatternEntry>
  {
    PutAll(Dict(map[], []), NumberedPatterns(patterns))
  }

  method BuildPatternDictionary(patterns: seq<Candidate>) returns (d: Dict<string, PatternEntry>)
    ensures d == PatternDictionary(patterns)
  {
    d := Dict(map[], []);
    var i := 0;
    while i < |patterns|
      invariant i <= |patterns|
      invariant d == PutAll(Dict(map[], []), NumberedPatterns(patterns)[..i])
    {
      assert NumberedPatterns(patterns)[..i + 1] == NumberedPatterns(patterns)[..i] + [(PatternId(i + 1), EntryOf(patterns[i]))];
      PutAllSnoc(Dict(map[], []), NumberedPatterns(patterns)[..i], (PatternId(i + 1), EntryOf(patterns[i])));
      d := Put(d, PatternId(i + 1), EntryOf(patterns[i]));
      i := i + 1;
    }
    assert NumberedPatterns(patterns)[..i] == NumberedPatterns(patterns);
  }

  lemma PatternIdsDistinct(patterns: seq<Candidate>)
    ensures Distinct(KeysOf(NumberedPatterns(patterns)))
  {
    var es := NumberedPatterns(patterns);
    forall i, j | 0 <= i < j < |es| ensures KeysOf(es)[i] != KeysOf(es)[j] {
      NumberedIdInjective("C", i + 1, j + 1, 4);
    }
  }

  /** The ids are `C0001`, `C0002`, ... in selection order with no gaps and no other
      keys, and each holds its pattern's sequence, count, length and savings. */
  lemma PatternDictionarySpec(patterns: seq<Candidate>)
    ensures var d := PatternDictionary(patterns);
            Valid(d) && |d.order| == |patterns| &&
            forall i | 0 <= i < |patterns| ::
              d.order[i] == PatternId(i + 1) && d.members[PatternId(i + 1)] == EntryOf(patterns[i])
  {
    var es := NumberedPatterns(patterns);
    PatternIdsDistinct(patterns);
    PutAllDistinct(Dict(map[], []), es);
    PutAllValid(Dict(map[], []), es);
  }
}
