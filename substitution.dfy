/** `substitute_patterns`: a left-to-right rewrite of the token stream. At each
    index the patterns are tried by non-increasing `length` (ties in dictionary
    order); the first whose sequence the tokens there match becomes one pattern
    token covering them, otherwise the token is kept. */
module Substitution {
  import opened Common
  import opened Grouping
  import opened Sorting
  import opened Tokens
  import opened Patterns

  type PatternDict = Dict<string, PatternEntry>

  /** The dictionary as the rewrite needs it: every listed id has an entry, every
      sequence is a non-empty tuple of 2-tuples. An empty sequence would match
      everywhere without moving the index, and the loop would not end. */
  predicate WellFormed(d: PatternDict)
  {
    Listed(d) &&
    forall id | id in d.members :: |d.members[id].sequence| > 0 && Pairs(d.members[id].sequence)
  }

  function ByLength(item: (string, PatternEntry)): int { item.1.length }

  /** The order in which the patterns are tried. */
  function Ordered(d: PatternDict): seq<(string, PatternEntry)>
    requires Listed(d)
  {
    SortDesc(Items(d), ByLength)
  }

  /** Every tried pattern is a dictionary entry. */
  lemma OrderedEntries(d: PatternDict)
    requires Listed(d)
    ensures forall q | 0 <= q < |Ordered(d)| ::
              Ordered(d)[q].0 in d.members && d.members[Ordered(d)[q].0] == Ordered(d)[q].1
  {
    SortDescSpec(Items(d), ByLength);
    forall q | 0 <= q < |Ordered(d)|
      ensures Ordered(d)[q].0 in d.members && d.members[Ordered(d)[q].0] == Ordered(d)[q].1
    {
      assert Ordered(d)[q] in multiset(Items(d));
      var k :| 0 <= k < |Items(d)| && Items(d)[k] == Ordered(d)[q];
    }
  }

  /** A token matches an element of a sequence: a literal `('L', text)` by its text,
      anything else by the upper-case first letter of its type and its id. */
  predicate KeyMatches(t: Token, k: Key)
    requires k.Pair?
  {
    if k.tag == "L" then t.Literal? && t.text == k.data
    else TypeLetter(t) == k.tag && !t.Literal? && IdOf(t) == k.data
  }

  predicate MatchesAt(tokens: seq<Token>, i: nat, sequence: seq<Key>)
    requires Pairs(sequence)
  {
    i + |sequence| <= |tokens| && forall j | 0 <= j < |sequence| :: KeyMatches(tokens[i + j], sequence[j])
  }

  /** The first pattern from `from` on in `ordered` that matches at `i`. */
  function FirstMatch(tokens: seq<Token>, i: nat, ordered: seq<(string, PatternEntry)>, from: nat): (r: Option<nat>)
    requires forall q | 0 <= q < |ordered| :: Pairs(ordered[q].1.sequence)
    requires from <= |ordered|
    ensures r.Some? ==> from <= r.value < |ordered| && MatchesAt(tokens, i, ordered[r.value].1.sequence)
    ensures r.Some? ==> forall q {:trigger MatchesAt(tokens, i, ordered[q].1.sequence)} | from <= q < r.value ::
                          !MatchesAt(tokens, i, ordered[q].1.sequence)
    ensures r.None? ==> forall q {:trigger MatchesAt(tokens, i, ordered[q].1.sequence)} | from <= q < |ordered| ::
                          !MatchesAt(tokens, i, ordered[q].1.sequence)
    decreases |ordered| - from
  {
    if from == |ordered| then None
    else if MatchesAt(tokens, i, ordered[from].1.sequence) then Some(from)
    else FirstMatch(tokens, i, ordered, from + 1)
  }

  predicate Tried(ordered: seq<(string, PatternEntry)>)
  {
    forall q | 0 <= q < |ordered| :: |ordered[q].1.sequence| > 0 && Pairs(ordered[q].1.sequence)
  }

  /** The tokens the rewrite emits from index `i` on. */
  function Substituted(tokens: seq<Token>, ordered: seq<(string, PatternEntry)>, i: nat): seq<Token>
    requires Tried(ordered)
    decreases |tokens| - i
  {
    if i >= |tokens| then []
    else
      match FirstMatch(tokens, i, ordered, 0)
      case Some(q) =>
        var n := |ordered[q].1.sequence|;
        [PatternRef(ordered[q].0, n, i)] + Substituted(tokens, ordered, i + n)
      case None => [tokens[i]] + Substituted(tokens, ordered, i + 1)
  }

  /** The ids of the patterns the rewrite substitutes from index `i` on, in order. */
  function Chosen(tokens: seq<Token>, ordered: seq<(string, PatternEntry)>, i: nat): seq<string>
    requires Tried(ordered)
    decreases |tokens| - i
  {
    if i >= |tokens| then []
    else
      match FirstMatch(tokens, i, ordered, 0)
      case Some(q) => [ordered[q].0] + Chosen(tokens, ordered, i + |ordered[q].1.sequence|)
      case None => Chosen(tokens, ordered, i + 1)
  }

  /** A `defaultdict(int)` incremented once per id of `ids`. */
  function Tally(ids: seq<string>): map<string, nat>
  {
    if ids == [] then map[]
    else
      var occ := Tally(ids[..|ids| - 1]);
      var id := ids[|ids| - 1];
      occ[id := (if id in occ then occ[id] else 0) + 1]
  }

  lemma WellFormedOrdered(d: PatternDict)
    requires WellFormed(d)
    ensures Tried(Ordered(d))
  {
    OrderedEntries(d);
  }

  lemma StepMatch(tokens: seq<Token>, ordered: seq<(string, PatternEntry)>, i: nat, q: nat,
                  done: seq<Token>, chosen: seq<string>)
    requires Tried(ordered) && i < |tokens| && FirstMatch(tokens, i, ordered, 0) == Some(q)
    ensures var n := |ordered[q].1.sequence|;
            done + Substituted(tokens, ordered, i) ==
              (done + [PatternRef(ordered[q].0, n, i)]) + Substituted(tokens, ordered, i + n) &&
            chosen + Chosen(tokens, ordered, i) == (chosen + [ordered[q].0]) + Chosen(tokens, ordered, i + n)
  {
    var n := |ordered[q].1.sequence|;
    var t := PatternRef(ordered[q].0, n, i);
    assert Substituted(tokens, ordered, i) == [t] + Substituted(tokens, ordered, i + n);
    assert Chosen(tokens, ordered, i) == [ordered[q].0] + Chosen(tokens, ordered, i + n);
    Assoc(done, [t], Substituted(tokens, ordered, i + n));
    Assoc(chosen, [ordered[q].0], Chosen(tokens, ordered, i + n));
  }

  lemma Assoc<T>(a: seq<T>, b: seq<T>, c: seq<T>)
    ensures a + (b + c) == (a + b) + c
  {
  }

  lemma StepKeep(tokens: seq<Token>, ordered: seq<(string, PatternEntry)>, i: nat,
                 done: seq<Token>, chosen: seq<string>)
    requires Tried(ordered) && i < |tokens| && FirstMatch(tokens, i, ordered, 0).None?
    ensures done + Substituted(tokens, ordered, i) == (done + [tokens[i]]) + Substituted(tokens, ordered, i + 1)
    ensures Chosen(tokens, ordered, i) == Chosen(tokens, ordered, i + 1)
  {
  }

  /** The innermost loop: does the pattern match at `i`? */
  method MatchAt(tokens: seq<Token>, i: nat, sequence: seq<Key>) returns (match': bool)
    requires Pairs(sequence)
    ensures match' == MatchesAt(tokens, i, sequence)
  {
    if i + |sequence| > |tokens| {
      return false;
    }
    var j := 0;
    while j < |sequence|
      invariant j <= |sequence|
      invariant forall k | 0 <= k < j :: KeyMatches(tokens[i + k], sequence[k])
    {
      var token := tokens[i + j];
      var expected := sequence[j];
      if expected.tag == "L" {
        if !token.Literal? || token.text != expected.data {
          return false;
        }
      } else {
        if TypeLetter(token) != expected.tag || IdOf(token) != expected.data {
          return false;
        }
      }
      j := j + 1;
    }
    return true;
  }

  /** The loop over the patterns, longest first, stopping at the first match. */
  method FindPattern(tokens: seq<Token>, i: nat, ordered: seq<(string, PatternEntry)>) returns (found: Option<nat>)
    requires Tried(ordered)
    ensures found == FirstMatch(tokens, i, ordered, 0)
  {
    var q := 0;
    while q < |ordered|
      invariant q <= |ordered|
      invariant FirstMatch(tokens, i, ordered, q) == FirstMatch(tokens, i, ordered, 0)
    {
      var matched := MatchAt(tokens, i, ordered[q].1.sequence);
      if matched {
        return Some(q);
      }
      q := q + 1;
    }
    return None;
  }

  method SubstitutePatterns(tokens: seq<Token>, d: PatternDict)
    returns (substituted: seq<Token>, occurrences: map<string, nat>)
    requires WellFormed(d)
    ensures Tried(Ordered(d))
    ensures substituted == Substituted(tokens, Ordered(d), 0)
    ensures occurrences == Tally(Chosen(tokens, Ordered(d), 0))
  {
    var ordered := SortDesc(Items(d), ByLength);
    WellFormedOrdered(d);
    var skipPositions: set<nat> := {};
    substituted := [];
    occurrences := map[];
    ghost var chosen: seq<string> := [];
    var i := 0;
    while i < |tokens|
      invariant substituted + Substituted(tokens, ordered, i) == Substituted(tokens, ordered, 0)
      invariant chosen + Chosen(tokens, ordered, i) == Chosen(tokens, ordered, 0)
      invariant occurrences == Tally(chosen)
      invariant forall p | p in skipPositions :: p < i
      decreases |tokens| - i
    {
      if i in skipPositions {
        // never taken: every recorded position lies before `i`
        assert false;
      }
      substituted, chosen, occurrences, skipPositions, i :=
        SubstituteAt(tokens, ordered, i, substituted, chosen, occurrences, skipPositions);
    }
    assert chosen + [] == chosen && substituted + [] == substituted;
  }

  /** One turn of the scan at `i`: a pattern reference for the first pattern that
      matches there, its positions marked as skipped, or else the token itself;
      the index moves past what was consumed. */
  method SubstituteAt(tokens: seq<Token>, ordered: seq<(string, PatternEntry)>, i: nat,
                      substituted: seq<Token>, ghost chosen: seq<string>, occurrences: map<string, nat>,
                      skipPositions: set<nat>)
    returns (substituted': seq<Token>, ghost chosen': seq<string>, occurrences': map<string, nat>,
             skipPositions': set<nat>, next: nat)
    requires Tried(ordered) && i < |tokens|
    requires occurrences == Tally(chosen)
    requires forall p | p in skipPositions :: p < i
    ensures i < next <= |tokens|
    ensures substituted + Substituted(tokens, ordered, i) == substituted' + Substituted(tokens, ordered, next)
    ensures chosen + Chosen(tokens, ordered, i) == chosen' + Chosen(tokens, ordered, next)
    ensures occurrences' == Tally(chosen')
    ensures forall p | p in skipPositions' :: p < next
  {
    var found := FindPattern(tokens, i, ordered);
    if found.Some? {
      var patternId := ordered[found.value].0;
      var patternLen := |ordered[found.value].1.sequence|;
      StepMatch(tokens, ordered, i, found.value, substituted, chosen);
      TallySnoc(chosen, patternId);
      substituted' := substituted + [PatternRef(patternId, patternLen, i)];
      chosen' := chosen + [patternId];
      occurrences' := occurrences[patternId := (if patternId in occurrences then occurrences[patternId] else 0) + 1];
      skipPositions' := SkipSpan(skipPositions, i, patternLen);
      next := i + patternLen;
      assert chosen' + Chosen(tokens, ordered, next) == chosen + Chosen(tokens, ordered, i);
    } else {
      StepKeep(tokens, ordered, i, substituted, chosen);
      substituted', chosen', occurrences', skipPositions' := substituted + [tokens[i]], chosen, occurrences, skipPositions;
      next := i + 1;
    }
  }

  /** The positions a match covers are added to the skip set. */
  method SkipSpan(skipPositions: set<nat>, i: nat, patternLen: nat) returns (skip: set<nat>)
    ensures forall p :: p in skip <==> p in skipPositions || i <= p < i + patternLen
  {
    skip := skipPositions;
    var j := 0;
    while j < patternLen
      invariant j <= patternLen
      invariant forall p :: p in skip <==> p in skipPositions || i <= p < i + j
    {
      skip := skip + {i + j};
      j := j + 1;
    }
  }

  lemma TallySnoc(ids: seq<string>, id: string)
    ensures Tally(ids + [id]) == Tally(ids)[id := (if id in Tally(ids) then Tally(ids)[id] else 0) + 1]
  {
    assert (ids + [id])[..|ids|] == ids;
  }

  // ----- Properties

  /** The pattern chosen at an index is a longest one among those that match there
      (by the `length` it records); every pattern tried before it fails. */
  lemma LongestFirst(tokens: seq<Token>, i: nat, ordered: seq<(string, PatternEntry)>, q: nat, q': nat)
    requires Tried(ordered) && SortedDesc(ordered, ByLength)
    requires FirstMatch(tokens, i, ordered, 0) == Some(q)
    requires q' < |ordered| && MatchesAt(tokens, i, ordered[q'].1.sequence)
    ensures q <= q' && ordered[q'].1.length <= ordered[q].1.length
  {
    if q' != q {
      assert ByLength(ordered[q]) >= ByLength(ordered[q']);
    }
  }

  /** The rewrite tries the dictionary's patterns, each once, by non-increasing
      `length`, and among equal lengths in dictionary order. */
  lemma OrderedSpec(d: PatternDict)
    requires Listed(d)
    ensures SortedDesc(Ordered(d), ByLength)
    ensures multiset(Ordered(d)) == multiset(Items(d))
    ensures forall v :: WithKey(Ordered(d), ByLength, v) == WithKey(Items(d), ByLength, v)
  {
    SortDescSpec(Items(d), ByLength);
  }

  predicate NoPatterns(tokens: seq<Token>)
  {
    forall i | 0 <= i < |tokens| :: !tokens[i].PatternRef?
  }

  /** A match means the tokens there have the pattern's keys. */
  lemma MatchedKeys(tokens: seq<Token>, i: nat, sequence: seq<Key>)
    requires Pairs(sequence) && MatchesAt(tokens, i, sequence)
    ensures SeqKeys(tokens[i..i + |sequence|]) == sequence
  {
    forall j | 0 <= j < |sequence| ensures SeqKeys(tokens[i..i + |sequence|])[j] == sequence[j] {
      assert KeyMatches(tokens[i + j], sequence[j]);
    }
  }

  /** One step of the rewrite, unfolded: a pattern matches at `i`. */
  lemma UnfoldMatch(tokens: seq<Token>, ordered: seq<(string, PatternEntry)>, i: nat, q: nat)
    requires Tried(ordered) && i < |tokens| && FirstMatch(tokens, i, ordered, 0) == Some(q)
    ensures i + |ordered[q].1.sequence| <= |tokens|
    ensures Substituted(tokens, ordered, i) ==
            [PatternRef(ordered[q].0, |ordered[q].1.sequence|, i)] + Substituted(tokens, ordered, i + |ordered[q].1.sequence|)
    ensures Chosen(tokens, ordered, i) == [ordered[q].0] + Chosen(tokens, ordered, i + |ordered[q].1.sequence|)
  {
    var n := |ordered[q].1.sequence|;
    assert Substituted(tokens, ordered, i) == [PatternRef(ordered[q].0, n, i)] + Substituted(tokens, ordered, i + n);
  }

  /** One step of the rewrite, unfolded: no pattern matches at `i`. */
  lemma UnfoldKeep(tokens: seq<Token>, ordered: seq<(string, PatternEntry)>, i: nat)
    requires Tried(ordered) && i < |tokens| && FirstMatch(tokens, i, ordered, 0).None?
    ensures Substituted(tokens, ordered, i) == [tokens[i]] + Substituted(tokens, ordered, i + 1)
    ensures Chosen(tokens, ordered, i) == Chosen(tokens, ordered, i + 1)
  {
  }

  /** Each pattern token replaced by its dictionary sequence, every other token by
      its key. */
  function Expand(out: seq<Token>, d: PatternDict): seq<Key>
  {
    if out == [] then []
    else
      (if out[0].PatternRef? && out[0].id in d.members then d.members[out[0].id].sequence else [SeqKey(out[0])]) +
      Expand(out[1..], d)
  }

  lemma ExpandCons(t: Token, rest: seq<Token>, d: PatternDict)
    ensures Expand([t] + rest, d) ==
            (if t.PatternRef? && t.id in d.members then d.members[t.id].sequence else [SeqKey(t)]) + Expand(rest, d)
  {
    assert ([t] + rest)[1..] == rest;
  }

  /** Each pattern token replaced by the input tokens it covers. */
  function Restore(out: seq<Token>, tokens: seq<Token>): seq<Token>
  {
    if out == [] then []
    else
      var t := out[0];
      (if t.PatternRef? && t.position + t.length <= |tokens| then tokens[t.position..t.position + t.length] else [t]) +
      Restore(out[1..], tokens)
  }

  lemma RestoreCons(t: Token, rest: seq<Token>, tokens: seq<Token>)
    ensures Restore([t] + rest, tokens) ==
            (if t.PatternRef? && t.position + t.length <= |tokens| then tokens[t.position..t.position + t.length] else [t]) +
            Restore(rest, tokens)
  {
    assert ([t] + rest)[1..] == rest;
  }

  lemma SeqKeysAppend(a: seq<Token>, b: seq<Token>)
    ensures SeqKeys(a + b) == SeqKeys(a) + SeqKeys(b)
  {
  }

  /** Every tried pattern is the dictionary's entry under its id. */
  predicate EntriesOf(ordered: seq<(string, PatternEntry)>, d: PatternDict)
  {
    forall q | 0 <= q < |ordered| :: ordered[q].0 in d.members && d.members[ordered[q].0] == ordered[q].1
  }

  lemma {:induction false} ExpandFrom(d: PatternDict, ordered: seq<(string, PatternEntry)>, tokens: seq<Token>, i: nat)
    requires Tried(ordered) && EntriesOf(ordered, d) && NoPatterns(tokens) && i <= |tokens|
    ensures Expand(Substituted(tokens, ordered, i), d) == SeqKeys(tokens[i..])
    decreases |tokens| - i
  {
    if i < |tokens| {
      ExpandFrom(d, ordered, tokens, NextIndex(tokens, ordered, i));
      ExpandStep(d, ordered, tokens, i);
    } else {
      assert tokens[i..] == [];
    }
  }

  /** Where the rewrite goes on after index `i`: past the match, or past the token. */
  function NextIndex(tokens: seq<Token>, ordered: seq<(string, PatternEntry)>, i: nat): (next: nat)
    requires Tried(ordered) && i < |tokens|
    ensures i < next <= |tokens|
  {
    match FirstMatch(tokens, i, ordered, 0)
    case Some(q) => i + |ordered[q].1.sequence|
    case None => i + 1
  }

  /** One step of `ExpandFrom`, given what the rest expands to. */
  lemma ExpandStep(d: PatternDict, ordered: seq<(string, PatternEntry)>, tokens: seq<Token>, i: nat)
    requires Tried(ordered) && EntriesOf(ordered, d) && NoPatterns(tokens) && i < |tokens|
    requires Expand(Substituted(tokens, ordered, NextIndex(tokens, ordered, i)), d) ==
             SeqKeys(tokens[NextIndex(tokens, ordered, i)..])
    ensures Expand(Substituted(tokens, ordered, i), d) == SeqKeys(tokens[i..])
  {
    var found := FirstMatch(tokens, i, ordered, 0);
    if found.Some? {
      var q := found.value;
      var n := |ordered[q].1.sequence|;
      UnfoldMatch(tokens, ordered, i, q);
      assert NextIndex(tokens, ordered, i) == i + n;
      assert ordered[q].0 in d.members && d.members[ordered[q].0] == ordered[q].1;
      ExpandMatchStep(d, tokens, i, ordered[q].0, ordered[q].1.sequence, Substituted(tokens, ordered, i + n));
    } else {
      UnfoldKeep(tokens, ordered, i);
      ExpandKept(d, tokens, i, Substituted(tokens, ordered, i + 1));
    }
  }

  /** A pattern token for a pattern that matches at `i` expands to the keys there. */
  lemma ExpandMatchStep(d: PatternDict, tokens: seq<Token>, i: nat, id: string, sequence: seq<Key>, rest: seq<Token>)
    requires id in d.members && d.members[id].sequence == sequence
    requires Pairs(sequence) && MatchesAt(tokens, i, sequence)
    requires Expand(rest, d) == SeqKeys(tokens[i + |sequence|..])
    ensures Expand([PatternRef(id, |sequence|, i)] + rest, d) == SeqKeys(tokens[i..])
  {
    MatchedKeys(tokens, i, sequence);
    ExpandMatched(d, tokens, i, id, rest);
  }

  /** A pattern token whose sequence the tokens from `i` have expands to their keys. */
  lemma ExpandMatched(d: PatternDict, tokens: seq<Token>, i: nat, id: string, rest: seq<Token>)
    requires id in d.members
    requires var n := |d.members[id].sequence|;
             i + n <= |tokens| && SeqKeys(tokens[i..i + n]) == d.members[id].sequence &&
             Expand(rest, d) == SeqKeys(tokens[i + n..])
    ensures Expand([PatternRef(id, |d.members[id].sequence|, i)] + rest, d) == SeqKeys(tokens[i..])
  {
    var n := |d.members[id].sequence|;
    var covered, after := tokens[i..i + n], tokens[i + n..];
    calc {
      Expand([PatternRef(id, n, i)] + rest, d);
    == { ExpandCons(PatternRef(id, n, i), rest, d); }
      d.members[id].sequence + Expand(rest, d);
    == { SeqKeysAppend(covered, after); }
      SeqKeys(covered + after);
    == { assert covered + after == tokens[i..]; }
      SeqKeys(tokens[i..]);
    }
  }

  /** A kept token expands to its key. */
  lemma ExpandKept(d: PatternDict, tokens: seq<Token>, i: nat, rest: seq<Token>)
    requires i < |tokens| && !tokens[i].PatternRef? && Expand(rest, d) == SeqKeys(tokens[i + 1..])
    ensures Expand([tokens[i]] + rest, d) == SeqKeys(tokens[i..])
  {
    ExpandCons(tokens[i], rest, d);
    assert tokens[i..] == [tokens[i]] + tokens[i + 1..];
    SeqKeysAppend([tokens[i]], tokens[i + 1..]);
  }

  /** Expanding the pattern tokens gives back the keys of the input: every token is
      kept once or covered by exactly one pattern whose sequence it matches. */
  lemma ExpandSubstituted(d: PatternDict, tokens: seq<Token>)
    requires WellFormed(d) && NoPatterns(tokens)
    ensures Tried(Ordered(d))
    ensures Expand(Substituted(tokens, Ordered(d), 0), d) == SeqKeys(tokens)
  {
    WellFormedOrdered(d);
    OrderedEntries(d);
    ExpandFrom(d, Ordered(d), tokens, 0);
  }

  lemma {:induction false} RestoreFrom(ordered: seq<(string, PatternEntry)>, tokens: seq<Token>, i: nat)
    requires Tried(ordered) && NoPatterns(tokens) && i <= |tokens|
    ensures Restore(Substituted(tokens, ordered, i), tokens) == tokens[i..]
    decreases |tokens| - i
  {
    if i < |tokens| {
      RestoreFrom(ordered, tokens, NextIndex(tokens, ordered, i));
      RestoreStep(ordered, tokens, i);
    } else {
      assert tokens[i..] == [];
    }
  }

  /** One step of `RestoreFrom`, given what the rest restores to. */
  lemma RestoreStep(ordered: seq<(string, PatternEntry)>, tokens: seq<Token>, i: nat)
    requires Tried(ordered) && NoPatterns(tokens) && i < |tokens|
    requires Restore(Substituted(tokens, ordered, NextIndex(tokens, ordered, i)), tokens) ==
             tokens[NextIndex(tokens, ordered, i)..]
    ensures Restore(Substituted(tokens, ordered, i), tokens) == tokens[i..]
  {
    var found := FirstMatch(tokens, i, ordered, 0);
    if found.Some? {
      var q := found.value;
      var n := |ordered[q].1.sequence|;
      UnfoldMatch(tokens, ordered, i, q);
      RestoreMatched(tokens, i, n, ordered[q].0, Substituted(tokens, ordered, i + n));
    } else {
      UnfoldKeep(tokens, ordered, i);
      RestoreKept(tokens, i, Substituted(tokens, ordered, i + 1));
    }
  }

  /** A pattern token over `n` tokens from `i` restores them. */
  lemma RestoreMatched(tokens: seq<Token>, i: nat, n: nat, id: string, rest: seq<Token>)
    requires i + n <= |tokens| && Restore(rest, tokens) == tokens[i + n..]
    ensures Restore([PatternRef(id, n, i)] + rest, tokens) == tokens[i..]
  {
    RestoreCons(PatternRef(id, n, i), rest, tokens);
    assert tokens[i..] == tokens[i..i + n] + tokens[i + n..];
  }

  /** A kept token restores itself. */
  lemma RestoreKept(tokens: seq<Token>, i: nat, rest: seq<Token>)
    requires i < |tokens| && !tokens[i].PatternRef? && Restore(rest, tokens) == tokens[i + 1..]
    ensures Restore([tokens[i]] + rest, tokens) == tokens[i..]
  {
    RestoreCons(tokens[i], rest, tokens);
    assert tokens[i..] == [tokens[i]] + tokens[i + 1..];
  }

  /** Each pattern token records where its tokens start and how many it covers, so
      putting them back gives the input unchanged, in order and without overlap. */
  lemma RestoreSubstituted(d: PatternDict, tokens: seq<Token>)
    requires WellFormed(d) && NoPatterns(tokens)
    ensures Tried(Ordered(d))
    ensures Restore(Substituted(tokens, Ordered(d), 0), tokens) == tokens
  {
    WellFormedOrdered(d);
    RestoreFrom(Ordered(d), tokens, 0);
  }

  /** The ids of the pattern tokens of `out`, in order. */
  function PatternIds(out: seq<Token>): seq<string>
  {
    if out == [] then [] else (if out[0].PatternRef? then [out[0].id] else []) + PatternIds(out[1..])
  }

  lemma PatternIdsCons(t: Token, rest: seq<Token>)
    ensures PatternIds([t] + rest) == (if t.PatternRef? then [t.id] else []) + PatternIds(rest)
  {
    assert ([t] + rest)[1..] == rest;
  }

  /** On an input without pattern tokens, the ids the rewrite chooses are the ids
      of the pattern tokens it emits. */
  lemma {:induction false} ChosenArePatternTokens(ordered: seq<(string, PatternEntry)>, tokens: seq<Token>, i: nat)
    requires Tried(ordered) && NoPatterns(tokens)
    ensures PatternIds(Substituted(tokens, ordered, i)) == Chosen(tokens, ordered, i)
    decreases |tokens| - i
  {
    if i < |tokens| {
      var found := FirstMatch(tokens, i, ordered, 0);
      if found.Some? {
        var q := found.value;
        var n := |ordered[q].1.sequence|;
        UnfoldMatch(tokens, ordered, i, q);
        ChosenArePatternTokens(ordered, tokens, i + n);
        PatternIdsCons(PatternRef(ordered[q].0, n, i), Substituted(tokens, ordered, i + n));
      } else {
        UnfoldKeep(tokens, ordered, i);
        ChosenArePatternTokens(ordered, tokens, i + 1);
        PatternIdsCons(tokens[i], Substituted(tokens, ordered, i + 1));
      }
    } else {
      assert Substituted(tokens, ordered, i) == [] && Chosen(tokens, ordered, i) == [];
    }
  }

  /** The counter holds exactly the ids seen, each with its number of occurrences. */
  lemma {:induction false} TallySpec(ids: seq<string>)
    ensures forall id :: id in Tally(ids) <==> id in ids
    ensures forall id | id in Tally(ids) :: Tally(ids)[id] == Count(ids, id)
  {
    if ids != [] {
      TallySpec(ids[..|ids| - 1]);
      assert ids == ids[..|ids| - 1] + [ids[|ids| - 1]];
    }
  }

  /** `pattern_occurrences[c]` is the number of pattern tokens with id `c` in the
      output, and only emitted ids are keys. */
  lemma OccurrencesSpec(d: PatternDict, tokens: seq<Token>)
    requires WellFormed(d) && NoPatterns(tokens)
    ensures Tried(Ordered(d))
    ensures var out := Substituted(tokens, Ordered(d), 0);
            var occ := Tally(Chosen(tokens, Ordered(d), 0));
            (forall id :: id in occ <==> id in PatternIds(out)) &&
            forall id | id in occ :: occ[id] == Count(PatternIds(out), id)
  {
    WellFormedOrdered(d);
    ChosenArePatternTokens(Ordered(d), tokens, 0);
    TallySpec(Chosen(tokens, Ordered(d), 0));
  }
}
