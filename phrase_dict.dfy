/** The phrase dictionary builder (`extract_phrases`): every run of two to six
    consecutive words, grouped by its lowercase form; a group seen often enough
    becomes an entry `P0001`, `P0002`, ... holding its most common spelling. */
module PhraseDict {
  import opened Common
  import opened Decimal
  import opened Grouping
  import opened Scan

  datatype PhraseEntry = PhraseEntry(original: string, count: nat, variants: nat)

  /** The id of the `n`-th retained phrase. */
  function PhraseId(n: nat): string
  {
    "P" + ZeroPad(n, 4)
  }

  /** How many `n`-word runs `words` has: `range(len(words) - n + 1)`. */
  function Starts(words: seq<string>, n: nat): nat
  {
    if |words| + 1 >= n then |words| + 1 - n else 0
  }

  /** The run of `n` words from `i`, joined by single spaces, under its lowercase form. */
  function Gram(words: seq<string>, i: nat, n: nat): (string, string)
    requires i + n <= |words|
  {
    var phrase := Join(words[i..i + n], " ");
    (Lower(phrase), phrase)
  }

  /** The first `count` runs of `n` words. */
  function GramsOf(words: seq<string>, n: nat, count: nat): (gs: seq<(string, string)>)
    requires count <= Starts(words, n)
    ensures |gs| == count
  {
    seq(count, i requires 0 <= i < count => Gram(words, i, n))
  }

  /** Every run of 2 up to `n - 1` words, shortest runs first, each length from the left. */
  function GramsBelow(words: seq<string>, n: nat): seq<(string, string)>
  {
    if n <= 2 then [] else GramsBelow(words, n - 1) + GramsOf(words, n - 1, Starts(words, n - 1))
  }

  /** The n-grams the builder counts, in the order it counts them. */
  function AllGrams(words: seq<string>): seq<(string, string)>
  {
    GramsBelow(words, 7)
  }

  function EntryOf(variants: seq<string>): PhraseEntry
    requires variants != []
  {
    PhraseEntry(MostCommon(variants), |variants|, DistinctCount(variants))
  }

  /** The keys of `keys` whose group has at least `threshold` members, in order. */
  function Retained(g: Groups<string, string>, keys: seq<string>, threshold: int): (r: seq<string>)
    requires forall k | k in keys :: k in g.members
    ensures forall k | k in r :: k in keys && k in g.members && |g.members[k]| >= threshold
    ensures forall k | k in keys && |g.members[k]| >= threshold :: k in r
  {
    if keys == [] then []
    else
      var init := Retained(g, keys[..|keys| - 1], threshold);
      var k := keys[|keys| - 1];
      if |g.members[k]| >= threshold then init + [k] else init
  }

  /** The retained groups numbered from 1, as (id, entry) pairs. */
  function Numbered(g: Groups<string, string>, r: seq<string>): (es: seq<(string, PhraseEntry)>)
    requires forall k | k in r :: k in g.members && g.members[k] != []
    ensures |es| == |r|
  {
    seq(|r|, j requires 0 <= j < |r| => (PhraseId(j + 1), EntryOf(g.members[r[j]])))
  }

  /** The groups of a word list. */
  function PhraseGroups(words: seq<string>): Groups<string, string>
  {
    GroupAll(AllGrams(words))
  }

  lemma PhraseGroupsShape(words: seq<string>)
    ensures Valid(PhraseGroups(words))
    ensures forall k | k in PhraseGroups(words).order :: k in PhraseGroups(words).members
    ensures forall k | k in PhraseGroups(words).members :: PhraseGroups(words).members[k] != []
  {
    var ps := AllGrams(words);
    GroupAllSpec(ps);
    FirstSeenSpec(KeysOf(ps));
    forall k | k in PhraseGroups(words).members
      ensures PhraseGroups(words).members[k] != []
    {
      ValuesOfCount(ps, k);
    }
    var g := PhraseGroups(words);
    assert g.members.Keys == (set i | 0 <= i < |g.order| :: g.order[i]) by {
      forall x | x in g.members ensures x in (set i | 0 <= i < |g.order| :: g.order[i]) {
        var i :| 0 <= i < |g.order| && g.order[i] == x;
      }
    }
  }

  /** The dictionary the builder returns for a word list and the integer threshold
      `min_count`. */
  function PhraseDictOf(words: seq<string>, minCount: int): Dict<string, PhraseEntry>
  {
    var g := PhraseGroups(words);
    PhraseGroupsShape(words);
    PutAll(Dict(map[], []), Numbered(g, Retained(g, g.order, Max(minCount, 2))))
  }

  lemma GramsOfSnoc(words: seq<string>, n: nat, i: nat)
    requires i < Starts(words, n)
    ensures GramsOf(words, n, i + 1) == GramsOf(words, n, i) + [Gram(words, i, n)]
  {
  }

  lemma GroupAllSnoc<K, V>(ps: seq<(K, V)>, p: (K, V))
    ensures GroupAll(ps + [p]) == Add(GroupAll(ps), p.0, p.1)
  {
    assert (ps + [p])[..|ps|] == ps;
  }

  /** The counting loops: every n-gram, n = 2..6, appended to its lowercase group. */
  method GroupPhrases(words: seq<string>) returns (g: Groups<string, string>)
    ensures g == PhraseGroups(words)
  {
    g := Dict(map[], []);
    var n := 2;
    while n < 7
      invariant 2 <= n <= 7
      invariant g == GroupAll(GramsBelow(words, n))
    {
      var i := 0;
      ghost var ps := GramsBelow(words, n);
      assert ps + GramsOf(words, n, 0) == ps;
      while i < Starts(words, n)
        invariant 0 <= i <= Starts(words, n)
        invariant ps == GramsBelow(words, n) + GramsOf(words, n, i)
        invariant g == GroupAll(ps)
      {
        var phrase := Join(words[i..i + n], " ");
        GramsOfSnoc(words, n, i);
        GroupAllSnoc(ps, (Lower(phrase), phrase));
        ps := ps + [(Lower(phrase), phrase)];
        g := Add(g, Lower(phrase), phrase);
        i := i + 1;
      }
      n := n + 1;
    }
  }

  /** The filtering loop: each group with enough members, in group order, becomes the
      next numbered entry. */
  method NumberPhrases(g: Groups<string, string>, threshold: int) returns (d: Dict<string, PhraseEntry>)
    requires forall k | k in g.order :: k in g.members && g.members[k] != []
    ensures d == PutAll(Dict(map[], []), Numbered(g, Retained(g, g.order, threshold)))
  {
    d := Dict(map[], []);
    var phraseId := 1;
    var j := 0;
    while j < |g.order|
      invariant 0 <= j <= |g.order|
      invariant phraseId == |Retained(g, g.order[..j], threshold)| + 1
      invariant d == PutAll(Dict(map[], []), Numbered(g, Retained(g, g.order[..j], threshold)))
    {
      d, phraseId := NumberNext(g, threshold, j, d, phraseId);
      j := j + 1;
    }
    assert g.order[..j] == g.order;
  }

  /** One turn of the filtering loop: the group at `j` is numbered when it has
      enough members. */
  method NumberNext(g: Groups<string, string>, threshold: int, j: nat, d: Dict<string, PhraseEntry>, phraseId: nat)
    returns (d': Dict<string, PhraseEntry>, phraseId': nat)
    requires forall k | k in g.order :: k in g.members && g.members[k] != []
    requires j < |g.order|
    requires phraseId == |Retained(g, g.order[..j], threshold)| + 1
    requires d == PutAll(Dict(map[], []), Numbered(g, Retained(g, g.order[..j], threshold)))
    ensures phraseId' == |Retained(g, g.order[..j + 1], threshold)| + 1
    ensures d' == PutAll(Dict(map[], []), Numbered(g, Retained(g, g.order[..j + 1], threshold)))
  {
    var key := g.order[j];
    RetainedSnoc(g, g.order, j, threshold);
    var variants := g.members[key];
    d', phraseId' := d, phraseId;
    if |variants| >= threshold {
      NumberedSnoc(g, Retained(g, g.order[..j], threshold), key);
      d' := Put(d, PhraseId(phraseId), EntryOf(variants));
      phraseId' := phraseId + 1;
    }
  }

  lemma RetainedSnoc(g: Groups<string, string>, keys: seq<string>, j: nat, threshold: int)
    requires j < |keys| && forall k | k in keys :: k in g.members
    ensures Retained(g, keys[..j + 1], threshold) ==
            if |g.members[keys[j]]| >= threshold then Retained(g, keys[..j], threshold) + [keys[j]]
            else Retained(g, keys[..j], threshold)
  {
    assert keys[..j + 1][..j] == keys[..j];
  }

  lemma NumberedSnoc(g: Groups<string, string>, before: seq<string>, key: string)
    requires forall k | k in before :: k in g.members && g.members[k] != []
    requires key in g.members && g.members[key] != []
    ensures PutAll(Dict(map[], []), Numbered(g, before + [key])) ==
            Put(PutAll(Dict(map[], []), Numbered(g, before)), PhraseId(|before| + 1), EntryOf(g.members[key]))
  {
    assert Numbered(g, before + [key]) == Numbered(g, before) + [(PhraseId(|before| + 1), EntryOf(g.members[key]))];
    PutAllSnoc(Dict(map[], []), Numbered(g, before), (PhraseId(|before| + 1), EntryOf(g.members[key])));
  }

  /** `extract_phrases(text, threshold)`, with `minCount` standing for
      `int(total_words * threshold)`. */
  method ExtractPhrases(text: string, minCount: int) returns (d: Dict<string, PhraseEntry>)
    ensures d == PhraseDictOf(WordsIn(text), minCount)
    ensures WordsIn(text) == [] ==> d == Dict(map[], [])
  {
    var words := WordsIn(text);
    if |words| == 0 {
      return Dict(map[], []);
    }
    var g := GroupPhrases(words);
    PhraseGroupsShape(words);
    d := NumberPhrases(g, Max(minCount, 2));
  }

  // ----- What the dictionary holds

  /** `PhraseId(1)`, ..., `PhraseId(m)` */
  function PhraseIds(m: nat): (ids: seq<string>)
    ensures |ids| == m
  {
    seq(m, j requires 0 <= j < m => PhraseId(j + 1))
  }

  lemma PhraseIdsDistinct(m: nat)
    ensures Distinct(PhraseIds(m))
  {
    forall i, j | 0 <= i < j < m
      ensures PhraseIds(m)[i] != PhraseIds(m)[j]
    {
      NumberedIdInjective("P", i + 1, j + 1, 4);
    }
  }

  /** The retained groups of a word list. */
  function RetainedOf(words: seq<string>, minCount: int): seq<string>
  {
    var g := PhraseGroups(words);
    PhraseGroupsShape(words);
    Retained(g, g.order, Max(minCount, 2))
  }

  /** Numbering any list of groups gives ids `P0001`, `P0002`, ... in list order,
      each holding the entry of its group. */
  lemma NumberedDict(g: Groups<string, string>, r: seq<string>)
    requires forall k | k in r :: k in g.members && g.members[k] != []
    ensures PutAll(Dict(map[], []), Numbered(g, r)).order == PhraseIds(|r|)
    ensures Valid(PutAll(Dict(map[], []), Numbered(g, r)))
    ensures forall j | 0 <= j < |r| ::
              PhraseIds(|r|)[j] in PutAll(Dict(map[], []), Numbered(g, r)).members &&
              PutAll(Dict(map[], []), Numbered(g, r)).members[PhraseIds(|r|)[j]] == EntryOf(g.members[r[j]])
  {
    NumberedOrder(g, r);
    NumberedValid(g, r);
    NumberedEntries(g, r);
  }

  lemma NumberedOrder(g: Groups<string, string>, r: seq<string>)
    requires forall k | k in r :: k in g.members && g.members[k] != []
    ensures PutAll(Dict(map[], []), Numbered(g, r)).order == PhraseIds(|r|)
  {
    var es := Numbered(g, r);
    var empty: Dict<string, PhraseEntry> := Dict(map[], []);
    assert KeysOf(es) == PhraseIds(|r|);
    PhraseIdsDistinct(|r|);
    PutAllDistinct(empty, es);
    assert forall i | 0 <= i < |es| :: es[i].0 !in empty.members;
  }

  lemma NumberedValid(g: Groups<string, string>, r: seq<string>)
    requires forall k | k in r :: k in g.members && g.members[k] != []
    ensures Valid(PutAll(Dict(map[], []), Numbered(g, r)))
  {
    var es := Numbered(g, r);
    var empty: Dict<string, PhraseEntry> := Dict(map[], []);
    NumberedOrder(g, r);
    PhraseIdsDistinct(|r|);
    assert KeysOf(es) == PhraseIds(|r|);
    PutAllKeys(empty, es);
    var d := PutAll(empty, es);
    assert d.members.Keys == (set i | 0 <= i < |d.order| :: d.order[i]) by {
      forall x | x in d.members ensures x in (set i | 0 <= i < |d.order| :: d.order[i]) {
        assert x in KeysOf(es);
        var i :| 0 <= i < |KeysOf(es)| && KeysOf(es)[i] == x;
        assert d.order[i] == x;
      }
    }
  }

  lemma NumberedEntries(g: Groups<string, string>, r: seq<string>)
    requires forall k | k in r :: k in g.members && g.members[k] != []
    ensures forall j | 0 <= j < |r| ::
              PhraseIds(|r|)[j] in PutAll(Dict(map[], []), Numbered(g, r)).members &&
              PutAll(Dict(map[], []), Numbered(g, r)).members[PhraseIds(|r|)[j]] == EntryOf(g.members[r[j]])
  {
    var es := Numbered(g, r);
    var empty: Dict<string, PhraseEntry> := Dict(map[], []);
    assert KeysOf(es) == PhraseIds(|r|);
    PhraseIdsDistinct(|r|);
    PutAllDistinct(empty, es);
    forall j | 0 <= j < |r|
      ensures PhraseIds(|r|)[j] in PutAll(empty, es).members && PutAll(empty, es).members[PhraseIds(|r|)[j]] == EntryOf(g.members[r[j]])
    {
      assert es[j] == (PhraseIds(|r|)[j], EntryOf(g.members[r[j]]));
    }
  }

  /** The entries are numbered `P0001`, `P0002`, ... without gaps, in the order the
      groups were first seen, one per retained group. */
  lemma PhraseIdsConsecutive(words: seq<string>, minCount: int)
    ensures PhraseDictOf(words, minCount).order == PhraseIds(|RetainedOf(words, minCount)|)
    ensures Distinct(PhraseDictOf(words, minCount).order)
    ensures Valid(PhraseDictOf(words, minCount))
  {
    var g := PhraseGroups(words);
    PhraseGroupsShape(words);
    NumberedDict(g, RetainedOf(words, minCount));
    PhraseIdsDistinct(|RetainedOf(words, minCount)|);
  }

  /** A group is retained exactly when it counts at least `max(min_count, 2)`
      n-grams. */
  lemma PhraseRetention(words: seq<string>, minCount: int, k: string)
    ensures k in RetainedOf(words, minCount) <==> Count(KeysOf(AllGrams(words)), k) >= Max(minCount, 2)
  {
    var ps := AllGrams(words);
    GroupAllSpec(ps);
    FirstSeenSpec(KeysOf(ps));
    PhraseGroupsShape(words);
    if k in PhraseGroups(words).members {
      ValuesOfCount(ps, k);
    }
  }

  /** The entry of the `j`-th retained group: a spelling of greatest count, the
      first seen of equal counts, that lowercases to the group's key; the number of
      n-grams in the group; the number of distinct spellings. */
  lemma PhraseEntrySpec(words: seq<string>, minCount: int, j: nat)
    requires j < |RetainedOf(words, minCount)|
    ensures var key := RetainedOf(words, minCount)[j];
            var vs := ValuesOf(AllGrams(words), key);
            var d := PhraseDictOf(words, minCount);
            PhraseId(j + 1) in d.members &&
            var e := d.members[PhraseId(j + 1)];
            e.count == Count(KeysOf(AllGrams(words)), key) &&
            e.variants == DistinctCount(vs) &&
            e.original in vs && Lower(e.original) == key &&
            (forall v | v in vs :: Count(vs, v) <= Count(vs, e.original)) &&
            (forall i | 0 <= i < |vs| && Count(vs, vs[i]) == Count(vs, e.original) :: e.original in vs[..i + 1])
  {
    PhraseEntryIs(words, minCount, j);
    AllGramsLower(words);
    EntryOfSpec(AllGrams(words), RetainedOf(words, minCount)[j]);
  }

  /** The `j`-th id holds the entry of the `j`-th retained group. */
  lemma PhraseEntryIs(words: seq<string>, minCount: int, j: nat)
    requires j < |RetainedOf(words, minCount)|
    ensures ValuesOf(AllGrams(words), RetainedOf(words, minCount)[j]) != []
    ensures PhraseId(j + 1) in PhraseDictOf(words, minCount).members
    ensures PhraseDictOf(words, minCount).members[PhraseId(j + 1)] ==
            EntryOf(ValuesOf(AllGrams(words), RetainedOf(words, minCount)[j]))
  {
    var g := PhraseGroups(words);
    PhraseGroupsShape(words);
    var r := RetainedOf(words, minCount);
    assert r[j] in r;
    NumberedAt(g, r, j);
    GroupAt(AllGrams(words), r[j]);
  }

  lemma NumberedAt(g: Groups<string, string>, r: seq<string>, j: nat)
    requires forall k | k in r :: k in g.members && g.members[k] != []
    requires j < |r|
    ensures PhraseId(j + 1) in PutAll(Dict(map[], []), Numbered(g, r)).members
    ensures PutAll(Dict(map[], []), Numbered(g, r)).members[PhraseId(j + 1)] == EntryOf(g.members[r[j]])
  {
    NumberedEntries(g, r);
    assert PhraseIds(|r|)[j] == PhraseId(j + 1);
  }

  /** The entry of the group of `key`: its most common spelling, the first seen of
      equal counts, lowercasing to `key`; its size; its distinct spellings. */
  lemma EntryOfSpec(ps: seq<(string, string)>, key: string)
    requires forall i | 0 <= i < |ps| :: ps[i].0 == Lower(ps[i].1)
    requires ValuesOf(ps, key) != []
    ensures var vs := ValuesOf(ps, key);
            var e := EntryOf(vs);
            e.count == Count(KeysOf(ps), key) &&
            e.variants == DistinctCount(vs) &&
            e.original in vs && Lower(e.original) == key &&
            (forall v | v in vs :: Count(vs, v) <= Count(vs, e.original)) &&
            (forall i | 0 <= i < |vs| && Count(vs, vs[i]) == Count(vs, e.original) :: e.original in vs[..i + 1])
  {
    var vs := ValuesOf(ps, key);
    ValuesOfCount(ps, key);
    MostCommonSpec(vs);
    ValuesOfLower(ps, key);
  }

  lemma AllGramsLower(words: seq<string>)
    ensures forall i | 0 <= i < |AllGrams(words)| :: AllGrams(words)[i].0 == Lower(AllGrams(words)[i].1)
  {
    GramsBelowLower(words, 7);
  }

  lemma {:induction false} GramsBelowLower(words: seq<string>, n: nat)
    ensures forall i | 0 <= i < |GramsBelow(words, n)| :: GramsBelow(words, n)[i].0 == Lower(GramsBelow(words, n)[i].1)
  {
    if n > 2 {
      GramsBelowLower(words, n - 1);
    }
  }

  /** Each run of 2 to 6 words at each start is counted once: the counted n-grams
      are those runs, listed by length and then by start. */
  lemma {:induction false} GramsBelowSpec(words: seq<string>, n: nat, m: nat, i: nat)
    requires 2 <= m < n && i < Starts(words, m)
    ensures Gram(words, i, m) in GramsBelow(words, n)
  {
    if m == n - 1 {
      assert GramsOf(words, m, Starts(words, m))[i] == Gram(words, i, m);
    } else {
      GramsBelowSpec(words, n - 1, m, i);
    }
  }

  lemma EveryGramCounted(words: seq<string>, m: nat, i: nat)
    requires 2 <= m <= 6 && i + m <= |words|
    ensures Gram(words, i, m) in AllGrams(words)
  {
    GramsBelowSpec(words, 7, m, i);
  }
}
