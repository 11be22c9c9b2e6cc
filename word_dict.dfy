/** The word dictionary builder (`extract_words`): every word, grouped by its
    lowercase form. The 39 most common English words get fixed ids such as `_th`;
    any other word seen often enough gets `W:` with up to four of its letters and
    a three-digit serial number. */
module WordDict {
  import opened Common
  import opened Decimal
  import opened Grouping
  import opened Scan

  /** One dictionary entry; `caseSensitive` says whether the word was seen with more
      than one spelling. */
  datatype WordEntry = WordEntry(original: string, count: nat, caseSensitive: bool)

  /** The common words, in the order the builder visits them. */
  const CommonWords: seq<string> := [
    "the", "be", "to", "of", "and", "a", "in", "that",
    "have", "i", "it", "for", "not", "on", "with", "he",
    "as", "you", "do", "at", "this", "but", "his", "by",
    "from", "they", "we", "say", "her", "she", "or", "an",
    "will", "my", "one", "all", "would", "there", "their"]

  /** The id of each common word, at the same index. */
  const CommonIds: seq<string> := [
    "_th", "_be", "_to", "_of", "_and", "_a", "_in", "_that",
    "_hv", "_i", "_it", "_for", "_not", "_on", "_wth", "_he",
    "_as", "_you", "_do", "_at", "_ths", "_but", "_his", "_by",
    "_frm", "_thy", "_we", "_say", "_her", "_she", "_or", "_an",
    "_wl", "_my", "_one", "_all", "_wd", "_thr", "_thr2"]

  lemma CommonIdsDistinct()
    ensures |CommonWords| == |CommonIds| == 39
    ensures forall i, j | 0 <= i < j < |CommonIds| :: CommonIds[i] != CommonIds[j]
  {
    CommonIdsWithin0();
    CommonIdsWithin1();
    CommonIdsWithin2();
    CommonIdsAcross01();
    CommonIdsAcross02();
    CommonIdsAcross12();
  }

  // The ids are compared in blocks of thirteen, which keeps each proof small.

  lemma CommonIdsWithin0()
    ensures forall i, j | 0 <= i < j < 13 :: CommonIds[i] != CommonIds[j]
  {
  }

  lemma CommonIdsWithin1()
    ensures forall i, j | 13 <= i < j < 26 :: CommonIds[i] != CommonIds[j]
  {
  }

  lemma CommonIdsWithin2()
    ensures forall i, j | 26 <= i < j < 39 :: CommonIds[i] != CommonIds[j]
  {
  }

  lemma CommonIdsAcross01()
    ensures forall i, j | 0 <= i < 13 && 13 <= j < 26 :: CommonIds[i] != CommonIds[j]
  {
  }

  lemma CommonIdsAcross02()
    ensures forall i, j | 0 <= i < 13 && 26 <= j < 39 :: CommonIds[i] != CommonIds[j]
  {
  }

  lemma CommonIdsAcross12()
    ensures forall i, j | 13 <= i < 26 && 26 <= j < 39 :: CommonIds[i] != CommonIds[j]
  {
  }

  lemma CommonIdsShape()
    ensures forall i | 0 <= i < |CommonIds| :: |CommonIds[i]| >= 2 && CommonIds[i][0] == '_'
  {
  }

  /** The id of the `n`-th retained word that is not common. */
  function WordId(lower: string, n: nat): (id: string)
    ensures |id| >= 2 && id[0] == 'W'
  {
    "W:" + Take(lower, 4) + ZeroPad(n, 3)
  }

  /** Each word under its lowercase form. */
  function WordPairs(words: seq<string>): (ps: seq<(string, string)>)
    ensures |ps| == |words|
  {
    seq(|words|, i requires 0 <= i < |words| => (Lower(words[i]), words[i]))
  }

  function WordGroups(words: seq<string>): Groups<string, string>
  {
    GroupAll(WordPairs(words))
  }

  function EntryOf(variants: seq<string>): WordEntry
    requires variants != []
  {
    WordEntry(MostCommon(variants), |variants|, DistinctCount(variants) > 1)
  }

  /** Every group of `g` has a member. */
  predicate Filled(g: Groups<string, string>)
  {
    forall k | k in g.members :: g.members[k] != []
  }

  /** The entries of the first `k` words of `common`, for those that occur, each
      under the id at the same index of `ids`. */
  function CommonEntries(g: Groups<string, string>, common: seq<string>, ids: seq<string>, k: nat)
    : seq<(string, WordEntry)>
    requires k <= |common| <= |ids| && Filled(g)
  {
    if k == 0 then []
    else
      var w := common[k - 1];
      CommonEntries(g, common, ids, k - 1) + (if w in g.members then [(ids[k - 1], EntryOf(g.members[w]))] else [])
  }

  /** The keys of `keys` that are not in `common` and whose group has at least
      `threshold` members, in order. */
  function Frequent(g: Groups<string, string>, keys: seq<string>, common: seq<string>, threshold: int): (r: seq<string>)
    requires forall k | k in keys :: k in g.members
    ensures forall k | k in r :: k in keys
  {
    if keys == [] then []
    else
      var init := Frequent(g, keys[..|keys| - 1], common, threshold);
      var k := keys[|keys| - 1];
      if k !in common && |g.members[k]| >= threshold then init + [k] else init
  }

  lemma {:induction false} FrequentSpec(g: Groups<string, string>, keys: seq<string>, common: seq<string>, threshold: int)
    requires forall k | k in keys :: k in g.members
    ensures forall k :: k in Frequent(g, keys, common, threshold) <==>
                          k in keys && k !in common && |g.members[k]| >= threshold
  {
    if keys != [] {
      FrequentSpec(g, keys[..|keys| - 1], common, threshold);
      assert keys == keys[..|keys| - 1] + [keys[|keys| - 1]];
    }
  }

  /** The frequent words numbered from 1, as (id, entry) pairs. */
  function Numbered(g: Groups<string, string>, r: seq<string>): (es: seq<(string, WordEntry)>)
    requires forall k | k in r :: k in g.members && g.members[k] != []
    ensures |es| == |r|
  {
    seq(|r|, j requires 0 <= j < |r| => (WordId(r[j], j + 1), EntryOf(g.members[r[j]])))
  }

  lemma WordGroupsShape(words: seq<string>)
    ensures Filled(WordGroups(words))
    ensures forall k | k in WordGroups(words).order :: k in WordGroups(words).members
  {
    var ps := WordPairs(words);
    GroupAllSpec(ps);
    FirstSeenSpec(KeysOf(ps));
    forall k | k in WordGroups(words).members
      ensures WordGroups(words).members[k] != []
    {
      ValuesOfCount(ps, k);
    }
  }

  /** The frequent words of a word list. */
  function FrequentOf(words: seq<string>, minCount: int): seq<string>
  {
    var g := WordGroups(words);
    WordGroupsShape(words);
    Frequent(g, g.order, CommonWords, Max(minCount, 3))
  }

  /** The dictionary the builder returns for a word list and the integer threshold
      `min_count`: the common words first, then the frequent ones. */
  function WordDictOf(words: seq<string>, minCount: int): Dict<string, WordEntry>
  {
    var g := WordGroups(words);
    WordGroupsShape(words);
    PutAll(PutAll(Dict(map[], []), CommonEntries(g, CommonWords, CommonIds, |CommonWords|)), Numbered(g, FrequentOf(words, minCount)))
  }

  // ----- The builder's loops

  /** The counting loop: each word appended to its lowercase group. */
  method GroupWords(words: seq<string>) returns (g: Groups<string, string>)
    ensures g == WordGroups(words)
  {
    g := Dict(map[], []);
    var i := 0;
    while i < |words|
      invariant 0 <= i <= |words|
      invariant g == GroupAll(WordPairs(words)[..i])
    {
      assert WordPairs(words)[..i + 1][..i] == WordPairs(words)[..i];
      g := Add(g, Lower(words[i]), words[i]);
      i := i + 1;
    }
    assert WordPairs(words)[..i] == WordPairs(words);
  }

  /** The loop over the common words, in table order: `common` and `ids` are the
      builder's word list and id table. */
  method AddCommonWords(g: Groups<string, string>, common: seq<string>, ids: seq<string>)
    returns (d: Dict<string, WordEntry>)
    requires |common| == |ids| && Filled(g)
    ensures d == PutAll(Dict(map[], []), CommonEntries(g, common, ids, |common|))
  {
    d := Dict(map[], []);
    var i := 0;
    while i < |common|
      invariant 0 <= i <= |common|
      invariant d == PutAll(Dict(map[], []), CommonEntries(g, common, ids, i))
    {
      var word := common[i];
      if word in g.members {
        var entries := CommonEntries(g, common, ids, i);
        assert CommonEntries(g, common, ids, i + 1) == entries + [(ids[i], EntryOf(g.members[word]))];
        assert (entries + [(ids[i], EntryOf(g.members[word]))])[..|entries|] == entries;
        d := Put(d, ids[i], EntryOf(g.members[word]));
      } else {
        assert CommonEntries(g, common, ids, i + 1) == CommonEntries(g, common, ids, i);
      }
      i := i + 1;
    }
  }

  /** The loop over the groups: each frequent word that is not in `common` becomes
      the next numbered entry. */
  method AddFrequentWords(g: Groups<string, string>, d0: Dict<string, WordEntry>, common: seq<string>,
                          threshold: int)
    returns (d: Dict<string, WordEntry>)
    requires forall k | k in g.order :: k in g.members && g.members[k] != []
    ensures d == PutAll(d0, Numbered(g, Frequent(g, g.order, common, threshold)))
  {
    d := d0;
    var wordId := 1;
    var j := 0;
    while j < |g.order|
      invariant 0 <= j <= |g.order|
      invariant wordId == |Frequent(g, g.order[..j], common, threshold)| + 1
      invariant d == PutAll(d0, Numbered(g, Frequent(g, g.order[..j], common, threshold)))
    {
      var key := g.order[j];
      FrequentStep(g, g.order, j, common, threshold);
      AddFrequentStep(g, d0, common, threshold, j);
      if key !in common && |g.members[key]| >= threshold {
        d := Put(d, WordId(key, wordId), EntryOf(g.members[key]));
        wordId := wordId + 1;
      }
      j := j + 1;
    }
    assert g.order[..j] == g.order;
  }

  lemma FrequentStep(g: Groups<string, string>, keys: seq<string>, j: nat, common: seq<string>, threshold: int)
    requires j < |keys| && forall k | k in keys :: k in g.members
    ensures Frequent(g, keys[..j + 1], common, threshold) ==
            if keys[j] !in common && |g.members[keys[j]]| >= threshold
            then Frequent(g, keys[..j], common, threshold) + [keys[j]]
            else Frequent(g, keys[..j], common, threshold)
  {
    assert keys[..j + 1][..j] == keys[..j];
  }

  /** One turn of the loop over the groups. */
  lemma AddFrequentStep(g: Groups<string, string>, d0: Dict<string, WordEntry>, common: seq<string>,
                        threshold: int, j: nat)
    requires j < |g.order| && forall k | k in g.order :: k in g.members && g.members[k] != []
    ensures var before := Frequent(g, g.order[..j], common, threshold);
            var key := g.order[j];
            PutAll(d0, Numbered(g, Frequent(g, g.order[..j + 1], common, threshold))) ==
            if key !in common && |g.members[key]| >= threshold
            then Put(PutAll(d0, Numbered(g, before)), WordId(key, |before| + 1), EntryOf(g.members[key]))
            else PutAll(d0, Numbered(g, before))
  {
    FrequentStep(g, g.order, j, common, threshold);
    var before := Frequent(g, g.order[..j], common, threshold);
    var key := g.order[j];
    if key !in common && |g.members[key]| >= threshold {
      NumberedPutSnoc(g, d0, before, key);
    }
  }

  lemma NumberedPutSnoc(g: Groups<string, string>, d0: Dict<string, WordEntry>, r: seq<string>, key: string)
    requires forall k | k in r + [key] :: k in g.members && g.members[k] != []
    ensures PutAll(d0, Numbered(g, r + [key])) ==
            Put(PutAll(d0, Numbered(g, r)), WordId(key, |r| + 1), EntryOf(g.members[key]))
  {
    var e := (WordId(key, |r| + 1), EntryOf(g.members[key]));
    assert Numbered(g, r + [key]) == Numbered(g, r) + [e];
    PutAllSnoc(d0, Numbered(g, r), e);
  }

  /** `extract_words(text, threshold)`, with `minCount` standing for
      `int(total_words * threshold)`. */
  method ExtractWords(text: string, minCount: int) returns (d: Dict<string, WordEntry>)
    ensures WordsIn(text) != [] ==> d == WordDictOf(WordsIn(text), minCount)
    ensures WordsIn(text) == [] ==> d == Dict(map[], [])
  {
    var words := WordsIn(text);
    if |words| == 0 {
      return Dict(map[], []);
    }
    var g := GroupWords(words);
    WordGroupsShape(words);
    d := AddCommonWords(g, CommonWords, CommonIds);
    d := AddFrequentWords(g, d, CommonWords, Max(minCount, 3));
  }

  // ----- What the dictionary holds

  /** `d` has an entry for exactly those of the first `k` common words that occur,
      each under its own id and built from its own group. */
  predicate CommonHeld(d: Dict<string, WordEntry>, g: Groups<string, string>, common: seq<string>,
                       ids: seq<string>, k: nat)
    requires |common| == |ids| && Filled(g)
  {
    (forall i | 0 <= i < |common| :: (ids[i] in d.members <==> i < k && common[i] in g.members)) &&
    (forall i | 0 <= i < k && i < |common| && common[i] in g.members ::
       ids[i] in d.members && d.members[ids[i]] == EntryOf(g.members[common[i]]))
  }

  /** The common part of the dictionary has an entry for exactly the common words
      that occur, each under its own id and built from its own group, as long as
      the ids are distinct. */
  lemma {:induction false} CommonDict(g: Groups<string, string>, common: seq<string>, ids: seq<string>, k: nat)
    requires k <= |common| == |ids| && Filled(g)
    requires forall i, j | 0 <= i < j < |ids| :: ids[i] != ids[j]
    ensures CommonHeld(PutAll(Dict(map[], []), CommonEntries(g, common, ids, k)), g, common, ids, k)
  {
    if k > 0 {
      CommonDict(g, common, ids, k - 1);
      var entries := CommonEntries(g, common, ids, k - 1);
      var w := common[k - 1];
      var prev := PutAll(Dict(map[], []), entries);
      if w in g.members {
        var e := (ids[k - 1], EntryOf(g.members[w]));
        assert CommonEntries(g, common, ids, k) == entries + [e];
        PutAllSnoc(Dict(map[], []), entries, e);
        CommonStep(prev, g, common, ids, k);
      } else {
        assert CommonEntries(g, common, ids, k) == entries + [];
        assert entries + [] == entries;
        CommonSkip(prev, g, common, ids, k);
      }
    }
  }

  /** Storing the entry of the `k`-th common word, which occurs, extends what the
      dictionary holds by that word. */
  lemma CommonStep(d: Dict<string, WordEntry>, g: Groups<string, string>, common: seq<string>,
                   ids: seq<string>, k: nat)
    requires 0 < k <= |common| == |ids| && Filled(g) && common[k - 1] in g.members
    requires forall i, j | 0 <= i < j < |ids| :: ids[i] != ids[j]
    requires CommonHeld(d, g, common, ids, k - 1)
    ensures CommonHeld(Put(d, ids[k - 1], EntryOf(g.members[common[k - 1]])), g, common, ids, k)
  {
    var next := Put(d, ids[k - 1], EntryOf(g.members[common[k - 1]]));
    forall i | 0 <= i < |common|
      ensures ids[i] in next.members <==> i < k && common[i] in g.members
    {
      if i < k - 1 {
        assert ids[i] != ids[k - 1];
      } else if i > k - 1 {
        assert ids[k - 1] != ids[i];
      }
    }
    forall i | 0 <= i < k && i < |common| && common[i] in g.members
      ensures ids[i] in next.members && next.members[ids[i]] == EntryOf(g.members[common[i]])
    {
      if i < k - 1 {
        assert ids[i] != ids[k - 1];
      }
    }
  }

  /** A common word that does not occur adds nothing. */
  lemma CommonSkip(d: Dict<string, WordEntry>, g: Groups<string, string>, common: seq<string>,
                   ids: seq<string>, k: nat)
    requires 0 < k <= |common| == |ids| && Filled(g) && common[k - 1] !in g.members
    requires CommonHeld(d, g, common, ids, k - 1)
    ensures CommonHeld(d, g, common, ids, k)
  {
  }

  /** Below 1000 the serial number takes exactly three digits, so two ids of
      different serial numbers differ. */
  lemma WordIdsDistinct(a: string, b: string, i: nat, j: nat)
    requires i < 1000 && j < 1000 && i != j
    ensures WordId(a, i) != WordId(b, j)
  {
    assert Pow10(3) == 1000;
    ZeroPadWidth(i, 3);
    ZeroPadWidth(j, 3);
    var x := WordId(a, i);
    var y := WordId(b, j);
    assert x[|x| - 3..] == ZeroPad(i, 3);
    assert y[|y| - 3..] == ZeroPad(j, 3);
    ZeroPadInjective(i, j, 3);
  }

  /** From the thousandth frequent word on, the serial number outgrows its three
      digits and ids of different words can coincide: the 2001st word `v` and the
      first word `v2` both get `W:v2001`. */
  lemma WordIdCollision()
    ensures "v" != "v2" && WordId("v", 2001) == WordId("v2", 1)
  {
    assert Digits(2001) == "2001" by {
      assert Digits(2) == "2";
      assert Digits(20) == "20";
      assert Digits(200) == "200";
    }
    assert ZeroPad(1, 3) == "001";
  }

  /** With fewer than 1000 frequent words, the numbered ids are distinct. */
  lemma NumberedKeysDistinct(g: Groups<string, string>, r: seq<string>)
    requires forall k | k in r :: k in g.members && g.members[k] != []
    requires |r| < 1000
    ensures Distinct(KeysOf(Numbered(g, r)))
    ensures forall x | x in KeysOf(Numbered(g, r)) :: x[0] == 'W'
  {
    assert KeysOf(Numbered(g, r)) == WordIds(r);
    WordIdsAllDistinct(r);
  }

  /** Every numbered id starts with `W`, however many words are numbered. */
  lemma NumberedKeysW(g: Groups<string, string>, r: seq<string>)
    requires forall k | k in r :: k in g.members && g.members[k] != []
    ensures forall x | x in KeysOf(Numbered(g, r)) :: |x| >= 2 && x[0] == 'W'
  {
    assert KeysOf(Numbered(g, r)) == WordIds(r);
  }

  /** The ids the numbered words get, in order. */
  function WordIds(r: seq<string>): (ids: seq<string>)
    ensures |ids| == |r|
    ensures forall j | 0 <= j < |r| :: ids[j] == WordId(r[j], j + 1)
  {
    seq(|r|, j requires 0 <= j < |r| => WordId(r[j], j + 1))
  }

  lemma WordIdsAllDistinct(r: seq<string>)
    requires |r| < 1000
    ensures Distinct(WordIds(r))
  {
    var ids := WordIds(r);
    forall i, j | 0 <= i < j < |ids|
      ensures ids[i] != ids[j]
    {
      WordIdsDistinct(r[i], r[j], i + 1, j + 1);
    }
  }

  /** A word gets a numbered entry exactly when it is not common and occurs at least
      `max(min_count, 3)` times, whatever its spelling. */
  lemma WordRetention(words: seq<string>, minCount: int, k: string)
    ensures k in FrequentOf(words, minCount) <==>
            k !in CommonWords && Count(KeysOf(WordPairs(words)), k) >= Max(minCount, 3)
  {
    var ps := WordPairs(words);
    var g := WordGroups(words);
    GroupAllSpec(ps);
    FirstSeenSpec(KeysOf(ps));
    WordGroupsShape(words);
    FrequentSpec(g, g.order, CommonWords, Max(minCount, 3));
    ValuesOfCount(ps, k);
    if k !in g.members {
      ValuesOfAbsent(ps, k);
    }
  }

  /** What an entry built from a word's group records: a spelling of greatest count,
      the first seen of equal counts, that lowercases to the word; the number of
      occurrences; whether more than one spelling was seen. */
  predicate Records(words: seq<string>, key: string, e: WordEntry)
  {
    var vs := ValuesOf(WordPairs(words), key);
    e.count == Count(KeysOf(WordPairs(words)), key) &&
    e.caseSensitive == (DistinctCount(vs) > 1) &&
    e.original in vs && Lower(e.original) == key &&
    (forall v | v in vs :: Count(vs, v) <= Count(vs, e.original)) &&
    (forall i | 0 <= i < |vs| && Count(vs, vs[i]) == Count(vs, e.original) :: e.original in vs[..i + 1])
  }

  lemma GroupRecords(words: seq<string>, key: string)
    requires key in WordGroups(words).members
    ensures WordGroups(words).members[key] != []
    ensures Records(words, key, EntryOf(WordGroups(words).members[key]))
  {
    var ps := WordPairs(words);
    GroupAllSpec(ps);
    WordGroupsShape(words);
    var vs := ValuesOf(ps, key);
    ValuesOfCount(ps, key);
    MostCommonSpec(vs);
    ValuesOfLower(ps, key);
  }

  /** A common word that occurs has its entry under its fixed id, and one that does
      not occur has none. */
  lemma CommonWordEntry(words: seq<string>, minCount: int, i: nat)
    requires i < |CommonWords|
    ensures CommonIds[i] in WordDictOf(words, minCount).members <==> CommonWords[i] in KeysOf(WordPairs(words))
    ensures CommonIds[i] in WordDictOf(words, minCount).members ==>
              Records(words, CommonWords[i], WordDictOf(words, minCount).members[CommonIds[i]])
  {
    var g := WordGroups(words);
    WordGroupsShape(words);
    GroupAllSpec(WordPairs(words));
    CommonIdsDistinct();
    CommonIdsShape();
    var r := FrequentOf(words, minCount);
    var common := PutAll(Dict(map[], []), CommonEntries(g, CommonWords, CommonIds, |CommonWords|));
    CommonDict(g, CommonWords, CommonIds, |CommonWords|);
    NumberedKeysW(g, r);
    PutAllKeys(common, Numbered(g, r));
    assert CommonIds[i] !in KeysOf(Numbered(g, r));
    if CommonWords[i] in g.members {
      GroupRecords(words, CommonWords[i]);
    }
  }

  /** The `j`-th frequent word has its entry under `WordId(word, j + 1)`, as long as
      there are fewer than 1000 of them. */
  lemma FrequentWordEntry(words: seq<string>, minCount: int, j: nat)
    requires j < |FrequentOf(words, minCount)| < 1000
    ensures var key := FrequentOf(words, minCount)[j];
            var d := WordDictOf(words, minCount);
            WordId(key, j + 1) in d.members && Records(words, key, d.members[WordId(key, j + 1)])
  {
    FrequentEntryIs(words, minCount, j);
    GroupRecords(words, FrequentOf(words, minCount)[j]);
  }

  /** The `j`-th frequent word's id holds the entry of its group. */
  lemma FrequentEntryIs(words: seq<string>, minCount: int, j: nat)
    requires j < |FrequentOf(words, minCount)| < 1000
    ensures var key := FrequentOf(words, minCount)[j];
            key in WordGroups(words).members && WordGroups(words).members[key] != [] &&
            WordId(key, j + 1) in WordDictOf(words, minCount).members &&
            WordDictOf(words, minCount).members[WordId(key, j + 1)] == EntryOf(WordGroups(words).members[key])
  {
    var g := WordGroups(words);
    WordGroupsShape(words);
    var r := FrequentOf(words, minCount);
    assert r[j] in r;
    NumberedKeysDistinct(g, r);
    FrequentAt(g, r, PutAll(Dict(map[], []), CommonEntries(g, CommonWords, CommonIds, |CommonWords|)), j);
  }

  /** The `j`-th frequent word's entry survives the numbering, whatever came before. */
  lemma FrequentAt(g: Groups<string, string>, r: seq<string>, common: Dict<string, WordEntry>, j: nat)
    requires forall k | k in r :: k in g.members && g.members[k] != []
    requires Distinct(KeysOf(Numbered(g, r))) && j < |r|
    ensures WordId(r[j], j + 1) in PutAll(common, Numbered(g, r)).members
    ensures PutAll(common, Numbered(g, r)).members[WordId(r[j], j + 1)] == EntryOf(g.members[r[j]])
  {
    PutAllAt(common, Numbered(g, r), j);
  }
}
