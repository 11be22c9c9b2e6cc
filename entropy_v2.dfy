/** The token-level entropy coder: each token becomes a symbol key, the keys are
    counted, a Huffman tree is built over the counts, and the stream is written as
    the concatenation of the keys' codes, packed into bytes and hex text. */
module EntropyV2 {
  import opened Common
  import opened Grouping
  import opened Tokens
  import opened Huffman
  import opened BitPacking

  // ----- `token_to_key` and `build_frequency_table`

  function KindTag(kind: RefKind): string
  {
    match kind
    case EntityRef => "ENTITY"
    case PhraseRef => "PHRASE"
    case WordRef => "WORD"
  }

  /** A literal keys by its text, a pattern token by its id, a dictionary token by
      its id and its `original` (empty when it has none); any other type is an
      error. */
  function TokenToKey(t: Token): Result<Key>
  {
    match t
    case Literal(text, _, _) => Ok(Pair("L", text))
    case PatternRef(id, _, _) => Ok(Pair("PATTERN", id))
    case Ref(kind, id, original, _, _) => Ok(Triple(KindTag(kind), id, if original.Some? then original.value else ""))
    case Other(name, _) => Err(UnknownTokenType(name))
  }

  /** `[token_to_key(t) for t in tokens]`: the first token without a key raises. */
  function TokenKeys(ts: seq<Token>): Result<seq<Key>>
  {
    if ts == [] then Ok([])
    else
      match TokenKeys(ts[..|ts| - 1])
      case Err(f) => Err(f)
      case Ok(keys) =>
        match TokenToKey(ts[|ts| - 1])
        case Err(f) => Err(f)
        case Ok(k) => Ok(keys + [k])
  }

  /** Every token is of one of the four types the coder knows. */
  predicate Encodable(ts: seq<Token>)
  {
    forall i | 0 <= i < |ts| :: !ts[i].Other?
  }

  /** The keys exist exactly when every token is encodable; then there is one per
      token, in order; otherwise the error names the first unknown type. */
  lemma {:induction false} TokenKeysSpec(ts: seq<Token>)
    ensures TokenKeys(ts).Ok? <==> Encodable(ts)
    ensures TokenKeys(ts).Ok? ==>
              |TokenKeys(ts).value| == |ts| &&
              forall i | 0 <= i < |ts| :: TokenToKey(ts[i]) == Ok(TokenKeys(ts).value[i])
    ensures TokenKeys(ts).Err? ==>
              exists i | 0 <= i < |ts| :: ts[i].Other? && Encodable(ts[..i]) &&
                                          TokenKeys(ts).fault == UnknownTokenType(ts[i].typeName)
  {
    if ts != [] {
      var n := |ts| - 1;
      var front := ts[..n];
      TokenKeysSpec(front);
      assert Encodable(ts) <==> Encodable(front) && !ts[n].Other? by {
        if Encodable(front) && !ts[n].Other? {
          forall i | 0 <= i < |ts| ensures !ts[i].Other? {
            if i < n { assert ts[i] == front[i]; }
          }
        }
      }
      if TokenKeys(front).Err? {
        var i :| 0 <= i < |front| && front[i].Other? && Encodable(front[..i]) &&
                 TokenKeys(front).fault == UnknownTokenType(front[i].typeName);
        assert ts[i] == front[i] && ts[..i] == front[..i];
      } else if ts[n].Other? {
        assert ts[..n] == front;
      }
    }
  }

  /** `Counter(token_keys)` */
  function FrequencyTable(ts: seq<Token>): Result<Dict<Key, nat>>
  {
    match TokenKeys(ts)
    case Err(f) => Err(f)
    case Ok(keys) => Ok(Counted(keys))
  }

  /** Each distinct key is counted once, in order of first occurrence, with a
      positive count; the counts add up to the number of tokens. */
  lemma FrequencyTableSpec(ts: seq<Token>)
    requires Encodable(ts)
    ensures FrequencyTable(ts).Ok? && TokenKeys(ts).Ok?
    ensures var freqs := FrequencyTable(ts).value;
            var keys := TokenKeys(ts).value;
            Valid(freqs) && Listed(freqs) && freqs.order == FirstSeen(keys) &&
            (forall k :: k in freqs.members <==> k in keys) &&
            (forall k | k in freqs.members :: freqs.members[k] == Count(keys, k) && freqs.members[k] > 0) &&
            SumOver(freqs.order, freqs.members) == |ts|
  {
    TokenKeysSpec(ts);
    var keys := TokenKeys(ts).value;
    CountedSpec(keys);
    CountedTotal(keys);
    CountedValid(keys);
  }

  /** A counter lists each of its keys once. */
  lemma CountedValid(keys: seq<Key>)
    ensures Valid(Counted(keys)) && Listed(Counted(keys))
  {
    CountedSpec(keys);
    FirstSeenSpec(keys);
    ValidOrder(Counted(keys));
  }

  // ----- `build_huffman_tree` and `generate_huffman_codes`

  /** One symbol gives a lone leaf; none leaves the queue empty and `heap[0]` fails. */
  function TreeOf(freqs: Dict<Key, nat>): Result<Tree<Key>>
    requires Listed(freqs)
  {
    if |freqs.order| == 1 then Ok(Leaf(freqs.order[0], freqs.members[freqs.order[0]]))
    else if freqs.order == [] then Err(EmptyFrequencyTable)
    else Ok(HuffmanTree(Items(freqs)))
  }

  method BuildHuffmanTree(freqs: Dict<Key, nat>) returns (r: Result<Tree<Key>>)
    requires Listed(freqs)
    ensures r == TreeOf(freqs)
  {
    if |freqs.order| == 1 {
      var symbol := freqs.order[0];
      return Ok(Leaf(symbol, freqs.members[symbol]));
    }
    if freqs.order == [] {
      return Err(EmptyFrequencyTable);
    }
    var tree := BuildTree(Items(freqs));
    return Ok(tree);
  }

  /** The one-symbol shortcut builds the tree the merge loop would have built, so
      a non-empty table always gets the merge loop's tree. */
  lemma TreeOfIsHuffman(freqs: Dict<Key, nat>)
    requires Listed(freqs) && freqs.order != []
    ensures TreeOf(freqs) == Ok(HuffmanTree(Items(freqs)))
  {
    if |freqs.order| == 1 {
      assert Initial(Items(freqs)) == [Entry(Leaf(freqs.order[0], freqs.members[freqs.order[0]]), 0)];
    }
  }

  /** With a single distinct key, its code is `0`. */
  lemma SingleSymbolCode(freqs: Dict<Key, nat>)
    requires Listed(freqs) && |freqs.order| == 1
    ensures TreeOf(freqs).Ok?
    ensures CodeTable(Some(TreeOf(freqs).value)).members == map[freqs.order[0] := [0]]
  {
  }

  // ----- `encode_tokens`

  /** The bit string for `ts`: each token's key's code, in order. A token without a
      key, or a key without a code, raises. */
  function Encoding(ts: seq<Token>, codes: map<Key, seq<Bit>>): Result<seq<Bit>>
  {
    if ts == [] then Ok([])
    else
      match Encoding(ts[..|ts| - 1], codes)
      case Err(f) => Err(f)
      case Ok(bits) =>
        match TokenToKey(ts[|ts| - 1])
        case Err(f) => Err(f)
        case Ok(k) => if k in codes then Ok(bits + codes[k]) else Err(MissingCode)
  }

  method EncodeTokens(ts: seq<Token>, codes: map<Key, seq<Bit>>) returns (r: Result<seq<Bit>>)
    ensures r == Encoding(ts, codes)
  {
    var bits: seq<Bit> := [];
    var i := 0;
    while i < |ts|
      invariant i <= |ts|
      invariant Encoding(ts[..i], codes) == Ok(bits)
    {
      assert ts[..i + 1][..i] == ts[..i];
      var key := TokenToKey(ts[i]);
      if key.Err? {
        assert Encoding(ts[..i + 1], codes).Err?;
        EncodingErr(ts, codes, i + 1);
        return Err(key.fault);
      }
      if key.value !in codes {
        EncodingErr(ts, codes, i + 1);
        return Err(MissingCode);
      }
      bits := bits + codes[key.value];
      i := i + 1;
    }
    assert ts[..i] == ts;
    return Ok(bits);
  }

  /** Once a prefix fails, the whole stream fails with the same error. */
  lemma {:induction false} EncodingErr(ts: seq<Token>, codes: map<Key, seq<Bit>>, n: nat)
    requires n <= |ts| && Encoding(ts[..n], codes).Err?
    ensures Encoding(ts, codes) == Encoding(ts[..n], codes)
    decreases |ts| - n
  {
    if n < |ts| {
      assert ts[..n + 1][..n] == ts[..n];
      EncodingErr(ts, codes, n + 1);
    } else {
      assert ts[..n] == ts;
    }
  }

  /** The codes of `keys`, concatenated in order. */
  function Concat(keys: seq<Key>, codes: map<Key, seq<Bit>>): seq<Bit>
    requires forall i | 0 <= i < |keys| :: keys[i] in codes
  {
    if keys == [] then [] else Concat(keys[..|keys| - 1], codes) + codes[keys[|keys| - 1]]
  }

  /** With every key coded, encoding succeeds and gives the keys' codes in order. */
  lemma {:induction false} EncodingConcat(ts: seq<Token>, codes: map<Key, seq<Bit>>)
    requires TokenKeys(ts).Ok?
    requires forall i | 0 <= i < |TokenKeys(ts).value| :: TokenKeys(ts).value[i] in codes
    ensures Encoding(ts, codes) == Ok(Concat(TokenKeys(ts).value, codes))
  {
    if ts != [] {
      var n := |ts| - 1;
      var keys := TokenKeys(ts).value;
      TokenKeysSpec(ts[..n]);
      var front := TokenKeys(ts[..n]).value;
      assert keys == front + [TokenToKey(ts[n]).value];
      assert keys[..n] == front;
      forall i | 0 <= i < |front| ensures front[i] in codes {
        assert front[i] == keys[i];
      }
      EncodingConcat(ts[..n], codes);
    }
  }

  /** The bits each key costs over the stream: its count times its code length. */
  function Cost(freqs: map<Key, nat>, codes: map<Key, seq<Bit>>): map<Key, nat>
  {
    map k | k in freqs && k in codes :: freqs[k] * |codes[k]|
  }

  /** `sum(frequencies[key] * len(huffman_codes[key]) for key in huffman_codes)` */
  function TotalBits(freqs: Dict<Key, nat>, codes: Dict<Key, seq<Bit>>): nat
  {
    SumOver(codes.order, Cost(freqs.members, codes.members))
  }

  lemma MulSucc(a: nat, b: nat)
    ensures (a + 1) * b == a * b + b
  {
  }

  /** Counting one more occurrence of a coded key adds its code length to its cost. */
  lemma CostBump(freqs: map<Key, nat>, codes: map<Key, seq<Bit>>, x: Key)
    requires x in freqs && x in codes
    ensures x in Cost(freqs, codes)
    ensures Cost(freqs[x := freqs[x] + 1], codes) == Cost(freqs, codes)[x := Cost(freqs, codes)[x] + |codes[x]|]
  {
    MulSucc(freqs[x], |codes[x]|);
  }

  /** Counting a coded key for the first time costs its code length. */
  lemma CostFresh(freqs: map<Key, nat>, codes: map<Key, seq<Bit>>, x: Key)
    requires x !in freqs && x in codes
    ensures Cost(freqs[x := 1], codes) == Cost(freqs, codes)[x := |codes[x]|]
  {
  }

  /** The encoded length is the sum, over the keys the counter lists, of count
      times code length. */
  lemma {:induction false} CountedCost(keys: seq<Key>, codes: map<Key, seq<Bit>>)
    requires forall i | 0 <= i < |keys| :: keys[i] in codes
    ensures |Concat(keys, codes)| == SumOver(Counted(keys).order, Cost(Counted(keys).members, codes))
  {
    if keys != [] {
      var n := |keys| - 1;
      var init := keys[..n];
      var x := keys[n];
      CountedCost(init, codes);
      CountedValid(init);
      assert |Concat(keys, codes)| == |Concat(init, codes)| + |codes[x]|;
      CountedCostStep(Counted(init), x, codes);
    }
  }

  /** Counting one more `x` adds its code length to the sum. */
  lemma CountedCostStep(c: Dict<Key, nat>, x: Key, codes: map<Key, seq<Bit>>)
    requires Valid(c) && Listed(c) && x in codes
    ensures SumOver(Tally(c, x).order, Cost(Tally(c, x).members, codes)) ==
            SumOver(c.order, Cost(c.members, codes)) + |codes[x]|
  {
    var cost := Cost(c.members, codes);
    if x in c.members {
      assert x in c.order;
      assert Tally(c, x) == Put(c, x, c.members[x] + 1);
      CostBump(c.members, codes, x);
      SumOverBump(c.order, cost, x, |codes[x]|);
    } else {
      assert x !in c.order;
      assert Tally(c, x) == Put(c, x, 1);
      CostFresh(c.members, codes, x);
      SumOverFresh(c.order, cost, x, |codes[x]|);
    }
  }

  /** The encoded length is the sum, over the distinct keys, of count times code
      length. */
  lemma ConcatLength(keys: seq<Key>, codes: map<Key, seq<Bit>>)
    requires forall i | 0 <= i < |keys| :: keys[i] in codes
    ensures |Concat(keys, codes)| == SumOver(FirstSeen(keys), Cost(Counted(keys).members, codes))
  {
    CountedCost(keys, codes);
    CountedSpec(keys);
  }

  // ----- The encoder as `main` runs it

  /** What the encoder stores: the code table, the bit string, the packed bytes,
      the padding and the hex text of the bytes. */
  datatype Compressed = Compressed(codes: Dict<Key, seq<Bit>>, bits: seq<Bit>, bytes: seq<Byte>, padding: nat,
                                   hex: string)

  function Compress(ts: seq<Token>): Result<Compressed>
  {
    match FrequencyTable(ts)
    case Err(f) => Err(f)
    case Ok(freqs) =>
      CountedValid(TokenKeys(ts).value);
      match TreeOf(freqs)
      case Err(f) => Err(f)
      case Ok(tree) =>
        var codes := CodeTable(Some(tree));
        match Encoding(ts, codes.members)
        case Err(f) => Err(f)
        case Ok(bits) =>
          var bytes := Pack(bits + Zeros(Padding(|bits|)));
          Ok(Compressed(codes, bits, bytes, Padding(|bits|), BytesToHex(bytes)))
  }

  /** Steps 1 to 5 of the encoder and the hex conversion of its output. */
  method CompressTokens(ts: seq<Token>) returns (r: Result<Compressed>)
    ensures r == Compress(ts)
  {
    var freqs := FrequencyTable(ts);
    if freqs.Err? {
      return Err(freqs.fault);
    }
    CountedValid(TokenKeys(ts).value);
    var tree := BuildHuffmanTree(freqs.value);
    if tree.Err? {
      return Err(tree.fault);
    }
    var codes := CodeTable(Some(tree.value));
    var bits := EncodeTokens(ts, codes.members);
    if bits.Err? {
      return Err(bits.fault);
    }
    var bytes, padding := BitsToBytes(bits.value);
    return Ok(Compressed(codes, bits.value, bytes, padding, BytesToHex(bytes)));
  }

  /** No code is a prefix of a different key's code. */
  predicate CodesPrefixFree(codes: map<Key, seq<Bit>>)
  {
    forall a, b | a in codes && b in codes && a != b :: !(codes[a] <= codes[b])
  }

  /** The code table of a tree with distinct leaves codes each leaf once, with a
      non-empty code, prefix-free. */
  lemma CodesOfTree(t: Tree<Key>)
    requires Distinct(Leaves(t))
    ensures var codes := CodeTable(Some(t));
            codes.order == Leaves(t) && (forall k :: k in codes.members <==> k in Leaves(t)) &&
            (forall k | k in codes.members :: |codes.members[k]| > 0) && CodesPrefixFree(codes.members)
  {
    CodeTableSpec(t);
    PathsShape(t, []);
    CodesFromPaths(CodeTable(Some(t)).members, Paths(t, []), Leaves(t));
  }

  /** A table that holds exactly the codes of a prefix-free list of non-empty
      paths, one per leaf, is non-empty and prefix-free code by code. */
  lemma CodesFromPaths(members: map<Key, seq<Bit>>, paths: seq<(Key, seq<Bit>)>, leaves: seq<Key>)
    requires KeysOf(paths) == leaves && (forall k :: k in members <==> k in leaves)
    requires forall i | 0 <= i < |paths| ::
               paths[i].0 in members && members[paths[i].0] == paths[i].1 && |paths[i].1| > 0
    requires PrefixFree(paths)
    ensures (forall k | k in members :: |members[k]| > 0) && CodesPrefixFree(members)
  {
    forall k | k in members ensures |members[k]| > 0 {
      var i :| 0 <= i < |leaves| && leaves[i] == k;
      assert paths[i].0 == k;
    }
    forall a, b | a in members && b in members && a != b
      ensures !(members[a] <= members[b])
    {
      var i :| 0 <= i < |leaves| && leaves[i] == a;
      var j :| 0 <= j < |leaves| && leaves[j] == b;
      assert paths[i].0 == a && paths[j].0 == b;
    }
  }

  /** The code table built from the counts of a non-empty key stream codes each
      distinct key once, with a non-empty code, prefix-free. */
  lemma CountedCodes(keys: seq<Key>)
    requires keys != []
    ensures Listed(Counted(keys)) && Counted(keys).order != []
    ensures var codes := CodeTable(Some(HuffmanTree(Items(Counted(keys)))));
            multiset(codes.order) == multiset(FirstSeen(keys)) &&
            (forall k :: k in codes.members <==> k in keys) &&
            (forall k | k in codes.members :: |codes.members[k]| > 0) &&
            CodesPrefixFree(codes.members)
  {
    CountedValid(keys);
    CountedSpec(keys);
    FirstSeenSpec(keys);
    var freqs := Counted(keys);
    assert keys[0] in FirstSeen(keys);
    assert KeysOf(Items(freqs)) == freqs.order;
    HuffmanTreeSpec(Items(freqs));
    var tree := HuffmanTree(Items(freqs));
    CodesOfTree(tree);
    var codes := CodeTable(Some(tree));
    forall k ensures k in codes.members <==> k in keys {
      assert k in Leaves(tree) <==> k in multiset(Leaves(tree));
      assert k in freqs.order <==> k in multiset(freqs.order);
    }
  }

  /** On a non-empty stream of encodable tokens the encoder succeeds with the
      merge loop's code table and the concatenated codes of the keys. */
  lemma CompressOk(ts: seq<Token>)
    requires Encodable(ts) && ts != []
    ensures TokenKeys(ts).Ok? && TokenKeys(ts).value != [] && Compress(ts).Ok?
    ensures var keys := TokenKeys(ts).value;
            Listed(Counted(keys)) && Counted(keys).order != [] &&
            Compress(ts).value.codes == CodeTable(Some(HuffmanTree(Items(Counted(keys))))) &&
            (forall i | 0 <= i < |keys| :: keys[i] in Compress(ts).value.codes.members) &&
            Compress(ts).value.bits == Concat(keys, Compress(ts).value.codes.members)
    ensures var c := Compress(ts).value;
            c.padding == Padding(|c.bits|) && c.bytes == Pack(c.bits + Zeros(c.padding))
  {
    TokenKeysSpec(ts);
    var keys := TokenKeys(ts).value;
    CountedCodes(keys);
    var freqs := Counted(keys);
    TreeOfIsHuffman(freqs);
    var codes := CodeTable(Some(HuffmanTree(Items(freqs))));
    forall i | 0 <= i < |keys| ensures keys[i] in codes.members {
    }
    EncodingConcat(ts, codes.members);
  }

  /** With nothing to count the queue stays empty and the encoder fails. */
  lemma CompressEmpty()
    ensures Compress([]) == Err(EmptyFrequencyTable)
  {
    assert TokenKeys([]) == Ok([]);
    assert FrequencyTable([]) == Ok(Dict(map[], []));
  }

  /** The code table of a non-empty stream codes every distinct key exactly once,
      with a non-empty code, and the codes are prefix-free. */
  lemma CompressTable(ts: seq<Token>)
    requires Encodable(ts) && ts != []
    ensures Compress(ts).Ok? && TokenKeys(ts).Ok?
    ensures var codes := Compress(ts).value.codes;
            var keys := TokenKeys(ts).value;
            multiset(codes.order) == multiset(FirstSeen(keys)) &&
            (forall k :: k in codes.members <==> k in keys) &&
            (forall k | k in codes.members :: |codes.members[k]| > 0) &&
            CodesPrefixFree(codes.members)
  {
    CompressOk(ts);
    CountedCodes(TokenKeys(ts).value);
  }

  /** The bit string of a non-empty stream has `Σ count·len(code)` bits; the
      padding is below 8 and completes a whole number of bytes; and unpacking the
      bytes and dropping the padding gives the bit string back. */
  lemma CompressBits(ts: seq<Token>)
    requires Encodable(ts) && ts != []
    ensures Compress(ts).Ok? && FrequencyTable(ts).Ok?
    ensures var c := Compress(ts).value;
            |c.bits| == TotalBits(FrequencyTable(ts).value, c.codes) &&
            WholeBytes(|c.bits|, c.padding) &&
            BytesToBits(c.bytes, |c.bits|, c.padding) == c.bits &&
            |c.bytes| == (|c.bits| + 7) / 8
  {
    CompressOk(ts);
    var keys := TokenKeys(ts).value;
    var c := Compress(ts).value;
    assert FrequencyTable(ts).value == Counted(keys);
    CountedCodesLength(keys);
    assert |c.bits| == TotalBits(Counted(keys), c.codes);
    PackedFields(c.bits, c.padding, c.bytes);
  }

  /** Encoding a non-empty key stream with the code table built from its own
      counts takes `Σ count·len(code)` bits. */
  lemma CountedCodesLength(keys: seq<Key>)
    requires keys != []
    ensures Listed(Counted(keys)) && Counted(keys).order != []
    ensures var codes := CodeTable(Some(HuffmanTree(Items(Counted(keys)))));
            (forall i | 0 <= i < |keys| :: keys[i] in codes.members) &&
            |Concat(keys, codes.members)| == TotalBits(Counted(keys), codes)
  {
    CountedCodes(keys);
    var codes := CodeTable(Some(HuffmanTree(Items(Counted(keys)))));
    forall i | 0 <= i < |keys| ensures keys[i] in codes.members {
    }
    ConcatLength(keys, codes.members);
    SumOverPermutation(FirstSeen(keys), codes.order, Cost(Counted(keys).members, codes.members));
  }

  /** The encoder succeeds exactly on non-empty streams of encodable tokens. */
  lemma CompressSpec(ts: seq<Token>)
    requires Encodable(ts)
    ensures Compress(ts).Ok? <==> ts != []
  {
    if ts == [] {
      CompressEmpty();
    } else {
      CompressTable(ts);
    }
  }
}
