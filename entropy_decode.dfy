/** The entropy decoder: the stored code table becomes a trie of nested nodes, the
    bit string is walked through the trie symbol by symbol, and the decoded keys
    are turned back into token objects, expanding pattern keys from the pattern
    table and dictionary keys from the dictionaries. */
module EntropyDecode {
  import opened Common
  import opened Grouping
  import opened Tokens
  import opened Huffman
  import opened BitPacking
  import opened EntropyV2
  import opened HacsDecode
  import opened Patterns

  // ----- The decoding trie

  /** One node of the decoding tree: the children under `'0'` and `'1'` and the
      `'symbol'` entry, each present or absent. */
  datatype Trie = Trie(zero: Option<Trie>, one: Option<Trie>, symbol: Option<Key>)

  const Empty: Trie := Trie(None, None, None)

  /** `{'symbol': s}` */
  function Leaf(s: Key): Trie
  {
    Trie(None, None, Some(s))
  }

  function Child(t: Trie, b: Bit): Option<Trie>
  {
    if b == 0 then t.zero else t.one
  }

  function SetChild(t: Trie, b: Bit, c: Trie): (r: Trie)
    ensures Child(r, b) == Some(c) && Child(r, 1 - b) == Child(t, 1 - b) && r.symbol == t.symbol
  {
    if b == 0 then t.(zero := Some(c)) else t.(one := Some(c))
  }

  /** The number of nodes. */
  function Size(t: Trie): nat
  {
    1 + (if t.zero.Some? then Size(t.zero.value) else 0) + (if t.one.Some? then Size(t.one.value) else 0)
  }

  /** The node reached from `t` along `path`, if every step has a child. */
  function Walk(t: Trie, path: seq<Bit>): Option<Trie>
  {
    if path == [] then Some(t)
    else
      match Child(t, path[0])
      case None => None
      case Some(c) => Walk(c, path[1..])
  }

  /** The symbol stored at the end of `path`, if the node exists and has one. */
  function SymbolAt(t: Trie, path: seq<Bit>): Option<Key>
  {
    match Walk(t, path)
    case None => None
    case Some(n) => n.symbol
  }

  /** One pass of the outer loop of `build_decoding_tree`: walk `code[:-1]`,
      creating empty nodes where a child is missing and entering the existing one
      otherwise, then put a fresh leaf under the last bit, replacing whatever was
      there. */
  function Insert(t: Trie, code: seq<Bit>, s: Key): Trie
    requires code != []
    decreases |code|
  {
    if |code| == 1 then SetChild(t, code[0], Leaf(s))
    else
      var below := if Child(t, code[0]).Some? then Child(t, code[0]).value else Empty;
      SetChild(t, code[0], Insert(below, code[1..], s))
  }

  // ----- What walking a trie means

  /** Going one step further from a node reached along `path`. */
  lemma {:induction false} WalkSnoc(t: Trie, path: seq<Bit>, b: Bit)
    ensures Walk(t, path + [b]) == (if Walk(t, path).Some? then Child(Walk(t, path).value, b) else None)
  {
    if path != [] {
      assert (path + [b])[1..] == path[1..] + [b];
      if Child(t, path[0]).Some? {
        WalkSnoc(Child(t, path[0]).value, path[1..], b);
      }
    }
  }

  /** Every prefix of a path that exists exists too. */
  lemma {:induction false} WalkPrefix(t: Trie, path: seq<Bit>, n: nat)
    requires n <= |path| && Walk(t, path).Some?
    ensures Walk(t, path[..n]).Some?
  {
    if n > 0 {
      WalkPrefix(Child(t, path[0]).value, path[1..], n - 1);
      assert path[..n][1..] == path[1..][..n - 1];
    }
  }

  /** A node below the root is smaller than the root, so it is never equal to it. */
  lemma {:induction false} WalkShrinks(t: Trie, path: seq<Bit>)
    requires path != [] && Walk(t, path).Some?
    ensures Size(Walk(t, path).value) < Size(t)
  {
    var c := Child(t, path[0]).value;
    if path[1..] != [] {
      WalkShrinks(c, path[1..]);
    }
  }

  lemma {:induction false} EmptyHasNoSymbols(path: seq<Bit>)
    ensures SymbolAt(Empty, path) == None
  {
  }

  // ----- What one insertion changes

  /** The inserted code leads to a leaf holding the symbol. */
  lemma {:induction false} InsertReaches(t: Trie, code: seq<Bit>, s: Key)
    requires code != []
    ensures Walk(Insert(t, code, s), code) == Some(Leaf(s))
    decreases |code|
  {
    if |code| > 1 {
      var below := if Child(t, code[0]).Some? then Child(t, code[0]).value else Empty;
      InsertReaches(below, code[1..], s);
    }
  }

  /** A path that is neither a prefix nor an extension of the inserted code leads
      where it led before. */
  lemma {:induction false} InsertElsewhere(t: Trie, code: seq<Bit>, s: Key, path: seq<Bit>)
    requires code != [] && !(path <= code) && !(code <= path)
    ensures Walk(Insert(t, code, s), path) == Walk(t, path)
    decreases |code|
  {
    if path[0] == code[0] {
      assert path == [path[0]] + path[1..] && code == [code[0]] + code[1..];
      assert |code| > 1 && !(path[1..] <= code[1..]) && !(code[1..] <= path[1..]);
      var below := if Child(t, code[0]).Some? then Child(t, code[0]).value else Empty;
      InsertElsewhere(below, code[1..], s, path[1..]);
      if Child(t, code[0]).None? {
        assert path[1..] != [];
      }
    }
  }

  /** After an insertion a symbol sits either at the inserted code or where one sat
      before. */
  lemma {:induction false} InsertSymbols(t: Trie, code: seq<Bit>, s: Key, path: seq<Bit>)
    requires code != [] && SymbolAt(Insert(t, code, s), path).Some?
    ensures path == code || SymbolAt(t, path).Some?
    decreases |code|
  {
    if path != [] && path[0] == code[0] {
      if |code| == 1 {
        assert Walk(Insert(t, code, s), path) == Walk(Leaf(s), path[1..]);
        assert path[1..] == [];
        assert path == [path[0]] + path[1..];
      } else {
        var below := if Child(t, code[0]).Some? then Child(t, code[0]).value else Empty;
        InsertSymbols(below, code[1..], s, path[1..]);
        if path[1..] == code[1..] {
          assert path == [path[0]] + path[1..] && code == [code[0]] + code[1..];
        } else if Child(t, code[0]).None? {
          EmptyHasNoSymbols(path[1..]);
        }
      }
    }
  }

  // ----- `build_decoding_tree`

  /** The trie after inserting `entries` in order into `t`; an empty code fails. */
  function Build(t: Trie, entries: seq<(Key, seq<Bit>)>): Result<Trie>
    decreases |entries|
  {
    if entries == [] then Ok(t)
    else if entries[0].1 == [] then Err(EmptyCode)
    else Build(Insert(t, entries[0].1, entries[0].0), entries[1..])
  }

  /** The decoding tree of a stored code table, built in the table's order. */
  function DecodingTree(codes: Dict<Key, seq<Bit>>): Result<Trie>
    requires Listed(codes)
  {
    Build(Empty, Items(codes))
  }

  method BuildDecodingTree(codes: Dict<Key, seq<Bit>>) returns (r: Result<Trie>)
    requires Listed(codes)
    ensures r == DecodingTree(codes)
  {
    var entries := Items(codes);
    var root := Empty;
    var i := 0;
    while i < |entries|
      invariant i <= |entries|
      invariant Build(root, entries[i..]) == Build(Empty, entries)
    {
      var (symbol, code) := entries[i];
      if code == [] {
        return Err(EmptyCode);
      }
      assert entries[i..][1..] == entries[i + 1..];
      root := Insert(root, code, symbol);
      i := i + 1;
    }
    return Ok(root);
  }

  /** What a trie built from prefix-free `entries` looks like: each code leads to
      a leaf with its symbol, and symbols sit only at the ends of codes. */
  ghost predicate Holds(t: Trie, entries: seq<(Key, seq<Bit>)>)
  {
    (forall j | 0 <= j < |entries| :: Walk(t, entries[j].1) == Some(Leaf(entries[j].0))) &&
    (forall path | SymbolAt(t, path).Some? :: exists j | 0 <= j < |entries| :: entries[j].1 == path)
  }

  predicate NonEmptyCodes(entries: seq<(Key, seq<Bit>)>)
  {
    forall j | 0 <= j < |entries| :: entries[j].1 != []
  }

  /** Inserting the next prefix-free code keeps the shape. */
  lemma InsertHolds(t: Trie, entries: seq<(Key, seq<Bit>)>, n: nat)
    requires n < |entries| && PrefixFree(entries) && NonEmptyCodes(entries) && Holds(t, entries[..n])
    ensures Holds(Insert(t, entries[n].1, entries[n].0), entries[..n + 1])
  {
    var (s, code) := entries[n];
    var t' := Insert(t, code, s);
    var done := entries[..n + 1];
    forall j | 0 <= j < n + 1 ensures Walk(t', done[j].1) == Some(Leaf(done[j].0)) {
      if j == n {
        InsertReaches(t, code, s);
      } else {
        assert entries[..n][j] == entries[j];
        InsertElsewhere(t, code, s, entries[j].1);
      }
    }
    forall path | SymbolAt(t', path).Some?
      ensures exists j | 0 <= j < n + 1 :: done[j].1 == path
    {
      InsertSymbols(t, code, s, path);
      if path == code {
        assert done[n].1 == path;
      } else {
        var j :| 0 <= j < n && entries[..n][j].1 == path;
        assert done[j].1 == path;
      }
    }
  }

  lemma {:induction false} BuildFrom(t: Trie, entries: seq<(Key, seq<Bit>)>, n: nat)
    requires n <= |entries| && PrefixFree(entries) && NonEmptyCodes(entries) && Holds(t, entries[..n])
    ensures Build(t, entries[n..]).Ok? && Holds(Build(t, entries[n..]).value, entries)
    decreases |entries| - n
  {
    if n == |entries| {
      assert entries[..n] == entries;
    } else {
      InsertHolds(t, entries, n);
      assert entries[n..][1..] == entries[n + 1..];
      BuildFrom(Insert(t, entries[n].1, entries[n].0), entries, n + 1);
    }
  }

  /** Prefix-free non-empty codes build a trie in which each code leads to a leaf
      with its own symbol and no other node holds a symbol. */
  lemma BuildSpec(entries: seq<(Key, seq<Bit>)>)
    requires PrefixFree(entries) && NonEmptyCodes(entries)
    ensures Build(Empty, entries).Ok? && Holds(Build(Empty, entries).value, entries)
  {
    forall path ensures SymbolAt(Empty, path) == None {
      EmptyHasNoSymbols(path);
    }
    assert entries[0..] == entries;
    BuildFrom(Empty, entries, 0);
  }

  /** A code table with an empty code cannot be built. */
  lemma {:induction false} BuildEmptyCode(t: Trie, entries: seq<(Key, seq<Bit>)>, j: nat)
    requires j < |entries| && entries[j].1 == []
    ensures Build(t, entries).Err?
    decreases |entries|
  {
    if entries[0].1 != [] {
      BuildEmptyCode(Insert(t, entries[0].1, entries[0].0), entries[1..], j - 1);
    }
  }

  // ----- `decode_huffman`

  /** The decoder's state after `bits` from `node` with `out` emitted: a missing
      child fails at the number of symbols emitted so far, a node with a symbol
      emits it and returns to the root, and the input must end at the root (the
      node is compared with the root by value). */
  function DecodeFrom(root: Trie, node: Trie, bits: seq<Bit>, out: seq<Key>): Result<seq<Key>>
    decreases |bits|
  {
    if bits == [] then (if node != root then Err(EndedMidSymbol) else Ok(out))
    else
      match Child(node, bits[0])
      case None => Err(InvalidBitSequence(|out|))
      case Some(next) =>
        if next.symbol.Some? then DecodeFrom(root, root, bits[1..], out + [next.symbol.value])
        else DecodeFrom(root, next, bits[1..], out)
  }

  function Decode(bits: seq<Bit>, root: Trie): Result<seq<Key>>
  {
    DecodeFrom(root, root, bits, [])
  }

  method DecodeHuffman(bits: seq<Bit>, root: Trie) returns (r: Result<seq<Key>>)
    ensures r == Decode(bits, root)
  {
    var out: seq<Key> := [];
    var node := root;
    var i := 0;
    while i < |bits|
      invariant i <= |bits|
      invariant DecodeFrom(root, node, bits[i..], out) == Decode(bits, root)
    {
      assert bits[i..][1..] == bits[i + 1..];
      var next := Child(node, bits[i]);
      if next.None? {
        return Err(InvalidBitSequence(|out|));
      }
      node := next.value;
      if node.symbol.Some? {
        out := out + [node.symbol.value];
        node := root;
      }
      i := i + 1;
    }
    if node != root {
      return Err(EndedMidSymbol);
    }
    return Ok(out);
  }

  // ----- Decoding inverts encoding

  /** The map of codes an entry list stores. */
  predicate Stores(entries: seq<(Key, seq<Bit>)>, codes: map<Key, seq<Bit>>)
  {
    forall j | 0 <= j < |entries| :: entries[j].0 in codes && codes[entries[j].0] == entries[j].1
  }

  /** No node strictly inside a code's path holds a symbol. */
  lemma NoSymbolInside(t: Trie, entries: seq<(Key, seq<Bit>)>, j: nat, m: nat)
    requires PrefixFree(entries) && Holds(t, entries)
    requires j < |entries| && m < |entries[j].1|
    ensures SymbolAt(t, entries[j].1[..m]) == None
  {
    var inside := entries[j].1[..m];
    forall j' | 0 <= j' < |entries|
      ensures entries[j'].1 != inside
    {
      if j' != j {
        assert inside <= entries[j].1;
      }
    }
  }

  /** Walking one code from the node part-way along it emits exactly its symbol and
      comes back to the root. */
  lemma {:induction false} DecodeAlong(t: Trie, entries: seq<(Key, seq<Bit>)>, j: nat, i: nat, node: Trie,
                                       rest: seq<Bit>, out: seq<Key>)
    requires PrefixFree(entries) && NonEmptyCodes(entries) && Holds(t, entries)
    requires j < |entries| && i < |entries[j].1| && Walk(t, entries[j].1[..i]) == Some(node)
    ensures DecodeFrom(t, node, entries[j].1[i..] + rest, out) == DecodeFrom(t, t, rest, out + [entries[j].0])
    decreases |entries[j].1| - i
  {
    var code := entries[j].1;
    var bits := code[i..] + rest;
    assert bits[0] == code[i] && bits[1..] == code[i + 1..] + rest;
    assert code[..i + 1] == code[..i] + [code[i]];
    WalkSnoc(t, code[..i], code[i]);
    if i + 1 == |code| {
      assert code[..i + 1] == code;
      assert code[i + 1..] + rest == rest;
    } else {
      WalkPrefix(t, code, i + 1);
      var next := Walk(t, code[..i + 1]).value;
      NoSymbolInside(t, entries, j, i + 1);
      DecodeAlong(t, entries, j, i + 1, next, rest, out);
    }
  }

  /** One entry's code decodes to that entry's key. */
  lemma DecodeOne(t: Trie, entries: seq<(Key, seq<Bit>)>, j: nat, rest: seq<Bit>, out: seq<Key>)
    requires PrefixFree(entries) && NonEmptyCodes(entries) && Holds(t, entries) && j < |entries|
    ensures DecodeFrom(t, t, entries[j].1 + rest, out) == DecodeFrom(t, t, rest, out + [entries[j].0])
  {
    var code := entries[j].1;
    assert code[..0] == [] && code[0..] == code;
    DecodeAlong(t, entries, j, 0, t, rest, out);
  }

  /** Every key is coded by an entry of the table. */
  predicate Entered(entries: seq<(Key, seq<Bit>)>, codes: map<Key, seq<Bit>>, keys: seq<Key>)
  {
    forall i | 0 <= i < |keys| :: keys[i] in codes && (keys[i], codes[keys[i]]) in entries
  }

  /** Concatenated codes decode to the keys they code. */
  lemma {:induction false} DecodeConcat(t: Trie, entries: seq<(Key, seq<Bit>)>, codes: map<Key, seq<Bit>>,
                                        keys: seq<Key>, rest: seq<Bit>, out: seq<Key>)
    requires PrefixFree(entries) && NonEmptyCodes(entries) && Holds(t, entries) && Entered(entries, codes, keys)
    ensures forall i | 0 <= i < |keys| :: keys[i] in codes
    ensures DecodeFrom(t, t, Concat(keys, codes) + rest, out) == DecodeFrom(t, t, rest, out + keys)
  {
    if keys != [] {
      var n := |keys| - 1;
      var init := keys[..n];
      var x := keys[n];
      var code := codes[x];
      var j :| 0 <= j < |entries| && entries[j] == (x, code);
      assert Entered(entries, codes, init) by {
        forall i | 0 <= i < |init| ensures init[i] in codes && (init[i], codes[init[i]]) in entries {
          assert init[i] == keys[i];
        }
      }
      calc {
        DecodeFrom(t, t, Concat(keys, codes) + rest, out);
        { assert Concat(keys, codes) + rest == Concat(init, codes) + (code + rest); }
        DecodeFrom(t, t, Concat(init, codes) + (code + rest), out);
        { DecodeConcat(t, entries, codes, init, code + rest, out); }
        DecodeFrom(t, t, code + rest, out + init);
        { DecodeOne(t, entries, j, rest, out + init); }
        DecodeFrom(t, t, rest, out + init + [x]);
        { assert out + init + [x] == out + keys; }
        DecodeFrom(t, t, rest, out + keys);
      }
    } else {
      assert Concat(keys, codes) + rest == rest && out + keys == out;
    }
  }

  /** `Concat` from the front: the first key's code, then the rest. */
  lemma {:induction false} ConcatCons(k: Key, keys: seq<Key>, codes: map<Key, seq<Bit>>)
    requires k in codes && forall i | 0 <= i < |keys| :: keys[i] in codes
    ensures Concat([k] + keys, codes) == codes[k] + Concat(keys, codes)
  {
    if keys != [] {
      var n := |keys| - 1;
      assert ([k] + keys)[..n + 1] == [k] + keys[..n];
      ConcatCons(k, keys[..n], codes);
    }
  }

  /** Whatever decodes successfully from a node reached along `path` is the rest
      of a concatenation of codes: the symbols emitted re-encode to `path` followed
      by the bits read. */
  lemma {:induction false} DecodeSound(t: Trie, entries: seq<(Key, seq<Bit>)>, codes: map<Key, seq<Bit>>,
                                       path: seq<Bit>, node: Trie, bits: seq<Bit>, out: seq<Key>)
    requires Holds(t, entries) && Stores(entries, codes) && Walk(t, path) == Some(node)
    requires DecodeFrom(t, node, bits, out).Ok?
    ensures var res := DecodeFrom(t, node, bits, out).value;
            |out| <= |res| && res[..|out|] == out && (forall i | |out| <= i < |res| :: res[i] in codes) &&
            path + bits == Concat(res[|out|..], codes)
    decreases |bits|
  {
    var res := DecodeFrom(t, node, bits, out).value;
    if bits == [] {
      assert node == t;
      if path != [] {
        WalkShrinks(t, path);
      }
      assert res == out;
    } else {
      var next := Child(node, bits[0]).value;
      WalkSnoc(t, path, bits[0]);
      assert Walk(t, path + [bits[0]]) == Some(next);
      assert path + bits == path + [bits[0]] + bits[1..];
      if next.symbol.Some? {
        var k := next.symbol.value;
        assert SymbolAt(t, path + [bits[0]]).Some?;
        var j :| 0 <= j < |entries| && entries[j].1 == path + [bits[0]];
        assert Walk(t, entries[j].1) == Some(Leaf(entries[j].0));
        assert k == entries[j].0 && codes[k] == path + [bits[0]];
        DecodeSound(t, entries, codes, [], t, bits[1..], out + [k]);
        assert res[..|out|] == out by {
          assert res[..|out|] == res[..|out| + 1][..|out|];
        }
        assert res[|out|..] == [k] + res[|out| + 1..];
        ConcatCons(k, res[|out| + 1..], codes);
      } else {
        DecodeSound(t, entries, codes, path + [bits[0]], next, bits[1..], out);
      }
    }
  }

  /** A stored table of non-empty prefix-free codes builds a trie of the shape
      above. */
  lemma TableTree(codes: Dict<Key, seq<Bit>>)
    requires Listed(codes) && PrefixFree(Items(codes)) && NonEmptyCodes(Items(codes))
    ensures DecodingTree(codes).Ok? && Holds(DecodingTree(codes).value, Items(codes))
  {
    BuildSpec(Items(codes));
  }

  /** Every key of the table stands in its items with its code. */
  lemma KeysEntered(codes: Dict<Key, seq<Bit>>, keys: seq<Key>)
    requires Valid(codes) && Listed(codes)
    requires forall i | 0 <= i < |keys| :: keys[i] in codes.members
    ensures Entered(Items(codes), codes.members, keys)
  {
    forall i | 0 <= i < |keys| ensures (keys[i], codes.members[keys[i]]) in Items(codes) {
      var j :| 0 <= j < |codes.order| && codes.order[j] == keys[i];
      assert Items(codes)[j] == (keys[i], codes.members[keys[i]]);
    }
  }

  /** Decoding the concatenated codes of coded keys gives the keys back. */
  lemma DecodeEncoded(codes: Dict<Key, seq<Bit>>, keys: seq<Key>)
    requires Valid(codes) && Listed(codes) && PrefixFree(Items(codes)) && NonEmptyCodes(Items(codes))
    requires forall i | 0 <= i < |keys| :: keys[i] in codes.members
    ensures DecodingTree(codes).Ok? && Decode(Concat(keys, codes.members), DecodingTree(codes).value) == Ok(keys)
  {
    TableTree(codes);
    KeysEntered(codes, keys);
    DecodeKeys(DecodingTree(codes).value, Items(codes), codes.members, keys);
  }

  /** The same, for any trie that holds the entries. */
  lemma DecodeKeys(t: Trie, entries: seq<(Key, seq<Bit>)>, codes: map<Key, seq<Bit>>, keys: seq<Key>)
    requires PrefixFree(entries) && NonEmptyCodes(entries) && Holds(t, entries) && Entered(entries, codes, keys)
    ensures Decode(Concat(keys, codes), t) == Ok(keys)
  {
    var bits := Concat(keys, codes);
    calc {
      Decode(bits, t);
      { assert bits + [] == bits; }
      DecodeFrom(t, t, bits + [], []);
      { DecodeConcat(t, entries, codes, keys, [], []); }
      DecodeFrom(t, t, [], [] + keys);
      { assert [] + keys == keys; }
      Ok(keys);
    }
  }

  /** Whatever decodes successfully is the concatenation of the decoded keys'
      codes. */
  lemma DecodeDecoded(codes: Dict<Key, seq<Bit>>, bits: seq<Bit>)
    requires Listed(codes) && PrefixFree(Items(codes)) && NonEmptyCodes(Items(codes))
    requires DecodingTree(codes).Ok? && Decode(bits, DecodingTree(codes).value).Ok?
    ensures var keys := Decode(bits, DecodingTree(codes).value).value;
            (forall i | 0 <= i < |keys| :: keys[i] in codes.members) && bits == Concat(keys, codes.members)
  {
    TableTree(codes);
    var t := DecodingTree(codes).value;
    assert Stores(Items(codes), codes.members);
    DecodeSound(t, Items(codes), codes.members, [], t, bits, []);
    var keys := Decode(bits, t).value;
    assert keys[0..] == keys;
  }

  /** For a table of non-empty prefix-free codes, the decoder turns a bit string
      into keys exactly when the bit string is the concatenation of those keys'
      codes. */
  lemma DecodeIff(codes: Dict<Key, seq<Bit>>, bits: seq<Bit>, keys: seq<Key>)
    requires Valid(codes) && Listed(codes) && PrefixFree(Items(codes)) && NonEmptyCodes(Items(codes))
    ensures DecodingTree(codes).Ok?
    ensures Decode(bits, DecodingTree(codes).value) == Ok(keys) <==>
              (forall i | 0 <= i < |keys| :: keys[i] in codes.members) && bits == Concat(keys, codes.members)
  {
    TableTree(codes);
    var t := DecodingTree(codes).value;
    if Decode(bits, t) == Ok(keys) {
      DecodeDecoded(codes, bits);
    }
    if (forall i | 0 <= i < |keys| :: keys[i] in codes.members) && bits == Concat(keys, codes.members) {
      DecodeEncoded(codes, keys);
    }
  }

  // ----- Steps 1 to 3 of `main`: from hex text to keys

  /** `hex_to_bytes`, `bytes_to_bits`, `build_decoding_tree` and `decode_huffman`
      in the order `main` calls them. */
  function DecodeStream(hex: string, codes: Dict<Key, seq<Bit>>, totalBits: int, paddingBits: int): Result<seq<Key>>
    requires Listed(codes)
  {
    match HexToBytes(hex)
    case Err(f) => Err(f)
    case Ok(bytes) =>
      var bits := BytesToBits(bytes, totalBits, paddingBits);
      match DecodingTree(codes)
      case Err(f) => Err(f)
      case Ok(tree) => Decode(bits, tree)
  }

  /** A table whose order is a rearrangement of the distinct keys of `keys`, and
      whose keys are exactly those, lists each key once. */
  lemma TableListed(codes: Dict<Key, seq<Bit>>, keys: seq<Key>)
    requires multiset(codes.order) == multiset(FirstSeen(keys))
    requires forall k :: k in codes.members <==> k in keys
    ensures Valid(codes) && Listed(codes)
  {
    FirstSeenSpec(keys);
    DistinctByMultiset(codes.order, FirstSeen(keys));
    forall k ensures k in codes.members <==> k in codes.order {
      assert k in codes.order <==> k in multiset(codes.order);
      assert k in FirstSeen(keys) <==> k in multiset(FirstSeen(keys));
    }
    ValidOrder(codes);
  }

  /** Prefix-free non-empty codes of distinct keys stay so in the stored order. */
  lemma TableEntries(codes: Dict<Key, seq<Bit>>)
    requires Valid(codes) && Listed(codes) && CodesPrefixFree(codes.members)
    requires forall k | k in codes.members :: |codes.members[k]| > 0
    ensures PrefixFree(Items(codes)) && NonEmptyCodes(Items(codes))
  {
    var entries := Items(codes);
    forall i, j | 0 <= i < |entries| && 0 <= j < |entries| && i != j ensures !(entries[i].1 <= entries[j].1) {
      assert codes.order[i] != codes.order[j];
    }
  }

  /** The code table the encoder stores lists each key once, and its codes are
      non-empty and prefix-free in the order it is stored. */
  lemma StoredTable(ts: seq<Token>)
    requires Encodable(ts) && ts != []
    ensures Compress(ts).Ok?
    ensures var codes := Compress(ts).value.codes;
            Valid(codes) && Listed(codes) && PrefixFree(Items(codes)) && NonEmptyCodes(Items(codes))
  {
    CompressTable(ts);
    TableListed(Compress(ts).value.codes, TokenKeys(ts).value);
    TableEntries(Compress(ts).value.codes);
  }

  /** Decoding what the encoder stores gives back the key of every token, in
      order: the hex text, the padding and the code table are enough. */
  lemma StreamRoundTrip(ts: seq<Token>)
    requires Encodable(ts) && ts != []
    ensures Compress(ts).Ok? && TokenKeys(ts).Ok? && Listed(Compress(ts).value.codes)
    ensures var c := Compress(ts).value;
            DecodeStream(c.hex, c.codes, |c.bits|, c.padding) == Ok(TokenKeys(ts).value)
  {
    StoredTable(ts);
    CompressOk(ts);
    CompressBits(ts);
    var c := Compress(ts).value;
    HexRoundTrip(c.bytes);
    DecodeEncoded(c.codes, TokenKeys(ts).value);
  }

  // ----- `reconstruct_token_objects`

  /** A key with its type code in the long form and its `original`, if it has
      one. */
  datatype Normalised = Normalised(tag: string, id: string, original: Option<string>)

  /** The long type code of a 2-tuple's single-letter code: `P` is a pattern when
      the id starts with `C` and a phrase otherwise; unknown codes stay as they
      are. */
  function LongTag(tag: string, id: string): string
  {
    if tag == "W" then "WORD"
    else if tag == "P" then (if |id| > 0 && id[0] == 'C' then "PATTERN" else "PHRASE")
    else if tag == "E" then "ENTITY"
    else if tag == "F" then "PHRASE"
    else tag
  }

  function NormaliseKey(k: Key): Result<Normalised>
  {
    match k
    case Triple(tag, id, original) => Ok(Normalised(tag, id, Some(original)))
    case Pair(tag, id) => Ok(Normalised(LongTag(tag, id), id, None))
    case Malformed(_) => Err(InvalidKeyFormat)
  }

  /** The dictionary a long type code looks ids up in. */
  function KindOfTag(tag: string): Option<RefKind>
  {
    if tag == "PHRASE" then Some(PhraseRef)
    else if tag == "WORD" then Some(WordRef)
    else if tag == "ENTITY" then Some(EntityRef)
    else None
  }

  function UnknownId(kind: RefKind, id: string): Fault
  {
    match kind
    case EntityRef => UnknownEntity(id)
    case PhraseRef => UnknownPhrase(id)
    case WordRef => UnknownWord(id)
  }

  /** The text a dictionary token gets: a non-empty `original`, else the
      dictionary's text. */
  function TextOf(original: Option<string>, dict: map<string, string>, id: string): string
    requires id in dict
  {
    if original.Some? && original.value != "" then original.value else dict[id]
  }

  /** `prefix` in front of a successful result; an error stays. */
  function Prepend(prefix: seq<Token>, r: Result<seq<Token>>): Result<seq<Token>>
  {
    match r
    case Err(f) => Err(f)
    case Ok(rest) => Ok(prefix + rest)
  }

  /** The tokens for `keys` from offset `position`. A pattern key is expanded by a
      nested call that starts again at offset 0, and the offset is not advanced
      past the expansion; `fuel` bounds the nesting depth the interpreter allows.
      A dictionary id that is missing fails even when the key carries an
      `original`. */
  function Reconstruct(keys: seq<Key>, patterns: map<string, PatternEntry>, d: Dictionaries, fuel: nat,
                       position: nat): Result<seq<Token>>
    decreases fuel, |keys|
  {
    if keys == [] then Ok([])
    else
      match NormaliseKey(keys[0])
      case Err(f) => Err(f)
      case Ok(n) =>
        if n.tag == "L" then
          Prepend([Literal(n.id, position, |n.id|)], Reconstruct(keys[1..], patterns, d, fuel, position + |n.id|))
        else if n.tag == "PATTERN" then
          if n.id !in patterns then Err(UnknownPattern(n.id))
          else if fuel == 0 then Err(RecursionLimit)
          else
            match Reconstruct(patterns[n.id].sequence, patterns, d, fuel - 1, 0)
            case Err(f) => Err(f)
            case Ok(expanded) => Prepend(expanded, Reconstruct(keys[1..], patterns, d, fuel, position))
        else
          match KindOfTag(n.tag)
          case None => Err(UnknownTypeCode(n.tag))
          case Some(kind) =>
            if n.id !in DictionaryFor(d, kind) then Err(UnknownId(kind, n.id))
            else
              var text := TextOf(n.original, DictionaryFor(d, kind), n.id);
              Prepend([Ref(kind, n.id, Some(text), position, |text|)],
                      Reconstruct(keys[1..], patterns, d, fuel, position + |text|))
  }

  method ReconstructTokenObjects(keys: seq<Key>, patterns: map<string, PatternEntry>, d: Dictionaries, fuel: nat)
    returns (r: Result<seq<Token>>)
    ensures r == Reconstruct(keys, patterns, d, fuel, 0)
    decreases fuel, 1
  {
    var tokens: seq<Token> := [];
    var position: nat := 0;
    var i := 0;
    assert keys[i..] == keys;
    PrependNothing(Reconstruct(keys, patterns, d, fuel, 0));
    while i < |keys|
      invariant i <= |keys|
      invariant Reconstruct(keys, patterns, d, fuel, 0) == Prepend(tokens, Reconstruct(keys[i..], patterns, d, fuel, position))
    {
      var step := ReconstructKey(keys, i, patterns, d, fuel, position);
      if step.Err? {
        return Err(step.fault);
      }
      var (made, next) := step.value;
      PrependAppend(tokens, made, Reconstruct(keys[i + 1..], patterns, d, fuel, next));
      tokens := tokens + made;
      position := next;
      i := i + 1;
    }
    assert keys[i..] == [] && tokens + [] == tokens;
    return Ok(tokens);
  }

  /** One turn of the loop: the tokens key `i` stands for and the offset after
      them, or the fault it raises. */
  method ReconstructKey(keys: seq<Key>, i: nat, patterns: map<string, PatternEntry>, d: Dictionaries, fuel: nat,
                        position: nat)
    returns (step: Result<(seq<Token>, nat)>)
    requires i < |keys|
    ensures step.Err? ==> Reconstruct(keys[i..], patterns, d, fuel, position) == Err(step.fault)
    ensures step.Ok? ==> Reconstruct(keys[i..], patterns, d, fuel, position) ==
                         Prepend(step.value.0, Reconstruct(keys[i + 1..], patterns, d, fuel, step.value.1))
    decreases fuel, 0
  {
    assert keys[i..][0] == keys[i] && keys[i..][1..] == keys[i + 1..];
    var key := NormaliseKey(keys[i]);
    if key.Err? {
      return Err(key.fault);
    }
    var n := key.value;
    if n.tag == "L" {
      return Ok(([Literal(n.id, position, |n.id|)], position + |n.id|));
    } else if n.tag == "PATTERN" {
      if n.id !in patterns {
        return Err(UnknownPattern(n.id));
      }
      if fuel == 0 {
        return Err(RecursionLimit);
      }
      var expanded := ReconstructTokenObjects(patterns[n.id].sequence, patterns, d, fuel - 1);
      if expanded.Err? {
        return Err(expanded.fault);
      }
      return Ok((expanded.value, position));
    } else {
      var kind := KindOfTag(n.tag);
      if kind.None? {
        return Err(UnknownTypeCode(n.tag));
      }
      var dict := DictionaryFor(d, kind.value);
      if n.id !in dict {
        return Err(UnknownId(kind.value, n.id));
      }
      var text := TextOf(n.original, dict, n.id);
      return Ok(([Ref(kind.value, n.id, Some(text), position, |text|)], position + |text|));
    }
  }

  lemma PrependNothing(r: Result<seq<Token>>)
    ensures Prepend([], r) == r
  {
    if r.Ok? {
      assert [] + r.value == r.value;
    }
  }

  lemma PrependAppend(a: seq<Token>, b: seq<Token>, r: Result<seq<Token>>)
    ensures Prepend(a, Prepend(b, r)) == Prepend(a + b, r)
  {
    if r.Ok? {
      assert a + (b + r.value) == a + b + r.value;
    }
  }

  // ----- What reconstruction gives back

  /** Literal and dictionary tokens whose ids the dictionaries hold. */
  predicate Resolvable(ts: seq<Token>, d: Dictionaries)
  {
    forall i | 0 <= i < |ts| :: ts[i].Literal? || (ts[i].Ref? && ts[i].id in DictionaryFor(d, ts[i].kind))
  }

  /** The tokens as the decoder rebuilds them: same texts, kinds and ids; a
      dictionary token's `original` is its own when non-empty and the
      dictionary's text otherwise; positions are running offsets from
      `position` and lengths are text lengths. */
  function Relocated(ts: seq<Token>, d: Dictionaries, position: nat): (out: seq<Token>)
    requires Resolvable(ts, d)
    ensures |out| == |ts|
  {
    if ts == [] then []
    else
      assert Resolvable(ts[1..], d) by {
        forall i | 0 <= i < |ts| - 1 ensures ts[1..][i] == ts[i + 1] {}
      }
      match ts[0]
      case Literal(text, _, _) => [Literal(text, position, |text|)] + Relocated(ts[1..], d, position + |text|)
      case Ref(kind, id, original, _, _) =>
        var text := TextOf(original, DictionaryFor(d, kind), id);
        [Ref(kind, id, Some(text), position, |text|)] + Relocated(ts[1..], d, position + |text|)
  }

  /** A literal key becomes a literal token at the current offset. */
  lemma LiteralStep(keys: seq<Key>, patterns: map<string, PatternEntry>, d: Dictionaries, fuel: nat, position: nat)
    requires keys != [] && keys[0].Pair? && keys[0].tag == "L"
    ensures Reconstruct(keys, patterns, d, fuel, position) ==
              Prepend([Literal(keys[0].data, position, |keys[0].data|)],
                      Reconstruct(keys[1..], patterns, d, fuel, position + |keys[0].data|))
  {
    assert NormaliseKey(keys[0]) == Ok(Normalised("L", keys[0].data, None));
  }

  /** A dictionary key becomes a dictionary token at the current offset. */
  lemma RefStep(keys: seq<Key>, kind: RefKind, id: string, original: Option<string>,
                patterns: map<string, PatternEntry>, d: Dictionaries, fuel: nat, position: nat)
    requires keys != [] && NormaliseKey(keys[0]) == Ok(Normalised(KindTag(kind), id, original))
    requires id in DictionaryFor(d, kind)
    ensures var text := TextOf(original, DictionaryFor(d, kind), id);
            Reconstruct(keys, patterns, d, fuel, position) ==
              Prepend([Ref(kind, id, Some(text), position, |text|)],
                      Reconstruct(keys[1..], patterns, d, fuel, position + |text|))
  {
    assert KindOfTag(KindTag(kind)) == Some(kind);
  }

  lemma ResolvableTail(ts: seq<Token>, d: Dictionaries)
    requires ts != [] && Resolvable(ts, d)
    ensures Resolvable(ts[1..], d)
  {
    forall i | 0 <= i < |ts| - 1 ensures ts[1..][i] == ts[i + 1] {}
  }

  lemma KeysOk(ts: seq<Token>, d: Dictionaries)
    requires Resolvable(ts, d)
    ensures TokenKeys(ts).Ok?
  {
    TokenKeysSpec(ts);
  }

  /** The keys of the tail are the tail of the keys. */
  lemma KeysTail(ts: seq<Token>, d: Dictionaries)
    requires ts != [] && Resolvable(ts, d)
    ensures Resolvable(ts[1..], d) && TokenKeys(ts).Ok? && TokenKeys(ts[1..]).Ok?
    ensures |TokenKeys(ts).value| == |ts|
    ensures TokenKeys(ts).value[1..] == TokenKeys(ts[1..]).value
    ensures TokenToKey(ts[0]) == Ok(TokenKeys(ts).value[0])
  {
    ResolvableTail(ts, d);
    TokenKeysSpec(ts);
    TokenKeysSpec(ts[1..]);
    var keys := TokenKeys(ts).value;
    forall i | 0 <= i < |ts| - 1 ensures keys[1..][i] == TokenKeys(ts[1..]).value[i] {
      assert ts[1..][i] == ts[i + 1];
    }
  }

  /** The keys the encoder writes for literal and dictionary tokens decode back to
      those tokens: every text, kind, id and non-empty `original` survives. */
  lemma {:induction false} ReconstructKeys(ts: seq<Token>, patterns: map<string, PatternEntry>, d: Dictionaries,
                                           fuel: nat, position: nat)
    requires Resolvable(ts, d)
    ensures TokenKeys(ts).Ok?
    ensures Reconstruct(TokenKeys(ts).value, patterns, d, fuel, position) == Ok(Relocated(ts, d, position))
    decreases |ts|
  {
    KeysOk(ts, d);
    if ts != [] {
      KeysTail(ts, d);
      ReconstructKeys(ts[1..], patterns, d, fuel, position + Width(ts[0], d));
      KeysCons(ts, patterns, d, fuel, position);
    }
  }

  /** How many characters a literal or dictionary token spans once rebuilt. */
  function Width(t: Token, d: Dictionaries): nat
    requires t.Literal? || (t.Ref? && t.id in DictionaryFor(d, t.kind))
  {
    if t.Literal? then |t.text| else |TextOf(t.original, DictionaryFor(d, t.kind), t.id)|
  }

  /** The keys of the tokens rebuild them once the keys of the tail rebuild the tail. */
  lemma KeysCons(ts: seq<Token>, patterns: map<string, PatternEntry>, d: Dictionaries, fuel: nat, position: nat)
    requires ts != [] && Resolvable(ts, d) && Resolvable(ts[1..], d)
    requires TokenKeys(ts).Ok? && TokenKeys(ts[1..]).Ok? && |TokenKeys(ts).value| == |ts|
    requires TokenKeys(ts).value[1..] == TokenKeys(ts[1..]).value
    requires TokenToKey(ts[0]) == Ok(TokenKeys(ts).value[0])
    requires Reconstruct(TokenKeys(ts[1..]).value, patterns, d, fuel, position + Width(ts[0], d)) ==
             Ok(Relocated(ts[1..], d, position + Width(ts[0], d)))
    ensures Reconstruct(TokenKeys(ts).value, patterns, d, fuel, position) == Ok(Relocated(ts, d, position))
  {
    var keys := TokenKeys(ts).value;
    match ts[0]
    case Literal(text, _, _) =>
      LiteralCons(ts, keys, patterns, d, fuel, position);
    case Ref(kind, id, original, _, _) =>
      var o := if original.Some? then original.value else "";
      assert TextOf(Some(o), DictionaryFor(d, kind), id) == TextOf(original, DictionaryFor(d, kind), id);
      RefCons(ts, keys, Some(o), patterns, d, fuel, position);
  }

  /** A literal key in front of keys that rebuild the rest of the tokens. */
  lemma LiteralCons(ts: seq<Token>, keys: seq<Key>, patterns: map<string, PatternEntry>, d: Dictionaries,
                    fuel: nat, position: nat)
    requires ts != [] && ts[0].Literal? && Resolvable(ts, d) && Resolvable(ts[1..], d)
    requires keys != [] && keys[0] == Pair("L", ts[0].text)
    requires Reconstruct(keys[1..], patterns, d, fuel, position + Width(ts[0], d)) ==
             Ok(Relocated(ts[1..], d, position + Width(ts[0], d)))
    ensures Reconstruct(keys, patterns, d, fuel, position) == Ok(Relocated(ts, d, position))
  {
    LiteralStep(keys, patterns, d, fuel, position);
  }

  /** A dictionary key in front of keys that rebuild the rest of the tokens. */
  lemma RefCons(ts: seq<Token>, keys: seq<Key>, original: Option<string>, patterns: map<string, PatternEntry>,
                d: Dictionaries, fuel: nat, position: nat)
    requires ts != [] && ts[0].Ref? && Resolvable(ts, d) && Resolvable(ts[1..], d)
    requires keys != [] && NormaliseKey(keys[0]) == Ok(Normalised(KindTag(ts[0].kind), ts[0].id, original))
    requires TextOf(original, DictionaryFor(d, ts[0].kind), ts[0].id) ==
             TextOf(ts[0].original, DictionaryFor(d, ts[0].kind), ts[0].id)
    requires Reconstruct(keys[1..], patterns, d, fuel, position + Width(ts[0], d)) ==
             Ok(Relocated(ts[1..], d, position + Width(ts[0], d)))
    ensures Reconstruct(keys, patterns, d, fuel, position) == Ok(Relocated(ts, d, position))
  {
    RefStep(keys, ts[0].kind, ts[0].id, original, patterns, d, fuel, position);
  }

  /** The tokens with their `original`s dropped, as a pattern's stored sequence
      keeps them. */
  function Forgotten(ts: seq<Token>): (out: seq<Token>)
    ensures |out| == |ts|
    ensures forall i | 0 <= i < |ts| :: out[i] == (if ts[i].Ref? then ts[i].(original := None) else ts[i])
  {
    seq(|ts|, i requires 0 <= i < |ts| => if ts[i].Ref? then ts[i].(original := None) else ts[i])
  }

  /** No phrase id starts with `C`, the letter that marks a pattern id. */
  predicate PhraseIdsPlain(ts: seq<Token>)
  {
    forall i | 0 <= i < |ts| :: ts[i].Ref? && ts[i].kind == PhraseRef ==> !(|ts[i].id| > 0 && ts[i].id[0] == 'C')
  }

  lemma ForgottenResolvable(ts: seq<Token>, d: Dictionaries)
    requires Resolvable(ts, d)
    ensures Resolvable(Forgotten(ts), d)
  {
  }

  /** The tail keeps the shape, and its keys and forgotten tokens are the tails. */
  lemma SeqTail(ts: seq<Token>, d: Dictionaries)
    requires ts != [] && Resolvable(ts, d) && PhraseIdsPlain(ts)
    ensures Resolvable(ts[1..], d) && PhraseIdsPlain(ts[1..])
    ensures SeqKeys(ts)[1..] == SeqKeys(ts[1..])
    ensures Forgotten(ts)[1..] == Forgotten(ts[1..])
  {
    var rest := ts[1..];
    forall i | 0 <= i < |rest| ensures rest[i] == ts[i + 1] {}
    assert SeqKeys(ts)[1..] == SeqKeys(rest);
    assert Forgotten(ts)[1..] == Forgotten(rest);
  }

  /** The keys the pattern stage stores for a sequence of literal and dictionary
      tokens decode to those tokens with the dictionaries' texts in place of their
      `original`s. */
  lemma {:induction false} ReconstructSeqKeys(ts: seq<Token>, patterns: map<string, PatternEntry>, d: Dictionaries,
                                              fuel: nat, position: nat)
    requires Resolvable(ts, d) && PhraseIdsPlain(ts)
    ensures Resolvable(Forgotten(ts), d)
    ensures Reconstruct(SeqKeys(ts), patterns, d, fuel, position) == Ok(Relocated(Forgotten(ts), d, position))
    decreases |ts|
  {
    ForgottenResolvable(ts, d);
    if ts != [] {
      var rest := ts[1..];
      SeqTail(ts, d);
      var keys := SeqKeys(ts);
      var f := Forgotten(ts);
      ReconstructSeqKeys(rest, patterns, d, fuel, position + Width(f[0], d));
      match ts[0]
      case Literal(text, _, _) =>
        LiteralCons(f, keys, patterns, d, fuel, position);
      case Ref(kind, id, original, _, _) =>
        assert NormaliseKey(keys[0]) == Ok(Normalised(KindTag(kind), id, None));
        RefCons(f, keys, None, patterns, d, fuel, position);
    }
  }

  /** A pattern key whose stored sequence came from literal and dictionary tokens
      expands to those tokens, with the dictionaries' texts, at offsets counted
      from 0 wherever the pattern key stood. */
  lemma ExpandPattern(id: string, ts: seq<Token>, patterns: map<string, PatternEntry>, d: Dictionaries,
                      fuel: nat, position: nat)
    requires id in patterns && patterns[id].sequence == SeqKeys(ts) && fuel > 0
    requires Resolvable(ts, d) && PhraseIdsPlain(ts)
    ensures Resolvable(Forgotten(ts), d)
    ensures Reconstruct([Pair("PATTERN", id)], patterns, d, fuel, position) == Ok(Relocated(Forgotten(ts), d, 0))
  {
    ReconstructSeqKeys(ts, patterns, d, fuel - 1, 0);
    assert [Pair("PATTERN", id)][1..] == [];
    assert Relocated(Forgotten(ts), d, 0) + [] == Relocated(Forgotten(ts), d, 0);
  }

  /** Offsets are not advanced past an expansion: whatever follows a pattern key
      is rebuilt from the offset the pattern key stood at, while the expansion
      itself is rebuilt from offset 0. */
  lemma PatternKeepsPosition(id: string, ts: seq<Token>, rest: seq<Key>, patterns: map<string, PatternEntry>,
                             d: Dictionaries, fuel: nat, position: nat)
    requires id in patterns && patterns[id].sequence == SeqKeys(ts) && fuel > 0
    requires Resolvable(ts, d) && PhraseIdsPlain(ts)
    ensures Resolvable(Forgotten(ts), d)
    ensures Reconstruct([Pair("PATTERN", id)] + rest, patterns, d, fuel, position) ==
            Prepend(Relocated(Forgotten(ts), d, 0), Reconstruct(rest, patterns, d, fuel, position))
  {
    var keys := [Pair("PATTERN", id)] + rest;
    assert keys[0] == Pair("PATTERN", id) && keys[1..] == rest;
    assert NormaliseKey(keys[0]) == Ok(Normalised("PATTERN", id, None));
    ReconstructSeqKeys(ts, patterns, d, fuel - 1, 0);
  }

  /** An instance of the above: after a pattern whose text is
      `ab`, a literal `c` is placed at the pattern's own offset, and the
      expansion itself restarts at offset 0. */
  lemma PositionAfterPattern(position: nat)
    ensures var patterns := map["C0001" := PatternEntry([Pair("L", "ab")], 2, 1, 0)];
            var empty := Dictionaries(map[], map[], map[]);
            Reconstruct([Pair("PATTERN", "C0001"), Pair("L", "c")], patterns, empty, 1, position) ==
              Ok([Literal("ab", 0, 2), Literal("c", position, 1)])
  {
    var patterns := map["C0001" := PatternEntry([Pair("L", "ab")], 2, 1, 0)];
    var empty := Dictionaries(map[], map[], map[]);
    var keys := [Pair("PATTERN", "C0001"), Pair("L", "c")];
    assert NormaliseKey(keys[0]) == Ok(Normalised("PATTERN", "C0001", None));
    LiteralStep([Pair("L", "ab")], patterns, empty, 0, 0);
    assert [Pair("L", "ab")][1..] == [];
    LiteralStep(keys[1..], patterns, empty, 1, position);
    assert keys[1..][1..] == [];
    assert "PATTERN" != "L" && patterns["C0001"].sequence == [Pair("L", "ab")];
    assert Reconstruct([], patterns, empty, 0, 2) == Ok([]) && Reconstruct([], patterns, empty, 1, position + 1) == Ok([]);
    assert [Literal("ab", 0, 2)] + [] == [Literal("ab", 0, 2)] && [Literal("c", position, 1)] + [] == [Literal("c", position, 1)];
    assert |"ab"| == 2 && |"c"| == 1;
    assert Reconstruct([Pair("L", "ab")], patterns, empty, 0, 0) == Ok([Literal("ab", 0, 2)]);
    assert Reconstruct(keys[1..], patterns, empty, 1, position) == Ok([Literal("c", position, 1)]);
    assert Reconstruct(keys, patterns, empty, 1, position) ==
           Prepend([Literal("ab", 0, 2)], Reconstruct(keys[1..], patterns, empty, 1, position));
    assert [Literal("ab", 0, 2)] + [Literal("c", position, 1)] == [Literal("ab", 0, 2), Literal("c", position, 1)];
  }

  /** From the encoder's output back to the tokens: decoding the hex text with
      the stored code table and padding and reconstructing the keys gives the
      literal and dictionary tokens back, with offsets from 0. */
  lemma EndToEnd(ts: seq<Token>, patterns: map<string, PatternEntry>, d: Dictionaries, fuel: nat)
    requires ts != [] && Resolvable(ts, d)
    ensures Encodable(ts) && Compress(ts).Ok? && Listed(Compress(ts).value.codes)
    ensures var c := Compress(ts).value;
            var keys := DecodeStream(c.hex, c.codes, |c.bits|, c.padding);
            keys.Ok? && Reconstruct(keys.value, patterns, d, fuel, 0) == Ok(Relocated(ts, d, 0))
  {
    assert Encodable(ts);
    StreamRoundTrip(ts);
    ReconstructKeys(ts, patterns, d, fuel, 0);
  }
  /** The faults reconstruction raises at the first key: a key of the wrong
      shape, a three-part key whose id its dictionary lacks (whatever
      `original` it carries), and a type code no dictionary answers to. */
  lemma KeyFaults(k: Key, rest: seq<Key>, patterns: map<string, PatternEntry>, d: Dictionaries,
                  fuel: nat, position: nat)
    ensures k.Malformed? ==> Reconstruct([k] + rest, patterns, d, fuel, position) == Err(InvalidKeyFormat)
    ensures forall kind | k.Triple? && k.tag == KindTag(kind) && k.id !in DictionaryFor(d, kind) ::
              Reconstruct([k] + rest, patterns, d, fuel, position) == Err(UnknownId(kind, k.id))
    ensures k.Triple? && k.tag != "L" && k.tag != "PATTERN" && KindOfTag(k.tag).None? ==>
              Reconstruct([k] + rest, patterns, d, fuel, position) == Err(UnknownTypeCode(k.tag))
  {
    assert ([k] + rest)[0] == k;
  }
}
