/** The older, character-level entropy coder: every character of a literal is a
    symbol of its own, every other token is the symbol of its type letter and id.
    The symbols are counted, a Huffman tree is built over the counts and the stream
    is written as the symbols' codes; a symbol without a code is written as an
    escape sequence instead. */
module EntropyV1 {
  import opened Common
  import opened Grouping
  import opened Tokens
  import opened Huffman
  import opened BitPacking
  import EntropyV2
  import EntropyDecode

  // ----- `build_frequency_table`

  /** `('L', c)`: the symbol of one character of a literal. */
  function CharSymbol(c: char): Key
  {
    Pair("L", [c])
  }

  function CharSymbols(text: string): (ks: seq<Key>)
    ensures |ks| == |text|
    ensures forall i | 0 <= i < |text| :: ks[i] == CharSymbol(text[i])
  {
    seq(|text|, i requires 0 <= i < |text| => CharSymbol(text[i]))
  }

  /** The symbols one token is counted as: one per character of a literal (none for
      an empty literal), otherwise `(token['type'][0].upper(), token['id'])`. */
  function TokenSymbols(t: Token): seq<Key>
  {
    if t.Literal? then CharSymbols(t.text) else [SeqKey(t)]
  }

  /** The symbols of the whole stream, in order. */
  function Symbols(ts: seq<Token>): seq<Key>
  {
    if ts == [] then [] else Symbols(ts[..|ts| - 1]) + TokenSymbols(ts[|ts| - 1])
  }

  /** Counting one more symbol is one `c[k] += 1` on the counter. */
  lemma CountedSnoc(ks: seq<Key>, k: Key)
    ensures Counted(ks + [k]) == Tally(Counted(ks), k)
  {
    var s := ks + [k];
    assert s[..|s| - 1] == ks && s[|s| - 1] == k;
  }

  /** The counting loop counts every symbol of the stream, in order. */
  method BuildFrequencyTable(ts: seq<Token>) returns (freqs: Dict<Key, nat>)
    ensures freqs == Counted(Symbols(ts))
  {
    freqs := Dict(map[], []);
    for i := 0 to |ts|
      invariant freqs == Counted(Symbols(ts[..i]))
    {
      var t := ts[i];
      if t.Literal? {
        freqs := CountLiteral(freqs, Symbols(ts[..i]), t.text);
      } else {
        CountedSnoc(Symbols(ts[..i]), SeqKey(t));
        freqs := Tally(freqs, SeqKey(t));
      }
      SymbolsSnoc(ts, i);
    }
    assert ts[..|ts|] == ts;
  }

  /** The inner loop over a literal: one count per character, on top of the
      counts of the symbols `done` before it. */
  method CountLiteral(freqs: Dict<Key, nat>, ghost done: seq<Key>, text: string) returns (r: Dict<Key, nat>)
    requires freqs == Counted(done)
    ensures r == Counted(done + CharSymbols(text))
  {
    r := freqs;
    assert done + CharSymbols(text[..0]) == done;
    for j := 0 to |text|
      invariant r == Counted(done + CharSymbols(text[..j]))
    {
      CountChar(done, text, j);
      r := Tally(r, CharSymbol(text[j]));
    }
    assert text[..|text|] == text;
  }

  lemma SymbolsSnoc(ts: seq<Token>, i: nat)
    requires i < |ts|
    ensures Symbols(ts[..i + 1]) == Symbols(ts[..i]) + TokenSymbols(ts[i])
  {
    assert ts[..i + 1][..i] == ts[..i];
  }

  /** One step of the inner loop counts the next character of the literal. */
  lemma CountChar(done: seq<Key>, text: string, j: nat)
    requires j < |text|
    ensures Counted(done + CharSymbols(text[..j + 1])) == Tally(Counted(done + CharSymbols(text[..j])), CharSymbol(text[j]))
  {
    CountedSnoc(done + CharSymbols(text[..j]), CharSymbol(text[j]));
    CharSymbolsSnoc(text, j);
    assert done + CharSymbols(text[..j + 1]) == done + CharSymbols(text[..j]) + [CharSymbol(text[j])];
  }

  lemma CharSymbolsSnoc(text: string, j: nat)
    requires j < |text|
    ensures CharSymbols(text[..j + 1]) == CharSymbols(text[..j]) + [CharSymbol(text[j])]
  {
  }

  /** A symbol occurs in the stream exactly when some token is counted as it. */
  lemma {:induction false} SymbolsOf(ts: seq<Token>, k: Key)
    ensures k in Symbols(ts) <==> exists i | 0 <= i < |ts| :: k in TokenSymbols(ts[i])
  {
    if ts != [] {
      var n := |ts| - 1;
      SymbolsOf(ts[..n], k);
      if k in Symbols(ts[..n]) {
        var i :| 0 <= i < n && k in TokenSymbols(ts[..n][i]);
        assert ts[i] == ts[..n][i];
      } else if k in TokenSymbols(ts[n]) {
      } else {
        forall i | 0 <= i < |ts| ensures k !in TokenSymbols(ts[i]) {
          if i < n { assert ts[i] == ts[..n][i]; }
        }
      }
    }
  }

  /** There are as many symbols as literal characters plus other tokens. */
  function SymbolCount(ts: seq<Token>): nat
  {
    if ts == [] then 0
    else SymbolCount(ts[..|ts| - 1]) + (if ts[|ts| - 1].Literal? then |ts[|ts| - 1].text| else 1)
  }

  /** The table lists each symbol once, in order of first occurrence, with its
      number of occurrences; the counts add up to the number of literal characters
      plus the number of other tokens. */
  lemma {:induction false} FrequencyTableSpec(ts: seq<Token>)
    ensures var freqs := Counted(Symbols(ts));
            Valid(freqs) && Listed(freqs) && freqs.order == FirstSeen(Symbols(ts)) &&
            (forall k :: k in freqs.members <==> k in Symbols(ts)) &&
            (forall k | k in freqs.members :: freqs.members[k] == Count(Symbols(ts), k) && freqs.members[k] > 0) &&
            SumOver(freqs.order, freqs.members) == SymbolCount(ts)
  {
    var syms := Symbols(ts);
    EntropyV2.CountedValid(syms);
    CountedSpec(syms);
    CountedTotal(syms);
    SymbolsLength(ts);
    forall k | k in syms ensures Count(syms, k) > 0 {
      CountPositive(syms, k);
    }
  }

  lemma {:induction false} SymbolsLength(ts: seq<Token>)
    ensures |Symbols(ts)| == SymbolCount(ts)
  {
    if ts != [] {
      SymbolsLength(ts[..|ts| - 1]);
    }
  }

  lemma {:induction false} CountPositive(xs: seq<Key>, x: Key)
    requires x in xs
    ensures Count(xs, x) > 0
  {
    var n := |xs| - 1;
    assert xs == xs[..n] + [xs[n]];
    CountAppend(xs[..n], [xs[n]], x);
    if xs[n] != x {
      assert x in xs[..n] by {
        var i :| 0 <= i < |xs| && xs[i] == x;
        assert xs[..n][i] == x;
      }
      CountPositive(xs[..n], x);
    }
  }

  // ----- `build_huffman_tree` and `generate_huffman_codes`

  /** `build_huffman_tree`: every symbol is pushed, so one symbol gives a lone
      leaf; with no symbol the queue stays empty and there is no tree. */
  function TreeOf(freqs: Dict<Key, nat>): Option<Tree<Key>>
    requires Listed(freqs)
  {
    if freqs.order == [] then None else Some(HuffmanTree(Items(freqs)))
  }

  method BuildHuffmanTree(freqs: Dict<Key, nat>) returns (root: Option<Tree<Key>>)
    requires Listed(freqs)
    ensures root == TreeOf(freqs)
  {
    if freqs.order == [] {
      return None;
    }
    var tree := BuildTree(Items(freqs));
    return Some(tree);
  }

  /** The code table `main` uses: the codes of the tree over the stream's counts. */
  function Codes(ts: seq<Token>): Dict<Key, seq<Bit>>
  {
    EntropyV2.CountedValid(Symbols(ts));
    CodeTable(TreeOf(Counted(Symbols(ts))))
  }

  /** A stream without symbols (only empty literals, or nothing) has no tree and an
      empty code table. */
  lemma NoSymbols(ts: seq<Token>)
    requires Symbols(ts) == []
    ensures Listed(Counted(Symbols(ts))) && TreeOf(Counted(Symbols(ts))) == None
    ensures Codes(ts) == Dict(map[], [])
  {
  }

  /** Otherwise the table codes exactly the stream's symbols, each once, with a
      non-empty code, and no code is a prefix of another symbol's code. */
  lemma CodesSpec(ts: seq<Token>)
    requires Symbols(ts) != []
    ensures var codes := Codes(ts);
            multiset(codes.order) == multiset(FirstSeen(Symbols(ts))) &&
            (forall k :: k in codes.members <==> k in Symbols(ts)) &&
            (forall k | k in codes.members :: |codes.members[k]| > 0) &&
            EntropyV2.CodesPrefixFree(codes.members)
  {
    EntropyV2.CountedCodes(Symbols(ts));
  }

  /** A stream with one distinct symbol codes it as `0`. */
  lemma SingleSymbol(ts: seq<Token>)
    requires |FirstSeen(Symbols(ts))| == 1
    ensures Codes(ts).members == map[FirstSeen(Symbols(ts))[0] := [0]]
  {
    var syms := Symbols(ts);
    CountedSpec(syms);
    EntropyV2.CountedValid(syms);
    var freqs := Counted(syms);
    var k := freqs.order[0];
    assert Initial(Items(freqs)) == [Entry(Leaf(k, freqs.members[k]), 0)];
    assert TreeOf(freqs) == Some(Leaf(k, freqs.members[k]));
  }

  // ----- `encode_with_huffman`

  /** `bin(n)[2:]`: the binary digits of `n`, without leading zeros. */
  function Binary(n: nat): (bits: seq<Bit>)
    ensures bits != []
  {
    if n < 2 then [n] else Binary(n / 2) + [n % 2]
  }

  /** `format(n, '08b')`: the binary digits, zero-padded on the left to eight. */
  function Format08b(n: nat): seq<Bit>
  {
    var digits := Binary(n);
    if |digits| < 8 then Zeros(8 - |digits|) + digits else digits
  }

  /** `'11111111'` */
  const Escape: seq<Bit> := [1, 1, 1, 1, 1, 1, 1, 1]

  /** A literal character: its code, or the escape followed by its code point. */
  function CharBits(c: char, codes: map<Key, seq<Bit>>): seq<Bit>
  {
    if CharSymbol(c) in codes then codes[CharSymbol(c)] else Escape + Format08b(c as nat)
  }

  function TextBits(text: string, codes: map<Key, seq<Bit>>): seq<Bit>
  {
    if text == [] then [] else TextBits(text[..|text| - 1], codes) + CharBits(text[|text| - 1], codes)
  }

  /** One token: its characters, or its code, or the escape alone. */
  function TokenBits(t: Token, codes: map<Key, seq<Bit>>): seq<Bit>
  {
    if t.Literal? then TextBits(t.text, codes)
    else if SeqKey(t) in codes then codes[SeqKey(t)]
    else Escape
  }

  /** The bit string of the stream, token after token. */
  function Encoding(ts: seq<Token>, codes: map<Key, seq<Bit>>): seq<Bit>
  {
    if ts == [] then [] else Encoding(ts[..|ts| - 1], codes) + TokenBits(ts[|ts| - 1], codes)
  }

  method EncodeWithHuffman(ts: seq<Token>, codes: map<Key, seq<Bit>>) returns (bits: seq<Bit>)
    ensures bits == Encoding(ts, codes)
  {
    bits := [];
    for i := 0 to |ts|
      invariant bits == Encoding(ts[..i], codes)
    {
      EncodingSnoc(ts, i, codes);
      var t := ts[i];
      if t.Literal? {
        var text := EncodeText(t.text, codes);
        bits := bits + text;
      } else {
        var k := SeqKey(t);
        if k in codes {
          bits := bits + codes[k];
        } else {
          bits := bits + Escape;
        }
      }
    }
    assert ts[..|ts|] == ts;
  }

  /** The inner loop of `encode_with_huffman`, over the characters of a literal. */
  method EncodeText(text: string, codes: map<Key, seq<Bit>>) returns (bits: seq<Bit>)
    ensures bits == TextBits(text, codes)
  {
    bits := [];
    for j := 0 to |text|
      invariant bits == TextBits(text[..j], codes)
    {
      var c := text[j];
      TextBitsSnoc(text, j, codes);
      if CharSymbol(c) in codes {
        bits := bits + codes[CharSymbol(c)];
      } else {
        bits := bits + Escape + Format08b(c as nat);
      }
    }
    assert text[..|text|] == text;
  }

  lemma EncodingSnoc(ts: seq<Token>, i: nat, codes: map<Key, seq<Bit>>)
    requires i < |ts|
    ensures Encoding(ts[..i + 1], codes) == Encoding(ts[..i], codes) + TokenBits(ts[i], codes)
  {
    assert ts[..i + 1][..i] == ts[..i];
  }

  lemma TextBitsSnoc(text: string, j: nat, codes: map<Key, seq<Bit>>)
    requires j < |text|
    ensures TextBits(text[..j + 1], codes) == TextBits(text[..j], codes) + CharBits(text[j], codes)
  {
    assert text[..j + 1][..j] == text[..j];
  }

  /** Binary digits read back as the number they were written from, and they are
      as many as the number needs. */
  lemma {:induction false} BinarySpec(n: nat)
    ensures Value(Binary(n)) == n
    ensures n >= 1 ==> Pow2(|Binary(n)| - 1) <= n
  {
    if n >= 2 {
      BinarySpec(n / 2);
      var b := Binary(n);
      assert b[..|b| - 1] == Binary(n / 2);
    }
  }

  lemma {:induction false} ValueZeros(k: nat, bits: seq<Bit>)
    ensures Value(Zeros(k) + bits) == Value(bits)
  {
    if bits == [] {
      ValueOfZeros(k);
      assert Zeros(k) + bits == Zeros(k);
    } else {
      var n := |bits| - 1;
      ValueZeros(k, bits[..n]);
      assert (Zeros(k) + bits)[..k + n] == Zeros(k) + bits[..n];
    }
  }

  lemma {:induction false} ValueOfZeros(k: nat)
    ensures Value(Zeros(k)) == 0
  {
    if k > 0 {
      ValueOfZeros(k - 1);
      assert Zeros(k)[..k - 1] == Zeros(k - 1);
    }
  }

  lemma {:induction false} Pow2Grows(a: nat, b: nat)
    requires a <= b
    ensures Pow2(a) <= Pow2(b)
  {
    if a < b {
      Pow2Grows(a, b - 1);
    }
  }

  /** The escape's code point field reads back as the character's code point, and
      it is exactly eight bits wide only for code points below 256; wider
      characters take more bits. */
  lemma FormatSpec(n: nat)
    ensures Value(Format08b(n)) == n
    ensures |Format08b(n)| >= 8
    ensures |Format08b(n)| == 8 <==> n < 256
  {
    BinarySpec(n);
    var digits := Binary(n);
    if |digits| < 8 {
      ValueZeros(8 - |digits|, digits);
    }
    assert Pow2(8) == 256;
    if |digits| <= 8 {
      Pow2Grows(|digits|, 8);
    } else {
      Pow2Grows(8, |digits| - 1);
    }
  }

  /** A literal character without a code is written as sixteen bits exactly when
      its code point is below 256, and the bits after the escape give the code
      point back. */
  lemma EscapedChar(c: char, codes: map<Key, seq<Bit>>)
    requires CharSymbol(c) !in codes
    ensures CharBits(c, codes)[..8] == Escape
    ensures Value(CharBits(c, codes)[8..]) == c as nat
    ensures |CharBits(c, codes)| == 16 <==> (c as nat) < 256
  {
    FormatSpec(c as nat);
    assert CharBits(c, codes)[8..] == Format08b(c as nat);
  }

  /** A non-literal token without a code is written as the escape alone. */
  lemma EscapedToken(t: Token, codes: map<Key, seq<Bit>>)
    requires !t.Literal? && SeqKey(t) !in codes
    ensures TokenBits(t, codes) == Escape
  {
  }

  lemma {:induction false} ConcatAppend(a: seq<Key>, b: seq<Key>, codes: map<Key, seq<Bit>>)
    requires forall i | 0 <= i < |a| :: a[i] in codes
    requires forall i | 0 <= i < |b| :: b[i] in codes
    ensures forall i | 0 <= i < |a + b| :: (a + b)[i] in codes
    ensures EntropyV2.Concat(a + b, codes) == EntropyV2.Concat(a, codes) + EntropyV2.Concat(b, codes)
  {
    var ab := a + b;
    forall i | 0 <= i < |ab| ensures ab[i] in codes {
      if i >= |a| { assert ab[i] == b[i - |a|]; }
    }
    if b == [] {
      assert ab == a;
    } else {
      var n := |b| - 1;
      ConcatAppend(a, b[..n], codes);
      assert ab[..|ab| - 1] == a + b[..n] && ab[|ab| - 1] == b[n];
      calc {
        EntropyV2.Concat(ab, codes);
        EntropyV2.Concat(a + b[..n], codes) + codes[b[n]];
        EntropyV2.Concat(a, codes) + EntropyV2.Concat(b[..n], codes) + codes[b[n]];
        { assert b[..n] == b[..|b| - 1]; }
        EntropyV2.Concat(a, codes) + EntropyV2.Concat(b, codes);
      }
    }
  }

  lemma {:induction false} TextConcat(text: string, codes: map<Key, seq<Bit>>)
    requires forall i | 0 <= i < |text| :: CharSymbol(text[i]) in codes
    ensures TextBits(text, codes) == EntropyV2.Concat(CharSymbols(text), codes)
  {
    if text != [] {
      var n := |text| - 1;
      TextConcat(text[..n], codes);
      assert CharSymbols(text)[..n] == CharSymbols(text[..n]);
    }
  }

  /** When every symbol of the stream has a code, no escape is written: the bit
      string is the symbols' codes in order. */
  lemma {:induction false} NoEscape(ts: seq<Token>, codes: map<Key, seq<Bit>>)
    requires forall k | k in Symbols(ts) :: k in codes
    ensures forall i | 0 <= i < |Symbols(ts)| :: Symbols(ts)[i] in codes
    ensures Encoding(ts, codes) == EntropyV2.Concat(Symbols(ts), codes)
  {
    if ts != [] {
      var n := |ts| - 1;
      assert Symbols(ts) == Symbols(ts[..n]) + TokenSymbols(ts[n]);
      NoEscape(ts[..n], codes);
      assert forall i | 0 <= i < |Symbols(ts)| :: Symbols(ts)[i] in codes;
      NoEscapeStep(ts, ts[..n], codes);
    }
  }

  lemma NoEscapeStep(ts: seq<Token>, front: seq<Token>, codes: map<Key, seq<Bit>>)
    requires ts != [] && front == ts[..|ts| - 1]
    requires forall i | 0 <= i < |Symbols(ts)| :: Symbols(ts)[i] in codes
    requires forall i | 0 <= i < |Symbols(front)| :: Symbols(front)[i] in codes
    requires Encoding(front, codes) == EntropyV2.Concat(Symbols(front), codes)
    ensures Encoding(ts, codes) == EntropyV2.Concat(Symbols(ts), codes)
  {
    var n := |ts| - 1;
    var keys := Symbols(front);
    var last := TokenSymbols(ts[n]);
    assert Symbols(ts) == keys + last;
    forall i | 0 <= i < |last| ensures last[i] in codes {
      assert last[i] == (keys + last)[|keys| + i];
    }
    TokenConcat(keys, ts[n], codes);
  }

  lemma TokenConcat(front: seq<Key>, t: Token, codes: map<Key, seq<Bit>>)
    requires forall i | 0 <= i < |front| :: front[i] in codes
    requires forall i | 0 <= i < |TokenSymbols(t)| :: TokenSymbols(t)[i] in codes
    ensures EntropyV2.Concat(front + TokenSymbols(t), codes) == EntropyV2.Concat(front, codes) + TokenBits(t, codes)
  {
    ConcatAppend(front, TokenSymbols(t), codes);
    if t.Literal? {
      TextConcat(t.text, codes);
    } else {
      assert EntropyV2.Concat(TokenSymbols(t), codes) == [] + codes[SeqKey(t)];
    }
  }

  /** With the table built from the stream itself, as `main` builds it, no escape
      is written and the bit string is the symbols' codes in order. */
  lemma OwnCodes(ts: seq<Token>)
    ensures forall i | 0 <= i < |Symbols(ts)| :: Symbols(ts)[i] in Codes(ts).members
    ensures Encoding(ts, Codes(ts).members) == EntropyV2.Concat(Symbols(ts), Codes(ts).members)
  {
    if Symbols(ts) != [] {
      CodesSpec(ts);
    }
    NoEscape(ts, Codes(ts).members);
  }

  /** That bit string decodes, with the tree the decoder builds from the table,
      back to the stream's symbols. */
  lemma OwnCodesDecode(ts: seq<Token>)
    requires Symbols(ts) != []
    ensures Listed(Codes(ts)) && EntropyDecode.DecodingTree(Codes(ts)).Ok?
    ensures EntropyDecode.Decode(Encoding(ts, Codes(ts).members), EntropyDecode.DecodingTree(Codes(ts)).value)
            == Ok(Symbols(ts))
  {
    var codes := Codes(ts);
    CodesSpec(ts);
    EntropyDecode.TableListed(codes, Symbols(ts));
    EntropyDecode.TableEntries(codes);
    OwnCodes(ts);
    EntropyDecode.DecodeIff(codes, Encoding(ts, codes.members), Symbols(ts));
  }

  // ----- `calculate_compression_stats`, integer part

  datatype Stats = Stats(compressedBits: nat, compressedBytes: nat)

  /** The bits `Σ count·len(code)` over the coded symbols, and the bytes they round
      up to. A zero total count fails in the average code length's division. */
  function CompressionStats(freqs: Dict<Key, nat>, codes: Dict<Key, seq<Bit>>): Result<Stats>
  {
    if SumOver(freqs.order, freqs.members) == 0 then Err(ZeroDivision)
    else
      var bits := EntropyV2.TotalBits(freqs, codes);
      Ok(Stats(bits, (bits + 7) / 8))
  }

  // ----- The encoder as `main` runs it

  /** What the encoder stores: counts, codes, bits, bytes, padding, statistics and
      the hex text of the bytes. */
  datatype Encoded = Encoded(freqs: Dict<Key, nat>, codes: Dict<Key, seq<Bit>>, bits: seq<Bit>,
                             bytes: seq<Byte>, padding: nat, stats: Stats, hex: string)

  function Compress(ts: seq<Token>): Result<Encoded>
  {
    Assemble(Counted(Symbols(ts)), Codes(ts), Encoding(ts, Codes(ts).members))
  }

  /** Steps 5 and 6 of `main`: pack the bits and compute the statistics. */
  function Assemble(freqs: Dict<Key, nat>, codes: Dict<Key, seq<Bit>>, bits: seq<Bit>): Result<Encoded>
  {
    var padding := Padding(|bits|);
    var bytes := Pack(bits + Zeros(padding));
    match CompressionStats(freqs, codes)
    case Err(f) => Err(f)
    case Ok(stats) => Ok(Encoded(freqs, codes, bits, bytes, padding, stats, BytesToHex(bytes)))
  }

  /** Steps 1 to 6 of `main`. */
  method CompressTokens(ts: seq<Token>) returns (r: Result<Encoded>)
    ensures r == Compress(ts)
  {
    var freqs := BuildFrequencyTable(ts);
    EntropyV2.CountedValid(Symbols(ts));
    var root := BuildHuffmanTree(freqs);
    var codes := CodeTable(root);
    var bits := EncodeWithHuffman(ts, codes.members);
    var bytes, padding := BitsToBytes(bits);
    var stats := CompressionStats(freqs, codes);
    if stats.Err? {
      return Err(stats.fault);
    }
    return Ok(Encoded(freqs, codes, bits, bytes, padding, stats.value, BytesToHex(bytes)));
  }

  /** The encoder fails exactly on streams without symbols. */
  lemma CompressFails(ts: seq<Token>)
    ensures Compress(ts).Err? <==> Symbols(ts) == []
    ensures Compress(ts).Err? ==> Compress(ts).fault == ZeroDivision
  {
    FrequencyTableSpec(ts);
    SymbolsLength(ts);
  }

  /** With symbols to count, `main`'s table is the merge loop's. */
  lemma CodesOfStream(ts: seq<Token>)
    requires Symbols(ts) != []
    ensures Listed(Counted(Symbols(ts))) && Counted(Symbols(ts)).order != []
    ensures Codes(ts) == CodeTable(Some(HuffmanTree(Items(Counted(Symbols(ts))))))
  {
    EntropyV2.CountedCodes(Symbols(ts));
  }

  /** The theoretical bit count `Σ count·len(code)` is the length of the bit
      string written with `main`'s table. */
  lemma TotalBitsExact(ts: seq<Token>)
    requires Symbols(ts) != []
    ensures EntropyV2.TotalBits(Counted(Symbols(ts)), Codes(ts)) == |Encoding(ts, Codes(ts).members)|
  {
    CodesOfStream(ts);
    EntropyV2.CountedCodesLength(Symbols(ts));
    OwnCodes(ts);
  }

  /** With symbols to count, the encoder stores the stream's counts and table, the
      bit string written with that table, its packing and its statistics. */
  lemma CompressValue(ts: seq<Token>)
    requires Symbols(ts) != []
    ensures Compress(ts).Ok?
    ensures var e := Compress(ts).value;
            e.freqs == Counted(Symbols(ts)) && e.codes == Codes(ts) &&
            e.bits == Encoding(ts, Codes(ts).members) && e.padding == Padding(|e.bits|) &&
            e.bytes == Pack(e.bits + Zeros(e.padding)) && e.hex == BytesToHex(e.bytes) &&
            e.stats.compressedBits == EntropyV2.TotalBits(e.freqs, e.codes) &&
            e.stats.compressedBytes == (e.stats.compressedBits + 7) / 8
  {
    CountedTotal(Symbols(ts));
    AssembleOk(Counted(Symbols(ts)), Codes(ts), Encoding(ts, Codes(ts).members));
  }

  lemma AssembleOk(freqs: Dict<Key, nat>, codes: Dict<Key, seq<Bit>>, bits: seq<Bit>)
    requires SumOver(freqs.order, freqs.members) > 0
    ensures Assemble(freqs, codes, bits).Ok?
    ensures var e := Assemble(freqs, codes, bits).value;
            e.freqs == freqs && e.codes == codes && e.bits == bits && e.padding == Padding(|bits|) &&
            e.bytes == Pack(bits + Zeros(e.padding)) && e.hex == BytesToHex(e.bytes) &&
            e.stats.compressedBits == EntropyV2.TotalBits(freqs, codes) &&
            e.stats.compressedBytes == (e.stats.compressedBits + 7) / 8
  {
  }

  /** Otherwise the statistics are those of the stored bit string and bytes: the
      theoretical size is the real size, because no escape is written. */
  lemma StatsExact(ts: seq<Token>)
    requires Symbols(ts) != []
    ensures Compress(ts).Ok?
    ensures var e := Compress(ts).value;
            e.stats.compressedBits == |e.bits| && e.stats.compressedBytes == |e.bytes|
  {
    CompressValue(ts);
    TotalBitsExact(ts);
    PackRoundTrip(Encoding(ts, Codes(ts).members));
  }

  /** The stored bytes hold the bit string: the padding is below 8 and completes a
      whole number of bytes, and unpacking the bytes and dropping the padding gives
      the bit string back. */
  lemma StoredBits(ts: seq<Token>)
    requires Symbols(ts) != []
    ensures Compress(ts).Ok?
    ensures var e := Compress(ts).value;
            WholeBytes(|e.bits|, e.padding) &&
            BytesToBits(e.bytes, |e.bits|, e.padding) == e.bits &&
            HexToBytes(e.hex) == Ok(e.bytes)
  {
    CompressValue(ts);
    var e := Compress(ts).value;
    StoredFields(e.bits, e.padding, e.bytes, e.hex);
  }

  lemma StoredFields(bits: seq<Bit>, padding: nat, bytes: seq<Byte>, hex: string)
    requires padding == Padding(|bits|) && bytes == Pack(bits + Zeros(padding)) && hex == BytesToHex(bytes)
    ensures WholeBytes(|bits|, padding)
    ensures BytesToBits(bytes, |bits|, padding) == bits && HexToBytes(hex) == Ok(bytes)
  {
    PackedFields(bits, padding, bytes);
    HexRoundTrip(bytes);
  }
}
