/** The binary container (`encode_to_binary`): a header, the three dictionary
    sizes, the three dictionary paths, the token count and one record per token,
    written one field after another. Multi-byte fields are little-endian here. */
module HacsBinary {
  import opened Common
  import opened Tokens

  // ----- Fields

  /** `struct.pack('H', n)` for an `n` that fits. */
  function U16(n: nat): (bs: seq<Byte>)
    requires n < 0x1_0000
    ensures |bs| == 2
  {
    [n % 256, n / 256]
  }

  /** `struct.pack('I', n)` for an `n` that fits. */
  function U32(n: nat): (bs: seq<Byte>)
    requires n < 0x1_0000_0000
    ensures |bs| == 4
  {
    [n % 256, (n / 256) % 256, (n / 0x1_0000) % 256, n / 0x100_0000]
  }

  function U16Value(bs: seq<Byte>): nat
    requires |bs| == 2
  {
    bs[0] as int + 256 * (bs[1] as int)
  }

  function U32Value(bs: seq<Byte>): nat
    requires |bs| == 4
  {
    bs[0] as int + 256 * (bs[1] as int) + 0x1_0000 * (bs[2] as int) + 0x100_0000 * (bs[3] as int)
  }

  /** The fields read back as the numbers written. */
  lemma U16RoundTrip(n: nat)
    requires n < 0x1_0000
    ensures U16Value(U16(n)) == n
  {
  }

  lemma U32RoundTrip(n: nat)
    requires n < 0x1_0000_0000
    ensures U32Value(U32(n)) == n
  {
    var b0, b1, b2, b3 := n % 256, (n / 256) % 256, (n / 0x1_0000) % 256, n / 0x100_0000;
    assert n / 256 == b1 + 256 * (n / 0x1_0000);
    assert n / 0x1_0000 == b2 + 256 * b3;
  }

  /** `c.encode('utf-8')` for one character (a Unicode scalar value). */
  function Utf8Char(c: char): (bs: seq<Byte>)
    ensures 1 <= |bs| <= 4
    ensures |bs| == 1 <==> c as int < 0x80
    ensures (c as int < 0x80) ==> bs == [c as int]
    ensures forall i | 0 <= i < |bs| :: bs[i] != 0 || c == '\0'
  {
    var n := c as int;
    if n < 0x80 then [n]
    else if n < 0x800 then [0xC0 + n / 64, 0x80 + n % 64]
    else if n < 0x1_0000 then [0xE0 + n / 0x1000, 0x80 + (n / 64) % 64, 0x80 + n % 64]
    else [0xF0 + n / 0x4_0000, 0x80 + (n / 0x1000) % 64, 0x80 + (n / 64) % 64, 0x80 + n % 64]
  }

  /** `s.encode('utf-8')` */
  function Utf8(s: string): (bs: seq<Byte>)
  {
    if s == [] then [] else Utf8(s[..|s| - 1]) + Utf8Char(s[|s| - 1])
  }

  predicate IsAscii(s: string)
  {
    forall i | 0 <= i < |s| :: s[i] as int < 0x80
  }

  /** `s.encode('ascii')`, defined when every character is ASCII. */
  function Ascii(s: string): (bs: seq<Byte>)
    requires IsAscii(s)
    ensures |bs| == |s|
    ensures forall i | 0 <= i < |s| :: bs[i] == s[i] as int
  {
    seq(|s|, i requires 0 <= i < |s| => s[i] as int)
  }

  // ----- Records

  /** `type_map[token['type']]`: the tag of the record, or the `KeyError` for a type
      outside the table. */
  function TypeTag(t: Token): (r: Result<Byte>)
    ensures r.Ok? <==> t.Literal? || t.Ref?
    ensures r.Ok? ==> (r.value == 0 <==> t.Literal?)
  {
    match t
    case Literal(_, _, _) => Ok(0)
    case Ref(EntityRef, _, _, _, _) => Ok(1)
    case Ref(PhraseRef, _, _, _, _) => Ok(2)
    case Ref(WordRef, _, _, _, _) => Ok(3)
    case _ => Err(UnknownTokenType(TypeName(t)))
  }

  /** The bytes of one token, or the exception its fields raise, in the order the
      writer meets them: the type table, then `token['original']`, then the ASCII
      encoding of the id, then the two length fields. */
  function Record(t: Token): Result<seq<Byte>>
  {
    match TypeTag(t)
    case Err(f) => Err(f)
    case Ok(tag) =>
      if t.Literal? then
        var text := Utf8(t.text);
        if |text| >= 0x1_0000 then Err(FieldOverflow) else Ok([tag] + U16(|text|) + text)
      else if t.original.None? then Err(MissingOriginal)
      else if !IsAscii(t.id) then Err(NonAsciiId)
      else
        var id := Ascii(t.id);
        var original := Utf8(t.original.value);
        if |id| >= 256 || |original| >= 0x1_0000 then Err(FieldOverflow)
        else Ok([tag] + [|id|] + id + U16(|original|) + original)
  }

  /** The records of `ts` one after another, or the first exception. */
  function Records(ts: seq<Token>): Result<seq<Byte>>
  {
    if ts == [] then Ok([])
    else
      match Records(ts[..|ts| - 1])
      case Err(f) => Err(f)
      case Ok(front) =>
        match Record(ts[|ts| - 1])
        case Err(f) => Err(f)
        case Ok(last) => Ok(front + last)
  }

  // ----- The container

  /** What the writer reads from the JSON file: the three dictionary sizes, the
      three dictionary paths and the tokens. */
  datatype Container = Container(entityCount: nat, phraseCount: nat, wordCount: nat,
                                 entitiesPath: string, phrasesPath: string, wordsPath: string,
                                 tokens: seq<Token>)

  const Magic: seq<Byte> := [72, 65, 67, 83]   // "HACS"
  const Version: Byte := 3

  predicate CountsFit(c: Container)
  {
    c.entityCount < 0x1_0000 && c.phraseCount < 0x1_0000 && c.wordCount < 0x1_0000
  }

  /** Everything before the token records. */
  function Header(c: Container): seq<Byte>
    requires CountsFit(c) && |c.tokens| < 0x1_0000_0000
  {
    Magic + [Version, 0] + U16(c.entityCount) + U16(c.phraseCount) + U16(c.wordCount) +
    Utf8(c.entitiesPath) + [0] + Utf8(c.phrasesPath) + [0] + Utf8(c.wordsPath) + [0] +
    U32(|c.tokens|)
  }

  /** The file `encode_to_binary` writes, or the exception it raises. */
  function Binary(c: Container): Result<seq<Byte>>
  {
    if !CountsFit(c) || |c.tokens| >= 0x1_0000_0000 then Err(FieldOverflow)
    else
      match Records(c.tokens)
      case Err(f) => Err(f)
      case Ok(records) => Ok(Header(c) + records)
  }

  /** An exception in the records of a prefix is the exception of the whole. */
  lemma {:induction false} RecordsErrPrefix(ts: seq<Token>, i: nat)
    requires i <= |ts| && Records(ts[..i]).Err?
    ensures Records(ts) == Records(ts[..i])
    decreases |ts| - i
  {
    if i < |ts| {
      var n := |ts| - 1;
      assert ts[..n][..i] == ts[..i];
      RecordsErrPrefix(ts[..n], i);
      assert ts[..n] == ts[..|ts| - 1];
    } else {
      assert ts[..i] == ts;
    }
  }

  /** `encode_to_binary`: the header fields, then one record per token, appended to
      the output in order. */
  method EncodeToBinary(c: Container) returns (r: Result<seq<Byte>>)
    ensures r == Binary(c)
  {
    if !CountsFit(c) || |c.tokens| >= 0x1_0000_0000 {
      return Err(FieldOverflow);
    }
    var out := WriteHeader(c);
    ghost var header := out;
    var i := 0;
    assert c.tokens[..i] == [];
    while i < |c.tokens|
      invariant 0 <= i <= |c.tokens|
      invariant Records(c.tokens[..i]).Ok? && out == header + Records(c.tokens[..i]).value
    {
      var step := AppendRecord(c.tokens, i, header, out);
      if step.Err? {
        return step;
      }
      out := step.value;
      i := i + 1;
    }
    assert c.tokens[..i] == c.tokens;
    r := Ok(out);
  }

  /** The header fields, written one after another. */
  method WriteHeader(c: Container) returns (out: seq<Byte>)
    requires CountsFit(c) && |c.tokens| < 0x1_0000_0000
    ensures out == Header(c)
  {
    out := Magic + [Version, 0];
    out := out + U16(c.entityCount) + U16(c.phraseCount) + U16(c.wordCount);
    out := out + Utf8(c.entitiesPath) + [0];
    out := out + Utf8(c.phrasesPath) + [0];
    out := out + Utf8(c.wordsPath) + [0];
    out := out + U32(|c.tokens|);
  }

  /** One turn of the record loop: the record of token `i` appended to what the
      tokens before it wrote, or the exception that ends the whole. */
  method AppendRecord(ts: seq<Token>, i: nat, ghost header: seq<Byte>, out: seq<Byte>)
    returns (r: Result<seq<Byte>>)
    requires i < |ts| && Records(ts[..i]).Ok? && out == header + Records(ts[..i]).value
    ensures r.Err? ==> r == Records(ts)
    ensures r.Ok? ==> Records(ts[..i + 1]).Ok? && r.value == header + Records(ts[..i + 1]).value
  {
    assert ts[..i + 1][..i] == ts[..i];
    var record := Record(ts[i]);
    if record.Err? {
      RecordsErrPrefix(ts, i + 1);
      return Err(record.fault);
    }
    r := Ok(out + record.value);
  }

  // ----- Properties

  /** Which tokens can be written at all. */
  predicate Writable(t: Token)
  {
    (t.Literal? && |Utf8(t.text)| < 0x1_0000) ||
    (t.Ref? && t.original.Some? && IsAscii(t.id) && |t.id| < 256 && |Utf8(t.original.value)| < 0x1_0000)
  }

  /** The size of a token's record: tag, length field and text for a literal; tag,
      id length, id, original length and original for a dictionary token. */
  function RecordSize(t: Token): nat
    requires Writable(t)
  {
    if t.Literal? then 1 + 2 + |Utf8(t.text)|
    else 1 + 1 + |t.id| + 2 + |Utf8(t.original.value)|
  }

  function RecordsSize(ts: seq<Token>): nat
    requires forall i | 0 <= i < |ts| :: Writable(ts[i])
  {
    if ts == [] then 0 else RecordsSize(ts[..|ts| - 1]) + RecordSize(ts[|ts| - 1])
  }

  lemma RecordSpec(t: Token)
    ensures Record(t).Ok? <==> Writable(t)
    ensures Record(t).Ok? ==> |Record(t).value| == RecordSize(t)
  {
  }

  /** The records are written exactly when every token is writable, and then take
      the sum of the record sizes. */
  lemma {:induction false} RecordsSpec(ts: seq<Token>)
    ensures Records(ts).Ok? <==> forall i | 0 <= i < |ts| :: Writable(ts[i])
    ensures Records(ts).Ok? ==> |Records(ts).value| == RecordsSize(ts)
    decreases |ts|
  {
    if ts != [] {
      var n := |ts| - 1;
      RecordsSpec(ts[..n]);
      RecordSpec(ts[n]);
      if forall i | 0 <= i < n :: Writable(ts[..n][i]) {
        assert (forall i | 0 <= i < |ts| :: Writable(ts[i])) <==> Writable(ts[n]) by {
          forall i | 0 <= i < n ensures Writable(ts[i]) { assert ts[i] == ts[..n][i]; }
        }
      } else {
        var i :| 0 <= i < n && !Writable(ts[..n][i]);
        assert ts[i] == ts[..n][i];
      }
    }
  }

  /** The file is written exactly when the three sizes fit their 16-bit fields, the
      token count its 32-bit field and every token is writable; its size is then 12
      bytes of fixed header, each path with its terminator, 4 bytes of token count
      and the records. */
  lemma BinarySpec(c: Container)
    ensures Binary(c).Ok? <==>
              CountsFit(c) && |c.tokens| < 0x1_0000_0000 && forall i | 0 <= i < |c.tokens| :: Writable(c.tokens[i])
    ensures Binary(c).Ok? ==>
              |Binary(c).value| == 12 + (|Utf8(c.entitiesPath)| + 1) + (|Utf8(c.phrasesPath)| + 1) +
                                   (|Utf8(c.wordsPath)| + 1) + 4 + RecordsSize(c.tokens)
  {
    RecordsSpec(c.tokens);
  }

  /** A pattern token, or any type outside the table, stops the writer. */
  lemma PatternUnwritable(c: Container, i: nat)
    requires CountsFit(c) && |c.tokens| < 0x1_0000_0000
    requires i < |c.tokens| && !c.tokens[i].Literal? && !c.tokens[i].Ref?
    ensures Binary(c).Err?
  {
    RecordsSpec(c.tokens);
  }

  /** The fixed fields stand at fixed offsets and read back as written. */
  lemma HeaderFields(c: Container)
    requires Binary(c).Ok?
    ensures var bs := Binary(c).value;
            |bs| >= 12 && bs[..4] == Magic && bs[4] == 3 && bs[5] == 0 &&
            U16Value(bs[6..8]) == c.entityCount && U16Value(bs[8..10]) == c.phraseCount &&
            U16Value(bs[10..12]) == c.wordCount
  {
    var bs := Binary(c).value;
    U16RoundTrip(c.entityCount);
    U16RoundTrip(c.phraseCount);
    U16RoundTrip(c.wordCount);
    assert bs[6..8] == U16(c.entityCount);
    assert bs[8..10] == U16(c.phraseCount);
    assert bs[10..12] == U16(c.wordCount);
  }

  /** A literal's length field counts UTF-8 bytes, which is at least the number of
      characters and equals it exactly when the text is ASCII. */
  lemma {:induction false} Utf8Length(s: string)
    ensures |Utf8(s)| >= |s|
    ensures |Utf8(s)| == |s| <==> IsAscii(s)
    decreases |s|
  {
    if s != [] {
      var n := |s| - 1;
      Utf8Length(s[..n]);
      assert IsAscii(s) <==> IsAscii(s[..n]) && s[n] as int < 0x80 by {
        if IsAscii(s[..n]) {
          forall i | 0 <= i < n ensures s[i] as int < 0x80 { assert s[i] == s[..n][i]; }
        }
        if IsAscii(s) {
          forall i | 0 <= i < n ensures s[..n][i] as int < 0x80 { assert s[..n][i] == s[i]; }
        }
      }
    }
  }
}
