/** Shared vocabulary of the codec: optional values, the errors the scripts raise,
    bits and bytes, and the small string operations the scripts take from Python
    (`str.lower`, `\w`, `\s`, `str.split`, `str.join`, `list.count`). */
module Common {

  datatype Option<T> = None | Some(value: T)

  /** Every exception the modelled functions can raise, one constructor per cause. */
  datatype Fault =
    | UnknownTokenType(name: string)   // token_to_key, or the type table of the binary writer
    | MissingOriginal                  // a dictionary token without `original` in the binary writer
    | NonAsciiId                       // `id.encode('ascii')` fails
    | FieldOverflow                    // `struct.pack` of a value that does not fit its field
    | EmptyFrequencyTable              // `heap[0]` on an empty heap
    | MissingCode                      // `huffman_codes[key]` on a key without a code
    | EmptyCode                        // `code[-1]` on an empty code
    | InvalidBitSequence(at: nat)      // no child for the next bit while decoding
    | EndedMidSymbol                   // the bits end away from the root
    | InvalidKeyFormat                 // a key that is neither a 2- nor a 3-tuple
    | UnknownPattern(id: string)
    | UnknownPhrase(id: string)
    | UnknownWord(id: string)
    | UnknownEntity(id: string)
    | UnknownTypeCode(tag: string)
    | RecursionLimit                   // the interpreter's recursion limit
    | BadHex                           // `bytearray.fromhex` rejects its input
    | ZeroDivision

  datatype Result<T> = Ok(value: T) | Err(fault: Fault)

  type Bit = b: int | 0 <= b < 2
  type Byte = b: int | 0 <= b < 256

  /** Python's `\w`, restricted to ASCII: letters, digits and the underscore. */
  predicate IsWordChar(c: char) {
    ('a' <= c <= 'z') || ('A' <= c <= 'Z') || ('0' <= c <= '9') || c == '_'
  }

  /** Python's `\s`, restricted to ASCII. */
  predicate IsSpace(c: char) {
    c == ' ' || c == '\t' || c == '\n' || c == '\r' || c == '\U{000B}' || c == '\U{000C}'
  }

  predicate IsDigit(c: char) { '0' <= c <= '9' }

  function LowerChar(c: char): (r: char)
    ensures IsWordChar(r) == IsWordChar(c)
    ensures !('A' <= r <= 'Z')
  {
    if 'A' <= c <= 'Z' then (c as int - 'A' as int + 'a' as int) as char else c
  }

  function UpperChar(c: char): (r: char)
    ensures !('a' <= r <= 'z')
  {
    if 'a' <= c <= 'z' then (c as int - 'a' as int + 'A' as int) as char else c
  }

  /** `str.lower()` on ASCII letters; every other character is kept. */
  function Lower(s: string): (r: string)
    ensures |r| == |s|
    ensures forall i | 0 <= i < |s| :: r[i] == LowerChar(s[i])
  {
    seq(|s|, i requires 0 <= i < |s| => LowerChar(s[i]))
  }

  lemma LowerAppend(a: string, b: string)
    ensures Lower(a + b) == Lower(a) + Lower(b)
  {
  }

  /** `s[:n]` for a non-negative `n`. */
  function Take<T>(s: seq<T>, n: nat): (r: seq<T>)
    ensures |r| == if n < |s| then n else |s|
    ensures r <= s
  {
    if n < |s| then s[..n] else s
  }

  /** `xs.count(x)` */
  function Count<T(==)>(xs: seq<T>, x: T): (n: nat)
    ensures n <= |xs|
    ensures n > 0 <==> x in xs
  {
    if xs == [] then 0
    else Count(xs[..|xs| - 1], x) + (if xs[|xs| - 1] == x then 1 else 0)
  }

  lemma CountAppend<T>(a: seq<T>, b: seq<T>, x: T)
    ensures Count(a + b, x) == Count(a, x) + Count(b, x)
    decreases |b|
  {
    if b == [] {
      assert a + b == a;
    } else {
      assert (a + b)[..|a + b| - 1] == a + b[..|b| - 1];
      CountAppend(a, b[..|b| - 1], x);
    }
  }

  /** No element occurs twice. */
  predicate Distinct<T(==)>(xs: seq<T>) {
    forall i, j | 0 <= i < j < |xs| :: xs[i] != xs[j]
  }

  /** `sep.join(parts)` */
  function Join(parts: seq<string>, sep: string): string
  {
    if parts == [] then ""
    else if |parts| == 1 then parts[0]
    else parts[0] + sep + Join(parts[1..], sep)
  }

  /** The index of the first `c` in `s`, if any. */
  function IndexOf(s: string, c: char): (r: Option<nat>)
    ensures r.Some? ==> r.value < |s| && s[r.value] == c && c !in s[..r.value]
    ensures r.None? ==> c !in s
  {
    if s == [] then None
    else if s[0] == c then Some(0)
    else match IndexOf(s[1..], c)
      case None => None
      case Some(i) => assert s[..i + 1] == [s[0]] + s[1..][..i]; Some(i + 1)
  }

  /** `s.split(c)` for a single-character separator. */
  function Split(s: string, c: char): (parts: seq<string>)
    ensures |parts| >= 1
    ensures c !in parts[0]
    ensures c in s ==> |parts| >= 2
    decreases |s|
  {
    match IndexOf(s, c)
    case None => [s]
    case Some(i) => [s[..i]] + Split(s[i + 1..], c)
  }

  /** `s.replace(c, '')` for a single character. */
  function RemoveChar(s: string, c: char): (r: string)
    ensures c !in r
    ensures |r| <= |s|
  {
    if s == [] then ""
    else (if s[0] == c then "" else [s[0]]) + RemoveChar(s[1..], c)
  }

  lemma RemoveCharAppend(a: string, b: string, c: char)
    ensures RemoveChar(a + b, c) == RemoveChar(a, c) + RemoveChar(b, c)
  {
    if a != [] {
      assert (a + b)[1..] == a[1..] + b;
      RemoveCharAppend(a[1..], b, c);
    } else {
      assert a + b == b;
    }
  }

  lemma RemoveCharAbsent(s: string, c: char)
    requires c !in s
    ensures RemoveChar(s, c) == s
  {
    if s != [] {
      RemoveCharAbsent(s[1..], c);
    }
  }

  /** Python's `s[:-n]` for `n > 0`: everything but the last `n` elements, or nothing. */
  function DropLast<T>(s: seq<T>, n: nat): (r: seq<T>)
    ensures |r| == if n <= |s| then |s| - n else 0
    ensures r <= s
  {
    if n <= |s| then s[..|s| - n] else []
  }

  /** `xs[:m]` with Python's reading of a negative bound. */
  function SliceTo<T>(xs: seq<T>, m: int): (r: seq<T>)
    ensures r <= xs
    ensures 0 <= m ==> |r| == if m < |xs| then m else |xs|
  {
    if 0 <= m then Take(xs, m)
    else if -m <= |xs| then xs[..|xs| + m]
    else []
  }

  function Max(a: int, b: int): int { if a < b then b else a }

  function Min(a: int, b: int): int { if a < b then a else b }
}
