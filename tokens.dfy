/** The token stream every stage passes on, and the symbol keys the pattern and
    entropy stages derive from tokens. */
module Tokens {
  import opened Common

  datatype RefKind = EntityRef | PhraseRef | WordRef

  /** A token type the scripts do not know: any non-empty name other than the five
      they handle. */
  type UnknownName = s: string | s != "" && s != "literal" && s != "entity" && s != "phrase"
                                 && s != "word" && s != "pattern"
    witness "x"

  /** One token object of the stream.
      `Ref` is a dictionary token (type `entity`, `phrase` or `word`); its
      `original` is absent when the token was written without one.
      `PatternRef` is what the pattern stage substitutes for a token sequence. */
  datatype Token =
    | Literal(text: string, position: nat, length: nat)
    | Ref(kind: RefKind, id: string, original: Option<string>, position: nat, length: nat)
    | PatternRef(id: string, length: nat, position: nat)
    | Other(typeName: UnknownName, id: string)

  /** A symbol key: the 2- and 3-tuples of strings the later stages use. A tuple of
      any other length can only come from a malformed pattern table. */
  datatype Key =
    | Pair(tag: string, data: string)
    | Triple(tag: string, id: string, original: string)
    | Malformed(parts: seq<string>)

  /** `token['type']` */
  function TypeName(t: Token): (name: string)
    ensures name != ""
    ensures name == "literal" <==> t.Literal?
    ensures name == "pattern" <==> t.PatternRef?
  {
    match t
    case Literal(_, _, _) => "literal"
    case Ref(kind, _, _, _, _) => KindName(kind)
    case PatternRef(_, _, _) => "pattern"
    case Other(name, _) => name
  }

  function KindName(k: RefKind): string
  {
    match k
    case EntityRef => "entity"
    case PhraseRef => "phrase"
    case WordRef => "word"
  }

  /** `token['id']` of a token that is not a literal. */
  function IdOf(t: Token): string
    requires !t.Literal?
  {
    match t
    case Ref(_, id, _, _, _) => id
    case PatternRef(id, _, _) => id
    case Other(_, id) => id
  }

  /** `token['type'][0].upper()`: phrase and pattern tokens share the letter `P`. */
  function TypeLetter(t: Token): (s: string)
    ensures |s| == 1
    ensures t.Literal? ==> s == "L"
    ensures t.Ref? || t.PatternRef? ==> s != "L"
  {
    match t
    case Literal(_, _, _) => "L"
    case Ref(EntityRef, _, _, _, _) => "E"
    case Ref(PhraseRef, _, _, _, _) => "P"
    case Ref(WordRef, _, _, _, _) => "W"
    case PatternRef(_, _, _) => "P"
    case Other(name, _) => [UpperChar(name[0])]
  }

  /** The key the pattern stage gives a token: `('L', text)` for a literal,
      otherwise the type letter and the id; `original` takes no part. */
  function SeqKey(t: Token): (k: Key)
    ensures k.Pair? && |k.tag| == 1
    ensures t.Literal? ==> k == Pair("L", t.text)
    ensures !t.Literal? ==> k.data == IdOf(t)
  {
    if t.Literal? then Pair("L", t.text) else Pair(TypeLetter(t), IdOf(t))
  }

  function SeqKeys(ts: seq<Token>): (ks: seq<Key>)
    ensures |ks| == |ts|
    ensures forall i | 0 <= i < |ts| :: ks[i] == SeqKey(ts[i])
  {
    seq(|ts|, i requires 0 <= i < |ts| => SeqKey(ts[i]))
  }
}
