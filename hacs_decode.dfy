/** The substitution decoder (`decode_tokens`): every token contributes a piece of
    text and the output is the pieces in order. A dictionary token contributes the
    `original` it carries, else the dictionary's text for its id, else a visible
    placeholder; decoding never fails. */
module HacsDecode {
  import opened Common
  import opened Tokens
  import opened HacsEncode

  // ----- `load_dictionary`: the forward map of a dictionary file

  /** The id-to-original map after reading the `(id, original)` entries of a file
      in order; a later entry under the same id replaces an earlier one. */
  function ForwardMap(entries: seq<(string, string)>): map<string, string>
  {
    if entries == [] then map[]
    else ForwardMap(entries[..|entries| - 1])[entries[|entries| - 1].0 := entries[|entries| - 1].1]
  }

  method LoadDictionary(entries: seq<(string, string)>) returns (forwardMap: map<string, string>)
    ensures forwardMap == ForwardMap(entries)
  {
    forwardMap := map[];
    var i := 0;
    while i < |entries|
      invariant 0 <= i <= |entries|
      invariant forwardMap == ForwardMap(entries[..i])
    {
      assert entries[..i + 1][..i] == entries[..i];
      forwardMap := forwardMap[entries[i].0 := entries[i].1];
      i := i + 1;
    }
    assert entries[..i] == entries;
  }

  /** An id is in the forward map exactly when some entry has it, and it maps to
      the original of the last such entry. */
  lemma {:induction false} ForwardMapSpec(entries: seq<(string, string)>, id: string)
    ensures id in ForwardMap(entries) <==> exists i | 0 <= i < |entries| :: entries[i].0 == id
    ensures id in ForwardMap(entries) ==>
              exists i | 0 <= i < |entries| :: entries[i].0 == id && ForwardMap(entries)[id] == entries[i].1 &&
                                               forall j | i < j < |entries| :: entries[j].0 != id
  {
    if entries != [] {
      var n := |entries| - 1;
      var front := entries[..n];
      ForwardMapSpec(front, id);
      if entries[n].0 != id {
        if id in ForwardMap(entries) {
          var i :| 0 <= i < |front| && front[i].0 == id && ForwardMap(front)[id] == front[i].1 &&
                   forall j | i < j < |front| :: front[j].0 != id;
          assert entries[i] == front[i];
          assert forall j | i < j < |entries| :: entries[j].0 != id by {
            forall j | i < j < |entries| ensures entries[j].0 != id {
              if j < n { assert entries[j] == front[j]; }
            }
          }
        }
        assert (exists i | 0 <= i < |entries| :: entries[i].0 == id) ==>
               (exists i | 0 <= i < |front| :: front[i].0 == id) by {
          if exists i | 0 <= i < |entries| :: entries[i].0 == id {
            var i :| 0 <= i < |entries| && entries[i].0 == id;
            assert i < n && front[i] == entries[i];
          }
        }
      }
    }
  }

  // ----- `decode_tokens`

  /** The three forward maps, one per dictionary. */
  datatype Dictionaries = Dictionaries(entities: map<string, string>, phrases: map<string, string>,
                                       words: map<string, string>)

  function DictionaryFor(d: Dictionaries, kind: RefKind): map<string, string>
  {
    match kind
    case EntityRef => d.entities
    case PhraseRef => d.phrases
    case WordRef => d.words
  }

  /** The upper-case name a placeholder carries for each dictionary kind. */
  function PlaceholderName(kind: RefKind): string
  {
    match kind
    case EntityRef => "ENTITY"
    case PhraseRef => "PHRASE"
    case WordRef => "WORD"
  }

  /** What one token adds to the output. A pattern token is of a type the decoder
      does not know. */
  function Contribution(t: Token, d: Dictionaries): string
  {
    match t
    case Literal(text, _, _) => text
    case Ref(kind, id, original, _, _) =>
      if original.Some? then original.value
      else if id in DictionaryFor(d, kind) then DictionaryFor(d, kind)[id]
      else "[UNKNOWN_" + PlaceholderName(kind) + ":" + id + "]"
    case PatternRef(_, _, _) => "[UNKNOWN_TYPE:pattern]"
    case Other(name, _) => "[UNKNOWN_TYPE:" + name + "]"
  }

  /** The output for `ts`: the contributions in order. */
  function Decoded(ts: seq<Token>, d: Dictionaries): string
  {
    if ts == [] then "" else Decoded(ts[..|ts| - 1], d) + Contribution(ts[|ts| - 1], d)
  }

  function Contributions(ts: seq<Token>, d: Dictionaries): (parts: seq<string>)
    ensures |parts| == |ts|
    ensures forall i | 0 <= i < |ts| :: parts[i] == Contribution(ts[i], d)
  {
    seq(|ts|, i requires 0 <= i < |ts| => Contribution(ts[i], d))
  }

  /** `''.join(parts)` of a list grown by one part ends with that part. */
  lemma {:induction false} JoinSnoc(parts: seq<string>, p: string)
    ensures Join(parts + [p], "") == Join(parts, "") + p
    decreases |parts|
  {
    if parts != [] {
      if |parts| == 1 {
        assert parts + [p] == [parts[0], p];
        assert Join([p], "") == p;
      } else {
        assert (parts + [p])[1..] == parts[1..] + [p];
        JoinSnoc(parts[1..], p);
      }
    }
  }

  /** `decode_tokens(tokens, entity_dict, phrase_dict, word_dict)`: a list of pieces,
      joined at the end. */
  method DecodeTokens(tokens: seq<Token>, d: Dictionaries) returns (text: string)
    ensures text == Decoded(tokens, d)
  {
    var result: seq<string> := [];
    var i := 0;
    while i < |tokens|
      invariant 0 <= i <= |tokens|
      invariant Join(result, "") == Decoded(tokens[..i], d)
    {
      assert tokens[..i + 1][..i] == tokens[..i];
      JoinSnoc(result, Contribution(tokens[i], d));
      result := result + [Contribution(tokens[i], d)];
      i := i + 1;
    }
    assert tokens[..i] == tokens;
    text := Join(result, "");
  }

  // ----- Properties

  /** The output is the concatenation of the token pieces, so decoding two streams
      one after the other is decoding them joined. */
  lemma {:induction false} DecodedAppend(a: seq<Token>, b: seq<Token>, d: Dictionaries)
    ensures Decoded(a + b, d) == Decoded(a, d) + Decoded(b, d)
    decreases |b|
  {
    if b != [] {
      var n := |b| - 1;
      assert (a + b)[..|a + b| - 1] == a + b[..n];
      DecodedAppend(a, b[..n], d);
    } else {
      assert a + b == a;
    }
  }

  /** A token that records its slice of `text` contributes exactly that slice. */
  lemma SoundContribution(text: string, choose: string -> Option<Match>, t: Token, d: Dictionaries)
    requires Sound(text, choose, t)
    ensures t.position + t.length <= |text|
    ensures Contribution(t, d) == text[t.position..t.position + t.length]
  {
  }

  /** Tokens that tile `0..end` of `text`, each recording its slice, decode to the
      first `end` characters of `text`, whatever the dictionaries hold. */
  lemma {:induction false} DecodedTiles(text: string, choose: string -> Option<Match>, ts: seq<Token>, end: nat,
                                        d: Dictionaries)
    requires end <= |text| && Tiled(ts, end)
    requires forall i | 0 <= i < |ts| :: Sound(text, choose, ts[i])
    ensures Decoded(ts, d) == text[..end]
    decreases |ts|
  {
    if ts != [] {
      var n := |ts| - 1;
      var front := ts[..n];
      var last := ts[n];
      SoundContribution(text, choose, last, d);
      TiledFront(ts, end);
      SoundFront(text, choose, ts, front);
      DecodedTiles(text, choose, front, last.position, d);
      DecodedStep(text, ts, last.position, end, d);
    }
  }

  lemma DecodedStep(text: string, ts: seq<Token>, middle: nat, end: nat, d: Dictionaries)
    requires ts != [] && middle <= end <= |text|
    requires Decoded(ts[..|ts| - 1], d) == text[..middle]
    requires Contribution(ts[|ts| - 1], d) == text[middle..end]
    ensures Decoded(ts, d) == text[..end]
  {
    assert text[..end] == text[..middle] + text[middle..end];
  }

  lemma TiledFront(ts: seq<Token>, end: nat)
    requires ts != [] && Tiled(ts, end)
    ensures Tiled(ts[..|ts| - 1], ts[|ts| - 1].position)
  {
    var front := ts[..|ts| - 1];
    if front != [] {
      assert front[|front| - 1] == ts[|ts| - 2];
    }
  }

  lemma SoundFront(text: string, choose: string -> Option<Match>, ts: seq<Token>, front: seq<Token>)
    requires ts != [] && front == ts[..|ts| - 1]
    requires forall i | 0 <= i < |ts| :: Sound(text, choose, ts[i])
    ensures forall i | 0 <= i < |front| :: Sound(text, choose, front[i])
  {
    forall i | 0 <= i < |front| ensures Sound(text, choose, front[i]) {
      assert front[i] == ts[i];
    }
  }

  /** `decode_tokens(longest_match_encode(text, ...), ...) == text`, for any
      dictionaries on either side. */
  lemma RoundTrip(text: string, lex: Lexicon, ts: seq<Token>, d: Dictionaries)
    requires Encoded(text, lex, ts)
    ensures Decoded(ts, d) == text
  {
    DecodedTiles(text, ChooserOf(lex), ts, |text|, d);
  }

  /** Decoding what the coder produced gives back its input. */
  method EncodeDecode(text: string, lex: Lexicon, d: Dictionaries) returns (decoded: string)
    ensures decoded == text
  {
    var tokens := Encode(text, lex);
    decoded := DecodeTokens(tokens, d);
    RoundTrip(text, lex, tokens, d);
  }

  /** A dictionary token that carries its `original` contributes it, and a stream
      of such tokens decodes the same under any dictionaries. */
  predicate CarriesOriginals(ts: seq<Token>)
  {
    forall i | 0 <= i < |ts| :: ts[i].Ref? ==> ts[i].original.Some?
  }

  lemma {:induction false} OriginalsWin(ts: seq<Token>, d1: Dictionaries, d2: Dictionaries)
    requires CarriesOriginals(ts)
    ensures Decoded(ts, d1) == Decoded(ts, d2)
    decreases |ts|
  {
    if ts != [] {
      var front := ts[..|ts| - 1];
      assert CarriesOriginals(front) by {
        forall i | 0 <= i < |front| ensures front[i].Ref? ==> front[i].original.Some? {
          assert front[i] == ts[i];
        }
      }
      OriginalsWin(front, d1, d2);
    }
  }
}
