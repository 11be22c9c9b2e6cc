/** The substitution coder (`longest_match_encode`): a left-to-right scan that at
    each position emits the longest entity that starts there, else the longest
    known phrase, else a known word, else one character of literal text, merged
    into the literal before it. Every token records the slice of text it covers. */
module HacsEncode {
  import opened Common
  import opened Scan
  import opened Tokens

  // ----- `load_dictionary`: the reverse map of a dictionary file

  /** One entry of a dictionary file as the coder reads it: its id, its `original`
      and its `case_sensitive` flag (false when the entry has none). */
  datatype Row = Row(id: string, original: string, caseSensitive: bool)

  /** The reverse map has `k` as a key on behalf of `row`. */
  predicate Names(row: Row, k: string)
  {
    k == row.original || (row.caseSensitive && k == Lower(row.original))
  }

  /** The reverse map after reading `rows` in file order. */
  function ReverseMap(rows: seq<Row>): map<string, string>
  {
    if rows == [] then map[]
    else
      var row := rows[|rows| - 1];
      var m := ReverseMap(rows[..|rows| - 1])[row.original := row.id];
      if row.caseSensitive then m[Lower(row.original) := row.id] else m
  }

  method LoadDictionary(rows: seq<Row>) returns (reverseMap: map<string, string>)
    ensures reverseMap == ReverseMap(rows)
  {
    reverseMap := map[];
    var i := 0;
    while i < |rows|
      invariant 0 <= i <= |rows|
      invariant reverseMap == ReverseMap(rows[..i])
    {
      assert rows[..i + 1][..i] == rows[..i];
      var row := rows[i];
      reverseMap := reverseMap[row.original := row.id];
      if row.caseSensitive {
        reverseMap := reverseMap[Lower(row.original) := row.id];
      }
      i := i + 1;
    }
    assert rows[..i] == rows;
  }

  /** A key is in the reverse map exactly when some entry names it, and it maps to
      the id of the last entry that does: later entries overwrite earlier ones. */
  lemma {:induction false} ReverseMapSpec(rows: seq<Row>, k: string)
    ensures k in ReverseMap(rows) <==> exists i | 0 <= i < |rows| :: Names(rows[i], k)
    ensures k in ReverseMap(rows) ==>
              exists i | 0 <= i < |rows| :: Names(rows[i], k) && ReverseMap(rows)[k] == rows[i].id &&
                                            forall j | i < j < |rows| :: !Names(rows[j], k)
  {
    if rows != [] {
      var init := rows[..|rows| - 1];
      var last := |rows| - 1;
      ReverseMapSpec(init, k);
      LastRow(rows, k);
      if !Names(rows[last], k) {
        assert forall i | 0 <= i < |init| :: rows[i] == init[i];
        if k in ReverseMap(rows) {
          var i :| 0 <= i < |init| && Names(init[i], k) && ReverseMap(init)[k] == init[i].id &&
                   forall j | i < j < |init| :: !Names(init[j], k);
          assert Names(rows[i], k) && ReverseMap(rows)[k] == rows[i].id;
        }
      }
    }
  }

  /** The last row sets `k` when it names it, and leaves it alone otherwise. */
  lemma LastRow(rows: seq<Row>, k: string)
    requires rows != []
    ensures Names(rows[|rows| - 1], k) ==> k in ReverseMap(rows) && ReverseMap(rows)[k] == rows[|rows| - 1].id
    ensures !Names(rows[|rows| - 1], k) ==>
              (k in ReverseMap(rows) <==> k in ReverseMap(rows[..|rows| - 1])) &&
              (k in ReverseMap(rows) ==> ReverseMap(rows)[k] == ReverseMap(rows[..|rows| - 1])[k])
  {
  }

  // ----- The three kinds of match

  /** The three reverse maps the coder is given. */
  datatype Lexicon = Lexicon(entities: map<string, string>, phrases: map<string, string>,
                             words: map<string, string>)

  /** A match at the current position: the kind and id of the token and how many
      characters it covers. */
  datatype Match = Match(kind: RefKind, id: string, length: nat)

  /** The greatest `k` in `1..n` with `rest[..k]` a key of `keys`, or 0. */
  function LongestPrefix(rest: string, keys: map<string, string>, n: nat): (r: nat)
    requires n <= |rest|
    ensures r <= n
    ensures r > 0 ==> rest[..r] in keys
    ensures forall k | r < k <= n :: rest[..k] !in keys
  {
    if n == 0 then 0 else if rest[..n] in keys then n else LongestPrefix(rest, keys, n - 1)
  }

  /** The entity loop: over every original of the entity map, in any order, keep a
      strictly longer one that `rest` starts with. */
  method FindEntity(rest: string, entities: map<string, string>) returns (len: nat, id: string)
    ensures len == LongestPrefix(rest, entities, |rest|)
    ensures len > 0 ==> id == entities[rest[..len]]
  {
    len := 0;
    id := "";
    var todo := entities.Keys;
    while todo != {}
      invariant todo <= entities.Keys
      invariant len <= |rest|
      invariant len > 0 ==> rest[..len] in entities && id == entities[rest[..len]]
      invariant forall k | 0 < k <= |rest| && rest[..k] in entities && rest[..k] !in todo :: k <= len
      decreases |todo|
    {
      var original :| original in todo;
      if |original| <= |rest| && rest[..|original|] == original {
        if |original| > len {
          len := |original|;
          id := entities[original];
        }
      }
      todo := todo - {original};
    }
  }

  /** `re.match(r'\b' + w1 + r'\s+' + ... + wn + r'\b', s, re.IGNORECASE)` once the
      leading boundary is known to hold: the length of the match. Each word matches
      its own length of characters without regard to case, each gap between words
      is a whole run of whitespace, and the last word must not be followed by a
      word character. */
  function MatchWords(s: string, ws: seq<string>): (r: Option<nat>)
    requires ws != [] && forall i | 0 <= i < |ws| :: IsWord(ws[i])
    ensures r.Some? ==> 0 < r.value <= |s|
    decreases |ws|
  {
    var w := ws[0];
    assert IsWord(w);
    if |w| > |s| || Lower(s[..|w|]) != Lower(w) then None
    else if |ws| == 1 then
      if |w| == |s| || !IsWordChar(s[|w|]) then Some(|w|) else None
    else
      var gap := SpaceRun(s[|w|..]);
      if gap == 0 then None
      else
        match MatchWords(s[|w| + gap..], ws[1..])
        case None => None
        case Some(k) => Some(|w| + gap + k)
  }

  /** The same match with the leading `\b`: `s` is a new string, so the boundary
      holds when its first character is a word character. */
  function PhraseAt(s: string, ws: seq<string>): (r: Option<nat>)
    requires ws != [] && forall i | 0 <= i < |ws| :: IsWord(ws[i])
    ensures r.Some? ==> 0 < r.value <= |s|
  {
    if s == [] || !IsWordChar(s[0]) then None else MatchWords(s, ws)
  }

  /** The phrase loop from `n` words down to 2: the first phrase of the words ahead
      whose lowercase form is a key and that matches at the start of `rest`. */
  function PhraseFrom(rest: string, ahead: seq<string>, phrases: map<string, string>, n: nat)
    : (r: Option<(string, nat)>)
    requires n <= |ahead| && forall i | 0 <= i < |ahead| :: IsWord(ahead[i])
    ensures r.Some? ==> 0 < r.value.1 <= |rest|
  {
    if n < 2 then None
    else
      var key := Lower(Join(ahead[..n], " "));
      if key in phrases && PhraseAt(rest, ahead[..n]).Some? then Some((phrases[key], PhraseAt(rest, ahead[..n]).value))
      else PhraseFrom(rest, ahead, phrases, n - 1)
  }

  /** The words the phrase search looks at: those of the first 200 characters. */
  function WordsAhead(rest: string): (ws: seq<string>)
    ensures forall i | 0 <= i < |ws| :: IsWord(ws[i])
  {
    WordsIn(Take(rest, 200))
  }

  function PhraseMatch(rest: string, phrases: map<string, string>): (r: Option<(string, nat)>)
    ensures r.Some? ==> 0 < r.value.1 <= |rest|
  {
    var ahead := WordsAhead(rest);
    PhraseFrom(rest, ahead, phrases, Min(6, |ahead|))
  }

  /** The phrase loop: phrase lengths from `min(6, len(words_ahead))` down to 2, the
      first that is known and matches wins. */
  method FindPhrase(rest: string, phrases: map<string, string>) returns (m: Option<(string, nat)>)
    ensures m == PhraseMatch(rest, phrases)
  {
    var ahead := WordsAhead(rest);
    var n: nat := Min(6, |ahead|);
    while n > 1
      invariant n <= |ahead|
      invariant PhraseFrom(rest, ahead, phrases, n) == PhraseMatch(rest, phrases)
    {
      var key := Lower(Join(ahead[..n], " "));
      if key in phrases {
        var found := PhraseAt(rest, ahead[..n]);
        if found.Some? {
          return Some((phrases[key], found.value));
        }
      }
      n := n - 1;
    }
    return None;
  }

  /** `re.match(r'\b(\w+)\b', rest)` and a lookup of the word's lowercase form: the
      whole run of word characters `rest` starts with. */
  function WordMatch(rest: string, words: map<string, string>): (r: Option<(string, nat)>)
    ensures r.Some? ==> 0 < r.value.1 <= |rest|
  {
    var n := WordRun(rest);
    if n > 0 && Lower(rest[..n]) in words then Some((words[Lower(rest[..n])], n)) else None
  }

  /** What the coder emits at the start of `rest`: an entity, else a phrase, else a
      word, else nothing (a literal character). */
  function Choose(rest: string, lex: Lexicon): (r: Option<Match>)
    ensures r.Some? ==> 0 < r.value.length <= |rest|
  {
    var e := LongestPrefix(rest, lex.entities, |rest|);
    if e > 0 then Some(Match(EntityRef, lex.entities[rest[..e]], e))
    else
      match PhraseMatch(rest, lex.phrases)
      case Some((id, n)) => Some(Match(PhraseRef, id, n))
      case None =>
        match WordMatch(rest, lex.words)
        case Some((id, n)) => Some(Match(WordRef, id, n))
        case None => None
  }

  /** The three searches of one turn of the loop. */
  method FindMatch(rest: string, lex: Lexicon) returns (m: Option<Match>)
    ensures m == Choose(rest, lex)
  {
    var len, id := FindEntity(rest, lex.entities);
    if len > 0 {
      return Some(Match(EntityRef, id, len));
    }
    var phrase := FindPhrase(rest, lex.phrases);
    if phrase.Some? {
      return Some(Match(PhraseRef, phrase.value.0, phrase.value.1));
    }
    var word := WordMatch(rest, lex.words);
    if word.Some? {
      return Some(Match(WordRef, word.value.0, word.value.1));
    }
    return None;
  }

  // ----- The token stream

  /** `Choose` as a function value: the stream properties below hold for whichever
      rule picks the match at each position, and are stated over that rule. */
  function ChooserOf(lex: Lexicon): string -> Option<Match>
  {
    rest => Choose(rest, lex)
  }

  /** The match `choose` picks at `position` of `text`. */
  function ChoiceAt(choose: string -> Option<Match>, text: string, position: nat): Option<Match>
    requires position <= |text|
  {
    choose(text[position..])
  }

  /** The tokens cover `0..end` one after another, each at least one character long. */
  predicate Tiled(ts: seq<Token>, end: nat)
  {
    (forall i | 0 <= i < |ts| :: (ts[i].Literal? || ts[i].Ref?) && ts[i].length > 0) &&
    (ts == [] ==> end == 0) &&
    (ts != [] ==> ts[0].position == 0 && ts[|ts| - 1].position + ts[|ts| - 1].length == end) &&
    (forall i | 0 < i < |ts| :: ts[i].position == ts[i - 1].position + ts[i - 1].length)
  }

  /** `t` is a token the coder may emit for `text`: a dictionary token holds the
      match chosen at its position and the slice it covers; a literal holds its
      slice, and no match starts anywhere inside it. */
  predicate Sound(text: string, choose: string -> Option<Match>, t: Token)
  {
    match t
    case Literal(s, p, l) =>
      l == |s| && p + l <= |text| && text[p..p + l] == s &&
      forall q | p <= q < p + l :: ChoiceAt(choose, text, q).None?
    case Ref(kind, id, original, p, l) =>
      p + l <= |text| && original == Some(text[p..p + l]) && ChoiceAt(choose, text, p) == Some(Match(kind, id, l))
    case _ => false
  }

  /** No literal follows a literal. */
  predicate Merged(ts: seq<Token>)
  {
    forall i | 0 < i < |ts| :: !(ts[i - 1].Literal? && ts[i].Literal?)
  }

  /** The tokens emitted before `position`. */
  predicate EncodedUpTo(text: string, choose: string -> Option<Match>, ts: seq<Token>, position: nat)
  {
    position <= |text| && Tiled(ts, position) && Merged(ts) &&
    forall i | 0 <= i < |ts| :: Sound(text, choose, ts[i])
  }

  /** What the coder returns for `text`. */
  predicate Encoded(text: string, lex: Lexicon, ts: seq<Token>)
  {
    EncodedUpTo(text, ChooserOf(lex), ts, |text|)
  }

  /** Appending a sound token that starts where the others end, and is not a
      literal after a literal, keeps the stream well formed. */
  lemma Extend(text: string, choose: string -> Option<Match>, ts: seq<Token>, position: nat, t: Token, end: nat)
    requires EncodedUpTo(text, choose, ts, position)
    requires Sound(text, choose, t) && (t.Literal? || t.Ref?)
    requires t.position == position && t.length > 0 && end == position + t.length <= |text|
    requires !(t.Literal? && ts != [] && ts[|ts| - 1].Literal?)
    ensures EncodedUpTo(text, choose, ts + [t], end)
  {
    var ts' := ts + [t];
    assert forall i | 0 <= i < |ts| :: ts'[i] == ts[i];
  }

  /** A match at `position` is emitted as one token. */
  lemma EmitMatch(text: string, choose: string -> Option<Match>, ts: seq<Token>, position: nat, m: Match)
    requires EncodedUpTo(text, choose, ts, position) && position < |text|
    requires ChoiceAt(choose, text, position) == Some(m) && 0 < m.length <= |text| - position
    ensures EncodedUpTo(text, choose, ts + [Ref(m.kind, m.id, Some(text[position..position + m.length]), position, m.length)],
                        position + m.length)
  {
    var t := Ref(m.kind, m.id, Some(text[position..position + m.length]), position, m.length);
    Extend(text, choose, ts, position, t, position + m.length);
  }

  /** A character at which nothing matches starts a new literal. */
  lemma EmitLiteral(text: string, choose: string -> Option<Match>, ts: seq<Token>, position: nat)
    requires EncodedUpTo(text, choose, ts, position) && position < |text|
    requires ChoiceAt(choose, text, position).None?
    requires ts == [] || !ts[|ts| - 1].Literal?
    ensures EncodedUpTo(text, choose, ts + [Literal([text[position]], position, 1)], position + 1)
  {
    var t := Literal([text[position]], position, 1);
    assert text[position..position + 1] == [text[position]];
    Extend(text, choose, ts, position, t, position + 1);
  }

  /** A character at which nothing matches, right after a literal, grows it. */
  lemma GrowLiteral(text: string, choose: string -> Option<Match>, ts: seq<Token>, position: nat)
    requires EncodedUpTo(text, choose, ts, position) && position < |text|
    requires ChoiceAt(choose, text, position).None?
    requires ts != [] && ts[|ts| - 1].Literal?
    ensures var last := ts[|ts| - 1];
            EncodedUpTo(text, choose, ts[|ts| - 1 := Literal(last.text + [text[position]], last.position, last.length + 1)],
                        position + 1)
  {
    var last := ts[|ts| - 1];
    assert Sound(text, choose, last);
    LiteralGrows(text, choose, last, position);
  }

  /** A literal that ends at `position`, where nothing matches, stays sound with the
      character there appended. */
  lemma LiteralGrows(text: string, choose: string -> Option<Match>, last: Token, position: nat)
    requires last.Literal? && Sound(text, choose, last)
    requires last.position + last.length == position < |text| && ChoiceAt(choose, text, position).None?
    ensures Sound(text, choose, Literal(last.text + [text[position]], last.position, last.length + 1))
  {
    assert text[last.position..position + 1] == last.text + [text[position]];
  }

  ghost predicate Implements(choose: string -> Option<Match>, lex: Lexicon)
  {
    forall rest :: choose(rest) == Choose(rest, lex)
  }

  lemma Link(choose: string -> Option<Match>, lex: Lexicon, text: string, position: nat)
    requires Implements(choose, lex) && position <= |text|
    ensures ChoiceAt(choose, text, position) == Choose(text[position..], lex)
  {
  }

  /** `longest_match_encode(text, entity_dict, phrase_dict, word_dict)` */
  method Encode(text: string, lex: Lexicon) returns (tokens: seq<Token>)
    ensures Encoded(text, lex, tokens)
  {
    tokens := EncodeWith(text, lex, ChooserOf(lex));
  }

  /** The loop of `longest_match_encode`, with `choose` standing for `Choose`. */
  method EncodeWith(text: string, lex: Lexicon, ghost choose: string -> Option<Match>) returns (tokens: seq<Token>)
    requires Implements(choose, lex)
    ensures EncodedUpTo(text, choose, tokens, |text|)
  {
    tokens := [];
    var position := 0;
    while position < |text|
      invariant EncodedUpTo(text, choose, tokens, position)
      decreases |text| - position
    {
      var m := FindMatch(text[position..], lex);
      Link(choose, lex, text, position);
      tokens, position := Advance(text, choose, tokens, position, m);
    }
  }

  /** One turn of the loop once the match `m` at `position` is known: a match
      becomes a token and moves past its slice; otherwise the character joins the
      literal before it, or starts one. */
  method Advance(text: string, ghost choose: string -> Option<Match>, tokens: seq<Token>, position: nat,
                 m: Option<Match>)
    returns (tokens': seq<Token>, position': nat)
    requires EncodedUpTo(text, choose, tokens, position) && position < |text|
    requires ChoiceAt(choose, text, position) == m
    requires m.Some? ==> 0 < m.value.length <= |text| - position
    ensures EncodedUpTo(text, choose, tokens', position') && position < position'
  {
    if m.Some? {
      EmitMatch(text, choose, tokens, position, m.value);
      tokens' := tokens + [Ref(m.value.kind, m.value.id, Some(text[position..position + m.value.length]),
                               position, m.value.length)];
      position' := position + m.value.length;
    } else {
      var c := text[position];
      if tokens != [] && tokens[|tokens| - 1].Literal? {
        GrowLiteral(text, choose, tokens, position);
        var last := tokens[|tokens| - 1];
        tokens' := tokens[|tokens| - 1 := Literal(last.text + [c], last.position, last.length + 1)];
      } else {
        EmitLiteral(text, choose, tokens, position);
        tokens' := tokens + [Literal([c], position, 1)];
      }
      position' := position + 1;
    }
  }
}
