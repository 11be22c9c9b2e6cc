/** The two regular-expression scans over words the coder and the builders use,
    with `\w` read as ASCII letters, digits and `_`. */
module Scan {
  import opened Common

  /** How many word characters `s` starts with. */
  function WordRun(s: string): (n: nat)
    ensures n <= |s|
    ensures forall i | 0 <= i < n :: IsWordChar(s[i])
    ensures n == |s| || !IsWordChar(s[n])
  {
    if s == [] || !IsWordChar(s[0]) then 0 else 1 + WordRun(s[1..])
  }

  /** How many whitespace characters `s` starts with. */
  function SpaceRun(s: string): (n: nat)
    ensures n <= |s|
    ensures forall i | 0 <= i < n :: IsSpace(s[i])
    ensures n == |s| || !IsSpace(s[n])
  {
    if s == [] || !IsSpace(s[0]) then 0 else 1 + SpaceRun(s[1..])
  }

  predicate IsWord(w: string)
  {
    w != "" && forall j | 0 <= j < |w| :: IsWordChar(w[j])
  }

  /** `re.findall(r'\b\w+\b', s)`: the maximal runs of word characters, in order. */
  function WordsIn(s: string): (ws: seq<string>)
    ensures forall i | 0 <= i < |ws| :: IsWord(ws[i])
    decreases |s|
  {
    if s == [] then []
    else if !IsWordChar(s[0]) then WordsIn(s[1..])
    else
      var n := WordRun(s);
      [s[..n]] + WordsIn(s[n..])
  }

  /** Only word characters lead to words: a text without any has none. */
  lemma {:induction false} NoWordChars(s: string)
    requires forall i | 0 <= i < |s| :: !IsWordChar(s[i])
    ensures WordsIn(s) == []
    decreases |s|
  {
    if s != [] {
      NoWordChars(s[1..]);
    }
  }

  /** A text that starts with a word character starts with that whole run. */
  lemma FirstWord(s: string)
    requires s != [] && IsWordChar(s[0])
    ensures WordsIn(s) != [] && WordsIn(s)[0] == s[..WordRun(s)]
  {
  }
}
