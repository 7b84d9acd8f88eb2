/** Character-level rules of the typing component: how each character of the
    text is displayed, which displayed characters count as punctuation, and
    when the character just typed matches the displayed one. */
module Glyphs {

  datatype Option<T> = None | Some(value: T)

  /** The non-breaking space shown in place of every space of the text. */
  const Nbsp: char := '\U{00A0}'

  const Acute: char := '\U{00B4}'
  const RightSingleQuote: char := '\U{2019}'
  const RightDoubleQuote: char := '\U{201D}'
  const LeftDoubleQuote: char := '\U{201C}'

  /** Typographic characters a keyboard does not offer, each displayed as the
      plain character that is typed instead. */
  const ImpossibleToPossible: map<char, char> :=
    map[Acute := '`', RightSingleQuote := '\'', RightDoubleQuote := '"', LeftDoubleQuote := '"']

  /** The punctuation list, in the component's order. */
  const Punctuation: seq<char> :=
    ['.', ',', '!', '?', ':', ';', '-', '(', ')', '[', ']', '\'', '"',
     RightSingleQuote, RightDoubleQuote, LeftDoubleQuote, '`', Acute]

  /** `punctuation.includes(c)`. Letters, digits and spaces are never
      punctuation; the four replaced characters and their replacements are. */
  function IsPunctuation(c: char): (r: bool)
    ensures r ==> c != ' ' && c != Nbsp
    ensures r ==> !('a' <= c <= 'z') && !('A' <= c <= 'Z') && !('0' <= c <= '9')
    ensures c in ImpossibleToPossible ==> r && ImpossibleToPossible[c] in Punctuation
  {
    c in Punctuation
  }

  /** The text content of the span rendered for source character `c`. */
  function Display(c: char): (r: char)
    ensures r !in ImpossibleToPossible
    ensures r != ' '
    ensures c == ' ' ==> r == Nbsp
    ensures c in ImpossibleToPossible ==> r == ImpossibleToPossible[c]
    ensures c !in ImpossibleToPossible && c != ' ' ==> r == c
    ensures IsPunctuation(r) <==> IsPunctuation(c)
  {
    if c in ImpossibleToPossible then ImpossibleToPossible[c]
    else if c == ' ' then Nbsp
    else c
  }

  /** The displayed text: one span per character of `text`. */
  function DisplayText(text: string): (r: seq<char>)
    ensures |r| == |text|
    ensures forall j :: 0 <= j < |text| ==> r[j] == Display(text[j])
    ensures forall j :: 0 <= j < |r| ==> r[j] != ' ' && r[j] !in ImpossibleToPossible
  {
    seq(|text|, j requires 0 <= j < |text| => Display(text[j]))
  }

  /** The key a reader presses for source character `c`. */
  function Typeable(c: char): char {
    if c in ImpossibleToPossible then ImpossibleToPossible[c] else c
  }

  /** ASCII lower-casing, standing in for `toLocaleLowerCase`. */
  function Lower(c: char): (r: char)
    ensures 'A' <= c <= 'Z' ==> 'a' <= r <= 'z' && r as int == c as int + 32
    ensures !('A' <= c <= 'Z') ==> r == c
  {
    if 'A' <= c <= 'Z' then (c as int + 32) as char else c
  }

  /** The last character of the hidden input's value (`slice(-1)`): nothing
      once the input has been cleared. */
  function LastChar(value: string): (r: Option<char>)
    ensures r.None? <==> value == []
    ensures r.Some? ==> r.value == value[|value| - 1]
  {
    if value == [] then None else Some(value[|value| - 1])
  }

  /** Whether the typed character is accepted for the displayed character
      `shown`. `caseInsensitive` is the component's `capsMode`. */
  function Matches(typed: Option<char>, shown: char, caseInsensitive: bool): (r: bool)
    ensures typed.None? ==> !r
    ensures typed == Some(shown) ==> r
    ensures typed == Some(' ') && shown == Nbsp ==> r
    ensures caseInsensitive && typed.Some? && Lower(typed.value) == Lower(shown) ==> r
    ensures r && !caseInsensitive ==> typed == Some(shown) || (typed == Some(' ') && shown == Nbsp)
    ensures r && caseInsensitive ==>
      typed.Some? && (Lower(typed.value) == Lower(shown) || (typed.value == ' ' && shown == Nbsp))
  {
    match typed
    case None => false
    case Some(t) =>
      (caseInsensitive && Lower(t) == Lower(shown)) || t == shown || (t == ' ' && shown == Nbsp)
  }

  /** Pressing the key for a source character is always accepted for the
      character displayed in its place. */
  lemma TypeableMatches(c: char, caseInsensitive: bool)
    ensures Matches(Some(Typeable(c)), Display(c), caseInsensitive)
  {
  }

  /** Turning case-insensitivity on never rejects a keystroke that was accepted. */
  lemma CaseInsensitiveAcceptsMore(typed: Option<char>, shown: char)
    ensures Matches(typed, shown, false) ==> Matches(typed, shown, true)
  {
  }
}
