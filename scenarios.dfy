/** Worked keystroke sequences over small texts. */
module Scenarios {

  import opened Glyphs
  import opened Keystroke

  function Keys(typed: string): (keys: seq<Key>)
    ensures |keys| == |typed|
    ensures forall j :: 0 <= j < |typed| ==> keys[j].typed == Some(typed[j])
  {
    seq(|typed|, j requires 0 <= j < |typed| => Key(Some(typed[j]), j))
  }

  /** With the page's default options, typing "the cat sat" exactly (a plain
      space for each displayed non-breaking space) walks the cursor from 0 to
      11 and completes the text without a mistake. */
  lemma TheCatSat()
    ensures var r := Run(Modes(false, false, false), DisplayText("the cat sat"), Initial(11), Keys("the cat sat"));
      r.charIndex == 11 && r.done && !r.isTyping && r.mistakes == 0
  {
    var text := "the cat sat";
    var shown := DisplayText(text);
    var keys := Keys(text);
    forall j | 0 <= j < |keys|
      ensures Matches(keys[j].typed, shown[j], false)
    {
      assert text[j] !in ImpossibleToPossible;
      TypeableMatches(text[j], false);
    }
    MatchingKeysComplete(Modes(false, false, false), shown, Initial(11), keys);
  }

  /** Case-insensitive: "hi" is accepted for "Hi". */
  lemma LowerCaseHi()
    ensures var r := Run(Modes(true, false, false), DisplayText("Hi"), Initial(2), Keys("hi"));
      r.charIndex == 2 && r.done && r.mistakes == 0
  {
    var shown := DisplayText("Hi");
    assert shown == ['H', 'i'];
    MatchingKeysComplete(Modes(true, false, false), shown, Initial(2), Keys("hi"));
  }

  /** Mistakes do not move the cursor: over "ab", a wrong "x" leaves the
      cursor at 0 with one mistake; "a" and "b" then still complete the text. */
  lemma RetryAfterMistake()
    ensures var first := Step(Modes(false, false, false), DisplayText("ab"), Initial(2), Key(Some('x'), 0));
      first.charIndex == 0 && first.mistakes == 1 && first.isTyping && !first.done
    ensures var r := Run(Modes(false, false, false), DisplayText("ab"), Initial(2), Keys("xab"));
      r.charIndex == 2 && r.done && r.mistakes == 1
  {
    var modes := Modes(false, false, false);
    var shown := DisplayText("ab");
    assert shown == ['a', 'b'];
    var keys := Keys("xab");
    var first := Step(modes, shown, Initial(2), keys[0]);
    assert first.charIndex == 0 && first.mistakes == 1;
    assert Run(modes, shown, Initial(2), keys) == Run(modes, shown, first, keys[1..]);
    MatchingKeysComplete(modes, shown, first, keys[1..]);
  }

  /** With punctuation skipped, "hi." completes after "h" and "i": the
      accepted "i" carries the cursor over the final period and finishes. */
  lemma SkipFinalPeriod()
    ensures var r := Run(Modes(false, true, false), DisplayText("hi."), Initial(3), Keys("hi"));
      r.charIndex == 3 && r.done && r.mistakes == 0
      && r.marks[2] == Marks(true, true, false)
  {
    var modes := Modes(false, true, false);
    var shown := DisplayText("hi.");
    assert shown == ['h', 'i', '.'];
    var keys := Keys("hi");
    var s1 := Step(modes, shown, Initial(3), keys[0]);
    assert s1.charIndex == 1;
    var s2 := Step(modes, shown, s1, keys[1]);
    assert s2.charIndex == 3 && s2.marks[2] == Marks(true, true, false);
    assert Run(modes, shown, Initial(3), keys) == Run(modes, shown, s1, keys[1..]);
    assert Run(modes, shown, s1, keys[1..]) == Run(modes, shown, s2, keys[2..]);
  }
}
