/** The typing component: one object per mounted text, whose fields the
    change handler updates and whose character spans it repaints in place. */
module TypeTest {

  import opened Glyphs
  import opened Keystroke

  /** The accuracy figure of the stats line, in percent. JavaScript's
      `Math.round` rounds halves up, that is `floor(x + 1/2)`, so for a
      positive cursor the figure is `floor((200 * (c - m) + c) / (2 * c))`. */
  function Accuracy(charIndex: nat, mistakes: nat): (r: int)
    ensures mistakes == 0 ==> r == 100
    ensures mistakes != 0 && charIndex == 0 ==> r == 0
    // otherwise r is 100 * (charIndex - mistakes) / charIndex rounded half up
    ensures mistakes != 0 && charIndex != 0 ==>
      2 * charIndex * r <= 200 * (charIndex - mistakes) + charIndex < 2 * charIndex * (r + 1)
    ensures r <= 100
    ensures mistakes <= charIndex ==> r >= 0
    ensures mistakes > charIndex ==> r <= 0
  {
    if mistakes == 0 then 100
    else if charIndex == 0 then 0
    else
      var x, d := 200 * (charIndex - mistakes) + charIndex, 2 * charIndex;
      var r := x / d;
      RoundedQuotient(x, d, r);
      AccuracyBounds(charIndex, mistakes, r);
      r
  }

  lemma RoundedQuotient(x: int, d: int, q: int)
    requires d > 0 && q == x / d
    ensures d * q <= x < d * (q + 1)
  {
  }

  lemma AccuracyBounds(c: nat, m: nat, r: int)
    requires c > 0 && m > 0
    requires 2 * c * r <= 200 * (c - m) + c < 2 * c * (r + 1)
    ensures r <= 100
    ensures m <= c ==> r >= 0
    ensures m > c ==> r <= 0
  {
  }

  class Session {
    /** The text content of each character span. */
    const shown: seq<char>
    const modes: Modes
    const showStats: bool
    /** The class list of each character span. */
    const marks: array<Marks>

    var charIndex: nat
    var mistakes: nat
    var isTyping: bool
    var done: bool
    /** The clock reading taken by the first processed keystroke. */
    var startTime: int

    function Snapshot(): State
      reads this, marks
    {
      State(charIndex, mistakes, isTyping, done, startTime, marks[..])
    }

    ghost predicate Valid()
      reads this, marks
    {
      Inv(shown, Snapshot())
    }

    /** Mounting the component over `text` with the page's options. */
    constructor (text: string, size: int, showStats: bool, punctuationMode: bool, capsMode: bool, mistakesMode: bool)
      ensures Valid() && fresh(marks)
      ensures shown == DisplayText(text)
      ensures modes == Modes(capsMode, punctuationMode, mistakesMode)
      ensures this.showStats == showStats
      ensures Snapshot() == Initial(|text|)
    {
      shown := DisplayText(text);
      modes := Modes(capsMode, punctuationMode, mistakesMode);
      this.showStats := showStats;
      marks := new Marks[|text|](j => if j == 0 then Cursor else Blank);
      charIndex, mistakes, isTyping, done, startTime := 0, 0, false, false, 0;
      new;
      assert Snapshot() == Initial(|shown|);
      InitialInv(shown);
    }

    /** `finishedTyping`: stop the clock and show the completion message. */
    method FinishedTyping()
      modifies this
      ensures !isTyping && done
      ensures charIndex == old(charIndex) && mistakes == old(mistakes) && startTime == old(startTime)
    {
      isTyping := false;
      done := true;
    }

    /** `handleChange`: the hidden input's value changed to `value` at clock
        reading `now`. */
    method HandleChange(value: string, now: int)
      requires Valid()
      modifies this, marks
      ensures Valid()
      ensures Snapshot() == Step(modes, shown, old(Snapshot()), Key(LastChar(value), now))
    {
      ghost var before := Snapshot();
      var typedChar := LastChar(value);
      var i, n := charIndex, marks.Length;
      if i <= n - 1 {
        if !isTyping {
          startTime := now;
          isTyping := true;
        }
        var matched := Matches(typedChar, shown[i], modes.caps);
        ghost var skip := Skips(modes, shown, i, matched);
        if matched {
          marks[i] := marks[i].(cursor := false, incorrect := false, correct := true);
          if i + 1 < n {
            marks[i + 1] := marks[i + 1].(cursor := true);
          }
          charIndex := i + 1;
          if modes.punctuation && i + 1 < n && IsPunctuation(shown[i + 1]) {
            if i == n - 2 {
              marks[i + 1] := marks[i + 1].(correct := true);
              charIndex := i + 2;
              FinishedTyping();
            } else {
              marks[i + 1] := marks[i + 1].(cursor := false, correct := true);
              marks[i + 2] := marks[i + 2].(cursor := true);
              charIndex := i + 2;
            }
          }
        } else {
          marks[i] := marks[i].(cursor := false, incorrect := true);
          mistakes := mistakes + 1;
          if modes.mistakes {
            charIndex := i + 1;
            if i + 1 < n {
              marks[i + 1] := marks[i + 1].(cursor := true);
            }
          }
        }
        assert marks[..] == Repaint(before.marks, i, matched, skip, modes.mistakes);
        if i >= n - 1 {
          FinishedTyping();
        }
      }
      StepPreservesInv(modes, shown, before, Key(typedChar, now));
    }

    /** The accuracy the stats line shows. */
    function ShownAccuracy(): (r: int)
      reads this
      ensures r == Accuracy(charIndex, mistakes)
      ensures mistakes == 0 ==> r == 100
      ensures mistakes != 0 && charIndex == 0 ==> r == 0
      ensures mistakes != 0 && charIndex != 0 ==>
        2 * charIndex * r <= 200 * (charIndex - mistakes) + charIndex < 2 * charIndex * (r + 1)
      ensures r <= 100
    {
      Accuracy(charIndex, mistakes)
    }
  }
}
