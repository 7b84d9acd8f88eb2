/** The keystroke-driven typing session as a pure state machine: the state
    the component keeps, the transition one change event of the hidden input
    causes, and what any sequence of events does. */
module Keystroke {

  import opened Glyphs

  /** The component's three behaviour flags, named as the component names
      them. `caps` accepts a keystroke whose lower case matches; `punctuation`
      skips one punctuation character after an accepted keystroke;
      `mistakes` moves the cursor on after a rejected keystroke. */
  datatype Modes = Modes(caps: bool, punctuation: bool, mistakes: bool)

  /** The class list of one character's span: `cursor` is the cyan
      background, `correct` the green text, `incorrect` the red background. */
  datatype Marks = Marks(cursor: bool, correct: bool, incorrect: bool)

  const Blank: Marks := Marks(false, false, false)
  const Cursor: Marks := Marks(true, false, false)
  const Green: Marks := Marks(false, true, false)
  const Red: Marks := Marks(false, false, true)

  /** Everything one change event reads or writes. */
  datatype State = State(
    charIndex: nat,
    mistakes: nat,
    isTyping: bool,
    done: bool,
    startTime: int,
    marks: seq<Marks>)

  /** A change event: the last character of the input's value, and the clock
      reading the handler would take. */
  datatype Key = Key(typed: Option<char>, now: int)

  /** The state of a freshly mounted component over a text of `n` characters:
      only the first span carries the cursor mark. */
  function Initial(n: nat): (s: State)
    ensures s.charIndex == 0 && s.mistakes == 0 && !s.isTyping && !s.done && s.startTime == 0
    ensures |s.marks| == n
    ensures n > 0 ==> s.marks[0] == Cursor
    ensures forall j :: 0 < j < n ==> s.marks[j] == Blank
  {
    State(0, 0, false, false, 0, seq(n, j => if j == 0 then Cursor else Blank))
  }

  /** Whether an accepted keystroke at `i` also skips the next character. */
  predicate Skips(modes: Modes, shown: seq<char>, i: nat, matched: bool) {
    matched && modes.punctuation && i + 1 < |shown| && IsPunctuation(shown[i + 1])
  }

  /** Whether a processed keystroke at `i` calls `finishedTyping`: the old
      cursor is on the last character, or a skip starts from the one before. */
  predicate Finishes(shown: seq<char>, i: nat, skip: bool) {
    i >= |shown| - 1 || (skip && i == |shown| - 2)
  }

  /** The class-list changes of one processed keystroke at position `i`. */
  function Repaint(marks: seq<Marks>, i: nat, matched: bool, skip: bool, mistakesMode: bool): (r: seq<Marks>)
    requires i < |marks|
    requires skip ==> matched && i + 1 < |marks|
    ensures |r| == |marks|
    ensures forall j :: 0 <= j < |marks| && j != i && j != i + 1 && j != i + 2 ==> r[j] == marks[j]
    ensures matched ==> r[i] == Green
    ensures !matched ==> r[i] == marks[i].(cursor := false, incorrect := true)
    ensures matched && !skip && i + 1 < |marks| ==> r[i + 1] == marks[i + 1].(cursor := true)
    ensures skip && i + 2 < |marks| ==> r[i + 1] == marks[i + 1].(cursor := false, correct := true)
    ensures skip && i + 2 < |marks| ==> r[i + 2] == marks[i + 2].(cursor := true)
    ensures skip && i + 2 == |marks| ==> r[i + 1] == marks[i + 1].(cursor := true, correct := true)
    ensures !matched && mistakesMode && i + 1 < |marks| ==> r[i + 1] == marks[i + 1].(cursor := true)
    ensures !matched && !mistakesMode ==> r == marks[i := r[i]]
    ensures !skip && i + 2 < |marks| ==> r[i + 2] == marks[i + 2]
    // only the span under the cursor can turn red
    ensures forall j :: i < j < |marks| ==> r[j].incorrect == marks[j].incorrect
  {
    var n := |marks|;
    if matched then
      var m1 := marks[i := marks[i].(cursor := false, incorrect := false, correct := true)];
      var m2 := if i + 1 < n then m1[i + 1 := m1[i + 1].(cursor := true)] else m1;
      if !skip then m2
      else if i == n - 2 then m2[i + 1 := m2[i + 1].(correct := true)]
      else
        var m3 := m2[i + 1 := m2[i + 1].(cursor := false, correct := true)];
        m3[i + 2 := m3[i + 2].(cursor := true)]
    else
      var m1 := marks[i := marks[i].(cursor := false, incorrect := true)];
      if mistakesMode && i + 1 < n then m1[i + 1 := m1[i + 1].(cursor := true)] else m1
  }

  /** One change event of the hidden input. All reads see the values from
      before the event; of the cursor updates the last one wins. */
  function Step(modes: Modes, shown: seq<char>, s: State, key: Key): (r: State)
    requires |s.marks| == |shown|
    ensures |r.marks| == |shown|
    // only a cursor inside the text is processed; on an empty text nothing is
    ensures s.charIndex >= |shown| ==> r == s
    // the cursor never moves back, never leaves the text, moves at most two
    ensures s.charIndex <= r.charIndex <= s.charIndex + 2
    ensures s.charIndex <= |shown| ==> r.charIndex <= |shown|
    // the first processed keystroke starts the clock
    ensures s.charIndex < |shown| && !s.isTyping ==> r.startTime == key.now
    ensures s.isTyping ==> r.startTime == s.startTime
    ensures s.charIndex < |shown| ==>
      var i := s.charIndex;
      var matched := Matches(key.typed, shown[i], modes.caps);
      && (matched ==> r.mistakes == s.mistakes)
      && (matched ==> r.charIndex == if Skips(modes, shown, i, matched) then i + 2 else i + 1)
      && (!matched ==> r.mistakes == s.mistakes + 1)
      && (!matched ==> r.charIndex == if modes.mistakes then i + 1 else i)
      && (r.done <==> s.done || Finishes(shown, i, Skips(modes, shown, i, matched)))
      && (r.isTyping <==> !Finishes(shown, i, Skips(modes, shown, i, matched)))
      && r.marks == Repaint(s.marks, i, matched, Skips(modes, shown, i, matched), modes.mistakes)
    // a skip needs a following character, so it reaches at most the end
    ensures r.charIndex == s.charIndex + 2 ==> s.charIndex + 1 < |shown|
    // done is never cleared
    ensures s.done ==> r.done
    // spans behind the cursor are never repainted
    ensures forall j :: 0 <= j < s.charIndex && j < |shown| ==> r.marks[j] == s.marks[j]
  {
    var i := s.charIndex;
    if i > |shown| - 1 then s
    else
      var matched := Matches(key.typed, shown[i], modes.caps);
      var skip := Skips(modes, shown, i, matched);
      var finished := Finishes(shown, i, skip);
      var next := if matched then (if skip then i + 2 else i + 1)
                  else if modes.mistakes then i + 1 else i;
      State(
        next,
        if matched then s.mistakes else s.mistakes + 1,
        !finished,
        s.done || finished,
        if s.isTyping then s.startTime else key.now,
        Repaint(s.marks, i, matched, skip, modes.mistakes))
  }

  /** The state after a sequence of change events. */
  function Run(modes: Modes, shown: seq<char>, s: State, keys: seq<Key>): (r: State)
    requires |s.marks| == |shown|
    ensures |r.marks| == |shown|
    ensures s.charIndex <= r.charIndex
    ensures s.charIndex <= |shown| ==> r.charIndex <= |shown|
    ensures s.mistakes <= r.mistakes
    ensures s.done ==> r.done
    ensures forall j :: 0 <= j < s.charIndex && j < |shown| ==> r.marks[j] == s.marks[j]
    decreases |keys|
  {
    if keys == [] then s
    else Run(modes, shown, Step(modes, shown, s, keys[0]), keys[1..])
  }

  /** Number of spans marked incorrect. */
  function Reds(marks: seq<Marks>): nat {
    if marks == [] then 0
    else (if marks[0].incorrect then 1 else 0) + Reds(marks[1..])
  }

  /** How the marks of the spans relate to the cursor: behind it each span is
      green or red, the span under it is cyan or red, the ones ahead carry no
      mark. The one exception is the last span after a punctuation skip that
      finishes the text: it is both cyan and green. */
  ghost predicate Painted(marks: seq<Marks>, c: nat) {
    && (forall j :: 0 <= j < c && j < |marks| ==>
          marks[j] == Green || marks[j] == Red
          || (j == |marks| - 1 && c == |marks| && marks[j] == Marks(true, true, false)))
    && (c < |marks| ==> marks[c] == Cursor || marks[c] == Red)
    && (forall j :: c < j < |marks| ==> marks[j] == Blank)
  }

  /** The session invariant. */
  ghost predicate Inv(shown: seq<char>, s: State) {
    && |s.marks| == |shown|
    && s.charIndex <= |shown|
    && (s.done ==> !s.isTyping && s.charIndex + 1 >= |shown|)
    && (0 < |shown| == s.charIndex ==> s.done)
    && Painted(s.marks, s.charIndex)
    && Reds(s.marks) <= s.mistakes
  }

  lemma {:induction false} RedsUpdate(marks: seq<Marks>, j: nat, x: Marks)
    requires j < |marks|
    ensures Reds(marks[j := x]) + (if marks[j].incorrect then 1 else 0)
         == Reds(marks) + (if x.incorrect then 1 else 0)
  {
    if j > 0 {
      RedsUpdate(marks[1..], j - 1, x);
      assert marks[j := x][1..] == marks[1..][j - 1 := x];
    } else {
      assert marks[j := x][1..] == marks[1..];
    }
  }

  /** Only a rejected keystroke can add a red span, and it adds at most one. */
  lemma RepaintReds(marks: seq<Marks>, i: nat, matched: bool, skip: bool, mistakesMode: bool)
    requires i < |marks|
    requires skip ==> matched && i + 1 < |marks|
    ensures Reds(Repaint(marks, i, matched, skip, mistakesMode)) <= Reds(marks) + (if matched then 0 else 1)
  {
    var n := |marks|;
    if matched {
      var m1 := marks[i := marks[i].(cursor := false, incorrect := false, correct := true)];
      RedsUpdate(marks, i, m1[i]);
      var m2 := if i + 1 < n then m1[i + 1 := m1[i + 1].(cursor := true)] else m1;
      if i + 1 < n { RedsUpdate(m1, i + 1, m2[i + 1]); }
      if skip {
        if i == n - 2 {
          RedsUpdate(m2, i + 1, m2[i + 1].(correct := true));
        } else {
          var m3 := m2[i + 1 := m2[i + 1].(cursor := false, correct := true)];
          RedsUpdate(m2, i + 1, m3[i + 1]);
          RedsUpdate(m3, i + 2, m3[i + 2].(cursor := true));
        }
      }
    } else {
      var m1 := marks[i := marks[i].(cursor := false, incorrect := true)];
      RedsUpdate(marks, i, m1[i]);
      if mistakesMode && i + 1 < n {
        RedsUpdate(m1, i + 1, m1[i + 1].(cursor := true));
      }
    }
  }

  /** Every change event keeps the session invariant. */
  lemma StepPreservesInv(modes: Modes, shown: seq<char>, s: State, key: Key)
    requires Inv(shown, s)
    ensures Inv(shown, Step(modes, shown, s, key))
  {
    var i := s.charIndex;
    if i < |shown| {
      var matched := Matches(key.typed, shown[i], modes.caps);
      var skip := Skips(modes, shown, i, matched);
      RepaintReds(s.marks, i, matched, skip, modes.mistakes);
    }
  }

  /** Any sequence of change events keeps the session invariant. */
  lemma {:induction false} RunPreservesInv(modes: Modes, shown: seq<char>, s: State, keys: seq<Key>)
    requires Inv(shown, s)
    ensures Inv(shown, Run(modes, shown, s, keys))
    decreases |keys|
  {
    if keys != [] {
      StepPreservesInv(modes, shown, s, keys[0]);
      RunPreservesInv(modes, shown, Step(modes, shown, s, keys[0]), keys[1..]);
    }
  }

  /** Spans none of which is red count no red span. */
  lemma {:induction false} NoRedsCountZero(marks: seq<Marks>)
    requires forall j :: 0 <= j < |marks| ==> !marks[j].incorrect
    ensures Reds(marks) == 0
  {
    if marks != [] {
      NoRedsCountZero(marks[1..]);
    }
  }

  /** The freshly mounted state satisfies the invariant. */
  lemma InitialInv(shown: seq<char>)
    ensures Inv(shown, Initial(|shown|))
  {
    NoRedsCountZero(Initial(|shown|).marks);
  }

  /** On an empty text no sequence of events changes anything: the session
      never starts and never completes. */
  lemma {:induction false} EmptyTextIsInert(modes: Modes, s: State, keys: seq<Key>)
    requires |s.marks| == 0
    ensures Run(modes, [], s, keys) == s
    decreases |keys|
  {
    if keys != [] {
      RunStep(modes, [], s, keys);
      EmptyTextIsInert(modes, s, keys[1..]);
    }
  }

  lemma RunStep(modes: Modes, shown: seq<char>, s: State, keys: seq<Key>)
    requires |s.marks| == |shown| && keys != []
    ensures Run(modes, shown, s, keys) == Run(modes, shown, Step(modes, shown, s, keys[0]), keys[1..])
  {
  }

  /** With punctuation skipping off, keystrokes that each match the character
      under the cursor walk the cursor to the end of the text without a
      mistake, turn every span they pass green and finish the session. */
  lemma {:induction false} MatchingKeysComplete(modes: Modes, shown: seq<char>, s: State, keys: seq<Key>)
    requires !modes.punctuation
    requires |s.marks| == |shown|
    requires s.charIndex + |keys| == |shown|
    requires forall j :: 0 <= j < |keys| ==> Matches(keys[j].typed, shown[s.charIndex + j], modes.caps)
    ensures var r := Run(modes, shown, s, keys);
      && r.charIndex == |shown|
      && r.mistakes == s.mistakes
      && (keys != [] ==> r.done && !r.isTyping)
      && r.marks == s.marks[..s.charIndex] + seq(|keys|, _ => Green)
    decreases |keys|
  {
    var i := s.charIndex;
    if keys == [] {
      assert s.marks[..i] + seq(0, _ => Green) == s.marks;
    } else {
      var t := Step(modes, shown, s, keys[0]);
      assert Matches(keys[0].typed, shown[i], modes.caps);
      assert t.charIndex == i + 1 && t.mistakes == s.mistakes;
      assert t.marks[..i + 1] == s.marks[..i] + [Green];
      var rest := keys[1..];
      forall j | 0 <= j < |rest|
        ensures Matches(rest[j].typed, shown[t.charIndex + j], modes.caps)
      {
        assert rest[j] == keys[j + 1];
      }
      MatchingKeysComplete(modes, shown, t, rest);
      if rest == [] {
        assert t.done && !t.isTyping;
      }
      assert s.marks[..i] + [Green] + seq(|rest|, _ => Green) == s.marks[..i] + seq(|keys|, _ => Green);
    }
  }

  /** The positions the cursor rests on, from `i` on, when every keystroke
      is accepted: each accepted keystroke may carry it over one punctuation
      character. */
  function Stops(modes: Modes, shown: seq<char>, i: nat): (r: seq<nat>)
    ensures i < |shown| ==> r != [] && r[0] == i
    ensures forall j :: 0 <= j < |r| ==> i <= r[j] < |shown|
    ensures i <= |shown| ==> |r| <= |shown| - i
    ensures !modes.punctuation ==> |r| == if i < |shown| then |shown| - i else 0
    // each resting place follows the previous one by one, or by two over a skipped character
    ensures forall j :: 0 <= j < |r| - 1 ==> r[j + 1] == r[j] + (if Skips(modes, shown, r[j], true) then 2 else 1)
    decreases |shown| - i
  {
    if i >= |shown| then []
    else [i] + Stops(modes, shown, if Skips(modes, shown, i, true) then i + 2 else i + 1)
  }

  /** The step taken from the last resting place reaches the end of the text:
      the resting places stop only once the text is typed. */
  lemma {:induction false} StopsReachEnd(modes: Modes, shown: seq<char>, i: nat)
    ensures var r := Stops(modes, shown, i);
      r != [] ==> r[|r| - 1] + (if Skips(modes, shown, r[|r| - 1], true) then 2 else 1) >= |shown|
    decreases |shown| - i
  {
    if i < |shown| {
      var next := if Skips(modes, shown, i, true) then i + 2 else i + 1;
      StopsReachEnd(modes, shown, next);
    }
  }

  /** Without punctuation skipping the cursor rests on every position. */
  lemma {:induction false} StopsWithoutSkipping(modes: Modes, shown: seq<char>, i: nat)
    requires !modes.punctuation && i <= |shown|
    ensures Stops(modes, shown, i) == seq(|shown| - i, j => i + j)
    decreases |shown| - i
  {
    if i < |shown| {
      StopsWithoutSkipping(modes, shown, i + 1);
    }
  }

  /** In any mode, keystrokes that each match the character under the
      cursor's next resting place complete the text without a mistake, and
      every span from the starting cursor on ends up green and not red. */
  lemma {:induction false} MatchingStopsComplete(modes: Modes, shown: seq<char>, s: State, keys: seq<Key>)
    requires |s.marks| == |shown| && s.charIndex <= |shown|
    requires forall j :: s.charIndex < j < |shown| ==> !s.marks[j].incorrect
    requires |keys| == |Stops(modes, shown, s.charIndex)|
    requires forall j :: 0 <= j < |keys| ==>
      Matches(keys[j].typed, shown[Stops(modes, shown, s.charIndex)[j]], modes.caps)
    ensures var r := Run(modes, shown, s, keys);
      && r.charIndex == |shown|
      && r.mistakes == s.mistakes
      && (keys != [] ==> r.done && !r.isTyping)
      && (forall j :: s.charIndex <= j < |shown| ==> r.marks[j].correct && !r.marks[j].incorrect)
    decreases |keys|
  {
    var i := s.charIndex;
    var stops := Stops(modes, shown, i);
    if keys != [] {
      var t := Step(modes, shown, s, keys[0]);
      assert Matches(keys[0].typed, shown[i], modes.caps);
      var skip := Skips(modes, shown, i, true);
      var next := if skip then i + 2 else i + 1;
      assert t.charIndex == next && t.mistakes == s.mistakes;
      assert Stops(modes, shown, next) == stops[1..];
      var rest := keys[1..];
      forall j | 0 <= j < |rest|
        ensures Matches(rest[j].typed, shown[Stops(modes, shown, t.charIndex)[j]], modes.caps)
      {
        assert rest[j] == keys[j + 1];
      }
      MatchingStopsComplete(modes, shown, t, rest);
      if rest == [] {
        assert t.done && !t.isTyping;
      }
      assert forall j :: i <= j < next ==> t.marks[j].correct && !t.marks[j].incorrect;
    }
  }

  /** Typing a whole text from a freshly mounted state, one key per resting
      place of the cursor, pressing the key each source character calls for
      (a plain quote for a typographic one, a space for the non-breaking
      space shown), completes it without a mistake. */
  lemma TypingTheTextCompletes(modes: Modes, text: string, times: seq<int>)
    requires |times| == |Stops(modes, DisplayText(text), 0)|
    ensures var shown := DisplayText(text);
      var stops := Stops(modes, shown, 0);
      var keys := seq(|stops|, j requires 0 <= j < |stops| => Key(Some(Typeable(text[stops[j]])), times[j]));
      var r := Run(modes, shown, Initial(|text|), keys);
      && r.charIndex == |text|
      && r.mistakes == 0
      && (text != [] ==> r.done && !r.isTyping)
      && (forall j :: 0 <= j < |text| ==> r.marks[j].correct && !r.marks[j].incorrect)
  {
    var shown := DisplayText(text);
    var stops := Stops(modes, shown, 0);
    var keys := seq(|stops|, j requires 0 <= j < |stops| => Key(Some(Typeable(text[stops[j]])), times[j]));
    forall j | 0 <= j < |keys|
      ensures Matches(keys[j].typed, shown[stops[j]], modes.caps)
    {
      TypeableMatches(text[stops[j]], modes.caps);
    }
    MatchingStopsComplete(modes, shown, Initial(|text|), keys);
  }

  /** A rejected keystroke on the last character still finishes the session,
      with the cursor left on that character when mistakes do not move it. */
  lemma RejectedLastKeyFinishes(modes: Modes, shown: seq<char>, s: State, key: Key)
    requires |s.marks| == |shown| && s.charIndex == |shown| - 1
    requires !Matches(key.typed, shown[s.charIndex], modes.caps) && !modes.mistakes
    ensures var r := Step(modes, shown, s, key);
      r.done && !r.isTyping && r.charIndex == |shown| - 1 && r.mistakes == s.mistakes + 1
  {
  }

  /** Such a finished session keeps processing keystrokes: each one takes a
      fresh start time, and each rejected one is one more mistake. */
  lemma FinishedSessionKeepsCounting(modes: Modes, shown: seq<char>, s: State, key: Key)
    requires Inv(shown, s) && s.done && s.charIndex < |shown|
    ensures var r := Step(modes, shown, s, key);
      && r.startTime == key.now
      && r.done && !r.isTyping
      && (!Matches(key.typed, shown[s.charIndex], modes.caps) ==> r.mistakes == s.mistakes + 1)
  {
  }
}
