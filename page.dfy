/** The page: a form that collects the text and the options, and the typing
    component mounted over the committed text once there is one. */
module Page {

  import opened Glyphs
  import opened Keystroke
  import TypeTest

  predicate IsLineBreak(c: char) {
    c == '\r' || c == '\n'
  }

  predicate NoLineBreaks(s: string) {
    forall j :: 0 <= j < |s| ==> !IsLineBreak(s[j])
  }

  /** `replace(/(\r\n|\n|\r)/gm, "")`: scanning from the left, the first
      alternative that matches at a position is removed. */
  function StripLineBreaks(s: string): (r: string)
    ensures NoLineBreaks(r)
    ensures |r| <= |s|
    ensures s != [] && !IsLineBreak(s[0]) ==> r != [] && r[0] == s[0]
    decreases |s|
  {
    if s == [] then []
    else if |s| >= 2 && s[0] == '\r' && s[1] == '\n' then StripLineBreaks(s[2..])
    else if s[0] == '\n' || s[0] == '\r' then StripLineBreaks(s[1..])
    else [s[0]] + StripLineBreaks(s[1..])
  }

  /** Reference definition: the characters of `s` that are not line breaks,
      in their order. */
  function NonBreaks(s: string): (r: string)
    ensures NoLineBreaks(r)
    ensures |r| <= |s|
    ensures forall c {:trigger multiset(r)[c]} :: !IsLineBreak(c) ==> multiset(r)[c] == multiset(s)[c]
  {
    if s == [] then []
    else
      var rest := NonBreaks(s[1..]);
      assert s == [s[0]] + s[1..];
      if IsLineBreak(s[0]) then rest else [s[0]] + rest
  }

  /** The regular expression removes exactly the line-break characters. */
  lemma {:induction false} StripIsNonBreaks(s: string)
    ensures StripLineBreaks(s) == NonBreaks(s)
    decreases |s|
  {
    if s == [] {
    } else if |s| >= 2 && s[0] == '\r' && s[1] == '\n' {
      StripIsNonBreaks(s[2..]);
      assert s[1..][1..] == s[2..];
    } else {
      StripIsNonBreaks(s[1..]);
    }
  }

  /** Removing line breaks commutes with concatenation, so the kept
      characters stay in their original order. */
  lemma {:induction false} NonBreaksAppend(a: string, b: string)
    ensures NonBreaks(a + b) == NonBreaks(a) + NonBreaks(b)
    decreases |a|
  {
    if a == [] {
      assert a + b == b;
    } else {
      assert (a + b)[0] == a[0] && (a + b)[1..] == a[1..] + b;
      NonBreaksAppend(a[1..], b);
    }
  }

  /** A text without line breaks passes through unchanged. */
  lemma {:induction false} NonBreaksIdentity(s: string)
    requires NoLineBreaks(s)
    ensures NonBreaks(s) == s
    decreases |s|
  {
    if s != [] {
      NonBreaksIdentity(s[1..]);
    }
  }

  /** What the page hands to the typing component has no line break, keeps
      every other character in order, and stripping again changes nothing. */
  lemma StripProperties(s: string)
    ensures NoLineBreaks(StripLineBreaks(s))
    ensures forall c {:trigger multiset(StripLineBreaks(s))[c]} ::
      !IsLineBreak(c) ==> multiset(StripLineBreaks(s))[c] == multiset(s)[c]
    ensures StripLineBreaks(StripLineBreaks(s)) == StripLineBreaks(s)
    ensures NoLineBreaks(s) ==> StripLineBreaks(s) == s
  {
    StripIsNonBreaks(s);
    StripIsNonBreaks(NonBreaks(s));
    NonBreaksIdentity(NonBreaks(s));
    if NoLineBreaks(s) {
      NonBreaksIdentity(s);
    }
  }

  /** A committed text made only of line breaks strips to the empty text. */
  lemma {:induction false} OnlyBreaksStripToEmpty(s: string)
    requires forall j :: 0 <= j < |s| ==> IsLineBreak(s[j])
    ensures StripLineBreaks(s) == []
  {
    StripIsNonBreaks(s);
    OnlyBreaksNonBreaks(s);
  }

  lemma {:induction false} OnlyBreaksNonBreaks(s: string)
    requires forall j :: 0 <= j < |s| ==> IsLineBreak(s[j])
    ensures NonBreaks(s) == []
    decreases |s|
  {
    if s != [] {
      OnlyBreaksNonBreaks(s[1..]);
    }
  }

  /** The page's state fields. */
  datatype Fields = Fields(
    input: string,
    text: string,
    size: int,
    showStats: bool,
    caps: bool,
    punc: bool,
    mistakes: bool)

  /** What the page renders: the form, or the typing component with its props. */
  datatype Screen =
    | Form
    | Typing(text: string, size: int, showStats: bool, modes: Modes)

  function View(f: Fields): (v: Screen)
    ensures v.Form? <==> f.text == []
    ensures v.Typing? ==> NoLineBreaks(v.text) && |v.text| <= |f.text|
    ensures v.Typing? ==> v.modes == Modes(f.caps, f.punc, f.mistakes) && v.size == f.size && v.showStats == f.showStats
    ensures v.Typing? && NoLineBreaks(f.text) ==> v.text == f.text
    ensures v.Typing? ==> v.text == StripLineBreaks(f.text)
  {
    if f.text == [] then Form
    else
      StripProperties(f.text);
      StripIsNonBreaks(f.text);
      Typing(StripLineBreaks(f.text), f.size, f.showStats, Modes(f.caps, f.punc, f.mistakes))
  }

  /** A non-empty committed text of line breaks only shows the typing
      component over the empty text, where no keystroke ever completes it. */
  lemma OnlyBreaksNeverComplete(f: Fields, keys: seq<Key>)
    requires f.text != []
    requires forall j :: 0 <= j < |f.text| ==> IsLineBreak(f.text[j])
    ensures View(f).Typing? && View(f).text == []
    ensures Run(View(f).modes, DisplayText(View(f).text), Initial(0), keys) == Initial(0)
  {
    OnlyBreaksStripToEmpty(f.text);
    EmptyTextIsInert(View(f).modes, Initial(0), keys);
  }

  class Home {
    var input: string
    var text: string
    var size: int
    var showStats: bool
    var caps: bool
    var punc: bool
    var mistakes: bool

    function Snapshot(): Fields
      reads this
    {
      Fields(input, text, size, showStats, caps, punc, mistakes)
    }

    constructor ()
      ensures Snapshot() == Fields([], [], 30, false, false, false, false)
      ensures View(Snapshot()) == Form
    {
      input, text, size := [], [], 30;
      showStats, caps, punc, mistakes := false, false, false, false;
    }

    method ToggleStats()
      modifies this
      ensures Snapshot() == old(Snapshot()).(showStats := !old(showStats))
    {
      showStats := !showStats;
    }

    method ToggleMistakes()
      modifies this
      ensures Snapshot() == old(Snapshot()).(mistakes := !old(mistakes))
    {
      mistakes := !mistakes;
    }

    method ToggleCaps()
      modifies this
      ensures Snapshot() == old(Snapshot()).(caps := !old(caps))
    {
      caps := !caps;
    }

    method TogglePunc()
      modifies this
      ensures Snapshot() == old(Snapshot()).(punc := !old(punc))
    {
      punc := !punc;
    }

    /** The slider's `parseInt` of its value. */
    method SetSize(value: int)
      modifies this
      ensures Snapshot() == old(Snapshot()).(size := value)
    {
      size := value;
    }

    /** The textarea's change handler. */
    method SetInput(value: string)
      modifies this
      ensures Snapshot() == old(Snapshot()).(input := value)
    {
      input := value;
    }

    /** "Start reading": commit the textarea's content as it is. */
    method StartReading()
      modifies this
      ensures Snapshot() == old(Snapshot()).(text := old(input))
      ensures View(Snapshot()).Form? <==> old(input) == []
    {
      text := input;
    }

    /** The typing component's back button. */
    method Restart()
      modifies this
      ensures Snapshot() == old(Snapshot()).(text := [])
      ensures View(Snapshot()) == Form
    {
      text := [];
    }

    /** Mount the typing component with the props the page passes. */
    method Mount() returns (t: TypeTest.Session)
      requires text != []
      ensures fresh(t) && fresh(t.marks) && t.Valid()
      ensures t.shown == DisplayText(View(Snapshot()).text)
      ensures t.modes == View(Snapshot()).modes && t.showStats == showStats
      ensures t.Snapshot() == Initial(|View(Snapshot()).text|)
    {
      t := new TypeTest.Session(StripLineBreaks(text), size, showStats, punc, caps, mistakes);
    }
  }
}
