/** What each editing action does to the edited line and its cursor, stated
    on values: the specification the session's buffer operations
    (clir.c:520-624 and the inline edits of clir.c:710-819) are proved
    against. */
module Editing {
  import opened Chars
  import Words
  import Keys
  import Completion

  /** The edited text and the cursor: `buf[..len]` and `pos`. */
  datatype Line = Line(text: seq<char>, pos: nat)

  /** The cursor lies within the text, and the text fits a buffer that holds
      `cap` bytes besides its terminator. */
  predicate Fits(l: Line, cap: nat) {
    l.pos <= |l.text| <= cap
  }

  /** `clirEditInsert` (clir.c:520-546): the byte goes in at the cursor and
      the cursor moves past it; a full buffer drops it. */
  function InsertedAt(l: Line, c: char, cap: nat): Line
    requires Fits(l, cap)
  {
    if |l.text| < cap then Line(l.text[..l.pos] + [c] + l.text[l.pos..], l.pos + 1) else l
  }

  /** `clirEditMoveLeft` (clir.c:549-554). */
  function MovedLeft(l: Line): Line {
    if l.pos > 0 then Line(l.text, l.pos - 1) else l
  }

  /** `clirEditMoveRight` (clir.c:557-562). */
  function MovedRight(l: Line): Line {
    if l.pos != |l.text| then Line(l.text, l.pos + 1) else l
  }

  /** `clirEditDelete` (clir.c:590-597): the byte under the cursor goes. */
  function DeletedAt(l: Line): Line
    requires l.pos <= |l.text|
  {
    if |l.text| > 0 && l.pos < |l.text| then Line(l.text[..l.pos] + l.text[l.pos + 1..], l.pos) else l
  }

  /** `clirEditBackspace` (clir.c:600-608): the byte before the cursor goes. */
  function Backspaced(l: Line): Line
    requires l.pos <= |l.text|
  {
    if l.pos > 0 && |l.text| > 0 then Line(l.text[..l.pos - 1] + l.text[l.pos..], l.pos - 1) else l
  }

  /** `clirEditDeletePrevWord` (clir.c:612-624): the word before the cursor
      and the spaces after it go. */
  function WordCut(l: Line): Line
    requires l.pos <= |l.text|
  {
    var p := Words.PrevWordStart(l.text, l.pos);
    Line(l.text[..p] + l.text[l.pos..], p)
  }

  /** Ctrl-T (clir.c:710-718): the bytes either side of the cursor swap, and
      the cursor moves right unless it is on the last byte. */
  function Transposed(l: Line): Line
    requires l.pos <= |l.text|
  {
    if 0 < l.pos < |l.text| then
      Line(l.text[l.pos - 1 := l.text[l.pos]][l.pos := l.text[l.pos - 1]],
           if l.pos != |l.text| - 1 then l.pos + 1 else l.pos)
    else l
  }

  /** The effect of an action on the line, for the actions that act on the
      line alone (clir.c:696-829); the others leave it to the session. */
  function Stepped(l: Line, a: Keys.Action, cap: nat): (r: Line)
    requires Fits(l, cap)
    ensures Fits(r, cap)
  {
    match a
    case Backspace => Backspaced(l)
    case DeleteOrEof => DeletedAt(l)
    case Delete => DeletedAt(l)
    case Transpose => Transposed(l)
    case Left => MovedLeft(l)
    case Right => MovedRight(l)
    case WordRight => Line(l.text, Words.WordRightTarget(l.text, l.pos))
    case WordLeft => Line(l.text, Words.WordLeftTarget(l.text, l.pos))
    case Home => Line(l.text, 0)
    case LineStart => Line(l.text, 0)
    case End => Line(l.text, |l.text|)
    case LineEnd => Line(l.text, |l.text|)
    case KillLine => Line([], 0)
    case KillToEnd => Line(l.text[..l.pos], l.pos)
    case DeletePrevWord => WordCut(l)
    case Insert(c) => InsertedAt(l, c, cap)
    case _ => l
  }

  /** Backspace undoes an insert that was not dropped. */
  lemma InsertThenBackspace(l: Line, c: char, cap: nat)
    requires Fits(l, cap) && |l.text| < cap
    ensures Backspaced(InsertedAt(l, c, cap)) == l
  {
    var t := l.text[..l.pos] + [c] + l.text[l.pos..];
    assert t[..l.pos] + t[l.pos + 1..] == l.text;
  }

  /** Moving left and deleting the byte under the cursor also undoes it. */
  lemma InsertThenLeftDelete(l: Line, c: char, cap: nat)
    requires Fits(l, cap) && |l.text| < cap
    ensures DeletedAt(MovedLeft(InsertedAt(l, c, cap))) == l
  {
    var t := l.text[..l.pos] + [c] + l.text[l.pos..];
    assert t[..l.pos] + t[l.pos + 1..] == l.text;
  }

  /** An insert into a full buffer changes nothing, whatever the byte. */
  lemma InsertWhenFull(l: Line, c: char, cap: nat)
    requires Fits(l, cap) && |l.text| == cap
    ensures Stepped(l, Keys.Insert(c), cap) == l
  {
  }

  /** Left and right undo each other away from the ends; at the ends they
      change nothing. */
  lemma MovesUndoEachOther(l: Line)
    requires l.pos <= |l.text|
    ensures l.pos > 0 ==> MovedRight(MovedLeft(l)) == l
    ensures l.pos < |l.text| ==> MovedLeft(MovedRight(l)) == l
    ensures l.pos == 0 ==> MovedLeft(l) == l
    ensures l.pos == |l.text| ==> MovedRight(l) == l
  {
  }

  /** Ctrl-T swaps the two bytes around the cursor and keeps every other
      byte: the text is a permutation of what it was. */
  lemma TransposeSwaps(l: Line)
    requires 0 < l.pos < |l.text|
    ensures var r := Transposed(l);
      && |r.text| == |l.text| && multiset(r.text) == multiset(l.text)
      && r.text[l.pos - 1] == l.text[l.pos] && r.text[l.pos] == l.text[l.pos - 1]
      && (forall k :: 0 <= k < |l.text| && k != l.pos - 1 && k != l.pos ==> r.text[k] == l.text[k])
      && r.pos == (if l.pos == |l.text| - 1 then l.pos else l.pos + 1)
  {
    var t := l.text;
    var i := l.pos;
    var r := t[i - 1 := t[i]][i := t[i - 1]];
    assert t == t[..i - 1] + [t[i - 1], t[i]] + t[i + 1..];
    assert r == t[..i - 1] + [t[i], t[i - 1]] + t[i + 1..];
  }

  /** With the cursor on the last byte, Ctrl-T twice restores the line. */
  lemma TransposeTwiceAtEnd(l: Line)
    requires 0 < l.pos && l.pos == |l.text| - 1
    ensures Transposed(Transposed(l)) == l
  {
    var t := l.text;
    var i := l.pos;
    assert t[i - 1 := t[i]][i := t[i - 1]][i - 1 := t[i - 1]][i := t[i]] == t;
  }

  /** Ctrl-W removes exactly the bytes between the cut point and the cursor:
      a run of non-spaces followed by a run of spaces, starting at the line
      start or after a space.  The bytes before the cut and after the cursor
      keep their order, and the cursor stays at the cut point. */
  lemma WordCutRemovesOneWord(l: Line)
    requires l.pos <= |l.text|
    ensures var r := WordCut(l);
      var p := r.pos;
      var m := Words.BackOver(l.text, l.pos, Words.SpaceOnly, true);
      && p <= m <= l.pos
      && |r.text| == |l.text| - (l.pos - p)
      && (forall k :: 0 <= k < p ==> r.text[k] == l.text[k])
      && (forall k :: l.pos <= k < |l.text| ==> r.text[k - (l.pos - p)] == l.text[k])
      && (forall k :: p <= k < m ==> l.text[k] != ' ')
      && (forall k :: m <= k < l.pos ==> l.text[k] == ' ')
      && (p == 0 || l.text[p - 1] == ' ')
      && (l.pos > 0 ==> p < l.pos)
  {
    Words.PrevWordStartShape(l.text, l.pos);
  }

  /** An escape sequence the source has no branch for, such as ESC [ Z (shift
      tab) or ESC [ H, leaves the line and the cursor as they were. */
  lemma UnknownEscapesKeepLine(l: Line, cap: nat, input: seq<char>, completion: bool)
    requires Fits(l, cap)
    requires |input| >= 3 && input[0] == Esc && input[1] == '[' && (input[2] == 'Z' || input[2] == 'H')
    ensures Stepped(l, Keys.Decode(input, completion).action, cap) == l
  {
    Keys.UnboundEscapes(input, completion);
  }

  // ---------------------------------------------------------------- completion

  /** Inserting the bytes of `ins` one at a time, each through
      `clirEditInsert`, as `completeWord` does (clir.c:272-276). */
  function InsertedAll(l: Line, ins: seq<char>, cap: nat): (r: Line)
    requires Fits(l, cap)
    ensures Fits(r, cap)
  {
    if ins == [] then l
    else InsertedAt(InsertedAll(l, ins[..|ins| - 1], cap), ins[|ins| - 1], cap)
  }

  /** The bytes go in at the cursor, in order, until the buffer is full: the
      first min(|ins|, room) of them are inserted and the cursor ends after
      them. */
  lemma {:induction false} InsertedAllIsSplice(l: Line, ins: seq<char>, cap: nat)
    requires Fits(l, cap)
    ensures var k := Min(|ins|, cap - |l.text|);
      InsertedAll(l, ins, cap) == Line(l.text[..l.pos] + ins[..k] + l.text[l.pos..], l.pos + k)
  {
    if ins != [] {
      var init := ins[..|ins| - 1];
      var c := ins[|ins| - 1];
      InsertedAllIsSplice(l, init, cap);
      var k0 := Min(|init|, cap - |l.text|);
      var r0 := InsertedAll(l, init, cap);
      assert r0 == Line(l.text[..l.pos] + init[..k0] + l.text[l.pos..], l.pos + k0);
      assert init[..k0] == ins[..k0];
      if |r0.text| < cap {
        assert ins[..k0 + 1] == ins[..k0] + [c];
        SpliceStep(l.text[..l.pos], ins[..k0], l.text[l.pos..], c);
      }
    }
  }

  /** Inserting after a spliced run extends the run. */
  lemma SpliceStep(a: seq<char>, m: seq<char>, b: seq<char>, c: char)
    ensures var t := a + m + b;
      t[..|a| + |m|] + [c] + t[|a| + |m|..] == a + (m + [c]) + b
  {
    var t := a + m + b;
    assert t[..|a| + |m|] == a + m;
    assert t[|a| + |m|..] == b;
  }

  /** The word `completeWord` completes: from the session's word start, or
      from the cursor when the word start lies beyond it, to the cursor
      (clir.c:258). */
  function Typed(l: Line, wordPos: nat): seq<char>
    requires l.pos <= |l.text|
  {
    l.text[Min(wordPos, l.pos)..l.pos]
  }

  /** Inserting the rest of a word that extends the typed word, and a space,
      leaves that word and the space in place of the typed word. */
  lemma {:induction false} SuffixWritesWord(l: Line, wordPos: nat, w: string, cap: nat)
    requires Fits(l, cap) && wordPos <= l.pos
    requires Completion.Extends(w, Typed(l, wordPos))
    requires |l.text| + |w| - |Typed(l, wordPos)| + 1 <= cap
    ensures var r := InsertedAll(l, Completion.Suffix(w, Typed(l, wordPos)), cap);
      && r.text == l.text[..wordPos] + w + " " + l.text[l.pos..]
      && r.pos == wordPos + |w| + 1
  {
    var typed := Typed(l, wordPos);
    var rest := w[|typed|..];
    var ins := Completion.Suffix(w, typed);
    assert ins == rest + " " && |ins| <= cap - |l.text|;
    InsertedAllIsSplice(l, ins, cap);
    assert Min(|ins|, cap - |l.text|) == |ins| && ins[..|ins|] == ins;
    assert l.text[..l.pos] == l.text[..wordPos] + typed;
    assert w == typed + rest;
    calc {
      l.text[..l.pos] + ins;
      (l.text[..wordPos] + typed) + (rest + " ");
      l.text[..wordPos] + (typed + rest) + " ";
      l.text[..wordPos] + w + " ";
    }
  }

  /** When exactly one candidate extends the typed word and the buffer has
      room, completion leaves that candidate and a space in place of the
      typed word, with the cursor after the space; the rest of the line
      follows unchanged. */
  lemma UniqueCompletionWritesWord(l: Line, wordPos: nat, cands: seq<string>, cap: nat)
    requires Fits(l, cap) && wordPos <= l.pos
    requires Completion.CompletionOf(cands, Typed(l, wordPos)).Unique?
    requires var w := Completion.CompletionOf(cands, Typed(l, wordPos)).word;
      |l.text| + |w| - |Typed(l, wordPos)| + 1 <= cap
    ensures var w := Completion.CompletionOf(cands, Typed(l, wordPos)).word;
      var r := InsertedAll(l, Completion.Suffix(w, Typed(l, wordPos)), cap);
      && r.text == l.text[..wordPos] + w + " " + l.text[l.pos..]
      && r.pos == wordPos + |w| + 1
  {
    SuffixWritesWord(l, wordPos, Completion.CompletionOf(cands, Typed(l, wordPos)).word, cap);
  }

  /** Example: "he" completed against ["hello"] becomes "hello " with the
      cursor at 6. */
  lemma CompletionExample()
    ensures InsertedAll(Line("he", 2), Completion.Suffix("hello", "he"), 4096) == Line("hello ", 6)
  {
    Completion.UniqueExample();
    InsertedAllIsSplice(Line("he", 2), "llo ", 4096);
    assert "llo "[..4] == "llo ";
  }
}
