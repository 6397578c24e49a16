/** The source's code as written where it departs from what it evidently
    intends, each with an input that shows the departure.  The rest of the
    model uses the corrected behaviour. */
module Findings {
  import opened Chars
  import Words
  import Completion
  import Editing
  import opened Wrappers

  // ------------------------------------------- the terminator of a full insert

  /** The insert as written (clir.c:520-544) is `Editing.InsertedAt` with
      the capacity left at the caller's buffer size, since `cs->buflen`
      keeps that size (clir.c:642; the decrement at clir.c:654 is to a local
      copy).  After an insert the terminator goes at index `|r.text|`: with
      `bufSize - 1` bytes in the buffer the insert is accepted and the
      terminator lands at index `bufSize`, one past the buffer, while with
      the capacity one less than the buffer's size the insert is refused. */
  lemma FullInsertWritesPastBuffer(l: Editing.Line, c: char, bufSize: nat)
    requires bufSize >= 1 && l.pos <= |l.text| == bufSize - 1
    ensures var r := Editing.InsertedAt(l, c, bufSize);
      |r.text| == bufSize && r.text[l.pos] == c
    ensures Editing.InsertedAt(l, c, bufSize - 1) == l
  {
    var r := Editing.InsertedAt(l, c, bufSize);
    assert r.text == l.text[..l.pos] + [c] + l.text[l.pos..];
  }

  // --------------------------------------------- the suffix of a unique match

  /** What `completeWord` inserts for its unique match as written
      (clir.c:264, 272-276): the word's bytes from index `pos`, the cursor,
      and a space.  None when `pos` lies past the word's terminator, where
      the copy loop reads memory beyond the word. */
  function SuffixAsWritten(word: string, pos: nat): (ins: Option<string>)
  {
    if pos <= |word| then Some(word[pos..] + " ") else None
  }

  /** When the word starts the line, the copy from the cursor is the
      intended rest of the word: the two agree. */
  lemma SuffixAsWrittenAtLineStart(word: string, text: seq<char>, pos: nat)
    requires pos <= |text| && Completion.Extends(word, text[..pos])
    ensures SuffixAsWritten(word, pos) == Some(Completion.Suffix(word, text[..pos]))
  {
  }

  /** After a space the copy starts too far into the word: "x he" with the
      word starting at 2 and ["hello"] becomes "x heo " rather than
      "x hello ". */
  lemma SuffixAfterSpaceSkipsBytes()
    ensures SuffixAsWritten("hello", 4) == Some("o ")
    ensures Editing.InsertedAll(Editing.Line("x he", 4), "o ", 4095) == Editing.Line("x heo ", 6)
    ensures Completion.Suffix("hello", "he") == "llo "
    ensures Editing.InsertedAll(Editing.Line("x he", 4), "llo ", 4095) == Editing.Line("x hello ", 8)
  {
    assert "hello"[4..] + " " == "o ";
    assert "hello"[..2] == "he";
    Editing.InsertedAllIsSplice(Editing.Line("x he", 4), "o ", 4095);
    assert "o "[..2] == "o ";
    Editing.InsertedAllIsSplice(Editing.Line("x he", 4), "llo ", 4095);
    assert "llo "[..4] == "llo ";
  }

  // ------------------------------------------------- candidates that are short

  /** The candidates `completeWord` counts as written (clir.c:258-262): those
      that agree with the typed word up to the end of either. */
  function MatchesAsWritten(cands: seq<string>, typed: string): seq<string> {
    Completion.Select(cands, c => Completion.Agrees(c, typed))
  }

  /** "hel" against ["he"]: as written "he" is the unique match, and the copy
      of its rest starts at index 3 of a 2-byte word, past its terminator;
      a candidate that does not extend the word is no match. */
  lemma ShortCandidateAccepted()
    ensures MatchesAsWritten(["he"], "hel") == ["he"]
    ensures SuffixAsWritten("he", 3).None?
    ensures Completion.CompletionOf(["he"], "hel") == Completion.NoMatch
  {
    var agree := c => Completion.Agrees(c, "hel");
    assert agree("he");
    assert Completion.Select(["he"], agree) == ["he"] + Completion.Select([], agree);
    assert !Completion.Extends("he", "hel");
  }

  // ------------------------------------------------------- the Ctrl-Left jump

  /** The byte at index i of the buffer holding `t` and its terminator. */
  function ByteAt(t: seq<char>, i: int): char {
    if 0 <= i < |t| then t[i] else Nul
  }

  /** Where a loop stops and the buffer indices it read on the way. */
  datatype Probe = Probe(stop: nat, probes: seq<int>)

  /** The Ctrl-Left loop over blanks as written (clir.c:774-777): it reads
      the byte under the cursor before testing the cursor. */
  function BlanksBackAsWritten(t: seq<char>, p: nat): Probe
    decreases p
  {
    if IsSpace(ByteAt(t, p)) && p > 0 then
      var r := BlanksBackAsWritten(t, p - 1);
      Probe(r.stop, [p as int] + r.probes)
    else Probe(p, [p as int])
  }

  /** The Ctrl-Left loop over the word as written (clir.c:778-780): it reads
      the byte before the cursor, index -1 at the line start, before testing
      the cursor. */
  function WordBackAsWritten(t: seq<char>, p: nat): Probe
    decreases p
  {
    if p > 0 && !IsSpace(ByteAt(t, p - 1)) then
      var r := WordBackAsWritten(t, p - 1);
      Probe(r.stop, [p - 1] + r.probes)
    else Probe(p, [p - 1])
  }

  /** The Ctrl-Left jump as written (clir.c:773-782). */
  function WordLeftAsWritten(t: seq<char>, pos: nat): Probe {
    var a := BlanksBackAsWritten(t, if pos > 0 then pos - 1 else 0);
    var b := WordBackAsWritten(t, a.stop);
    Probe(b.stop, a.probes + b.probes)
  }

  lemma {:induction false} BlanksBackStop(t: seq<char>, p: nat)
    requires p < |t|
    ensures var b := Words.BackOver(t, p + 1, Words.CSpace, true);
      BlanksBackAsWritten(t, p).stop == (if b == 0 then 0 else b - 1)
    ensures forall i :: i in BlanksBackAsWritten(t, p).probes ==> 0 <= i <= p
    decreases p
  {
    if IsSpace(t[p]) && p > 0 {
      BlanksBackStop(t, p - 1);
    }
  }

  lemma {:induction false} WordBackStop(t: seq<char>, p: nat)
    requires p <= |t|
    ensures WordBackAsWritten(t, p).stop == Words.BackOver(t, p, Words.CSpace, false)
    ensures -1 in WordBackAsWritten(t, p).probes <==> WordBackAsWritten(t, p).stop == 0
    ensures forall i :: i in WordBackAsWritten(t, p).probes ==> -1 <= i < p
    decreases p
  {
    if p > 0 && !IsSpace(t[p - 1]) {
      WordBackStop(t, p - 1);
    }
  }

  /** As written, the jump lands where the corrected jump lands, but it
      reads index -1, before the buffer, exactly when it lands on the line
      start; every other byte it reads lies in the buffer. */
  lemma WordLeftAsWrittenReadsBeforeBuffer(t: seq<char>, pos: nat)
    requires pos <= |t|
    ensures WordLeftAsWritten(t, pos).stop == Words.WordLeftTarget(t, pos)
    ensures -1 in WordLeftAsWritten(t, pos).probes <==> Words.WordLeftTarget(t, pos) == 0
    ensures forall i :: i in WordLeftAsWritten(t, pos).probes ==> i == -1 || 0 <= i <= |t|
  {
    var p := if pos > 0 then pos - 1 else 0;
    var a := BlanksBackAsWritten(t, p);
    if pos > 0 {
      BlanksBackStop(t, p);
    } else {
      assert a.stop == 0 && a.probes == [0];
    }
    WordBackStop(t, a.stop);
  }

  /** "ab" with the cursor at its end: the jump reads index -1. */
  lemma WordLeftReadsBeforeBufferExample()
    ensures -1 in WordLeftAsWritten("ab", 2).probes
    ensures Words.WordLeftTarget("ab", 2) == 0
  {
    WordLeftAsWrittenReadsBeforeBuffer("ab", 2);
    assert !IsSpace('a') && !IsSpace('b');
  }
}
