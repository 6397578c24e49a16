/** The word scans of the editor.  Ctrl-W (clir.c:616-619) treats only the
    space character as a separator; the Ctrl-Right and Ctrl-Left jumps
    (clir.c:765-781) use the C library's `isspace`. */
module Words {
  import opened Chars

  /** Which bytes separate words. */
  datatype Blanks = SpaceOnly | CSpace

  predicate IsBlank(b: Blanks, c: char) {
    match b
    case SpaceOnly => c == ' '
    case CSpace => IsSpace(c)
  }

  /** A word starts at k: a non-blank byte at the line start or after a blank. */
  predicate WordStartAt(b: Blanks, t: seq<char>, k: nat) {
    k < |t| && !IsBlank(b, t[k]) && (k == 0 || IsBlank(b, t[k - 1]))
  }

  /** From i, steps back over the bytes whose blankness is `blank`: the result
      is the start of the longest such run that ends at i. */
  function BackOver(t: seq<char>, i: nat, b: Blanks, blank: bool): (j: nat)
    requires i <= |t|
    ensures j <= i
    ensures forall k :: j <= k < i ==> IsBlank(b, t[k]) == blank
    ensures j == 0 || IsBlank(b, t[j - 1]) != blank
    decreases i
  {
    if i > 0 && IsBlank(b, t[i - 1]) == blank then BackOver(t, i - 1, b, blank) else i
  }

  /** From i, steps forward over the bytes whose blankness is `blank`: the
      result is the end of the longest such run that starts at i. */
  function ForwardOver(t: seq<char>, i: nat, b: Blanks, blank: bool): (j: nat)
    requires i <= |t|
    ensures i <= j <= |t|
    ensures forall k :: i <= k < j ==> IsBlank(b, t[k]) == blank
    ensures j == |t| || IsBlank(b, t[j]) != blank
    decreases |t| - i
  {
    if i < |t| && IsBlank(b, t[i]) == blank then ForwardOver(t, i + 1, b, blank) else i
  }

  /** Where Ctrl-W cuts back to from `pos`: over the spaces before the cursor,
      then over the word before them (clir.c:616-619). */
  function PrevWordStart(t: seq<char>, pos: nat): nat
    requires pos <= |t|
  {
    BackOver(t, BackOver(t, pos, SpaceOnly, true), SpaceOnly, false)
  }

  /** What Ctrl-W removes is one word followed by the spaces before the
      cursor; the cut starts at the line start or just after a space, and it
      is not empty unless the cursor is at the line start. */
  lemma PrevWordStartShape(t: seq<char>, pos: nat)
    requires pos <= |t|
    ensures var p, m := PrevWordStart(t, pos), BackOver(t, pos, SpaceOnly, true);
      && p <= m <= pos
      && (forall k :: p <= k < m ==> t[k] != ' ')
      && (forall k :: m <= k < pos ==> t[k] == ' ')
      && (p == 0 || t[p - 1] == ' ')
      && (pos > 0 ==> p < pos)
  {
  }

  /** Where the Ctrl-Right jump lands (clir.c:766-771): past the rest of the
      current word, then past the blanks after it.  The byte after the text is
      the buffer's NUL terminator, which is not a blank. */
  function WordRightTarget(t: seq<char>, pos: nat): nat
    requires pos <= |t|
  {
    ForwardOver(t, ForwardOver(t, pos, CSpace, false), CSpace, true)
  }

  /** The Ctrl-Right jump lands on the start of the next word, or at the end
      of the line when no word follows; it skips no word start, and it moves
      unless the cursor is already at the end. */
  lemma {:induction false} WordRightLandsOnNextWord(t: seq<char>, pos: nat)
    requires pos <= |t|
    ensures var q := WordRightTarget(t, pos);
      && pos <= q <= |t|
      && (pos < |t| ==> pos < q)
      && (q == |t| || WordStartAt(CSpace, t, q))
      && (forall k :: pos < k < q ==> !WordStartAt(CSpace, t, k))
  {
    var m := ForwardOver(t, pos, CSpace, false);
    var q := ForwardOver(t, m, CSpace, true);
    if q < |t| {
      assert m < q;
      assert IsBlank(CSpace, t[q - 1]);
    }
    forall k | pos < k < q ensures !WordStartAt(CSpace, t, k) {
      if k < m {
        assert !IsBlank(CSpace, t[k - 1]);
      } else {
        assert IsBlank(CSpace, t[k]);
      }
    }
  }

  /** Where the Ctrl-Left jump lands (clir.c:774-780): one step back, back over
      blanks while not at the line start (testing the byte under the cursor),
      then back over the word (testing the byte before the cursor). */
  function WordLeftTarget(t: seq<char>, pos: nat): nat
    requires pos <= |t|
  {
    var r := BackOver(t, pos, CSpace, true);
    var q := if r == 0 then 0 else r - 1;
    BackOver(t, q, CSpace, false)
  }

  /** The Ctrl-Left jump lands on the start of the previous word, or at the
      line start when there is none; it skips no word start, and it moves
      unless the cursor is already at the line start. */
  lemma {:induction false} WordLeftLandsOnPrevWord(t: seq<char>, pos: nat)
    requires pos <= |t|
    ensures var q := WordLeftTarget(t, pos);
      && q <= pos
      && (pos > 0 ==> q < pos)
      && (q == 0 || WordStartAt(CSpace, t, q))
      && (forall k :: q < k < pos ==> !WordStartAt(CSpace, t, k))
  {
    var r := BackOver(t, pos, CSpace, true);
    var q' := if r == 0 then 0 else r - 1;
    var q := BackOver(t, q', CSpace, false);
    if 0 < q {
      assert q' < pos;
      if q < q' {
        assert !IsBlank(CSpace, t[q]);
      } else if r == pos {
        assert !IsBlank(CSpace, t[pos - 1]);
      } else {
        assert !IsBlank(CSpace, t[r - 1]);
      }
    }
    forall k | q < k < pos ensures !WordStartAt(CSpace, t, k) {
      if k <= q' {
        assert !IsBlank(CSpace, t[k - 1]);
      } else {
        assert IsBlank(CSpace, t[k]);
      }
    }
  }
}
