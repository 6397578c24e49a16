/** The key decoder of `clirEdit` (clir.c:666-831): one byte, or one escape
    sequence, of terminal input is turned into the editing action it selects.

    The decoder reads escape sequences the way the source does: after ESC it
    asks for two bytes, after `ESC [ 1`..`ESC [ 6` for two more, and after
    `ESC [ 1 ;` for one more.  The input is the byte stream still to be read;
    a read takes what it asks for from the front of it, or what is left.  When
    the source would go on to inspect a byte that the read did not deliver,
    the event is abandoned: the model reports `Ignored`. */
module Keys {
  import opened Chars

  datatype Action =
    | Submit          // 13, Enter
    | Interrupt       // 3, Ctrl-C
    | Backspace       // 127 and 8, Ctrl-H
    | DeleteOrEof     // 4, Ctrl-D
    | Transpose       // 20, Ctrl-T
    | Left            // 2, Ctrl-B, and ESC [ D
    | Right           // 6, Ctrl-F, and ESC [ C
    | HistoryPrev     // 16, Ctrl-P, and ESC [ A
    | HistoryNext     // 14, Ctrl-N, and ESC [ B
    | Delete          // ESC [ 3 ~
    | WordRight       // ESC [ 1 ; 5 C
    | WordLeft        // ESC [ 1 ; 5 D
    | Home            // ESC O H
    | End             // ESC O F
    | KillLine        // 21, Ctrl-U
    | KillToEnd       // 11, Ctrl-K
    | LineStart       // 1, Ctrl-A
    | LineEnd         // 5, Ctrl-E
    | ClearScreen     // 12, Ctrl-L
    | DeletePrevWord  // 23, Ctrl-W
    | Complete        // 9, Tab, when a completion callback is set
    | Insert(c: char) // any other byte
    | Ignored         // an escape sequence the decoder does not know

  /** An action and the number of input bytes it consumed. */
  datatype Decoded = Decoded(action: Action, used: nat)

  /** The bytes that have a binding of their own in the dispatch switch. */
  predicate IsBound(c: char, completion: bool) {
    c == 13 as char || c == 3 as char || c == 127 as char || c == 8 as char ||
    c == 4 as char || c == 20 as char || c == 2 as char || c == 6 as char ||
    c == 16 as char || c == 14 as char || c == Esc || c == 21 as char ||
    c == 11 as char || c == 1 as char || c == 5 as char || c == 12 as char ||
    c == 23 as char || (c == Tab && completion)
  }

  /** Decodes the action at the front of `input`; `completion` says whether a
      completion callback is registered (clir.c:672). */
  function Decode(input: seq<char>, completion: bool): (d: Decoded)
    requires |input| > 0
    ensures 1 <= d.used <= |input|
    ensures input[0] != Esc ==> d.used == 1
    ensures d.action.Insert? <==> !IsBound(input[0], completion)
    ensures d.action.Insert? ==> d.action.c == input[0]
    ensures d.action == Complete <==> input[0] == Tab && completion
  {
    var c := input[0];
    if c == 13 as char then Decoded(Submit, 1)
    else if c == 3 as char then Decoded(Interrupt, 1)
    else if c == 127 as char || c == 8 as char then Decoded(Backspace, 1)
    else if c == 4 as char then Decoded(DeleteOrEof, 1)
    else if c == 20 as char then Decoded(Transpose, 1)
    else if c == 2 as char then Decoded(Left, 1)
    else if c == 6 as char then Decoded(Right, 1)
    else if c == 16 as char then Decoded(HistoryPrev, 1)
    else if c == 14 as char then Decoded(HistoryNext, 1)
    else if c == Esc then
      var e := DecodeEscape(input[1..]);
      Decoded(e.action, 1 + e.used)
    else if c == 21 as char then Decoded(KillLine, 1)
    else if c == 11 as char then Decoded(KillToEnd, 1)
    else if c == 1 as char then Decoded(LineStart, 1)
    else if c == 5 as char then Decoded(LineEnd, 1)
    else if c == 12 as char then Decoded(ClearScreen, 1)
    else if c == 23 as char then Decoded(DeletePrevWord, 1)
    else if c == Tab && completion then Decoded(Complete, 1)
    else Decoded(Insert(c), 1)
  }

  /** The actions `input` decodes to, one after the other, each decoded
      from the bytes the ones before it left. */
  function DecodeAll(input: seq<char>, completion: bool): (keys: seq<Action>)
    ensures |keys| <= |input|
    ensures keys == [] <==> input == []
    decreases |input|
  {
    if input == [] then []
    else
      var d := Decode(input, completion);
      [d.action] + DecodeAll(input[d.used..], completion)
  }

  /** Decoding one more action from the bytes left extends the actions
      decoded so far. */
  lemma DecodeAllStep(input: seq<char>, rest: seq<char>, done: seq<Action>, completion: bool)
    requires rest != [] && DecodeAll(input, completion) == done + DecodeAll(rest, completion)
    ensures var d := Decode(rest, completion);
      DecodeAll(input, completion) == (done + [d.action]) + DecodeAll(rest[d.used..], completion)
  {
    var d := Decode(rest, completion);
    var later := DecodeAll(rest[d.used..], completion);
    assert DecodeAll(rest, completion) == [d.action] + later;
    assert done + ([d.action] + later) == (done + [d.action]) + later;
  }

  /** The bytes after ESC (clir.c:733-800). */
  function DecodeEscape(rest: seq<char>): (d: Decoded)
    ensures d.used <= |rest|
    ensures !d.action.Insert? && d.action != Complete
  {
    if |rest| < 2 then Decoded(Ignored, |rest|)
    else if rest[0] == '[' then
      if rest[1] == 'A' then Decoded(HistoryPrev, 2)
      else if rest[1] == 'B' then Decoded(HistoryNext, 2)
      else if rest[1] == 'C' then Decoded(Right, 2)
      else if rest[1] == 'D' then Decoded(Left, 2)
      else if rest[1] == 'Z' then Decoded(Ignored, 2)
      else if '1' <= rest[1] <= '6' then
        var e := DecodeExtended(rest[1], rest[2..]);
        Decoded(e.action, 2 + e.used)
      else Decoded(Ignored, 2)
    else if rest[0] == 'O' && rest[1] == 'H' then Decoded(Home, 2)
    else if rest[0] == 'O' && rest[1] == 'F' then Decoded(End, 2)
    else Decoded(Ignored, 2)
  }

  /** The bytes after `ESC [ digit` (clir.c:753-784). */
  function DecodeExtended(digit: char, more: seq<char>): (d: Decoded)
    ensures d.used <= |more|
    ensures d.action in {Ignored, Delete, WordRight, WordLeft}
  {
    if |more| == 0 then Decoded(Ignored, 0)
    else if digit == '3' && more[0] == '~' then Decoded(Delete, Min(2, |more|))
    else if digit == '1' && more[0] == ';' then
      if |more| < 3 then Decoded(Ignored, |more|)
      else if more[1] == '5' && more[2] == 'C' then Decoded(WordRight, 3)
      else if more[1] == '5' && more[2] == 'D' then Decoded(WordLeft, 3)
      else Decoded(Ignored, 3)
    else Decoded(Ignored, Min(2, |more|))
  }

  /** The escape table, in both directions: an input that starts with ESC
      decodes to one of these actions exactly when it starts with the listed
      sequence, and to `Ignored` otherwise. */
  lemma EscapeTable(input: seq<char>, completion: bool)
    requires |input| > 0 && input[0] == Esc
    ensures var a := Decode(input, completion).action;
      && (a == HistoryPrev <==> |input| >= 3 && input[1..3] == "[A")
      && (a == HistoryNext <==> |input| >= 3 && input[1..3] == "[B")
      && (a == Right <==> |input| >= 3 && input[1..3] == "[C")
      && (a == Left <==> |input| >= 3 && input[1..3] == "[D")
      && (a == Home <==> |input| >= 3 && input[1..3] == "OH")
      && (a == End <==> |input| >= 3 && input[1..3] == "OF")
      && (a == Delete <==> |input| >= 4 && input[1..4] == "[3~")
      && (a == WordRight <==> |input| >= 6 && input[1..6] == "[1;5C")
      && (a == WordLeft <==> |input| >= 6 && input[1..6] == "[1;5D")
      && (a in {HistoryPrev, HistoryNext, Right, Left, Home, End, Delete, WordRight, WordLeft, Ignored})
  {
    var rest := input[1..];
    assert |input| >= 3 ==> input[1..3] == [rest[0], rest[1]];
    if |rest| >= 2 && rest[0] == '[' && '1' <= rest[1] <= '6' {
      ExtendedTable(input, completion);
    } else {
      assert |input| >= 4 ==> input[1..4][..2] == input[1..3];
      assert |input| >= 6 ==> input[1..6][..2] == input[1..3];
    }
  }

  /** The part of the table after `ESC [` and a digit from 1 to 6. */
  lemma ExtendedTable(input: seq<char>, completion: bool)
    requires |input| >= 3 && input[0] == Esc && input[1] == '[' && '1' <= input[2] <= '6'
    ensures var a := Decode(input, completion).action;
      && (a == Delete <==> |input| >= 4 && input[1..4] == "[3~")
      && (a == WordRight <==> |input| >= 6 && input[1..6] == "[1;5C")
      && (a == WordLeft <==> |input| >= 6 && input[1..6] == "[1;5D")
      && a in {Delete, WordRight, WordLeft, Ignored}
  {
    var rest := input[1..];
    var more := rest[2..];
    assert Decode(input, completion).action == DecodeExtended(input[2], more).action;
    assert |more| >= 1 ==> input[1..4] == [rest[0], rest[1], more[0]];
    assert |more| >= 3 ==> input[1..6] == [rest[0], rest[1], more[0], more[1], more[2]];
  }

  /** `ESC [ H` (the xterm Home key) and `ESC [ Z` (shift-tab) are not bound:
      both decode to `Ignored` after three bytes. */
  lemma UnboundEscapes(rest: seq<char>, completion: bool)
    ensures Decode([Esc, '[', 'H'] + rest, completion) == Decoded(Ignored, 3)
    ensures Decode([Esc, '[', 'Z'] + rest, completion) == Decoded(Ignored, 3)
  {
    assert ([Esc, '[', 'H'] + rest)[1..] == ['[', 'H'] + rest;
    assert ([Esc, '[', 'Z'] + rest)[1..] == ['[', 'Z'] + rest;
  }

  /** The delete key's sequence asks for two bytes after `ESC [ 3`
      (clir.c:755), so when more input is queued it also consumes the byte
      that follows the `~`. */
  lemma DeleteKeyConsumes(rest: seq<char>, completion: bool)
    ensures Decode([Esc, '[', '3', '~'] + rest, completion) ==
      Decoded(Delete, if rest == [] then 4 else 5)
  {
    assert ([Esc, '[', '3', '~'] + rest)[1..] == ['[', '3', '~'] + rest;
    assert (['[', '3', '~'] + rest)[2..] == ['~'] + rest;
  }
}
