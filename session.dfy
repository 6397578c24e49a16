/** An editing session: `struct clirState` (clir.c:127-140) and `clirEdit`
    (clir.c:635-832).  The session edits the caller's buffer in place, keeps
    its terminator after the text, and redraws the line after each change.

    The terminal is modelled by what is sent to it and by the number of
    writes it still accepts: once a write is refused, every later one is. */
module LineEdit {
  import opened Chars
  import opened Wrappers
  import opened Editing
  import Keys
  import Words
  import History
  import Completion
  import Render

  /** How a session ends, after the return paths of `clirEdit`. */
  datatype Outcome =
    | Submitted    // Enter: the line is returned (clir.c:689-692)
    | EndOfFile    // Ctrl-D on an empty line (clir.c:704-707)
    | Interrupted  // Ctrl-C (clir.c:693-695)
    | InputClosed  // the input ran out (clir.c:667)
    | WriteFailed  // the prompt, or a byte typed at the end, was not written

  /** Which path an insert took (clir.c:521-544). */
  datatype Inserted = Dropped | Appended | Shifted

  /** The actions that only move the cursor. */
  predicate IsMotion(a: Keys.Action) {
    a.Left? || a.Right? || a.WordRight? || a.WordLeft? || a.Home? || a.End? || a.LineStart? || a.LineEnd?
  }

  /** The actions that delete or swap bytes of the line. */
  predicate IsErase(a: Keys.Action) {
    a.Backspace? || a.DeleteOrEof? || a.Delete? || a.Transpose? || a.KillLine? || a.KillToEnd? || a.DeletePrevWord?
  }

  /** The fixed parameters of a session: the most bytes the line may hold,
      the prompt, the terminal's width and the display mode. */
  datatype Config = Config(cap: nat, prompt: string, cols: nat, multiLine: bool)

  /** Whether a byte typed at `l` is echoed by itself rather than by a
      redraw: it is appended, fits the buffer, and the line still fits the
      row in single-line mode (clir.c:521-531). */
  predicate Echoes(l: Line, cfg: Config) {
    |l.text| < cfg.cap && l.pos == |l.text| && !cfg.multiLine && |cfg.prompt| + |l.text| + 1 < cfg.cols
  }

  /** The ending a key selects by itself, whatever the terminal does: Enter
      submits, Ctrl-C interrupts and Ctrl-D at an empty line is end of file
      (clir.c:689-707). */
  function Ending(a: Keys.Action, l: Line): (e: Option<Outcome>)
    ensures e.Some? <==> a.Submit? || a.Interrupt? || (a.DeleteOrEof? && l.text == [])
    ensures e == Some(Submitted) <==> a.Submit?
    ensures e == Some(Interrupted) <==> a.Interrupt?
    ensures e == Some(EndOfFile) <==> a.DeleteOrEof? && l.text == []
  {
    match a
    case Submit => Some(Submitted)
    case Interrupt => Some(Interrupted)
    case DeleteOrEof => if l.text == [] then Some(EndOfFile) else None
    case _ => None
  }

  /** How key `a` at line `l` ends the session, when `okLeft` more writes
      are accepted: by its own ending, or by an echo that was refused. */
  function EndOf(a: Keys.Action, l: Line, okLeft: nat, cfg: Config): (e: Option<Outcome>)
    ensures e != Some(InputClosed)
    ensures e == Some(WriteFailed) <==> a.Insert? && Echoes(l, cfg) && okLeft == 0
    ensures !(e == Some(WriteFailed)) ==> e == Ending(a, l)
  {
    if a.Insert? && Echoes(l, cfg) && okLeft == 0 then Some(WriteFailed) else Ending(a, l)
  }

  /** What the session carries from one key to the next: the line, the
      history store's entries, the entry being looked at (0 is the session's
      own slot) and where the word being typed starts. */
  datatype EditState = EditState(line: Line, entries: seq<string>, index: nat, wordPos: nat)

  predicate Ready(s: EditState, cap: nat) {
    Fits(s.line, cap) && s.index < |s.entries|
  }

  /** A step through the history (clir.c:566-586): the line is replaced by
      the entry moved to, with the cursor at its end. */
  function Browsing(s: EditState, dir: History.Direction, cap: nat): (r: EditState)
    requires Ready(s, cap)
    ensures Ready(r, cap) && |r.entries| == |s.entries| && r.wordPos == s.wordPos
  {
    var b := History.Browsed(s.entries, s.index, s.line.text, cap, dir);
    EditState(if b.moved then Line(b.text, |b.text|) else s.line, b.entries, b.index, s.wordPos)
  }

  /** What completing at `l` finds (clir.c:241-269): the callback is given
      the line, and the word typed since `wordPos` is completed. */
  function CompletionAt(l: Line, wordPos: nat, complete: string -> seq<string>): Completion.Outcome
    requires l.pos <= |l.text|
  {
    Completion.CompletionOf(complete(CStr(l.text)), Typed(l, wordPos))
  }

  /** The state after key `a`, when `okLeft` more writes are accepted
      (clir.c:672-829). */
  function Next(s: EditState, a: Keys.Action, okLeft: nat, complete: Option<string -> seq<string>>, cfg: Config): (r: EditState)
    requires Ready(s, cfg.cap)
    ensures Ready(r, cfg.cap) && |r.entries| == |s.entries|
    ensures !(a.HistoryPrev? || a.HistoryNext?) ==> r.entries == s.entries && r.index == s.index
    ensures a != Keys.Insert(' ') ==> r.wordPos == s.wordPos
  {
    if a.HistoryPrev? then Browsing(s, History.Prev, cfg.cap)
    else if a.HistoryNext? then Browsing(s, History.Next, cfg.cap)
    else if a.Complete? then
      if complete.None? then s
      else
        var typed := Typed(s.line, s.wordPos);
        var o := CompletionAt(s.line, s.wordPos, complete.value);
        s.(line := if o.Unique? then InsertedAll(s.line, Completion.Suffix(o.word, typed), cfg.cap) else s.line)
    else Keyed(s, a, okLeft, cfg)
  }

  /** The state after a key that acts on the line alone: the line steps as
      `Stepped` says, and a space typed without ending the session marks
      the start of the next word (clir.c:829). */
  function Keyed(s: EditState, a: Keys.Action, okLeft: nat, cfg: Config): (r: EditState)
    requires Fits(s.line, cfg.cap)
    ensures Fits(r.line, cfg.cap)
  {
    var l := Stepped(s.line, a, cfg.cap);
    s.(line := l, wordPos := if a == Keys.Insert(' ') && EndOf(a, s.line, okLeft, cfg).None? then l.pos else s.wordPos)
  }

  /** Whether the source redraws the line after a key that acts on the line
      alone, other than typing (clir.c:696-829). */
  function LineRedraws(a: Keys.Action, l: Line): bool {
    match a
    case Left => l.pos > 0
    case Right => l.pos != |l.text|
    case Home => l.pos > 0
    case End => l.pos != |l.text|
    case Backspace => l.pos > 0 && |l.text| > 0
    case Transpose => 0 < l.pos < |l.text|
    case DeleteOrEof => |l.text| > 0 && l.pos < |l.text|
    case Delete => |l.text| > 0 && l.pos < |l.text|
    case WordRight => true
    case WordLeft => true
    case LineStart => true
    case LineEnd => true
    case KillLine => true
    case KillToEnd => true
    case DeletePrevWord => true
    case ClearScreen => true
    case _ => false
  }

  /** Whether the source redraws the line after key `a`: a history step that
      moved, a completion that listed several words, or a line key that
      redraws. */
  function Redraws(s: EditState, a: Keys.Action, complete: Option<string -> seq<string>>, cfg: Config): bool
    requires Ready(s, cfg.cap)
  {
    match a
    case HistoryPrev => History.Browsed(s.entries, s.index, s.line.text, cfg.cap, History.Prev).moved
    case HistoryNext => History.Browsed(s.entries, s.index, s.line.text, cfg.cap, History.Next).moved
    case Complete => complete.Some? && CompletionAt(s.line, s.wordPos, complete.value).Listed?
    case _ => LineRedraws(a, s.line)
  }

  /** `keys` moved the session through `states`, with `oks[i]` writes still
      accepted before key i: each state is ready for the next key, each key
      moves the state as `Next` says, and the count of accepted writes never
      grows. */
  predicate Moves(complete: Option<string -> seq<string>>, cfg: Config,
                  keys: seq<Keys.Action>, states: seq<EditState>, oks: seq<nat>)
  {
    && |states| == |keys| + 1 && |oks| == |keys| + 1
    && (forall i :: 0 <= i < |states| ==> Ready(states[i], cfg.cap))
    && (forall i {:trigger keys[i]} :: 0 <= i < |keys| ==>
          states[i + 1] == Next(states[i], keys[i], oks[i], complete, cfg) && oks[i + 1] <= oks[i])
  }

  /** None of the first `n` keys ended the session. */
  predicate Unended(cfg: Config, keys: seq<Keys.Action>, states: seq<EditState>, oks: seq<nat>, n: nat)
    requires n <= |keys| && |states| == |keys| + 1 && |oks| == |keys| + 1
  {
    forall i {:trigger keys[i]} :: 0 <= i < n ==> EndOf(keys[i], states[i].line, oks[i], cfg).None?
  }

  /** The end the last of `keys` gave the session, if any. */
  function LastEnd(cfg: Config, keys: seq<Keys.Action>, states: seq<EditState>, oks: seq<nat>): Option<Outcome>
    requires |keys| > 0 && |states| == |keys| + 1 && |oks| == |keys| + 1
  {
    EndOf(keys[|keys| - 1], states[|keys| - 1].line, oks[|keys| - 1], cfg)
  }

  /** A run of the read loop over `input` (clir.c:665-831) that ended with
      `outcome`: `keys` are the first actions `input` decodes to and moved
      the session through `states`, no key but the last ended the run, the
      last one ended it with `outcome`, and the run ended with `InputClosed`
      exactly when the whole input was read without an ending. */
  predicate Trace(input: seq<char>, complete: Option<string -> seq<string>>, cfg: Config,
                  keys: seq<Keys.Action>, states: seq<EditState>, oks: seq<nat>, outcome: Outcome)
  {
    && Moves(complete, cfg, keys, states, oks)
    && keys <= Keys.DecodeAll(input, complete.Some?)
    && (keys == [] || Unended(cfg, keys, states, oks, |keys| - 1))
    && (outcome == InputClosed ==>
          keys == Keys.DecodeAll(input, complete.Some?) && (keys == [] || LastEnd(cfg, keys, states, oks).None?))
    && (outcome != InputClosed ==> keys != [] && LastEnd(cfg, keys, states, oks) == Some(outcome))
  }

  /** A run that read the whole input and was not ended by any key ended
      with `InputClosed`. */
  lemma TraceClosed(input: seq<char>, complete: Option<string -> seq<string>>, cfg: Config,
                    keys: seq<Keys.Action>, states: seq<EditState>, oks: seq<nat>)
    requires Moves(complete, cfg, keys, states, oks) && Unended(cfg, keys, states, oks, |keys|)
    requires keys == Keys.DecodeAll(input, complete.Some?)
    ensures Trace(input, complete, cfg, keys, states, oks, InputClosed)
  {
  }

  /** A run whose last key, and only its last key, ended it ended with that
      key's ending. */
  lemma TraceEnded(input: seq<char>, left: seq<char>, complete: Option<string -> seq<string>>, cfg: Config,
                   keys: seq<Keys.Action>, states: seq<EditState>, oks: seq<nat>, outcome: Outcome)
    requires Moves(complete, cfg, keys, states, oks) && keys != [] && Unended(cfg, keys, states, oks, |keys| - 1)
    requires Keys.DecodeAll(input, complete.Some?) == keys + Keys.DecodeAll(left, complete.Some?)
    requires LastEnd(cfg, keys, states, oks) == Some(outcome)
    ensures Trace(input, complete, cfg, keys, states, oks, outcome)
  {
    assert keys <= Keys.DecodeAll(input, complete.Some?);
  }

  /** When the first key the input decodes to ends the session, the run is
      that one key and ends as the key says. */
  lemma FirstKeyEnds(input: seq<char>, complete: Option<string -> seq<string>>, cfg: Config,
                     keys: seq<Keys.Action>, states: seq<EditState>, oks: seq<nat>, outcome: Outcome)
    requires Trace(input, complete, cfg, keys, states, oks, outcome) && input != []
    requires EndOf(Keys.Decode(input, complete.Some?).action, states[0].line, oks[0], cfg).Some?
    ensures keys == [Keys.Decode(input, complete.Some?).action]
    ensures Some(outcome) == EndOf(keys[0], states[0].line, oks[0], cfg)
  {
    var all := Keys.DecodeAll(input, complete.Some?);
    var d := Keys.Decode(input, complete.Some?);
    assert all == [d.action] + Keys.DecodeAll(input[d.used..], complete.Some?);
    assert keys[0] == all[0] == d.action;
  }

  /** Enter as the only input submits the line the run started with. */
  lemma EnterSubmits(complete: Option<string -> seq<string>>, cfg: Config,
                     keys: seq<Keys.Action>, states: seq<EditState>, oks: seq<nat>, outcome: Outcome)
    requires Trace([Return], complete, cfg, keys, states, oks, outcome)
    ensures outcome == Submitted && keys == [Keys.Submit] && states[1].line == states[0].line
  {
    FirstKeyEnds([Return], complete, cfg, keys, states, oks, outcome);
  }

  /** A byte without a binding of its own, then Enter, typed at an empty
      line with room for a byte and a terminal that takes a write: the
      byte is inserted and the line holding it is submitted. */
  lemma TypedByteThenEnterSubmits(c: char, complete: Option<string -> seq<string>>, cfg: Config,
                                  keys: seq<Keys.Action>, states: seq<EditState>, oks: seq<nat>, outcome: Outcome)
    requires Trace([c, Return], complete, cfg, keys, states, oks, outcome)
    requires !Keys.IsBound(c, complete.Some?) && cfg.cap >= 1 && oks[0] > 0 && states[0].line == Line([], 0)
    ensures outcome == Submitted && keys == [Keys.Insert(c), Keys.Submit]
    ensures states[|keys|].line == Line([c], 1)
  {
    var input := [c, Return];
    assert input[1..] == [Return] && [Return][1..] == [];
    assert Keys.DecodeAll([Return], complete.Some?) == [Keys.Submit];
    assert Keys.DecodeAll(input, complete.Some?) == [Keys.Insert(c), Keys.Submit];
    assert keys[0] == Keys.Insert(c);
    assert EndOf(keys[0], states[0].line, oks[0], cfg).None?;
    assert |keys| == 2;
    assert states[1].line == Line([c], 1);
  }

  /** One more key, decoded from the front of the unread input and moving
      the state as `Next` says, extends the record of a run that no key has
      ended yet. */
  lemma RecordStep(input: seq<char>, rest: seq<char>, complete: Option<string -> seq<string>>, cfg: Config,
                   keys: seq<Keys.Action>, states: seq<EditState>, oks: seq<nat>,
                   s: EditState, ok: nat, end: Option<Outcome>)
    requires rest != [] && Moves(complete, cfg, keys, states, oks) && Unended(cfg, keys, states, oks, |keys|)
    requires Keys.DecodeAll(input, complete.Some?) == keys + Keys.DecodeAll(rest, complete.Some?)
    requires var a := Keys.Decode(rest, complete.Some?).action;
      && s == Next(states[|keys|], a, oks[|keys|], complete, cfg) && ok <= oks[|keys|]
      && end == EndOf(a, states[|keys|].line, oks[|keys|], cfg)
    ensures var d := Keys.Decode(rest, complete.Some?);
      var keys', states', oks' := keys + [d.action], states + [s], oks + [ok];
      && Moves(complete, cfg, keys', states', oks')
      && states'[0] == states[0] && oks'[0] == oks[0] && states'[|keys'|] == s && oks'[|keys'|] == ok
      && Keys.DecodeAll(input, complete.Some?) == keys' + Keys.DecodeAll(rest[d.used..], complete.Some?)
      && end == LastEnd(cfg, keys', states', oks')
      && Unended(cfg, keys', states', oks', if end.None? then |keys'| else |keys'| - 1)
  {
    var d := Keys.Decode(rest, complete.Some?);
    Keys.DecodeAllStep(input, rest, keys, complete.Some?);
    MovesExtend(complete, cfg, keys, states, oks, d.action, s, ok);
    UnendedExtend(cfg, keys, states, oks, d.action, s, ok);
    var ks, ss, os := keys + [d.action], states + [s], oks + [ok];
    assert ks[|keys|] == d.action && ss[|keys|] == states[|keys|] && os[|keys|] == oks[|keys|];
    assert end == LastEnd(cfg, ks, ss, os);
  }

  /** One more key that moves the state as `Next` says extends a record of
      moves. */
  lemma MovesExtend(complete: Option<string -> seq<string>>, cfg: Config,
                    keys: seq<Keys.Action>, states: seq<EditState>, oks: seq<nat>,
                    a: Keys.Action, s: EditState, ok: nat)
    requires Moves(complete, cfg, keys, states, oks)
    requires s == Next(states[|keys|], a, oks[|keys|], complete, cfg) && ok <= oks[|keys|]
    ensures Moves(complete, cfg, keys + [a], states + [s], oks + [ok])
  {
    var ks, ss, os := keys + [a], states + [s], oks + [ok];
    forall i | 0 <= i < |ss|
      ensures Ready(ss[i], cfg.cap)
    {
      if i < |states| {
        assert ss[i] == states[i];
      }
    }
    forall i | 0 <= i < |ks|
      ensures ss[i + 1] == Next(ss[i], ks[i], os[i], complete, cfg) && os[i + 1] <= os[i]
    {
      if i < |keys| {
        assert ss[i + 1] == states[i + 1] && ss[i] == states[i] && ks[i] == keys[i];
        assert os[i + 1] == oks[i + 1] && os[i] == oks[i];
      }
    }
  }

  /** One more key that did not end the session extends the keys that did
      not. */
  lemma UnendedExtend(cfg: Config, keys: seq<Keys.Action>, states: seq<EditState>, oks: seq<nat>,
                      a: Keys.Action, s: EditState, ok: nat)
    requires |states| == |keys| + 1 && |oks| == |keys| + 1
    requires Unended(cfg, keys, states, oks, |keys|)
    ensures Unended(cfg, keys + [a], states + [s], oks + [ok], |keys|)
  {
    var ks, ss, os := keys + [a], states + [s], oks + [ok];
    forall i | 0 <= i < |keys|
      ensures EndOf(ks[i], ss[i].line, os[i], cfg).None?
    {
      assert ks[i] == keys[i] && ss[i] == states[i] && os[i] == oks[i];
    }
  }

  class Session {
    /** The caller's buffer; the text is `buf[..len]`, with a NUL after it. */
    const buf: array<char>
    /** The most bytes the text may hold: one less than the buffer's size,
        which keeps room for the terminator. */
    const cap: nat
    const prompt: string
    const cols: nat
    const multiLine: bool
    var len: nat
    var pos: nat
    var oldpos: nat
    var maxrows: nat
    var historyIndex: nat
    var wordPos: nat
    /** How many more writes the terminal accepts. */
    var okLeft: nat
    /** Everything sent to the terminal so far. */
    var out: seq<Render.Cmd>

    predicate Valid()
      reads this`len, this`pos, buf
    {
      buf.Length == cap + 1 && pos <= len <= cap && buf[len] == Nul
      && cols > 0 && (multiLine || |prompt| < cols)
    }

    /** The edited text and the cursor. */
    function Current(): Line
      reads this`len, this`pos, buf
      requires len <= buf.Length
    {
      Line(buf[..len], pos)
    }

    function Setting(): Config {
      Config(cap, prompt, cols, multiLine)
    }

    /** The session's state as the keys see it. */
    function StateOf(h: History.Store): EditState
      reads this`len, this`pos, buf, this`historyIndex, this`wordPos, h`entries
      requires len <= buf.Length
    {
      EditState(Current(), h.entries, historyIndex, wordPos)
    }

    /** Nothing was sent to the terminal, and what is known of it is kept. */
    twostate predicate TerminalKept()
      reads this`out, this`okLeft, this`maxrows, this`oldpos
    {
      out == old(out) && okLeft == old(okLeft) && maxrows == old(maxrows) && oldpos == old(oldpos)
    }

    /** The line as it is now was redrawn once, on the terminal as it was. */
    twostate predicate RedrawnOnce()
      requires Valid()
      reads this`out, this`okLeft, this`maxrows, this`oldpos, this`len, this`pos, buf
    {
      var d := Render.Redrawn(multiLine, prompt, buf[..len], pos, cols, old(oldpos), old(maxrows), old(okLeft));
      out == old(out) + d.cmds && maxrows == d.maxrows && oldpos == d.oldpos && okLeft == d.okLeft
    }

    /** Ctrl-L's output (clir.c:820-823): the screen is cleared in one write,
        then the line is redrawn on the terminal as the clearing left it. */
    twostate predicate ClearedThenRedrawn()
      requires Valid()
      reads this`out, this`okLeft, this`maxrows, this`oldpos, this`len, this`pos, buf
    {
      var k := if old(okLeft) > 0 then 1 else 0;
      var d := Render.Redrawn(multiLine, prompt, buf[..len], pos, cols, old(oldpos), old(maxrows), old(okLeft) - k);
      && out == old(out) + (if k == 1 then [Render.CursorHome, Render.Ed(2)] else []) + d.cmds
      && maxrows == d.maxrows && oldpos == d.oldpos && okLeft == d.okLeft
    }

    /** The output of typing `c` (clir.c:521-544): nothing when the buffer
        was full; the byte alone when it is echoed, or nothing and `failed`
        when the terminal refuses that write; otherwise one redraw. */
    twostate predicate TypedShown(c: char, failed: bool)
      requires old(Valid()) && Valid()
      reads this`out, this`okLeft, this`maxrows, this`oldpos, this`len, this`pos, buf
    {
      if old(len) == cap then !failed && TerminalKept()
      else if Echoes(old(Current()), Setting()) then
        && maxrows == old(maxrows) && oldpos == old(oldpos)
        && (failed <==> old(okLeft) == 0)
        && out == old(out) + (if failed then [] else [Render.Bytes([c])])
        && okLeft == old(okLeft) - (if failed then 0 else 1)
      else !failed && RedrawnOnce()
    }

    /** The session's start (clir.c:640-654): an empty line in the caller's
        buffer, the cursor at 0, and no rows drawn yet. */
    constructor (buf: array<char>, prompt: string, cols: nat, multiLine: bool, okWrites: nat)
      requires buf.Length >= 1 && cols > 0 && (multiLine || |prompt| < cols)
      modifies buf
      ensures Valid() && Current() == Line([], 0) && Fits(Current(), cap)
      ensures this.buf == buf && cap == buf.Length - 1 && this.prompt == prompt
      ensures this.cols == cols && this.multiLine == multiLine
      ensures oldpos == 0 && maxrows == 0 && historyIndex == 0 && wordPos == 0
      ensures okLeft == okWrites && out == []
    {
      this.buf := buf;
      cap := buf.Length - 1;
      this.prompt := prompt;
      this.cols := cols;
      this.multiLine := multiLine;
      len, pos, oldpos, maxrows := 0, 0, 0, 0;
      historyIndex, wordPos := 0, 0;
      okLeft, out := okWrites, [];
      new;
      buf[0] := Nul;
    }

    /** `refreshLine` (clir.c:509-514). */
    method Refresh()
      requires Valid()
      modifies this`out, this`okLeft, this`maxrows, this`oldpos
      ensures Valid()
      ensures RedrawnOnce()
    {
      var text := buf[..len];
      if multiLine {
        var cmds, rows, at := Render.RefreshMultiLine(prompt, text, pos, cols, oldpos, maxrows, okLeft);
        var p := Render.MultiLinePlan(prompt, text, pos, cols, oldpos, maxrows);
        out, maxrows, oldpos := out + cmds, rows, at;
        okLeft := okLeft - Min(okLeft, |p.writes|);
      } else {
        var cmds := Render.RefreshSingleLine(prompt, text, pos, cols, okLeft);
        out := out + cmds;
        okLeft := okLeft - Min(okLeft, 5);
      }
    }

    /** The buffer part of `clirEditInsert` (clir.c:520-546). */
    method Insert(c: char) returns (r: Inserted)
      requires Valid()
      modifies this`len, this`pos, buf
      ensures Valid()
      ensures Current() == InsertedAt(old(Current()), c, cap)
      ensures r == (if old(len) == cap then Dropped else if old(pos) == old(len) then Appended else Shifted)
    {
      if len < cap {
        ghost var t := buf[..len];
        if len == pos {
          buf[pos] := c;
          pos, len := pos + 1, len + 1;
          buf[len] := Nul;
          assert buf[..len] == t + [c];
          r := Appended;
        } else {
          forall k | pos < k <= len {
            buf[k] := buf[k - 1];
          }
          buf[pos] := c;
          assert buf[..len + 1] == t[..pos] + [c] + t[pos..];
          len, pos := len + 1, pos + 1;
          buf[len] := Nul;
          r := Shifted;
        }
      } else {
        r := Dropped;
      }
    }

    /** `clirEditInsert` with its output (clir.c:520-546): a byte appended
        while the line still fits the row is echoed by itself; any other
        insert redraws the line.  `failed` is the source's -1: the echo was
        refused. */
    method Type(c: char) returns (failed: bool)
      requires Valid()
      modifies this`len, this`pos, buf, this`out, this`okLeft, this`maxrows, this`oldpos
      ensures Valid()
      ensures Current() == InsertedAt(old(Current()), c, cap)
      ensures failed <==> Echoes(old(Current()), Setting()) && old(okLeft) == 0
      ensures TypedShown(c, failed)
    {
      var r := Insert(c);
      failed := false;
      if r == Appended && !multiLine && |prompt| + len < cols {
        if okLeft == 0 {
          failed := true;
        } else {
          out := out + [Render.Bytes([c])];
          okLeft := okLeft - 1;
        }
      } else if r != Dropped {
        Refresh();
      }
    }

    /** The buffer part of `clirEditMoveLeft` (clir.c:549-554). */
    method MoveLeft() returns (moved: bool)
      requires Valid()
      modifies this`pos
      ensures Valid() && Current() == MovedLeft(old(Current())) && moved == (old(pos) > 0)
    {
      moved := pos > 0;
      if moved {
        pos := pos - 1;
      }
    }

    /** The buffer part of `clirEditMoveRight` (clir.c:557-562). */
    method MoveRight() returns (moved: bool)
      requires Valid()
      modifies this`pos
      ensures Valid() && Current() == MovedRight(old(Current())) && moved == (old(pos) != old(len))
    {
      moved := pos != len;
      if moved {
        pos := pos + 1;
      }
    }

    /** The buffer part of `clirEditDelete` (clir.c:590-597). */
    method Delete() returns (done: bool)
      requires Valid()
      modifies this`len, buf
      ensures Valid() && Current() == DeletedAt(old(Current()))
      ensures done == (old(len) > 0 && old(pos) < old(len))
    {
      done := len > 0 && pos < len;
      if done {
        ghost var t := buf[..len];
        forall k | pos <= k < len - 1 {
          buf[k] := buf[k + 1];
        }
        len := len - 1;
        buf[len] := Nul;
        assert buf[..len] == t[..pos] + t[pos + 1..];
      }
    }

    /** The buffer part of `clirEditBackspace` (clir.c:600-608). */
    method Backspace() returns (done: bool)
      requires Valid()
      modifies this`len, this`pos, buf
      ensures Valid() && Current() == Backspaced(old(Current()))
      ensures done == (old(pos) > 0 && old(len) > 0)
    {
      done := pos > 0 && len > 0;
      if done {
        ghost var t := buf[..len];
        forall k | pos - 1 <= k < len - 1 {
          buf[k] := buf[k + 1];
        }
        pos, len := pos - 1, len - 1;
        buf[len] := Nul;
        assert buf[..len] == t[..pos] + t[pos + 1..];
      }
    }

    /** The `memmove` of `clirEditDeletePrevWord` (clir.c:621-622): the rest
        of the line and its terminator move down from `q` to `p`. */
    method CloseGap(p: nat, q: nat)
      requires Valid() && pos <= p <= q <= len
      modifies this`len, buf
      ensures Valid() && buf[..len] == old(buf[..len])[..p] + old(buf[..len])[q..]
    {
      ghost var t := buf[..len];
      ghost var want := t[..p] + t[q..];
      var n := len - (q - p);
      forall j | p <= j <= n {
        buf[j] := buf[j + (q - p)];
      }
      assert buf[n] == Nul;
      assert forall k :: 0 <= k < p ==> buf[k] == want[k];
      assert forall k :: p <= k < n ==> buf[k] == want[k];
      len := n;
      assert buf[..len] == want;
    }

    /** The buffer part of `clirEditDeletePrevWord` (clir.c:612-624): back
        over spaces, back over the word, then move the rest of the line and
        its terminator down. */
    method DeletePrevWord()
      requires Valid()
      modifies this`len, this`pos, buf
      ensures Valid() && Current() == WordCut(old(Current()))
    {
      ghost var t := buf[..len];
      var oldPos := pos;
      while pos > 0 && buf[pos - 1] == ' '
        invariant Valid() && buf[..len] == t && pos <= oldPos
        invariant Words.BackOver(t, pos, Words.SpaceOnly, true) == Words.BackOver(t, oldPos, Words.SpaceOnly, true)
      {
        pos := pos - 1;
      }
      ghost var m := pos;
      while pos > 0 && buf[pos - 1] != ' '
        invariant Valid() && buf[..len] == t && pos <= m
        invariant Words.BackOver(t, pos, Words.SpaceOnly, false) == Words.BackOver(t, m, Words.SpaceOnly, false)
      {
        pos := pos - 1;
      }
      CloseGap(pos, oldPos);
    }

    /** Ctrl-T (clir.c:710-718). */
    method Transpose() returns (done: bool)
      requires Valid()
      modifies this`pos, buf
      ensures Valid() && Current() == Transposed(old(Current()))
      ensures done == (0 < old(pos) < old(len))
    {
      done := pos > 0 && pos < len;
      if done {
        var aux := buf[pos - 1];
        buf[pos - 1] := buf[pos];
        buf[pos] := aux;
        if pos != len - 1 {
          pos := pos + 1;
        }
      }
    }

    /** Ctrl-U (clir.c:802-806). */
    method KillLine()
      requires Valid()
      modifies this`len, this`pos, buf
      ensures Valid() && Current() == Line([], 0)
    {
      buf[0] := Nul;
      pos, len := 0, 0;
    }

    /** Ctrl-K (clir.c:807-811). */
    method KillToEnd()
      requires Valid()
      modifies this`len, buf
      ensures Valid() && Current() == Line(old(Current()).text[..pos], pos)
    {
      buf[pos] := Nul;
      len := pos;
    }

    /** The Ctrl-Right jump (clir.c:765-771).  Both loops read the byte
        under the cursor before their bound test; at the end of the text that
        byte is the terminator, inside the buffer. */
    method WordRight()
      requires Valid()
      modifies this`pos
      ensures Valid() && pos == Words.WordRightTarget(Current().text, old(pos))
    {
      ghost var t := buf[..len];
      while !IsSpace(buf[pos]) && pos < len
        invariant pos <= len
        invariant Words.ForwardOver(t, pos, Words.CSpace, false) == Words.ForwardOver(t, old(pos), Words.CSpace, false)
        decreases len - pos
      {
        pos := pos + 1;
      }
      ghost var m := pos;
      while IsSpace(buf[pos]) && pos <= len
        invariant pos <= len
        invariant Words.ForwardOver(t, pos, Words.CSpace, true) == Words.ForwardOver(t, m, Words.CSpace, true)
        decreases len - pos
      {
        pos := pos + 1;
      }
    }

    /** The Ctrl-Left jump (clir.c:773-782), with the second loop testing
        `pos > 0` before it reads the byte before the cursor. */
    method WordLeft()
      requires Valid()
      modifies this`pos
      ensures Valid() && pos == Words.WordLeftTarget(Current().text, old(pos))
    {
      ghost var t := buf[..len];
      ghost var r := Words.BackOver(t, pos, Words.CSpace, true);
      ghost var q := if r == 0 then 0 else r - 1;
      if pos > 0 {
        pos := pos - 1;
      }
      while IsSpace(buf[pos]) && pos > 0
        invariant old(pos) == 0 ==> pos == 0
        invariant old(pos) > 0 ==> pos < old(pos) && Words.BackOver(t, pos + 1, Words.CSpace, true) == r
      {
        pos := pos - 1;
      }
      assert pos == q;
      while pos > 0 && !IsSpace(buf[pos - 1])
        invariant pos <= q
        invariant Words.BackOver(t, pos, Words.CSpace, false) == Words.BackOver(t, q, Words.CSpace, false)
      {
        pos := pos - 1;
      }
    }

    /** `clirEditHistoryNext` (clir.c:566-586) on the buffer and the
        history store. */
    method HistoryMove(h: History.Store, dir: History.Direction) returns (moved: bool)
      requires Valid() && h.Valid() && historyIndex < |h.entries|
      modifies h`entries, this`len, this`pos, this`historyIndex, buf
      ensures Valid() && h.Valid() && historyIndex < |h.entries|
      ensures var b := History.Browsed(old(h.entries), old(historyIndex), old(Current()).text, cap, dir);
        && h.entries == b.entries && historyIndex == b.index && moved == b.moved
        && Current() == (if b.moved then Line(b.text, |b.text|) else old(Current()))
    {
      moved := false;
      if |h.entries| > 1 {
        var slot := |h.entries| - 1 - historyIndex;
        h.entries := h.entries[slot := CStr(buf[..len])];
        var i: int := if dir == History.Prev then historyIndex + 1 else historyIndex - 1;
        if i < 0 {
          historyIndex := 0;
        } else if i >= |h.entries| {
          historyIndex := |h.entries| - 1;
        } else {
          historyIndex := i;
          var e := h.entries[|h.entries| - 1 - i];
          var n := Min(|e|, cap);
          forall k | 0 <= k < n {
            buf[k] := e[k];
          }
          buf[n] := Nul;
          len, pos := n, n;
          assert buf[..len] == e[..n];
          moved := true;
        }
      }
    }

    /** `completeWord` (clir.c:241-292) for the candidates the callback
        offered, with a candidate counted only when it extends the typed
        word, and its rest inserted after the typed word.  `code` is 1 when
        several candidates were listed, which asks the caller to redraw. */
    method Complete(cands: seq<string>) returns (code: int)
      requires Valid()
      modifies this`len, this`pos, buf, this`out, this`okLeft, this`maxrows, this`oldpos
      ensures Valid()
      ensures var typed := Typed(old(Current()), wordPos);
        var o := Completion.CompletionOf(cands, typed);
        && code == Completion.ReturnCode(o)
        && Current() == (if o.Unique? then InsertedAll(old(Current()), Completion.Suffix(o.word, typed), cap)
                         else old(Current()))
        && (!o.Unique? ==> TerminalKept())
      ensures okLeft <= old(okLeft) && old(out) <= out
    {
      var typed := buf[Min(wordPos, pos)..pos];
      assert typed == Typed(Current(), wordPos);
      if |cands| == 0 {
        return 0;
      }
      var valid, count, last := Completion.Filter(cands, typed);
      if count == 1 {
        TypeAll(cands[last][|typed|..] + " ");
        code := 0;
      } else if count > 1 {
        code := 1;
      } else {
        code := 0;
      }
    }

    /** The loop of `completeLine` that types the rest of the one candidate
        and a space, byte by byte (clir.c:272-276). */
    method TypeAll(ins: string)
      requires Valid()
      modifies this`len, this`pos, buf, this`out, this`okLeft, this`maxrows, this`oldpos
      ensures Valid() && Current() == InsertedAll(old(Current()), ins, cap)
      ensures okLeft <= old(okLeft) && old(out) <= out
    {
      ghost var l0 := Current();
      var i := 0;
      while i < |ins|
        invariant Valid() && i <= |ins|
        invariant Current() == InsertedAll(l0, ins[..i], cap)
        invariant okLeft <= old(okLeft) && old(out) <= out
      {
        var _ := Type(ins[i]);
        assert ins[..i + 1][..i] == ins[..i];
        i := i + 1;
      }
      assert ins[..i] == ins;
    }

    /** `clirClearScreen` (clir.c:217-221): cursor home and erase the page,
        in one write whose failure is ignored. */
    method ClearScreen()
      modifies this`out, this`okLeft
      ensures out == old(out) + (if old(okLeft) > 0 then [Render.CursorHome, Render.Ed(2)] else [])
      ensures okLeft == (if old(okLeft) > 0 then old(okLeft) - 1 else 0)
    {
      if okLeft > 0 {
        out := out + [Render.CursorHome, Render.Ed(2)];
        okLeft := okLeft - 1;
      }
    }

    /** The cursor motions of the dispatch (clir.c:696-819); `redraw` says
        whether the source redraws the line afterwards. */
    method Motion(a: Keys.Action) returns (redraw: bool)
      requires Valid() && IsMotion(a)
      modifies this`pos
      ensures Valid() && Current() == Stepped(old(Current()), a, cap)
      ensures redraw == (match a
                         case Left => old(pos) > 0
                         case Right => old(pos) != len
                         case Home => old(pos) > 0
                         case End => old(pos) != len
                         case _ => true)
    {
      redraw := true;
      match a
      case Left =>
        redraw := MoveLeft();
      case Right =>
        redraw := MoveRight();
      case WordRight =>
        WordRight();
      case WordLeft =>
        WordLeft();
      case Home =>
        redraw := pos > 0;
        pos := 0;
      case End =>
        redraw := pos != len;
        pos := len;
      case LineStart =>
        pos := 0;
      case LineEnd =>
        pos := len;
    }

    /** The deletions and the swap of the dispatch (clir.c:696-829);
        `redraw` says whether the source redraws the line afterwards. */
    method Erase(a: Keys.Action) returns (redraw: bool)
      requires Valid() && IsErase(a)
      modifies this`len, this`pos, buf
      ensures Valid() && Current() == Stepped(old(Current()), a, cap)
      ensures redraw == (match a
                         case Backspace => old(pos) > 0 && old(len) > 0
                         case Transpose => 0 < old(pos) < old(len)
                         case DeleteOrEof => old(len) > 0 && old(pos) < old(len)
                         case Delete => old(len) > 0 && old(pos) < old(len)
                         case _ => true)
    {
      redraw := true;
      match a
      case Backspace =>
        redraw := Backspace();
      case DeleteOrEof =>
        redraw := Delete();
      case Delete =>
        redraw := Delete();
      case Transpose =>
        redraw := Transpose();
      case KillLine =>
        KillLine();
      case KillToEnd =>
        KillToEnd();
      case DeletePrevWord =>
        DeletePrevWord();
    }

    /** One pass of `clirEdit`'s loop after the key is decoded
        (clir.c:672-830): the action is carried out and the line redrawn
        where the source redraws it; `end` is the session's outcome when the
        action ends it. */
    method Step(h: History.Store, a: Keys.Action, complete: Option<string -> seq<string>>) returns (end: Option<Outcome>)
      requires Valid() && h.Valid() && historyIndex < |h.entries|
      modifies this`len, this`pos, buf, this`out, this`okLeft, this`maxrows, this`oldpos
      modifies this`historyIndex, this`wordPos, h`entries
      ensures Valid() && h.Valid() && historyIndex < |h.entries|
      ensures StateOf(h) == Next(old(StateOf(h)), a, old(okLeft), complete, Setting())
      ensures end == EndOf(a, old(Current()), old(okLeft), Setting())
      ensures okLeft <= old(okLeft) && old(out) <= out
      ensures a.Insert? ==> TypedShown(a.c, end == Some(WriteFailed))
      ensures a.ClearScreen? ==> ClearedThenRedrawn()
      ensures !(a.Insert? || a.ClearScreen?) && !(a.Complete? && complete.Some? && CompletionAt(old(Current()), old(wordPos), complete.value).Unique?) ==>
        if Redraws(old(StateOf(h)), a, complete, Setting()) then RedrawnOnce() else TerminalKept()
    {
      end := None;
      if a.HistoryPrev? || a.HistoryNext? {
        HistoryKey(h, a);
      } else if a.Complete? {
        CompleteKey(h, complete);
      } else if a.Insert? {
        end := TypeKey(h, a.c);
      } else if a.ClearScreen? {
        ClearKey(h);
      } else {
        end := PlainKey(h, a);
      }
    }

    /** Ctrl-P, Ctrl-N and the up and down arrows (clir.c:725-730, 737-742). */
    method HistoryKey(h: History.Store, a: Keys.Action)
      requires Valid() && h.Valid() && historyIndex < |h.entries| && (a.HistoryPrev? || a.HistoryNext?)
      modifies this`len, this`pos, buf, this`out, this`okLeft, this`maxrows, this`oldpos
      modifies this`historyIndex, h`entries
      ensures Valid() && h.Valid() && historyIndex < |h.entries|
      ensures StateOf(h) == Next(old(StateOf(h)), a, old(okLeft), None, Setting())
      ensures okLeft <= old(okLeft) && old(out) <= out
      ensures if Redraws(old(StateOf(h)), a, None, Setting()) then RedrawnOnce() else TerminalKept()
    {
      var moved := HistoryMove(h, if a.HistoryPrev? then History.Prev else History.Next);
      if moved {
        Refresh();
      }
    }

    /** Tab with a completion callback (clir.c:672-685): the word is
        completed, and the line redrawn when several words were listed. */
    method CompleteKey(h: History.Store, complete: Option<string -> seq<string>>)
      requires Valid() && h.Valid() && historyIndex < |h.entries|
      modifies this`len, this`pos, buf, this`out, this`okLeft, this`maxrows, this`oldpos
      ensures Valid() && historyIndex < |h.entries|
      ensures StateOf(h) == Next(old(StateOf(h)), Keys.Complete, old(okLeft), complete, Setting())
      ensures okLeft <= old(okLeft) && old(out) <= out
      ensures !(complete.Some? && CompletionAt(old(Current()), old(wordPos), complete.value).Unique?) ==>
        if Redraws(old(StateOf(h)), Keys.Complete, complete, Setting()) then RedrawnOnce() else TerminalKept()
    {
      if complete.Some? {
        ghost var s0 := StateOf(h);
        ghost var o := CompletionAt(Current(), wordPos, complete.value);
        assert Redraws(s0, Keys.Complete, complete, Setting()) == o.Listed?;
        var code := Complete(complete.value(CStr(buf[..len])));
        assert StateOf(h) == Next(s0, Keys.Complete, old(okLeft), complete, Setting());
        if code > 0 {
          Refresh();
        }
      }
    }

    /** Ctrl-L (clir.c:820-823): the screen is cleared and the line redrawn. */
    method ClearKey(h: History.Store)
      requires Valid() && h.Valid() && historyIndex < |h.entries|
      modifies this`out, this`okLeft, this`maxrows, this`oldpos
      ensures Valid() && historyIndex < |h.entries|
      ensures StateOf(h) == Next(old(StateOf(h)), Keys.ClearScreen, old(okLeft), None, Setting())
      ensures okLeft <= old(okLeft) && old(out) <= out
      ensures ClearedThenRedrawn()
    {
      assert Next(StateOf(h), Keys.ClearScreen, okLeft, None, Setting()) == StateOf(h);
      ClearScreen();
      Refresh();
    }

    /** Every other key (clir.c:688-826), followed by the redraw the source
        does after it. */
    method PlainKey(h: History.Store, a: Keys.Action) returns (end: Option<Outcome>)
      requires Valid() && h.Valid() && historyIndex < |h.entries|
      requires !(a.HistoryPrev? || a.HistoryNext? || a.Complete? || a.Insert? || a.ClearScreen?)
      modifies this`len, this`pos, buf, this`out, this`okLeft, this`maxrows, this`oldpos
      ensures Valid() && historyIndex < |h.entries|
      ensures StateOf(h) == Next(old(StateOf(h)), a, old(okLeft), None, Setting())
      ensures end == EndOf(a, old(Current()), old(okLeft), Setting())
      ensures okLeft <= old(okLeft) && old(out) <= out
      ensures if LineRedraws(a, old(Current())) then RedrawnOnce() else TerminalKept()
    {
      assert Next(StateOf(h), a, okLeft, None, Setting()) == Keyed(StateOf(h), a, okLeft, Setting());
      var redraw;
      end, redraw := LineKey(a);
      if redraw {
        Refresh();
      }
    }

    /** One pass of the read loop (clir.c:665-830): the next key is decoded
        from the front of the unread input `rest` and carried out, and the
        record of the run so far is extended by it.  `left` is the input
        still unread. */
    method Advance(h: History.Store, input: seq<char>, complete: Option<string -> seq<string>>, rest: seq<char>,
                   ghost keys: seq<Keys.Action>, ghost states: seq<EditState>, ghost oks: seq<nat>)
      returns (left: seq<char>, end: Option<Outcome>,
               ghost keys': seq<Keys.Action>, ghost states': seq<EditState>, ghost oks': seq<nat>)
      requires Valid() && h.Valid() && historyIndex < |h.entries| && rest != []
      requires Moves(complete, Setting(), keys, states, oks) && Unended(Setting(), keys, states, oks, |keys|)
      requires states[|keys|] == StateOf(h) && oks[|keys|] == okLeft
      requires Keys.DecodeAll(input, complete.Some?) == keys + Keys.DecodeAll(rest, complete.Some?)
      modifies this`len, this`pos, buf, this`out, this`okLeft, this`maxrows, this`oldpos
      modifies this`historyIndex, this`wordPos, h`entries
      ensures Valid() && h.Valid() && historyIndex < |h.entries| && |left| < |rest|
      ensures keys' == keys + [Keys.Decode(rest, complete.Some?).action]
      ensures Moves(complete, Setting(), keys', states', oks')
      ensures states'[0] == states[0] && oks'[0] == oks[0]
      ensures states'[|keys'|] == StateOf(h) && oks'[|keys'|] == okLeft
      ensures Keys.DecodeAll(input, complete.Some?) == keys' + Keys.DecodeAll(left, complete.Some?)
      ensures end == LastEnd(Setting(), keys', states', oks')
      ensures Unended(Setting(), keys', states', oks', if end.None? then |keys'| else |keys'| - 1)
      ensures old(out) <= out
    {
      var d := Keys.Decode(rest, complete.Some?);
      left := rest[d.used..];
      end := Step(h, d.action, complete);
      RecordStep(input, rest, complete, Setting(), keys, states, oks, StateOf(h), okLeft, end);
      keys', states', oks' := keys + [d.action], states + [StateOf(h)], oks + [okLeft];
    }

    /** The read loop of `clirEdit` (clir.c:665-831): keys are decoded from
        the front of `input` and carried out until one of them ends the
        session or the input runs out.  `keys`, `states` and `oks` record
        the run. */
    method Run(h: History.Store, input: seq<char>, complete: Option<string -> seq<string>>)
      returns (outcome: Outcome, ghost keys: seq<Keys.Action>, ghost states: seq<EditState>, ghost oks: seq<nat>)
      requires Valid() && h.Valid() && historyIndex < |h.entries|
      modifies this`len, this`pos, buf, this`out, this`okLeft, this`maxrows, this`oldpos
      modifies this`historyIndex, this`wordPos, h`entries
      ensures Valid() && h.Valid() && historyIndex < |h.entries|
      ensures |states| == |keys| + 1 && |oks| == |keys| + 1
      ensures Trace(input, complete, Setting(), keys, states, oks, outcome)
      ensures states[0] == old(StateOf(h)) && states[|keys|] == StateOf(h)
      ensures oks[0] == old(okLeft) && oks[|keys|] == okLeft
      ensures old(out) <= out
    {
      var rest := input;
      keys, states, oks := [], [StateOf(h)], [okLeft];
      while true
        invariant Valid() && h.Valid() && historyIndex < |h.entries|
        invariant Keys.DecodeAll(input, complete.Some?) == keys + Keys.DecodeAll(rest, complete.Some?)
        invariant Moves(complete, Setting(), keys, states, oks)
        invariant Unended(Setting(), keys, states, oks, |keys|)
        invariant states[|keys|] == StateOf(h)
        invariant oks[|keys|] == okLeft
        invariant states[0] == old(StateOf(h))
        invariant oks[0] == old(okLeft)
        invariant old(out) <= out
        decreases |rest|
      {
        if rest == [] {
          TraceClosed(input, complete, Setting(), keys, states, oks);
          return InputClosed, keys, states, oks;
        }
        var end;
        rest, end, keys, states, oks := Advance(h, input, complete, rest, keys, states, oks);
        if end.Some? {
          TraceEnded(input, rest, complete, Setting(), keys, states, oks, end.value);
          return end.value, keys, states, oks;
        }
      }
    }

    /** The keys that act on the line alone: every key of the dispatch
        (clir.c:689-826) but typing, Ctrl-L and the history and completion
        keys.
        `redraw` says whether the line is redrawn afterwards. */
    method LineKey(a: Keys.Action) returns (end: Option<Outcome>, redraw: bool)
      requires Valid() && !(a.HistoryPrev? || a.HistoryNext? || a.Complete? || a.Insert? || a.ClearScreen?)
      modifies this`len, this`pos, buf
      ensures Valid() && Current() == Stepped(old(Current()), a, cap)
      ensures end == Ending(a, old(Current()))
      ensures redraw == LineRedraws(a, old(Current()))
    {
      end, redraw := None, false;
      match a {
      case Submit =>
        end := Some(Submitted);
      case Interrupt =>
        end := Some(Interrupted);
      case DeleteOrEof =>
        if len > 0 {
          redraw := Erase(a);
        } else {
          end := Some(EndOfFile);
        }
      case ClearScreen =>
        assert false;
      case Insert(_) =>
        assert false;
      case Ignored =>
      case Left | Right | WordRight | WordLeft | Home | End | LineStart | LineEnd =>
        redraw := Motion(a);
      case Backspace | Delete | Transpose | KillLine | KillToEnd | DeletePrevWord =>
        redraw := Erase(a);
      }
    }

    /** A byte without a binding of its own, the dispatch's default
        (clir.c:827-830): it is typed, and a space typed marks the start of
        the next word.  The session ends when the echo is refused. */
    method TypeKey(h: History.Store, c: char) returns (end: Option<Outcome>)
      requires Valid() && h.Valid() && historyIndex < |h.entries|
      modifies this`len, this`pos, buf, this`out, this`okLeft, this`maxrows, this`oldpos, this`wordPos
      ensures Valid() && historyIndex < |h.entries|
      ensures StateOf(h) == Next(old(StateOf(h)), Keys.Insert(c), old(okLeft), None, Setting())
      ensures end == EndOf(Keys.Insert(c), old(Current()), old(okLeft), Setting())
      ensures okLeft <= old(okLeft) && old(out) <= out
      ensures TypedShown(c, end == Some(WriteFailed))
    {
      end := None;
      var failed := Type(c);
      if failed {
        end := Some(WriteFailed);
      } else if c == ' ' {
        wordPos := pos;
      }
    }
  }

  /** `clirEdit` (clir.c:635-832) over the caller's buffer `buf`, reading
      the bytes of `input` and writing to a terminal that accepts the first
      `okWrites` writes.  The session first pushes an empty history entry as
      its own slot and writes the prompt; it then runs the read loop from an
      empty line, the slot looked at and the word starting at 0.  Enter and
      Ctrl-D at an empty line drop the newest entry again, every other
      ending leaves the store as the run left it.  `line` is the text left
      in the buffer, followed there by a NUL; `code` is the source's return
      value.  `keys`, `states` and `oks` record the run. */
  method Edit(h: History.Store, buf: array<char>, prompt: string, cols: nat, multiLine: bool,
              input: seq<char>, complete: Option<string -> seq<string>>, okWrites: nat)
    returns (outcome: Outcome, code: int, line: seq<char>, out: seq<Render.Cmd>,
             ghost keys: seq<Keys.Action>, ghost states: seq<EditState>, ghost oks: seq<nat>)
    requires h.Valid() && buf.Length >= 1 && cols > 0 && (multiLine || |prompt| < cols)
    modifies h`entries, buf
    ensures h.Valid() && |states| == |keys| + 1 && |oks| == |keys| + 1
    ensures states[0] == EditState(Line([], 0), History.Added(old(h.entries), h.maxLen, []), 0, 0)
    ensures okWrites == 0 ==> outcome == WriteFailed && keys == [] && out == []
    ensures okWrites > 0 ==>
      && oks[0] == okWrites - 1 && [Render.Bytes(prompt)] <= out
      && Trace(input, complete, Config(buf.Length - 1, prompt, cols, multiLine), keys, states, oks, outcome)
    ensures line == states[|keys|].line.text
    ensures var slotted := states[|keys|].entries;
      && |slotted| > 0
      && h.entries == (if outcome == Submitted || outcome == EndOfFile then slotted[..|slotted| - 1] else slotted)
    ensures code == (if outcome == Submitted || outcome == InputClosed then |line| else -1)
    ensures |line| < buf.Length && buf[..|line|] == line && buf[|line|] == Nul
  {
    var s := new Session(buf, prompt, cols, multiLine, okWrites);
    var _ := h.Add([]);
    if s.okLeft == 0 {
      keys, states, oks := [], [s.StateOf(h)], [0];
      return WriteFailed, -1, [], s.out, keys, states, oks;
    }
    s.out, s.okLeft := s.out + [Render.Bytes(prompt)], s.okLeft - 1;
    assert s.Setting() == Config(buf.Length - 1, prompt, cols, multiLine);
    outcome, keys, states, oks := s.Run(h, input, complete);
    assert states[|keys|] == EditState(Line(buf[..s.len], s.pos), h.entries, s.historyIndex, s.wordPos);
    line := buf[..s.len];
    if outcome == Submitted || outcome == EndOfFile {
      h.entries := h.entries[..|h.entries| - 1];
    }
    code := if outcome == Submitted || outcome == InputClosed then s.len else -1;
    out := s.out;
  }

  /** Typing "a" and Enter at the prompt "> " of an 80-column terminal
      submits the line "a". */
  method EditExample() returns (outcome: Outcome, line: seq<char>)
    ensures outcome == Submitted && line == "a"
  {
    var h := new History.Store();
    var buf := new char[16];
    var code, out;
    ghost var keys, states, oks;
    outcome, code, line, out, keys, states, oks := Edit(h, buf, "> ", 80, false, ['a', Return], None, 100);
    assert !Keys.IsBound('a', false) && oks[0] == 99 && states[0].line == Line([], 0);
    TypedByteThenEnterSubmits('a', None, Config(buf.Length - 1, "> ", 80, false), keys, states, oks, outcome);
  }
}
