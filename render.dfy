/** The two redraw routines: `refreshSingleLine` (clir.c:381-410) and
    `refreshMultiLine` (clir.c:416-506).  Output is an abstract list of
    terminal commands; each `write` call of the source is one group of
    commands.  A failed write ends the redraw: `ok` is the number of writes
    that succeed before the first one that fails. */
module Render {
  import opened Chars

  /** The control functions the editor sends, named as in ECMA-48, with the
      parameter the source writes. */
  datatype Cmd =
    | Cha(n: int)         // ESC [ n G: cursor to column n (section 8.3.9)
    | El(n: int)          // ESC [ n K: erase in line (section 8.3.41)
    | Cuf(n: int)         // ESC [ n C: cursor forward n columns (section 8.3.20)
    | Cuu(n: int)         // ESC [ n A: cursor up n lines (section 8.3.22)
    | Cud(n: int)         // ESC [ n B: cursor down n lines (section 8.3.19)
    | CursorHome          // ESC [ H: cursor to the top left corner
    | Ed(n: int)          // ESC [ n J: erase in page (section 8.3.39)
    | Bytes(s: seq<char>) // the bytes themselves

  /** All commands of a list of writes, in order. */
  function Flatten(groups: seq<seq<Cmd>>): (out: seq<Cmd>)
  {
    if groups == [] then [] else groups[0] + Flatten(groups[1..])
  }

  /** What reaches the terminal when the first `ok` writes succeed and the
      next one fails: the commands of those writes, and nothing after. */
  function Emitted(groups: seq<seq<Cmd>>, ok: nat): seq<Cmd> {
    Flatten(groups[..Min(ok, |groups|)])
  }

  lemma {:induction false} FlattenAppend(groups: seq<seq<Cmd>>, g: seq<Cmd>)
    ensures Flatten(groups + [g]) == Flatten(groups) + g
  {
    if groups == [] {
      assert [] + [g] == [g];
    } else {
      assert (groups + [g])[1..] == groups[1..] + [g];
      FlattenAppend(groups[1..], g);
    }
  }

  // ---------------------------------------------------------------- single line

  /** The scrolling loops of `refreshSingleLine` (clir.c:389-396): the first
      drops bytes from the front until the cursor fits before the last
      column, the second drops bytes from the end until the rest fits the
      row.  `start` is the first byte drawn, `shown` how many are drawn and
      `col` the cursor's column after the prompt's, counted from 0. */
  method Window(plen: nat, cols: nat, len: nat, pos: nat) returns (start: nat, shown: nat, col: nat)
    requires pos <= len && plen < cols
    ensures start <= pos && start + shown <= len
    ensures col == plen + pos - start && col < cols
    ensures start == 0 || col == cols - 1
    ensures plen + shown <= cols && (start + shown == len || plen + shown == cols)
    ensures start == Max(0, plen + pos - cols + 1) && shown == Min(len - start, cols - plen)
  {
    start := 0;
    var l, p := len, pos;
    while plen + p >= cols
      invariant start + p == pos && start + l == len && p <= l
      invariant start == 0 || plen + p >= cols - 1
    {
      start, l, p := start + 1, l - 1, p - 1;
    }
    while plen + l > cols
      invariant p <= l && start + l <= len
      invariant start + l == len || plen + l >= cols
    {
      l := l - 1;
    }
    shown := l;
    col := plen + p;
  }

  /** The writes of `refreshSingleLine` (clir.c:399-409) for a window that
      starts at `start` and draws `shown` bytes: column 0, the prompt, the
      visible bytes, erase to the right, then column 0 and forward to the
      cursor. */
  function SingleLineWrites(prompt: seq<char>, text: seq<char>, pos: nat, start: nat, shown: nat): seq<seq<Cmd>>
    requires start <= pos <= |text| && start + shown <= |text|
  {
    [[Cha(0)], [Bytes(prompt)], [Bytes(text[start..start + shown])], [El(0)],
     [Cha(0), Cuf(|prompt| + pos - start)]]
  }

  /** `refreshSingleLine`: what it sends for a prompt shorter than the row.
      The row shows the prompt and a slice of the text that holds the cursor,
      and the cursor is left on the row. */
  method RefreshSingleLine(prompt: seq<char>, text: seq<char>, pos: nat, cols: nat, ok: nat) returns (out: seq<Cmd>)
    requires pos <= |text| && |prompt| < cols
    ensures var start := Max(0, |prompt| + pos - cols + 1);
      var shown := Min(|text| - start, cols - |prompt|);
      && 0 <= start <= pos <= start + shown
      && |prompt| + shown <= cols && |prompt| + pos - start < cols
      && out == Emitted(SingleLineWrites(prompt, text, pos, start, shown), ok)
  {
    var start, shown, col := Window(|prompt|, cols, |text|, pos);
    out := Emitted(SingleLineWrites(prompt, text, pos, start, shown), ok);
  }

  // ---------------------------------------------------------------- multi line

  /** Rows used by the prompt and `len` bytes (clir.c:419). */
  function Rows(plen: nat, len: nat, cols: nat): int
    requires cols > 0
  {
    (plen + len + cols - 1) / cols
  }

  /** The 1-based row of the cursor after `plen + pos` columns (clir.c:420,
      481). */
  function CursorRow(plen: nat, pos: nat, cols: nat): int
    requires cols > 0
  {
    (plen + pos + cols) / cols
  }

  /** The row count is the ceiling of (plen + len) / cols: the fewest rows
      of `cols` columns that hold the prompt and the text. */
  lemma RowsIsCeiling(plen: nat, len: nat, cols: nat)
    requires cols > 0
    ensures var rows := Rows(plen, len, cols);
      && rows >= 0
      && rows * cols >= plen + len
      && (plen + len > 0 ==> (rows - 1) * cols < plen + len)
      && (rows == 0 <==> plen + len == 0)
  {
    var n := plen + len + cols - 1;
    var rows := n / cols;
    assert n == rows * cols + n % cols;
    assert rows * cols == n - n % cols;
    assert (rows - 1) * cols == n - n % cols - cols;
  }

  /** The cursor row is the row, counted from 1, that holds column
      plen + pos. */
  lemma CursorRowHoldsCursor(plen: nat, pos: nat, cols: nat)
    requires cols > 0
    ensures var r := CursorRow(plen, pos, cols);
      r >= 1 && (r - 1) * cols <= plen + pos < r * cols
  {
    var n := plen + pos + cols;
    var r := n / cols;
    assert n == r * cols + n % cols;
    assert r * cols == n - n % cols;
    assert (r - 1) * cols == n - n % cols - cols;
  }

  /** One write of `refreshMultiLine`'s clearing loop (clir.c:449). */
  const ClearAndUp: seq<Cmd> := [Cha(0), El(0), Cuu(1)]

  /** The writes of the clearing loop: one per row above the last. */
  function ClearRows(n: int): (gs: seq<seq<Cmd>>)
    ensures |gs| == Max(n, 0)
    ensures forall k :: 0 <= k < |gs| ==> gs[k] == ClearAndUp
    decreases Max(n, 0)
  {
    if n <= 0 then [] else ClearRows(n - 1) + [ClearAndUp]
  }

  /** The writes that clear the rows of the previous redraw: down from the
      previous cursor row to the last row used, then clear and go up once
      per row above it (clir.c:436-451). */
  function Clearing(plen: nat, oldpos: nat, cols: nat, maxrows: nat): seq<seq<Cmd>>
    requires cols > 0
  {
    var rpos := CursorRow(plen, oldpos, cols);
    (if maxrows - rpos > 0 then [[Cud(maxrows - rpos)]] else []) + ClearRows(maxrows - 1)
  }

  /** Whether the cursor is at the end of the text and the text fills its
      last row exactly (clir.c:466-468). */
  predicate ExactWrap(plen: nat, len: nat, pos: nat, cols: nat)
    requires cols > 0
  {
    pos > 0 && pos == len && (pos + plen) % cols == 0
  }

  /** The newline and the return to column 0 sent on an exact wrap
      (clir.c:473-475). */
  function WrapWrites(wrapped: bool): seq<seq<Cmd>> {
    if wrapped then [[Bytes([Newline])], [Cha(0)]] else []
  }

  /** The moves that leave the cursor on its row and column (clir.c:482-500). */
  function Placing(rows: int, rpos2: int, column: int): seq<seq<Cmd>> {
    (if rows - rpos2 > 0 then [[Cuu(rows - rpos2)]] else []) + [[Cha(column)]]
  }

  /** Everything `refreshMultiLine` computes, before a write fails. */
  datatype MultiPlan = MultiPlan(
    writes: seq<seq<Cmd>>,  // every write, in order
    rows: int,              // rows used once drawn, the wrap row included
    wrapped: bool,          // the cursor sits just past a full last row
    wrapDone: nat,          // writes up to and including the wrap's
    maxrows: int)           // the high-water row count after all writes

  /** What `refreshMultiLine` (clir.c:416-506) sends and computes, given the
      prompt, the text, the cursor, the cursor of the previous redraw and
      the high-water row count. */
  function MultiLinePlan(prompt: seq<char>, text: seq<char>, pos: nat, cols: nat, oldpos: nat, maxrows: nat): (p: MultiPlan)
    requires pos <= |text| && cols > 0
  {
    var plen := |prompt|;
    var wrapped := ExactWrap(plen, |text|, pos, cols);
    var rows := Rows(plen, |text|, cols) + (if wrapped then 1 else 0);
    var head := Clearing(plen, oldpos, cols, maxrows)
      + [[Cha(0), El(0)], [Bytes(prompt)], [Bytes(text)]] + WrapWrites(wrapped);
    MultiPlan(head + Placing(rows, CursorRow(plen, pos, cols), 1 + (plen + pos) % cols),
              rows, wrapped, |head|, Max(maxrows, rows))
  }

  lemma {:induction false} MulMono(a: int, b: int, c: nat)
    requires a <= b
    ensures a * c <= b * c
  {
    if c > 0 {
      MulMono(a, b, c - 1);
      assert a * c == a * (c - 1) + a && b * c == b * (c - 1) + b;
    }
  }

  /** Rows of text that ends exactly at a row's end: the quotient itself. */
  lemma RowsOfFullRows(plen: nat, len: nat, cols: nat)
    requires cols > 0 && (plen + len) % cols == 0
    ensures Rows(plen, len, cols) == (plen + len) / cols
  {
    var n := plen + len;
    var q := n / cols;
    var r := Rows(plen, len, cols);
    RowsIsCeiling(plen, len, cols);
    assert n == q * cols;
    if n > 0 {
      if r < q {
        MulMono(r, q - 1, cols);
      } else if r > q {
        MulMono(q, r - 1, cols);
      }
    } else {
      assert q == 0;
    }
  }

  /** The cursor row is one more than the number of full rows before the
      cursor. */
  lemma CursorRowIsQuotient(plen: nat, pos: nat, cols: nat)
    requires cols > 0
    ensures CursorRow(plen, pos, cols) == (plen + pos) / cols + 1
  {
    var n := plen + pos;
    var q := n / cols;
    var p := CursorRow(plen, pos, cols);
    CursorRowHoldsCursor(plen, pos, cols);
    assert n == q * cols + n % cols;
    assert (q + 1) * cols == q * cols + cols;
    if p - 1 < q {
      MulMono(p, q, cols);
    } else if p - 1 > q {
      MulMono(q + 1, p - 1, cols);
    }
  }

  /** The cursor's row lies within the rows drawn, the wrap row included,
      unless both the text is empty and the prompt fills whole rows; the
      upward move then starts from the last row and lands on the cursor's
      row (clir.c:481-490). */
  lemma CursorWithinRows(plen: nat, len: nat, pos: nat, cols: nat)
    requires pos <= len && cols > 0
    ensures CursorRow(plen, pos, cols) <= Rows(plen, len, cols) + (if ExactWrap(plen, len, pos, cols) then 1 else 0)
        <==> !(len == 0 && plen % cols == 0)
  {
    var n := plen + pos;
    var q := n / cols;
    var rows := Rows(plen, len, cols);
    CursorRowIsQuotient(plen, pos, cols);
    assert n == q * cols + n % cols;
    if ExactWrap(plen, len, pos, cols) || (len == 0 && plen % cols == 0) {
      RowsOfFullRows(plen, len, cols);
    } else {
      RowsIsCeiling(plen, len, cols);
      if rows <= q {
        MulMono(rows, q, cols);
      }
    }
  }

  /** The properties of a multi-line redraw: the rows grow by one exactly on
      an exact wrap; the high-water mark never shrinks and covers the rows
      drawn; the cursor's column lies in [1, cols]; and the last write is
      the column move. */
  lemma MultiLinePlanFacts(prompt: seq<char>, text: seq<char>, pos: nat, cols: nat, oldpos: nat, maxrows: nat)
    requires pos <= |text| && cols > 0
    ensures var p := MultiLinePlan(prompt, text, pos, cols, oldpos, maxrows);
      var column := 1 + (|prompt| + pos) % cols;
      && p.rows * cols >= |prompt| + |text|
      && (p.rows == Rows(|prompt|, |text|, cols) + 1 <==> ExactWrap(|prompt|, |text|, pos, cols))
      && p.maxrows >= maxrows && p.maxrows >= p.rows
      && 1 <= column <= cols
      && p.wrapDone < |p.writes| && p.writes[|p.writes| - 1] == [Cha(column)]
  {
    var plen := |prompt|;
    RowsIsCeiling(plen, |text|, cols);
    var r := Rows(plen, |text|, cols);
    MulMono(r, r + 1, cols);
  }

  /** The vertical movement of a list of commands: lines down minus lines
      up. */
  function Climb(cmds: seq<Cmd>): int {
    if cmds == [] then 0
    else (match cmds[0] case Cud(n) => n case Cuu(n) => -n case _ => 0) + Climb(cmds[1..])
  }

  lemma {:induction false} ClimbAppend(a: seq<Cmd>, b: seq<Cmd>)
    ensures Climb(a + b) == Climb(a) + Climb(b)
  {
    if a == [] {
      assert a + b == b;
    } else {
      assert (a + b)[0] == a[0];
      assert (a + b)[1..] == a[1..] + b;
      ClimbAppend(a[1..], b);
    }
  }

  lemma {:induction false} FlattenConcat(a: seq<seq<Cmd>>, b: seq<seq<Cmd>>)
    ensures Flatten(a + b) == Flatten(a) + Flatten(b)
  {
    if a == [] {
      assert a + b == b;
    } else {
      assert (a + b)[0] == a[0];
      assert (a + b)[1..] == a[1..] + b;
      FlattenConcat(a[1..], b);
      assert Flatten(a + b) == a[0] + (Flatten(a[1..]) + Flatten(b));
    }
  }

  lemma {:induction false} ClimbClearRows(n: int)
    ensures Climb(Flatten(ClearRows(n))) == -Max(n, 0)
    decreases Max(n, 0)
  {
    if n > 0 {
      FlattenAppend(ClearRows(n - 1), ClearAndUp);
      ClimbAppend(Flatten(ClearRows(n - 1)), ClearAndUp);
      ClimbClearRows(n - 1);
      assert ClearAndUp[1..][1..][1..] == [];
    }
  }

  /** Starting on the previous cursor row, the clearing writes end on the
      first row, provided that row lies within the rows used before. */
  lemma ClearingEndsOnTopRow(plen: nat, oldpos: nat, cols: nat, maxrows: nat)
    requires cols > 0
    requires CursorRow(plen, oldpos, cols) <= maxrows
    ensures CursorRow(plen, oldpos, cols) + Climb(Flatten(Clearing(plen, oldpos, cols, maxrows))) == 1
  {
    var rpos := CursorRow(plen, oldpos, cols);
    CursorRowHoldsCursor(plen, oldpos, cols);
    var down: seq<seq<Cmd>> := if maxrows - rpos > 0 then [[Cud(maxrows - rpos)]] else [];
    FlattenConcat(down, ClearRows(maxrows - 1));
    ClimbAppend(Flatten(down), Flatten(ClearRows(maxrows - 1)));
    ClimbClearRows(maxrows - 1);
    if maxrows - rpos > 0 {
      assert Flatten(down) == [Cud(maxrows - rpos)] + Flatten([]) by {
        assert down[1..] == [];
      }
      assert Climb([Cud(maxrows - rpos)]) == maxrows - rpos;
    }
  }

  /** The clearing writes of `refreshMultiLine` (clir.c:436-451), with the
      source's loop over the rows above the last. */
  method ClearPrevious(plen: nat, oldpos: nat, cols: nat, maxrows: nat) returns (writes: seq<seq<Cmd>>)
    requires cols > 0
    ensures writes == Clearing(plen, oldpos, cols, maxrows)
  {
    var rpos := CursorRow(plen, oldpos, cols);
    var oldRows: int := maxrows;
    writes := [];
    if oldRows - rpos > 0 {
      writes := writes + [[Cud(oldRows - rpos)]];
    }
    ghost var down := writes;
    var j := 0;
    while j < oldRows - 1
      invariant 0 <= j <= Max(oldRows - 1, 0)
      invariant writes == down + ClearRows(j)
    {
      writes := writes + [ClearAndUp];
      j := j + 1;
    }
  }

  /** `refreshMultiLine` (clir.c:416-506): the commands that reach the
      terminal, the new high-water row count and the new `oldpos`.  The
      high-water mark is raised before anything is written and again after
      the wrap's writes; `oldpos` moves to the cursor only when every write
      succeeded. */
  method RefreshMultiLine(prompt: seq<char>, text: seq<char>, pos: nat, cols: nat, oldpos: nat, maxrows: nat, ok: nat)
    returns (out: seq<Cmd>, newMaxrows: nat, newOldpos: nat)
    requires pos <= |text| && cols > 0
    ensures var p := MultiLinePlan(prompt, text, pos, cols, oldpos, maxrows);
      && out == Emitted(p.writes, ok)
      && newMaxrows == (if p.wrapped && ok >= p.wrapDone then p.maxrows
                        else Max(maxrows, Rows(|prompt|, |text|, cols)))
      && newOldpos == (if ok >= |p.writes| then pos else oldpos)
  {
    var plen := |prompt|;
    var rows := Rows(plen, |text|, cols);
    newMaxrows := maxrows;
    if rows > maxrows {
      newMaxrows := rows;
    }
    var writes := ClearPrevious(plen, oldpos, cols, maxrows);
    writes := writes + [[Cha(0), El(0)], [Bytes(prompt)], [Bytes(text)]];
    var wrapped := pos > 0 && pos == |text| && (pos + plen) % cols == 0;
    if wrapped {
      writes := writes + [[Bytes([Newline])], [Cha(0)]];
      rows := rows + 1;
      if ok >= |writes| && rows > newMaxrows {
        newMaxrows := rows;
      }
    }
    ghost var head := writes;
    var rpos2 := CursorRow(plen, pos, cols);
    if rows - rpos2 > 0 {
      writes := writes + [[Cuu(rows - rpos2)]];
    }
    writes := writes + [[Cha(1 + (plen + pos) % cols)]];
    ghost var p := MultiLinePlan(prompt, text, pos, cols, oldpos, maxrows);
    assert wrapped == p.wrapped && rows == p.rows;
    assert head == Clearing(plen, oldpos, cols, maxrows)
      + [[Cha(0), El(0)], [Bytes(prompt)], [Bytes(text)]] + WrapWrites(wrapped);
    assert writes == head + Placing(rows, rpos2, 1 + (plen + pos) % cols);
    assert writes == p.writes && |head| == p.wrapDone;
    out := Emitted(writes, ok);
    newOldpos := if ok >= |writes| then pos else oldpos;
  }

  // ---------------------------------------------------------------- either mode

  /** What one redraw leaves: the commands that reached the terminal, the
      new high-water row count and `oldpos`, and how many more writes the
      terminal accepts. */
  datatype Drawn = Drawn(cmds: seq<Cmd>, maxrows: nat, oldpos: nat, okLeft: nat)

  /** `refreshLine` (clir.c:509-514) on a terminal that accepts the next
      `okLeft` writes and refuses every one after them. */
  function Redrawn(multiLine: bool, prompt: seq<char>, text: seq<char>, pos: nat, cols: nat,
                   oldpos: nat, maxrows: nat, okLeft: nat): (d: Drawn)
    requires pos <= |text| && cols > 0 && (multiLine || |prompt| < cols)
    ensures d.okLeft <= okLeft && d.maxrows >= maxrows
    ensures !multiLine ==> d.maxrows == maxrows && d.oldpos == oldpos
  {
    if multiLine then
      var p := MultiLinePlan(prompt, text, pos, cols, oldpos, maxrows);
      var rows := Rows(|prompt|, |text|, cols);
      Drawn(Emitted(p.writes, okLeft),
            if p.wrapped && okLeft >= p.wrapDone then Max(maxrows, p.rows) else Max(maxrows, rows),
            if okLeft >= |p.writes| then pos else oldpos,
            okLeft - Min(okLeft, |p.writes|))
    else
      var start := Max(0, |prompt| + pos - cols + 1);
      var w := SingleLineWrites(prompt, text, pos, start, Min(|text| - start, cols - |prompt|));
      Drawn(Emitted(w, okLeft), maxrows, oldpos, okLeft - Min(okLeft, |w|))
  }
}
