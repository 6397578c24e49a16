/** The process-wide history (clir.c:120-122, 911-999) and the way an editing
    session pages through it (clir.c:566-586).  The C keeps an array of string
    pointers `history` with `history_len` used slots and room for
    `history_max_len`; here the used slots are a sequence, oldest first. */
module History {
  import opened Chars
  import opened Wrappers

  /** LINENOISE_DEFAULT_HISTORY_MAX_LEN (clir.c:110). */
  const DefaultMaxLen: nat := 100
  /** LINENOISE_MAX_LINE (clir.c:111): the size of the buffer `fgets` fills
      when the history is loaded, so one read takes at most 4095 bytes. */
  const MaxLine: nat := 4096

  /** The n newest entries, in their order. */
  function Newest(h: seq<string>, n: nat): (r: seq<string>)
    requires n <= |h|
    ensures |r| == n
    ensures forall k :: 0 <= k < n ==> r[k] == h[|h| - n + k]
  {
    h[|h| - n..]
  }

  /** No two neighbouring entries are equal. */
  predicate NoAdjacentDuplicates(h: seq<string>) {
    forall k :: 0 < k < |h| ==> h[k - 1] != h[k]
  }

  // ---------------------------------------------------------------- adding

  /** The entries `clirHistoryAdd` keeps before it looks for a duplicate: when
      the store is full the oldest entry is dropped first (clir.c:922-926). */
  function Evicted(h: seq<string>, maxLen: nat): seq<string>
    requires |h| <= maxLen
  {
    if |h| == maxLen && maxLen > 0 then h[1..] else h
  }

  /** Whether `clirHistoryAdd(line)` stores `line` (it returns 1). */
  predicate Appends(h: seq<string>, maxLen: nat, line: string)
    requires |h| <= maxLen
  {
    var kept := Evicted(h, maxLen);
    maxLen > 0 && !(|kept| > 0 && kept[|kept| - 1] == line)
  }

  /** The store after `clirHistoryAdd(line)` (clir.c:911-931).  The store stays
      within its capacity and ends with `line` unless the capacity is zero. */
  function Added(h: seq<string>, maxLen: nat, line: string): (r: seq<string>)
    requires |h| <= maxLen
    ensures |r| <= maxLen
    ensures maxLen == 0 ==> r == h
    ensures maxLen > 0 ==> |r| > 0 && r[|r| - 1] == line
  {
    var kept := Evicted(h, maxLen);
    if Appends(h, maxLen, line) then kept + [line] else kept
  }

  /** Adding keeps the order: the store after adding is the newest part of the
      old store, followed by `line` when it was appended.  Only the oldest
      entry can go, and only when the store was full. */
  lemma AddedIsNewestPart(h: seq<string>, maxLen: nat, line: string)
    requires |h| <= maxLen
    ensures var r := Added(h, maxLen, line);
      && (Appends(h, maxLen, line) ==> 0 < |r| <= |h| + 1 && r[..|r| - 1] == Newest(h, |r| - 1))
      && (!Appends(h, maxLen, line) ==> |r| <= |h| && r == Newest(h, |r|))
      && (|r| < |h| ==> |h| == maxLen && |r| == |h| - 1)
  {
  }

  /** Adding keeps neighbouring entries distinct. */
  lemma AddedKeepsNoAdjacentDuplicates(h: seq<string>, maxLen: nat, line: string)
    requires |h| <= maxLen && NoAdjacentDuplicates(h)
    ensures NoAdjacentDuplicates(Added(h, maxLen, line))
  {
    var r := Added(h, maxLen, line);
    var kept := Evicted(h, maxLen);
    assert NoAdjacentDuplicates(kept) by {
      forall k | 0 < k < |kept| ensures kept[k - 1] != kept[k] {
        if |h| == maxLen && maxLen > 0 {
          assert kept[k - 1] == h[k] && kept[k] == h[k + 1];
        }
      }
    }
  }

  /** Adding the line that is already the newest entry stores nothing: the
      store is unchanged when it has room, and loses its oldest entry when it
      is full, because the eviction happens before the duplicate test
      (clir.c:922-927).  With a capacity of 2, adding "b" to ["a", "b"]
      leaves ["b"]. */
  lemma AddingNewestAgain(h: seq<string>, maxLen: nat, line: string)
    requires |h| <= maxLen && |h| > 0 && h[|h| - 1] == line
    ensures !Appends(h, maxLen, line) || (maxLen == 1 && Added(h, maxLen, line) == [line])
    ensures |h| < maxLen ==> Added(h, maxLen, line) == h
    ensures 1 < |h| == maxLen ==> Added(h, maxLen, line) == h[1..]
  {
  }

  /** With room for two, adding "a", "b" and "c" keeps ["b", "c"]; adding
      "x" twice keeps one "x". */
  lemma AddExamples()
    ensures Added(Added(Added([], 2, "a"), 2, "b"), 2, "c") == ["b", "c"]
    ensures Added(Added([], 2, "x"), 2, "x") == ["x"]
  {
    assert Added([], 2, "a") == ["a"];
    assert Added(["a"], 2, "b") == ["a", "b"];
    assert Added(["a", "b"], 2, "c") == ["b", "c"];
  }

  // ---------------------------------------------------------------- resizing

  /** The store after `clirHistorySetMaxLen(n)` for n >= 1 (clir.c:940-961):
      the newest min(n, |h|) entries, in order. */
  function Resized(h: seq<string>, n: nat): (r: seq<string>)
    ensures |r| == Min(n, |h|) && |r| <= n
    ensures r == Newest(h, |r|)
  {
    Newest(h, Min(n, |h|))
  }

  // ---------------------------------------------------------------- file format

  /** The file `clirHistorySave` writes: every entry followed by a newline
      (clir.c:972-973). */
  function Serialize(h: seq<string>): (file: string)
    ensures |file| >= |h|
  {
    if h == [] then [] else h[0] + [Newline] + Serialize(h[1..])
  }

  /** How many bytes one `fgets(buf, MaxLine, fp)` takes from the rest of the
      file (clir.c:989): up to and including the first newline, but never
      more than MaxLine - 1 bytes. */
  function ChunkEnd(rest: string): (n: nat)
    requires rest != []
    ensures 0 < n <= |rest| && n <= MaxLine - 1
  {
    Min(Min(|rest|, MaxLine - 1), IndexOf(rest, Newline) + 1)
  }

  /** The entry a chunk read by `fgets` becomes: the C string in the buffer,
      cut at its first carriage return, or else at its first newline
      (clir.c:992-994). */
  function ParseLine(chunk: string): (line: string)
    ensures Nul !in line && Return !in line
  {
    var s := CStr(chunk);
    var cut := if Return in s then IndexOf(s, Return) else IndexOf(s, Newline);
    s[..cut]
  }

  /** The lines `clirHistoryLoad` adds, in file order. */
  function Lines(file: string): (ls: seq<string>)
    ensures forall l :: l in ls ==> Nul !in l
    decreases |file|
  {
    if file == [] then []
    else
      var n := ChunkEnd(file);
      [ParseLine(file[..n])] + Lines(file[n..])
  }

  /** The store after adding every line of `ls` in order. */
  function AddAll(h: seq<string>, maxLen: nat, ls: seq<string>): (r: seq<string>)
    requires |h| <= maxLen
    ensures |r| <= maxLen
    decreases |ls|
  {
    if ls == [] then h else AddAll(Added(h, maxLen, ls[0]), maxLen, ls[1..])
  }

  /** An entry the file format can carry: one fgets read holds it and its
      newline, and it has no newline, carriage return or NUL of its own. */
  predicate Storable(e: string) {
    |e| + 1 <= MaxLine - 1 && Newline !in e && Return !in e && Nul !in e
  }

  /** Reading back what was saved gives the saved entries. */
  lemma {:induction false} LinesOfSerialize(h: seq<string>)
    requires forall e :: e in h ==> Storable(e)
    ensures Lines(Serialize(h)) == h
  {
    if h != [] {
      var file := Serialize(h);
      var first := h[0] + [Newline];
      assert h[0] in h;
      assert file == first + Serialize(h[1..]);
      forall k | 0 <= k < |h[0]| ensures file[k] != Newline && first[k] != Newline {
        assert file[k] == first[k] == h[0][k];
        assert h[0][k] in h[0];
      }
      assert IndexOf(file, Newline) == |h[0]| by {
        assert file[|h[0]|] == Newline;
        IndexOfFirst(file, Newline, |h[0]|);
      }
      assert ChunkEnd(file) == |first|;
      assert file[..|first|] == first;
      assert file[|first|..] == Serialize(h[1..]);
      assert CStr(first) == first by {
        assert Nul !in first;
      }
      assert IndexOf(first, Newline) == |h[0]| by {
        IndexOfFirst(first, Newline, |h[0]|);
      }
      assert ParseLine(first) == h[0];
      LinesOfSerialize(h[1..]);
    }
  }

  /** IndexOf finds the first occurrence. */
  lemma IndexOfFirst(s: seq<char>, c: char, i: nat)
    requires i < |s| && s[i] == c && forall k :: 0 <= k < i ==> s[k] != c
    ensures IndexOf(s, c) == i
  {
  }

  /** Adding distinct-neighboured lines to a store they fit in appends them. */
  lemma {:induction false} AddAllAppends(h: seq<string>, maxLen: nat, ls: seq<string>)
    requires |h + ls| <= maxLen && NoAdjacentDuplicates(h + ls)
    ensures AddAll(h, maxLen, ls) == h + ls
    decreases |ls|
  {
    if ls != [] {
      assert (h + ls)[|h|] == ls[0];
      assert |h| > 0 ==> (h + ls)[|h| - 1] == h[|h| - 1];
      assert Added(h, maxLen, ls[0]) == h + [ls[0]];
      assert h + ls == (h + [ls[0]]) + ls[1..];
      AddAllAppends(h + [ls[0]], maxLen, ls[1..]);
    }
  }

  /** Saving a store and loading the file into an empty store of the same
      capacity gives back the same entries, in order, provided every entry is
      storable and no two neighbours are equal (a store built by adding has
      no equal neighbours). */
  lemma SaveLoadRoundTrip(h: seq<string>, maxLen: nat)
    requires |h| <= maxLen && NoAdjacentDuplicates(h)
    requires forall e :: e in h ==> Storable(e)
    ensures AddAll([], maxLen, Lines(Serialize(h))) == h
  {
    LinesOfSerialize(h);
    AddAllAppends([], maxLen, h);
  }

  /** A line of 4095 bytes, the longest the editor accepts, does not survive:
      the first read takes the line without its newline and the second takes
      the newline alone, so loading adds the line and then an empty entry. */
  lemma LongestLineSplits(e: string)
    requires |e| == MaxLine - 1 && Newline !in e && Return !in e && Nul !in e
    ensures Lines(Serialize([e])) == [e, []]
  {
    var file := Serialize([e]);
    assert file == e + [Newline];
    assert IndexOf(file, Newline) == |e| by {
      IndexOfFirst(file, Newline, |e|);
    }
    assert ChunkEnd(file) == |e|;
    assert file[..ChunkEnd(file)] == e;
    assert CStr(e) == e;
    assert IndexOf(e, Newline) == |e|;
    assert ParseLine(e) == e;
    assert file[ChunkEnd(file)..] == [Newline];
    assert CStr([Newline]) == [Newline];
    assert ParseLine([Newline]) == [];
    assert Lines([Newline]) == [[]] by {
      assert ChunkEnd([Newline]) == 1;
      assert [Newline][..1] == [Newline];
      assert [Newline][1..] == [];
    }
  }

  // ---------------------------------------------------------------- browsing

  /** LINENOISE_HISTORY_NEXT and LINENOISE_HISTORY_PREV (clir.c:564-565). */
  datatype Direction = Next | Prev

  /** What `clirEditHistoryNext` leaves: the history, the session's index into
      it (0 is the newest entry), the edited text, and whether the text was
      replaced (and the line redrawn). */
  datatype Browse = Browse(entries: seq<string>, index: nat, text: seq<char>, moved: bool)

  /** The slot a session looking at `index` edits: counted from the newest. */
  function Slot(h: seq<string>, index: nat): nat
    requires index < |h|
  {
    |h| - 1 - index
  }

  /** One step of history browsing (clir.c:566-586) for a buffer holding at
      most `cap` bytes.  With more than one entry, the edited text is first
      stored into the slot being looked at; the index then moves one step
      older or newer; a step past either end is undone and leaves the text
      alone, otherwise the text becomes the entry there, cut to `cap`. */
  function Browsed(h: seq<string>, index: nat, text: seq<char>, cap: nat, dir: Direction): (b: Browse)
    requires index < |h|
    ensures |b.entries| == |h| && b.index < |h|
    ensures |h| <= 1 ==> b == Browse(h, index, text, false)
    ensures |h| > 1 ==> b.entries == h[Slot(h, index) := CStr(text)]
    ensures b.moved <==> (|h| > 1 && (if dir == Prev then index + 1 < |h| else index > 0))
    ensures b.moved ==> b.index == (if dir == Prev then index + 1 else index - 1)
    ensures b.moved ==> b.text == b.entries[Slot(h, b.index)][..Min(|b.entries[Slot(h, b.index)]|, cap)]
    ensures !b.moved ==> b.text == text && b.index == index
  {
    if |h| <= 1 then Browse(h, index, text, false)
    else
      var h1 := h[Slot(h, index) := CStr(text)];
      var i: int := if dir == Prev then index + 1 else index - 1;
      if i < 0 then Browse(h1, 0, text, false)
      else if i >= |h| then Browse(h1, |h| - 1, text, false)
      else
        var e := h1[Slot(h, i)];
        Browse(h1, i, e[..Min(|e|, cap)], true)
  }

  /** Paging one entry away and back again shows the edited text as it was
      left, and every other entry keeps its content: edits are not lost. */
  lemma {:induction false} BrowseAwayAndBack(h: seq<string>, index: nat, text: seq<char>, cap: nat)
    requires index + 1 < |h| && Nul !in text && |text| <= cap
    ensures var b1 := Browsed(h, index, text, cap, Prev);
      var b2 := Browsed(b1.entries, b1.index, b1.text, cap, Next);
      && b2.index == index && b2.text == text && b2.moved
      && b2.entries[Slot(h, index)] == text
      && forall k :: 0 <= k < |h| && k != Slot(h, index) && k != Slot(h, index + 1) ==> b2.entries[k] == h[k]
  {
    var b1 := Browsed(h, index, text, cap, Prev);
    assert b1.entries[Slot(h, index)] == text;
    var b2 := Browsed(b1.entries, b1.index, b1.text, cap, Next);
    assert b2.entries[Slot(h, index)] == text;
  }

  /** Example: with entries "a" and "b" and the session's
      own slot holding "c" being typed, Prev shows "b"; after editing it to
      "B", Prev shows "a" and Next shows "B" again. */
  lemma BrowseExample()
    ensures var b1 := Browsed(["a", "b", ""], 0, "c", 10, Prev);
      && b1.text == "b"
      && var b2 := Browsed(b1.entries, b1.index, "B", 10, Prev);
      && b2.text == "a"
      && var b3 := Browsed(b2.entries, b2.index, b2.text, 10, Next);
      && b3.text == "B" && b3.entries == ["a", "B", "c"]
  {
    assert CStr("c") == "c";
    assert CStr("B") == "B";
    assert CStr("a") == "a";
  }

  // ---------------------------------------------------------------- the store

  /** The process-wide history: `history`, `history_len` and
      `history_max_len` (clir.c:120-122). */
  class Store {
    var entries: seq<string>
    var maxLen: nat

    ghost predicate Valid()
      reads this
    {
      1 <= maxLen && |entries| <= maxLen && forall e :: e in entries ==> Nul !in e
    }

    /** The history before anything is added (clir.c:120-122). */
    constructor ()
      ensures Valid() && entries == [] && maxLen == DefaultMaxLen
    {
      entries := [];
      maxLen := DefaultMaxLen;
    }

    /** `clirHistoryAdd` (clir.c:911-931); `added` is its return value. */
    method Add(line: string) returns (added: bool)
      requires Valid() && Nul !in line
      modifies this`entries
      ensures Valid()
      ensures entries == Added(old(entries), maxLen, line)
      ensures added == Appends(old(entries), maxLen, line)
    {
      if maxLen == 0 {
        return false;
      }
      if |entries| == maxLen {
        entries := entries[1..];
      }
      if |entries| > 0 && entries[|entries| - 1] == line {
        return false;
      }
      entries := entries + [line];
      added := true;
    }

    /** `clirHistorySetMaxLen` (clir.c:937-963): a length below 1 is refused
      and changes nothing; otherwise the newest entries that fit are kept. */
    method SetMaxLen(n: int) returns (ok: bool)
      requires Valid()
      modifies this
      ensures Valid()
      ensures ok == (n >= 1)
      ensures !ok ==> entries == old(entries) && maxLen == old(maxLen)
      ensures ok ==> maxLen == n && entries == Resized(old(entries), n)
    {
      if n < 1 {
        return false;
      }
      var tocopy := |entries|;
      if n < tocopy {
        tocopy := n;
      }
      entries := entries[|entries| - tocopy..];
      maxLen := n;
      ok := true;
    }

    /** `clirHistorySave` (clir.c:967-976): the text written to the file,
        or None with -1 when the file cannot be opened (`canOpen` is false). */
    method Save(canOpen: bool) returns (code: int, file: Option<string>)
      requires Valid()
      ensures !canOpen ==> code == -1 && file.None?
      ensures canOpen ==> code == 0 && file == Some(Serialize(entries))
    {
      if !canOpen {
        return -1, None;
      }
      var text: string := [];
      var j := 0;
      while j < |entries|
        invariant 0 <= j <= |entries|
        invariant text + Serialize(entries[j..]) == Serialize(entries)
      {
        assert entries[j..] == [entries[j]] + entries[j + 1..];
        text := text + entries[j] + [Newline];
        j := j + 1;
      }
      assert entries[j..] == [] && text + [] == text;
      code, file := 0, Some(text);
    }

    /** `clirHistoryLoad` (clir.c:983-999): `file` is the file's content, or
      None when it cannot be opened, which is reported with -1. */
    method Load(file: Option<string>) returns (code: int)
      requires Valid()
      modifies this`entries
      ensures Valid()
      ensures file.None? ==> code == -1 && entries == old(entries)
      ensures file.Some? ==> code == 0 && entries == AddAll(old(entries), maxLen, Lines(file.value))
    {
      if file.None? {
        return -1;
      }
      var rest := file.value;
      while rest != []
        invariant Valid()
        invariant AddAll(entries, maxLen, Lines(rest)) == AddAll(old(entries), maxLen, Lines(file.value))
        decreases |rest|
      {
        var n := ChunkEnd(rest);
        var line := ParseLine(rest[..n]);
        var _ := Add(line);
        rest := rest[n..];
      }
      code := 0;
    }
  }
}
