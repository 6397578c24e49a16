/** Word completion, `completeWord` (clir.c:241-292).  The completion callback
    supplies candidate words; the word being completed is the text between the
    session's word start and the cursor. */
module Completion {

  /** The candidate agrees with the typed word over their common length: the
      byte test of the source's inner loop (clir.c:258-262), which stops at
      the end of either. */
  predicate Agrees(cand: string, typed: string) {
    forall k :: 0 <= k < |cand| && k < |typed| ==> cand[k] == typed[k]
  }

  /** The candidate begins with the typed word. */
  predicate Extends(cand: string, typed: string) {
    |typed| <= |cand| && cand[..|typed|] == typed
  }

  /** A candidate extends the word exactly when it agrees with it and is not
      shorter than it. */
  lemma ExtendsIffAgreesAndLonger(cand: string, typed: string)
    ensures Extends(cand, typed) <==> Agrees(cand, typed) && |typed| <= |cand|
  {
    if Agrees(cand, typed) && |typed| <= |cand| {
      assert forall k :: 0 <= k < |typed| ==> cand[..|typed|][k] == typed[k];
    }
  }

  /** The candidates `keep` accepts, in their order. */
  function Select(cands: seq<string>, keep: string -> bool): (r: seq<string>)
    ensures |r| <= |cands|
    ensures forall c :: c in r <==> c in cands && keep(c)
  {
    if cands == [] then []
    else (if keep(cands[0]) then [cands[0]] else []) + Select(cands[1..], keep)
  }

  lemma {:induction false} SelectAppend(cands: seq<string>, c: string, keep: string -> bool)
    ensures Select(cands + [c], keep) == Select(cands, keep) + (if keep(c) then [c] else [])
  {
    if cands == [] {
      assert [] + [c] == [c];
    } else {
      assert (cands + [c])[1..] == cands[1..] + [c];
      SelectAppend(cands[1..], c, keep);
    }
  }

  /** The positions from i on of the candidates `keep` accepts, in
      increasing order. */
  function KeptFrom(cands: seq<string>, keep: string -> bool, i: nat): (ix: seq<nat>)
    requires i <= |cands|
    ensures forall k :: 0 <= k < |ix| ==> i <= ix[k] < |cands| && keep(cands[ix[k]])
    ensures forall k, m :: 0 <= k < m < |ix| ==> ix[k] < ix[m]
    ensures forall j :: i <= j < |cands| && keep(cands[j]) ==> j in ix
    decreases |cands| - i
  {
    if i == |cands| then []
    else (if keep(cands[i]) then [i] else []) + KeptFrom(cands, keep, i + 1)
  }

  /** Selecting from position i on picks the candidates at the kept
      positions, in order. */
  lemma {:induction false} SelectPicksKept(cands: seq<string>, keep: string -> bool, i: nat)
    requires i <= |cands|
    ensures var r, ix := Select(cands[i..], keep), KeptFrom(cands, keep, i);
      |r| == |ix| && forall k :: 0 <= k < |r| ==> r[k] == cands[ix[k]]
    decreases |cands| - i
  {
    if i < |cands| {
      var r, ix := Select(cands[i..], keep), KeptFrom(cands, keep, i);
      var r1, ix1 := Select(cands[i + 1..], keep), KeptFrom(cands, keep, i + 1);
      assert cands[i..][1..] == cands[i + 1..];
      SelectPicksKept(cands, keep, i + 1);
      assert r == (if keep(cands[i]) then [cands[i]] else []) + r1;
      assert ix == (if keep(cands[i]) then [i] else []) + ix1;
      if keep(cands[i]) {
        forall k | 0 <= k < |r|
          ensures r[k] == cands[ix[k]]
        {
          if k > 0 {
            assert r[k] == r1[k - 1] && ix[k] == ix1[k - 1];
          }
        }
      }
    }
  }

  /** The candidates that extend the typed word. */
  function Matches(cands: seq<string>, typed: string): seq<string> {
    Select(cands, c => Extends(c, typed))
  }

  /** The matches are the candidates that extend the typed word, each once
      per occurrence and in the order the callback offered them: the k-th
      match is the candidate at the k-th of the increasing positions that
      hold exactly the extending candidates. */
  lemma MatchesInOrder(cands: seq<string>, typed: string)
    ensures var m, ix := Matches(cands, typed), KeptFrom(cands, c => Extends(c, typed), 0);
      && |m| == |ix|
      && (forall k :: 0 <= k < |m| ==> m[k] == cands[ix[k]])
      && (forall k, n :: 0 <= k < n < |ix| ==> ix[k] < ix[n])
      && (forall j :: 0 <= j < |cands| ==> (j in ix <==> Extends(cands[j], typed)))
  {
    var keep := c => Extends(c, typed);
    SelectPicksKept(cands, keep, 0);
    assert cands[0..] == cands;
  }

  /** What a completion request comes to. */
  datatype Outcome =
    | NoCandidates              // the callback offered nothing: the bell rings
    | NoMatch                   // no candidate extends the word
    | Unique(word: string)      // exactly one does: its rest is inserted
    | Listed(words: seq<string>) // several do: they are listed

  /** The outcome of completing `typed` against `cands`. */
  function CompletionOf(cands: seq<string>, typed: string): (o: Outcome)
    ensures o == NoCandidates <==> cands == []
    ensures o.Unique? ==> (o.word in cands && Extends(o.word, typed)
      && forall c :: c in cands && c != o.word ==> !Extends(c, typed))
    ensures o.Listed? ==> (|o.words| >= 2
      && forall c :: c in o.words <==> c in cands && Extends(c, typed))
    ensures o == NoMatch ==> cands != [] && forall c :: c in cands ==> !Extends(c, typed)
    ensures cands != [] ==> (o.Unique? <==> |Matches(cands, typed)| == 1)
    ensures o.Unique? ==> Matches(cands, typed) == [o.word]
    ensures o.Listed? ==> o.words == Matches(cands, typed)
  {
    var m := Matches(cands, typed);
    if cands == [] then NoCandidates
    else if |m| == 0 then NoMatch
    else if |m| == 1 then
      assert m[0] in m;
      assert forall c :: c in m ==> c == m[0];
      Unique(m[0])
    else Listed(m)
  }

  /** The bytes inserted at the cursor for a unique match: the rest of the
      word and a space (clir.c:272-276). */
  function Suffix(word: string, typed: string): (ins: string)
    requires Extends(word, typed)
    ensures |ins| > 0 && word == typed + ins[..|ins| - 1] && ins[|ins| - 1] == ' '
  {
    word[|typed|..] + " "
  }

  /** The value `completeWord` returns: 1 when it listed several matches,
      telling the caller to redraw, and 0 otherwise. */
  function ReturnCode(o: Outcome): int {
    if o.Listed? then 1 else 0
  }

  /** The source's filter loop (clir.c:247-269), with a candidate that ends
      before the typed word counted as no match: `valid[i]` says whether
      candidate i extends the word, `count` how many do and `last` which one
      was seen last. */
  method Filter(cands: seq<string>, typed: string) returns (valid: seq<bool>, count: nat, last: nat)
    ensures |valid| == |cands|
    ensures forall i :: 0 <= i < |cands| ==> valid[i] == Extends(cands[i], typed)
    ensures count == |Matches(cands, typed)|
    ensures count > 0 ==> last < |cands| && valid[last] && forall i :: last < i < |cands| ==> !valid[i]
    ensures count == 1 ==> Matches(cands, typed) == [cands[last]]
  {
    valid, count, last := [], 0, 0;
    var i := 0;
    while i < |cands|
      invariant 0 <= i <= |cands| && |valid| == i
      invariant forall k :: 0 <= k < i ==> valid[k] == Extends(cands[k], typed)
      invariant count == |Matches(cands[..i], typed)|
      invariant count > 0 ==> last < i && valid[last] && forall k :: last < k < i ==> !valid[k]
      invariant count == 1 ==> Matches(cands[..i], typed) == [cands[last]]
    {
      var cand := cands[i];
      var ok := Agreeing(cand, typed);
      assert cands[..i + 1] == cands[..i] + [cand];
      SelectAppend(cands[..i], cand, c => Extends(c, typed));
      valid := valid + [ok];
      if ok {
        last := i;
        count := count + 1;
      }
      i := i + 1;
    }
    assert cands[..i] == cands;
  }

  /** The byte comparison of one candidate (clir.c:258-262), with a
      candidate that ends before the typed word counted as no match. */
  method Agreeing(cand: string, typed: string) returns (ok: bool)
    ensures ok == Extends(cand, typed)
  {
    ok := true;
    var j := 0;
    while j < |cand| && j < |typed|
      invariant 0 <= j <= |cand| && j <= |typed|
      invariant ok == (forall k :: 0 <= k < j ==> cand[k] == typed[k])
    {
      if cand[j] != typed[j] {
        ok := false;
      }
      j := j + 1;
    }
    if j < |typed| {
      ok := false;
    }
    ExtendsIffAgreesAndLonger(cand, typed);
  }

  /** Example: with the candidates of the program's example callback
      (example.c:7-14) narrowed to "hello", "he" completes to "hello ". */
  lemma UniqueExample()
    ensures CompletionOf(["hello"], "he") == Unique("hello")
    ensures Suffix("hello", "he") == "llo "
  {
    assert "hello"[..2] == "he";
    var keep := c => Extends(c, "he");
    assert keep("hello");
    assert Select(["hello"], keep) == ["hello"] + Select([], keep);
  }

  /** Example: "h" against the four words the program's example callback
      offers (example.c:7-14) lists all four and asks for a redraw. */
  lemma ListedExample()
    ensures CompletionOf(["hello", "hi", "hey", "howzit"], "h") == Listed(["hello", "hi", "hey", "howzit"])
    ensures ReturnCode(CompletionOf(["hello", "hi", "hey", "howzit"], "h")) == 1
  {
    var cands := ["hello", "hi", "hey", "howzit"];
    var keep := c => Extends(c, "h");
    assert "hello"[..1] == "h" && "hi"[..1] == "h" && "hey"[..1] == "h" && "howzit"[..1] == "h";
    assert keep("hello") && keep("hi") && keep("hey") && keep("howzit");
    assert cands[1..] == ["hi", "hey", "howzit"];
    assert cands[1..][1..] == ["hey", "howzit"];
    assert cands[1..][1..][1..] == ["howzit"];
    assert Select(["howzit"], keep) == ["howzit"] + Select([], keep);
    assert Select(["hey", "howzit"], keep) == ["hey", "howzit"];
    assert Select(["hi", "hey", "howzit"], keep) == ["hi", "hey", "howzit"];
    assert Select(cands, keep) == cands;
  }
}
