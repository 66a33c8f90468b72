/**
 * The earlier line tokenizer (hw-01/log-analyzer/log_analyzer.py): `parse_items` walks the
 * line once, opening a chunk at one character and closing it at the first later character that
 * `check_chunk_end` accepts as a terminator for the text gathered so far.
 */
module ChunkParser {

  /** `check_chunk_end(acc, c)`: does `c` close the chunk whose text so far is `acc`? */
  function CheckChunkEnd(acc: string, c: char): (r: bool)
    ensures c == ']' ==> r
    ensures c == '"' ==> (r <==> '"' in acc)
    ensures c == '\'' ==> (r <==> '\'' in acc)
    ensures c == ' ' ==> (r <==> '[' !in acc && '"' !in acc && '\'' !in acc)
    ensures c != ']' && c != '"' && c != '\'' && c != ' ' ==> !r
  {
    if c == ']' then true
    else if c == '"' && '"' in acc then true
    else if c == '\'' && '\'' in acc then true
    else if c == ' ' && ('[' !in acc && '"' !in acc && '\'' !in acc) then true
    else false
  }

  /** The characters Python's `str.strip()` removes (those for which `str.isspace()` holds). */
  predicate IsSpace(c: char)
  {
    || c == ' ' || ('\t' <= c <= '\r') || ('\U{1C}' <= c <= '\U{1F}')
    || c == '\U{85}' || c == '\U{A0}' || c == '\U{1680}' || ('\U{2000}' <= c <= '\U{200A}')
    || c == '\U{2028}' || c == '\U{2029}' || c == '\U{202F}' || c == '\U{205F}' || c == '\U{3000}'
  }

  /** `s.lstrip()`. */
  function TrimStart(s: string): (r: string)
    ensures |r| <= |s|
    ensures r == [] || !IsSpace(r[0])
    ensures forall j :: 0 <= j < |s| - |r| ==> IsSpace(s[j])
  {
    if s != [] && IsSpace(s[0]) then TrimStart(s[1..]) else s
  }

  /** `s.rstrip()`. */
  function TrimEnd(s: string): (r: string)
    ensures |r| <= |s|
    ensures r == [] || !IsSpace(r[|r| - 1])
    ensures forall j :: |r| <= j < |s| ==> IsSpace(s[j])
  {
    if s != [] && IsSpace(s[|s| - 1]) then TrimEnd(s[..|s| - 1]) else s
  }

  /** `lstrip` only removes characters: what is left is a suffix of `s`. */
  lemma {:induction false} TrimStartIsSuffix(s: string)
    ensures TrimStart(s) == s[|s| - |TrimStart(s)|..]
  {
    if s != [] && IsSpace(s[0]) {
      TrimStartIsSuffix(s[1..]);
    } else {
      assert s[0..] == s;
    }
  }

  /** `rstrip` only removes characters: what is left is a prefix of `s`. */
  lemma {:induction false} TrimEndIsPrefix(s: string)
    ensures TrimEnd(s) == s[..|TrimEnd(s)|]
  {
    if s != [] && IsSpace(s[|s| - 1]) {
      TrimEndIsPrefix(s[..|s| - 1]);
    } else {
      assert s[..|s|] == s;
    }
  }

  /** `s.strip()`: neither leading nor trailing whitespace is left. */
  function Strip(s: string): (r: string)
    ensures |r| <= |s|
    ensures r == [] || (!IsSpace(r[0]) && !IsSpace(r[|r| - 1]))
  {
    var e := TrimEnd(s);
    TrimStartIsSuffix(e);
    TrimStart(e)
  }

  /**
   * `strip` keeps a contiguous slice of `s`, and everything it drops around that slice is
   * whitespace.
   */
  lemma StripIsSlice(s: string)
    ensures exists lo, hi :: (0 <= lo <= hi <= |s| && Strip(s) == s[lo..hi]
      && (forall j :: 0 <= j < lo ==> IsSpace(s[j]))
      && (forall j :: hi <= j < |s| ==> IsSpace(s[j])))
  {
    var e := TrimEnd(s);
    var r := TrimStart(e);
    TrimEndIsPrefix(s);
    TrimStartIsSuffix(e);
    var lo, hi := |e| - |r|, |e|;
    assert e == s[..hi];
    assert r == e[lo..] == s[lo..hi];
    assert forall j :: 0 <= j < lo ==> IsSpace(s[j]) by {
      forall j | 0 <= j < lo ensures IsSpace(s[j]) {
        assert s[j] == e[j];
      }
    }
  }

  /** A chunk is the slice `raw[lo..hi]`, its terminator included. */
  datatype Span = Span(lo: nat, hi: nat)

  /**
   * The loop's variables after a prefix of the line: the chunks closed so far, where the
   * current chunk opened, `item_in_process` and `item`.
   */
  datatype ChunkState = ChunkState(closed: seq<Span>, open: nat, inProcess: bool, item: string)

  /** One turn of the loop body, on character `raw[i]`. */
  function ChunkStep(raw: string, st: ChunkState, i: nat): ChunkState
    requires i < |raw|
  {
    if !st.inProcess then
      // The opening character is appended without being tested.
      ChunkState(st.closed, i, true, [raw[i]])
    else if CheckChunkEnd(st.item, raw[i]) then
      ChunkState(st.closed + [Span(st.open, i + 1)], st.open, false, st.item + [raw[i]])
    else
      ChunkState(st.closed, st.open, true, st.item + [raw[i]])
  }

  /** The loop's state once it has consumed `raw[..n]`; the closed chunks lie inside it. */
  function ChunkPrefix(raw: string, n: nat): (st: ChunkState)
    requires n <= |raw|
    ensures forall k :: 0 <= k < |st.closed| ==> st.closed[k].lo <= st.closed[k].hi <= n
    ensures st.open <= n
  {
    if n == 0 then ChunkState([], 0, false, "") else ChunkStep(raw, ChunkPrefix(raw, n - 1), n - 1)
  }

  function StrippedChunks(raw: string, spans: seq<Span>): (r: seq<string>)
    requires forall k :: 0 <= k < |spans| ==> spans[k].lo <= spans[k].hi <= |raw|
    ensures |r| == |spans|
    ensures forall k :: 0 <= k < |r| ==> r[k] == Strip(raw[spans[k].lo..spans[k].hi])
  {
    seq(|spans|, k requires 0 <= k < |spans| => Strip(raw[spans[k].lo..spans[k].hi]))
  }

  lemma StrippedChunksAppend(raw: string, spans: seq<Span>, sp: Span)
    requires forall k :: 0 <= k < |spans| ==> spans[k].lo <= spans[k].hi <= |raw|
    requires sp.lo <= sp.hi <= |raw|
    ensures StrippedChunks(raw, spans + [sp]) == StrippedChunks(raw, spans) + [Strip(raw[sp.lo..sp.hi])]
  {
  }

  /**
   * What `parse_items(raw)` returns: the closed chunks, stripped, then the pending `item`
   * with the line's last character appended once more, stripped.
   */
  function ChunkItems(raw: string): seq<string>
    requires |raw| > 0
  {
    var st := ChunkPrefix(raw, |raw|);
    StrippedChunks(raw, st.closed) + [Strip(st.item + [raw[|raw| - 1]])]
  }

  /**
   * `parse_items(raw)`. An empty line makes the source raise (its loop variable is unbound
   * after a loop that never ran), hence the precondition. One item per terminator, plus one;
   * none with surrounding whitespace.
   */
  method ParseItems(raw: string) returns (items: seq<string>)
    requires |raw| > 0
    ensures items == ChunkItems(raw)
    ensures |items| == |ChunkPrefix(raw, |raw|).closed| + 1
    ensures forall k :: 0 <= k < |items| ==>
      items[k] == [] || (!IsSpace(items[k][0]) && !IsSpace(items[k][|items[k]| - 1]))
  {
    var item := "";
    var inProcess := false;
    items := [];
    ghost var st := ChunkPrefix(raw, 0);
    for i := 0 to |raw|
      invariant st == ChunkPrefix(raw, i)
      invariant st.item == item && st.inProcess == inProcess
      invariant items == StrippedChunks(raw, st.closed)
      invariant inProcess ==> st.open < i && item == raw[st.open..i]
    {
      ChunkStepItems(raw, i);
      st := ChunkPrefix(raw, i + 1);
      if !inProcess {
        inProcess := true;
        item := "";
      } else if CheckChunkEnd(item, raw[i]) {
        items := items + [Strip(item + [raw[i]])];
        inProcess := false;
      }
      item := item + [raw[i]];
    }
    items := items + [Strip(item + [raw[|raw| - 1]])];
    ChunkItemsStripped(raw);
  }

  /** No item `parse_items` returns starts or ends with whitespace. */
  lemma ChunkItemsStripped(raw: string)
    requires |raw| > 0
    ensures forall k :: 0 <= k < |ChunkItems(raw)| ==>
      var x := ChunkItems(raw)[k];
      x == [] || (!IsSpace(x[0]) && !IsSpace(x[|x| - 1]))
  {
    var items := ChunkItems(raw);
    forall k | 0 <= k < |items| ensures items[k] == [] || (!IsSpace(items[k][0]) && !IsSpace(items[k][|items[k]| - 1])) {
      var st := ChunkPrefix(raw, |raw|);
      if k < |st.closed| {
        assert items[k] == StrippedChunks(raw, st.closed)[k];
      } else {
        assert items[k] == Strip(st.item + [raw[|raw| - 1]]);
      }
    }
  }

  /** How one turn of the loop changes the list of stripped chunks. */
  lemma ChunkStepItems(raw: string, i: nat)
    requires i < |raw|
    requires ChunkPrefix(raw, i).inProcess ==>
      ChunkPrefix(raw, i).open < i && ChunkPrefix(raw, i).item == raw[ChunkPrefix(raw, i).open..i]
    ensures var st, st' := ChunkPrefix(raw, i), ChunkPrefix(raw, i + 1);
      && StrippedChunks(raw, st'.closed) == StrippedChunks(raw, st.closed) +
           (if st.inProcess && CheckChunkEnd(st.item, raw[i]) then [Strip(st.item + [raw[i]])] else [])
      && (st'.inProcess ==> st'.open < i + 1 && st'.item == raw[st'.open..i + 1])
  {
    var st, st' := ChunkPrefix(raw, i), ChunkPrefix(raw, i + 1);
    assert st' == ChunkStep(raw, st, i);
    if st.inProcess && CheckChunkEnd(st.item, raw[i]) {
      assert st'.closed == st.closed + [Span(st.open, i + 1)];
      assert raw[st.open..i + 1] == st.item + [raw[i]];
      StrippedChunksAppend(raw, st.closed, Span(st.open, i + 1));
    } else if st.inProcess {
      assert raw[st.open..i + 1] == st.item + [raw[i]];
    } else {
      assert st'.item == raw[i..i + 1];
    }
  }

  /**
   * `sp` is a closed chunk: it holds its opening character and its terminator (so at least two
   * characters), the terminator ends the text before it, and no character in between did.
   */
  ghost predicate IsChunk(raw: string, sp: Span)
  {
    && sp.lo + 2 <= sp.hi <= |raw|
    && CheckChunkEnd(raw[sp.lo..sp.hi - 1], raw[sp.hi - 1])
    && (forall j :: sp.lo < j < sp.hi - 1 ==> !CheckChunkEnd(raw[sp.lo..j], raw[j]))
  }

  /** The chunks follow one another from the start of the line, without gaps. */
  ghost predicate Tiled(raw: string, spans: seq<Span>)
  {
    && (forall k :: 0 <= k < |spans| ==> IsChunk(raw, spans[k]))
    && (|spans| > 0 ==> spans[0].lo == 0)
    && (forall k :: 0 <= k < |spans| - 1 ==> spans[k].hi == spans[k + 1].lo)
  }

  /** Where the next chunk opens: right after the last closed one. */
  function NextOpen(spans: seq<Span>): nat
  {
    if spans == [] then 0 else spans[|spans| - 1].hi
  }

  /** What holds of the loop after every prefix of the line. */
  ghost predicate ChunkInvariant(raw: string, n: nat, st: ChunkState)
    requires n <= |raw|
  {
    && Tiled(raw, st.closed)
    && (n == 0 ==> st == ChunkState([], 0, false, ""))
    && (n > 0 && st.inProcess ==>
         && st.open == NextOpen(st.closed) < n
         && st.item == raw[st.open..n]
         && forall j :: st.open < j < n ==> !CheckChunkEnd(raw[st.open..j], raw[j]))
    && (n > 0 && !st.inProcess ==>
         && |st.closed| > 0
         && st.closed[|st.closed| - 1].hi == n
         && st.item == raw[st.closed[|st.closed| - 1].lo..n])
  }

  /** The character opens a new chunk. */
  lemma OpenKeepsInvariant(raw: string, i: nat, st: ChunkState)
    requires i < |raw| && ChunkInvariant(raw, i, st)
    requires !st.inProcess
    ensures ChunkInvariant(raw, i + 1, ChunkStep(raw, st, i))
  {
    assert ChunkStep(raw, st, i).item == raw[i..i + 1];
  }

  /** The character terminates the current chunk. */
  lemma CloseKeepsInvariant(raw: string, i: nat, st: ChunkState)
    requires i < |raw| && ChunkInvariant(raw, i, st)
    requires st.inProcess && CheckChunkEnd(st.item, raw[i])
    ensures ChunkInvariant(raw, i + 1, ChunkStep(raw, st, i))
  {
    var st' := ChunkStep(raw, st, i);
    ClosedChunk(raw, i, st);
    CloseFacts(raw, i, st);
    ClosedInvariant(raw, i + 1, st');
  }

  /** After the terminator the chunk from the opener to it is the last closed one. */
  lemma CloseFacts(raw: string, i: nat, st: ChunkState)
    requires i < |raw| && st.inProcess && CheckChunkEnd(st.item, raw[i])
    requires Tiled(raw, st.closed) && st.open == NextOpen(st.closed) < i && st.item == raw[st.open..i]
    requires IsChunk(raw, Span(st.open, i + 1))
    ensures var st' := ChunkStep(raw, st, i);
      && !st'.inProcess
      && st'.closed == st.closed + [Span(st.open, i + 1)]
      && Tiled(raw, st'.closed)
      && st'.item == raw[st.open..i + 1]
  {
    TiledAppend(raw, st.closed, Span(st.open, i + 1));
    assert raw[st.open..i + 1] == st.item + [raw[i]];
  }

  /** The invariant right after a chunk closes at `n`. */
  lemma ClosedInvariant(raw: string, n: nat, st: ChunkState)
    requires 0 < n <= |raw| && !st.inProcess
    requires Tiled(raw, st.closed) && |st.closed| > 0
    requires st.closed[|st.closed| - 1].hi == n
    requires st.item == raw[st.closed[|st.closed| - 1].lo..n]
    ensures ChunkInvariant(raw, n, st)
  {
  }

  /** The span from the opening character to the terminator is a chunk. */
  lemma ClosedChunk(raw: string, i: nat, st: ChunkState)
    requires i < |raw| && st.open < i && st.item == raw[st.open..i] && CheckChunkEnd(st.item, raw[i])
    requires forall j :: st.open < j < i ==> !CheckChunkEnd(raw[st.open..j], raw[j])
    ensures IsChunk(raw, Span(st.open, i + 1))
  {
    assert raw[st.open..i] == st.item;
  }

  /** A chunk opening where the last one closed extends a tiling. */
  lemma TiledAppend(raw: string, spans: seq<Span>, sp: Span)
    requires Tiled(raw, spans) && IsChunk(raw, sp) && sp.lo == NextOpen(spans)
    ensures Tiled(raw, spans + [sp])
  {
  }

  /** The character extends the current chunk. */
  lemma ExtendKeepsInvariant(raw: string, i: nat, st: ChunkState)
    requires i < |raw| && ChunkInvariant(raw, i, st)
    requires st.inProcess && !CheckChunkEnd(st.item, raw[i])
    ensures ChunkInvariant(raw, i + 1, ChunkStep(raw, st, i))
  {
    var st' := ChunkStep(raw, st, i);
    assert st'.item == raw[st.open..i + 1];
    assert raw[st.open..i] == st.item;
  }

  lemma {:induction false} ChunkInvariantHolds(raw: string, n: nat)
    requires n <= |raw|
    ensures ChunkInvariant(raw, n, ChunkPrefix(raw, n))
  {
    if n > 0 {
      var i := n - 1;
      ChunkInvariantHolds(raw, i);
      var st := ChunkPrefix(raw, i);
      assert ChunkPrefix(raw, n) == ChunkStep(raw, st, i);
      if !st.inProcess {
        OpenKeepsInvariant(raw, i, st);
      } else if CheckChunkEnd(st.item, raw[i]) {
        CloseKeepsInvariant(raw, i, st);
      } else {
        ExtendKeepsInvariant(raw, i, st);
      }
    }
  }

  /**
   * The closed chunks tile the line from its first character: each one opens right where the
   * previous one closed, holds at least two characters, and is closed by the first character
   * after its opener that `check_chunk_end` accepts. After the last of them comes either
   * nothing (the last character closed a chunk) or the pending chunk, which no character closed.
   */
  lemma ChunksTileLine(raw: string)
    requires |raw| > 0
    ensures var st := ChunkPrefix(raw, |raw|);
      && Tiled(raw, st.closed)
      && (forall k :: 0 <= k < |st.closed| ==> st.closed[k].hi - st.closed[k].lo >= 2)
      && (st.inProcess ==>
           && st.open == NextOpen(st.closed) < |raw|
           && forall j :: st.open < j < |raw| ==> !CheckChunkEnd(raw[st.open..j], raw[j]))
      && (!st.inProcess ==> NextOpen(st.closed) == |raw|)
  {
    ChunkInvariantHolds(raw, |raw|);
  }

  /**
   * The text stripped into the final item is the pending `item` followed by the line's last
   * character twice: `item` already ends with that character and the source appends it again.
   */
  lemma FinalItemRepeatsLastCharacter(raw: string)
    requires |raw| > 0
    ensures var st := ChunkPrefix(raw, |raw|);
      var c := raw[|raw| - 1];
      && |st.item| > 0
      && ChunkItems(raw)[|ChunkItems(raw)| - 1] == Strip(st.item[..|st.item| - 1] + [c, c])
  {
    var st := ChunkPrefix(raw, |raw|);
    var c := raw[|raw| - 1];
    var prev := ChunkPrefix(raw, |raw| - 1);
    assert st == ChunkStep(raw, prev, |raw| - 1);
    assert st.item == st.item[..|st.item| - 1] + [c];
    var items := ChunkItems(raw);
    assert items[|items| - 1] == Strip(st.item + [c]);
    assert st.item + [c] == st.item[..|st.item| - 1] + [c, c];
  }
}
