/**
 * The line reader of the access-log analyzer (hw-01-log_analyzer/log_analyzer.py):
 * `split_by_space`, a one-pass tokenizer that does not cut inside quoted or bracketed spans;
 * `parse_line`, which pairs the tokens with the thirteen field names of the log format; and
 * `process_log_line`, which cleans `request_time` and converts it to a number in place.
 */
module LogAnalyzer {
  import opened Wrappers

  // ---------------------------------------------------------------------------------------
  // split_by_space
  // ---------------------------------------------------------------------------------------

  /** The default `item_symbols`: each occurrence flips the "inside an item" flag. */
  predicate IsMarker(c: char)
  {
    c == '"' || c == '[' || c == ']'
  }

  /** Number of marker characters in `t`. */
  function Markers(t: string): nat
  {
    if t == [] then 0 else Markers(t[..|t| - 1]) + (if IsMarker(t[|t| - 1]) then 1 else 0)
  }

  /**
   * Position `j` is a separator: a space met while an even number of markers has been seen,
   * that is, outside every quoted or bracketed span.
   */
  predicate IsSeparator(s: string, j: nat)
    requires j < |s|
  {
    s[j] == ' ' && Markers(s[..j]) % 2 == 0
  }

  /** An item is the slice `s[lo..hi]`. */
  datatype Span = Span(lo: nat, hi: nat)

  /** The scanner's variables after a prefix of the line: items cut so far, `i_start`, `inside_item`. */
  datatype ScanState = ScanState(cuts: seq<Span>, start: nat, inside: bool)

  /** One turn of the loop body, on character `s[i]`. */
  function ScanStep(s: string, st: ScanState, i: nat): ScanState
    requires i < |s|
  {
    var inside := if IsMarker(s[i]) then !st.inside else st.inside;
    if s[i] == ' ' && !inside then
      ScanState(if i - st.start > 0 then st.cuts + [Span(st.start, i)] else st.cuts, i + 1, inside)
    else
      ScanState(st.cuts, st.start, inside)
  }

  /** The scanner's state once the loop has consumed `s[..n]`. */
  function ScanPrefix(s: string, n: nat): (st: ScanState)
    requires n <= |s|
    ensures st.start <= n
    ensures forall k :: 0 <= k < |st.cuts| ==> st.cuts[k].lo < st.cuts[k].hi < st.start
  {
    if n == 0 then ScanState([], 0, false) else ScanStep(s, ScanPrefix(s, n - 1), n - 1)
  }

  /**
   * The spans of the items `split_by_space(s)` returns, the one cut after the loop included.
   * Every item is non-empty and ends before the last character of the line, which therefore
   * never belongs to an item.
   */
  function SplitSpans(s: string): (spans: seq<Span>)
    ensures forall k :: 0 <= k < |spans| ==> spans[k].lo < spans[k].hi <= |s| - 1
  {
    var st := ScanPrefix(s, |s|);
    if |s| - 1 - st.start > 0 then st.cuts + [Span(st.start, |s| - 1)] else st.cuts
  }

  predicate SpansWithin(s: string, spans: seq<Span>)
  {
    forall k :: 0 <= k < |spans| ==> spans[k].lo <= spans[k].hi <= |s|
  }

  function Slices(s: string, spans: seq<Span>): (r: seq<string>)
    requires SpansWithin(s, spans)
    ensures |r| == |spans|
    ensures forall k :: 0 <= k < |r| ==> r[k] == s[spans[k].lo..spans[k].hi]
  {
    seq(|spans|, k requires 0 <= k < |spans| => s[spans[k].lo..spans[k].hi])
  }

  /** The items `split_by_space(s)` returns. */
  function Items(s: string): seq<string>
  {
    Slices(s, SplitSpans(s))
  }

  /** `split_by_space(s)`; it never raises, whatever the line. */
  method SplitBySpace(s: string) returns (items: seq<string>)
    ensures items == Items(s)
    ensures forall k :: 0 <= k < |items| ==> |items[k]| > 0
    ensures |s| <= 1 ==> items == []
  {
    items := [];
    var start := 0;
    var inside := false;
    for i := 0 to |s|
      invariant ScanPrefix(s, i).start == start
      invariant ScanPrefix(s, i).inside == inside
      invariant items == Slices(s, ScanPrefix(s, i).cuts)
    {
      if IsMarker(s[i]) {
        inside := !inside;
      }
      if s[i] == ' ' {
        if !inside {
          if i - start > 0 {
            items := items + [s[start..i]];
          }
          start := i + 1;
        }
      }
    }
    // The source slices up to its loop variable, which is |s| - 1 once the loop has run; the
    // guard needs |s| >= 2, so the loop has run whenever the slice is taken.
    if |s| - 1 - start > 0 {
      items := items + [s[start..|s| - 1]];
    }
  }

  /** `sp` is a maximal run of non-separators inside `s[..|s| - 1]`. */
  ghost predicate IsItemSpan(s: string, sp: Span)
  {
    && sp.lo < sp.hi < |s|
    && (sp.lo == 0 || IsSeparator(s, sp.lo - 1))
    && (sp.hi == |s| - 1 || IsSeparator(s, sp.hi))
    && (forall j :: sp.lo <= j < sp.hi ==> !IsSeparator(s, j))
  }

  ghost predicate Ordered(spans: seq<Span>)
  {
    forall k :: 0 <= k < |spans| - 1 ==> spans[k].hi < spans[k + 1].lo
  }

  ghost predicate Covered(spans: seq<Span>, j: nat)
  {
    exists k :: 0 <= k < |spans| && spans[k].lo <= j < spans[k].hi
  }

  /** What holds of the scanner after every prefix of the line. */
  ghost predicate ScanInvariant(s: string, n: nat, st: ScanState)
    requires n <= |s|
  {
    && st.inside == (Markers(s[..n]) % 2 == 1)
    && st.start <= n
    && (st.start == 0 || IsSeparator(s, st.start - 1))
    && (forall j :: st.start <= j < n ==> !IsSeparator(s, j))
    && (forall k :: 0 <= k < |st.cuts| ==> IsItemSpan(s, st.cuts[k]) && st.cuts[k].hi < st.start)
    && Ordered(st.cuts)
    && (forall j :: 0 <= j < st.start && !IsSeparator(s, j) ==> Covered(st.cuts, j))
  }

  lemma MarkersStep(s: string, n: nat)
    requires n < |s|
    ensures Markers(s[..n + 1]) == Markers(s[..n]) + (if IsMarker(s[n]) then 1 else 0)
  {
    assert s[..n + 1][..n] == s[..n];
  }

  /** A space outside every span: the pending item, if non-empty, is cut and a new one starts. */
  lemma CutKeepsInvariant(s: string, i: nat, st: ScanState)
    requires i < |s| && ScanInvariant(s, i, st)
    requires IsSeparator(s, i)
    ensures ScanInvariant(s, i + 1, ScanStep(s, st, i))
  {
    MarkersStep(s, i);
    var st' := ScanStep(s, st, i);
    assert st'.start == i + 1;
    if i - st.start > 0 {
      var sp := Span(st.start, i);
      assert st'.cuts == st.cuts + [sp];
      assert IsItemSpan(s, sp);
      CutsExtend(s, st.cuts, sp, i + 1);
    } else {
      assert st'.cuts == st.cuts;
      forall j | 0 <= j < st'.start && !IsSeparator(s, j)
        ensures Covered(st'.cuts, j)
      {
        assert j < st.start;
      }
    }
  }

  /** Appending the item that ends at a separator keeps the cut spans ordered and covering. */
  lemma CutsExtend(s: string, cuts: seq<Span>, sp: Span, end: nat)
    requires IsItemSpan(s, sp) && sp.hi <= end <= sp.hi + 1
    requires end == sp.hi + 1 ==> IsSeparator(s, sp.hi)
    requires forall k :: 0 <= k < |cuts| ==> IsItemSpan(s, cuts[k]) && cuts[k].hi < sp.lo
    requires Ordered(cuts)
    requires forall j :: 0 <= j < sp.lo && !IsSeparator(s, j) ==> Covered(cuts, j)
    ensures forall k :: 0 <= k < |cuts + [sp]| ==> IsItemSpan(s, (cuts + [sp])[k]) && (cuts + [sp])[k].hi < sp.hi + 1
    ensures Ordered(cuts + [sp])
    ensures forall j :: 0 <= j < end && !IsSeparator(s, j) ==> Covered(cuts + [sp], j)
  {
    var cuts' := cuts + [sp];
    forall j | 0 <= j < end && !IsSeparator(s, j)
      ensures Covered(cuts', j)
    {
      if j < sp.lo {
        var k :| 0 <= k < |cuts| && cuts[k].lo <= j < cuts[k].hi;
        assert cuts'[k] == cuts[k];
      } else {
        assert cuts'[|cuts|] == sp;
      }
    }
  }

  /** Any other character only updates the flag. */
  lemma OtherKeepsInvariant(s: string, i: nat, st: ScanState)
    requires i < |s| && ScanInvariant(s, i, st)
    requires !IsSeparator(s, i)
    ensures ScanInvariant(s, i + 1, ScanStep(s, st, i))
  {
    MarkersStep(s, i);
    var st' := ScanStep(s, st, i);
    assert st'.cuts == st.cuts && st'.start == st.start;
    assert forall j :: st.start <= j < i + 1 ==> !IsSeparator(s, j);
  }

  lemma {:induction false} ScanInvariantHolds(s: string, n: nat)
    requires n <= |s|
    ensures ScanInvariant(s, n, ScanPrefix(s, n))
  {
    if n > 0 {
      ScanInvariantHolds(s, n - 1);
      if IsSeparator(s, n - 1) {
        CutKeepsInvariant(s, n - 1, ScanPrefix(s, n - 1));
      } else {
        OtherKeepsInvariant(s, n - 1, ScanPrefix(s, n - 1));
      }
    }
  }

  /** `inside_item` is the parity of the markers seen so far. */
  lemma {:induction false} InsideIsMarkerParity(s: string, n: nat)
    requires n <= |s|
    ensures ScanPrefix(s, n).inside <==> Markers(s[..n]) % 2 == 1
  {
    ScanInvariantHolds(s, n);
  }

  /**
   * The items are exactly the maximal runs of non-separators before the last character:
   * each item is such a run, they come left to right without overlapping, and every
   * position before the last character that is not a separator lies in one of them.
   */
  lemma SplitSpansShape(s: string)
    ensures forall k :: 0 <= k < |SplitSpans(s)| ==> IsItemSpan(s, SplitSpans(s)[k])
    ensures Ordered(SplitSpans(s))
    ensures forall j :: 0 <= j < |s| - 1 && !IsSeparator(s, j) ==> Covered(SplitSpans(s), j)
  {
    ScanInvariantHolds(s, |s|);
    var st := ScanPrefix(s, |s|);
    if |s| - 1 - st.start > 0 {
      FinalSpanShape(s, st);
    } else {
      assert SplitSpans(s) == st.cuts;
    }
  }

  /** The case where an item is cut after the loop. */
  lemma FinalSpanShape(s: string, st: ScanState)
    requires st == ScanPrefix(s, |s|) && ScanInvariant(s, |s|, st)
    requires |s| - 1 - st.start > 0
    ensures forall k :: 0 <= k < |SplitSpans(s)| ==> IsItemSpan(s, SplitSpans(s)[k])
    ensures Ordered(SplitSpans(s))
    ensures forall j :: 0 <= j < |s| - 1 && !IsSeparator(s, j) ==> Covered(SplitSpans(s), j)
  {
    var last := Span(st.start, |s| - 1);
    var spans := st.cuts + [last];
    assert SplitSpans(s) == spans;
    assert IsItemSpan(s, last);
    CutsExtend(s, st.cuts, last, |s| - 1);
  }

  lemma {:induction false} NoMarkersEvenParity(s: string, n: nat)
    requires n <= |s|
    requires forall j :: 0 <= j < |s| ==> !IsMarker(s[j])
    ensures Markers(s[..n]) == 0
  {
    if n > 0 {
      NoMarkersEvenParity(s, n - 1);
      MarkersStep(s, n - 1);
    }
  }

  /** On a line without `"`, `[` or `]`, no item contains a space. */
  lemma UnmarkedItemsHaveNoSpace(s: string)
    requires forall j :: 0 <= j < |s| ==> !IsMarker(s[j])
    ensures forall k :: 0 <= k < |Items(s)| ==> ' ' !in Items(s)[k]
  {
    SplitSpansShape(s);
    var spans := SplitSpans(s);
    forall k | 0 <= k < |Items(s)|
      ensures ' ' !in Items(s)[k]
    {
      var sp := spans[k];
      forall j | sp.lo <= j < sp.hi
        ensures s[j] != ' '
      {
        NoMarkersEvenParity(s, j);
        assert !IsSeparator(s, j);
      }
      assert Items(s)[k] == s[sp.lo..sp.hi];
    }
  }

  lemma {:induction false} MarkersUnchanged(s: string, p: nat, n: nat)
    requires p <= n <= |s|
    requires forall j :: p <= j < |s| ==> !IsMarker(s[j])
    ensures Markers(s[..n]) == Markers(s[..p])
  {
    if n > p {
      MarkersUnchanged(s, p, n - 1);
      MarkersStep(s, n - 1);
    }
  }

  /**
   * Once an odd number of markers has been seen at position `p` and no marker follows, no
   * later space splits: every item but the last ends before `p`, and when `p` comes before
   * the last character, the last item runs from at or before `p` to the end of the line
   * (minus its last character).
   */
  lemma UnbalancedMarkerCollapses(s: string, p: nat)
    requires p <= |s|
    requires Markers(s[..p]) % 2 == 1
    requires forall j :: p <= j < |s| ==> !IsMarker(s[j])
    ensures forall k :: 0 <= k < |SplitSpans(s)| - 1 ==> SplitSpans(s)[k].hi < p
    ensures p < |s| - 1 ==>
      var spans := SplitSpans(s);
      |spans| > 0 && spans[|spans| - 1].lo <= p && spans[|spans| - 1].hi == |s| - 1
  {
    SplitSpansShape(s);
    var spans := SplitSpans(s);
    forall j | p <= j < |s|
      ensures !IsSeparator(s, j)
    {
      MarkersUnchanged(s, p, j);
    }
    forall k | 0 <= k < |spans| - 1
      ensures spans[k].hi < p
    {
      assert spans[k].hi < spans[k + 1].lo;
      assert IsSeparator(s, spans[k].hi);
    }
    if p < |s| - 1 {
      assert !IsSeparator(s, p);
      var k :| 0 <= k < |spans| && spans[k].lo <= p < spans[k].hi;
      assert spans[k].hi == |s| - 1;
    }
  }

  // ---------------------------------------------------------------------------------------
  // parse_line
  // ---------------------------------------------------------------------------------------

  /** The field names of the `ui_short` log format, in line order. */
  const Schema: seq<string> := [
    "remote_addr", "remote_user", "http_x_real_ip", "time_local",
    "request", "status", "body_bytes_sent", "http_referer",
    "http_user_agent", "http_x_forwarded_for",
    "http_X_REQUEST_ID", "http_X_RB_USER", "request_time"]

  const RequestTime: string := "request_time"

  lemma SchemaNames()
    ensures |Schema| == 13 && Schema[12] == RequestTime
    ensures forall i, j :: 0 <= i < j < |Schema| ==> Schema[i] != Schema[j]
  {
  }

  /** A dictionary value: the text of a token, or the number `float` made of it. */
  datatype Value = Text(text: string) | Number(number: real)

  /** The dictionary built from the first `n` (name, token) pairs. */
  function ZipPrefix(items: seq<string>, n: nat): map<string, Value>
    requires n <= |Schema| && n <= |items|
  {
    if n == 0 then map[] else ZipPrefix(items, n - 1)[Schema[n - 1] := Text(items[n - 1])]
  }

  /**
   * `{k: v for k, v in zip(item_names, items)}`: the keys are the first min(13, |items|)
   * field names, each bound to the token at its position; surplus tokens are dropped.
   */
  function ParseFields(items: seq<string>): (m: map<string, Value>)
    ensures m.Keys == set k | 0 <= k < |Schema| && k < |items| :: Schema[k]
    ensures forall k :: 0 <= k < |Schema| && k < |items| ==> m[Schema[k]] == Text(items[k])
  {
    var n := if |items| < |Schema| then |items| else |Schema|;
    ZipPrefixFields(items, n);
    ZipPrefix(items, n)
  }

  lemma {:induction false} ZipPrefixFields(items: seq<string>, n: nat)
    requires n <= |Schema| && n <= |items|
    ensures ZipPrefix(items, n).Keys == set k | 0 <= k < n :: Schema[k]
    ensures forall k :: 0 <= k < n ==> ZipPrefix(items, n)[Schema[k]] == Text(items[k])
  {
    if n > 0 {
      ZipPrefixFields(items, n - 1);
      SchemaNames();
    }
  }

  /** `request_time` is among the keys exactly when the line has at least thirteen items. */
  lemma RequestTimePresent(items: seq<string>)
    ensures RequestTime in ParseFields(items) <==> |items| >= 13
    ensures |items| >= 13 ==> ParseFields(items)[RequestTime] == Text(items[12])
  {
    SchemaNames();
    if RequestTime in ParseFields(items) {
      var k :| 0 <= k < |Schema| && k < |items| && Schema[k] == RequestTime;
      assert k == 12;
    }
  }

  /** The dictionary `parse_line` returns and `process_log_line` updates. */
  class LogDict {
    var entries: map<string, Value>

    constructor (entries: map<string, Value>)
      ensures this.entries == entries
    {
      this.entries := entries;
    }
  }

  /** `parse_line(s)`: a new dictionary pairing the field names with the line's items. */
  method ParseLine(s: string) returns (d: LogDict)
    ensures fresh(d)
    ensures d.entries == ParseFields(Items(s))
  {
    var items := SplitBySpace(s);
    d := new LogDict(ParseFields(items));
  }

  // ---------------------------------------------------------------------------------------
  // process_log_line
  // ---------------------------------------------------------------------------------------

  /** `s.replace(pat, "")`: the occurrences of `pat` found scanning left to right are deleted. */
  function Without(s: string, pat: string): (r: string)
    requires |pat| > 0
    ensures |r| <= |s|
    decreases |s|
  {
    if |s| < |pat| then s
    else if s[..|pat|] == pat then Without(s[|pat|..], pat)
    else [s[0]] + Without(s[1..], pat)
  }

  /** `to_remove` in `remove_redundant`: an escaped newline, then any backslash. */
  const Redundant: seq<string> := ["\\n", "\\"]

  /** Deleting each pattern of `pats` in turn. */
  function WithoutEach(s: string, pats: seq<string>): string
    requires forall k :: 0 <= k < |pats| ==> |pats[k]| > 0
    decreases |pats|
  {
    if pats == [] then s else WithoutEach(Without(s, pats[0]), pats[1..])
  }

  /** The value `remove_redundant(s)` returns. */
  function Cleaned(s: string): string
  {
    WithoutEach(s, Redundant)
  }

  lemma CleanedInTwoPasses(s: string)
    ensures Cleaned(s) == Without(Without(s, "\\n"), "\\")
  {
    assert Redundant[1..] == ["\\"];
    assert Redundant[1..][1..] == [];
  }

  /** `remove_redundant`: rebinds `s` once per pattern of `to_remove`. */
  method RemoveRedundant(s: string) returns (r: string)
    ensures r == Cleaned(s)
    ensures '\\' !in r
  {
    r := s;
    for k := 0 to |Redundant|
      invariant WithoutEach(r, Redundant[k..]) == Cleaned(s)
    {
      assert Redundant[k..][1..] == Redundant[k + 1..];
      r := Without(r, Redundant[k]);
    }
    assert Redundant[|Redundant|..] == [];
    CleanedHasNoBackslash(s);
  }

  lemma {:induction false} WithoutAbsent(s: string, pat: string)
    requires |pat| > 0 && pat[0] !in s
    ensures Without(s, pat) == s
    decreases |s|
  {
    if |s| >= |pat| {
      assert s[..|pat|][0] == s[0];
      WithoutAbsent(s[1..], pat);
      assert s == [s[0]] + s[1..];
    }
  }

  lemma {:induction false} WithoutCharacter(s: string, c: char)
    ensures c !in Without(s, [c])
    decreases |s|
  {
    if |s| >= 1 {
      if s[..1] == [c] {
        WithoutCharacter(s[1..], c);
      } else {
        WithoutCharacter(s[1..], c);
        assert s[0] != c;
      }
    }
  }

  /** The cleaned text holds no backslash. */
  lemma CleanedHasNoBackslash(s: string)
    ensures '\\' !in Cleaned(s)
  {
    WithoutCharacter(Without(s, "\\n"), '\\');
    CleanedInTwoPasses(s);
  }

  /** Text without a backslash is left as it is, so cleaning twice is cleaning once. */
  lemma CleanedIdempotent(s: string)
    ensures '\\' !in s ==> Cleaned(s) == s
    ensures Cleaned(Cleaned(s)) == Cleaned(s)
  {
    forall t: string | '\\' !in t
      ensures Cleaned(t) == t
    {
      WithoutAbsent(t, "\\n");
      WithoutAbsent(t, "\\");
      CleanedInTwoPasses(t);
    }
    CleanedHasNoBackslash(s);
  }

  /** Why `process_log_line` raises. */
  datatype LineError =
    | MissingRequestTime   // KeyError: the line had fewer than thirteen items
    | NotText              // AttributeError: the entry was already converted
    | NotNumber(cleaned: string) // ValueError: `float` rejected the cleaned text

  /**
   * The dictionary `process_log_line` leaves behind, or the exception it raises. `parse`
   * stands for Python's `float` on a string: it either yields a number or fails.
   */
  function ProcessFields(fields: map<string, Value>, parse: string -> Option<real>)
    : (r: Result<map<string, Value>, LineError>)
    ensures r.Failure? <==>
      || RequestTime !in fields
      || !fields[RequestTime].Text?
      || parse(Cleaned(fields[RequestTime].text)).None?
    ensures r.Success? ==> r.value.Keys == fields.Keys
    ensures r.Success? ==> forall k :: k in fields && k != RequestTime ==> r.value[k] == fields[k]
    ensures r.Success? ==> r.value[RequestTime] == Number(parse(Cleaned(fields[RequestTime].text)).value)
  {
    if RequestTime !in fields then Failure(MissingRequestTime)
    else match fields[RequestTime]
      case Number(_) => Failure(NotText)
      case Text(t) =>
        match parse(Cleaned(t))
        case None => Failure(NotNumber(Cleaned(t)))
        case Some(x) => Success(fields[RequestTime := Number(x)])
  }

  /**
   * `process_log_line(d)`: on success only the `request_time` entry of `d` changes and `d`
   * itself is returned; on failure `d` is left as it was.
   */
  method ProcessLogLine(d: LogDict, parse: string -> Option<real>) returns (r: Result<LogDict, LineError>)
    modifies d
    ensures ProcessFields(old(d.entries), parse).Success? ==>
      r == Success(d) && d.entries == ProcessFields(old(d.entries), parse).value
    ensures ProcessFields(old(d.entries), parse).Failure? ==>
      r == Failure(ProcessFields(old(d.entries), parse).error) && d.entries == old(d.entries)
  {
    if RequestTime !in d.entries {
      return Failure(MissingRequestTime);
    }
    match d.entries[RequestTime]
    case Number(_) =>
      r := Failure(NotText);
    case Text(t) =>
      var cleaned := RemoveRedundant(t);
      match parse(cleaned)
      case None =>
        r := Failure(NotNumber(cleaned));
      case Some(x) =>
        d.entries := d.entries[RequestTime := Number(x)];
        r := Success(d);
  }

  /**
   * `process_log_line(parse_line(s))` succeeds exactly when the line splits into at least
   * thirteen items and the thirteenth, once cleaned, is a number.
   */
  lemma ReadLineSucceeds(s: string, parse: string -> Option<real>)
    ensures ProcessFields(ParseFields(Items(s)), parse).Success? <==>
      |Items(s)| >= 13 && parse(Cleaned(Items(s)[12])).Some?
  {
    RequestTimePresent(Items(s));
  }
}
