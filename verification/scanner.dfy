/** The two-phase scanner of `src/Scanner.cs` (and of its licensed copy
    `src/StringScanner/Scanner.cs`, which has the same code).

    The stream is the input string and a character cursor.  One call of
    `Read` returns the next token and moves the cursor to just after it:
    either the text before the next delimiter, or — when a delimiter starts
    at the cursor — that delimiter, grown one character at a time until the
    length of the longest match is positive and short of the buffer.  That
    is not always the longest delimiter at the cursor: growing stops before
    a delimiter whose shorter prefixes are not delimiters.  `MunchRead` is
    the read that does take the longest one. */
module Scanner {
  import opened Optional
  import opened Matching

  /** What a read returns: the token (`None` for the `null` returned at the
      end of the input) and where it leaves the stream. */
  datatype ReadResult = ReadResult(token: Option<string>, cursor: nat)

  /** The buffer after `k` characters have been read from `start`. */
  function Buffer(input: string, start: nat, k: nat): string
    requires start + k <= |input|
  {
    input[start..start + k]
  }

  /** The first `n` characters of a buffer are the first `n` read. */
  lemma BufferPrefix(input: string, start: nat, k: nat, n: nat)
    requires n <= k && start + k <= |input|
    ensures Buffer(input, start, k)[..n] == input[start..start + n]
  {
  }

  /** `buffer.ToString(0, readTo)` is only defined for `readTo` within the buffer. */
  ghost predicate Bounded(stop: string -> int) {
    forall s :: stop(s) <= |s|
  }

  /** None of the buffers of 1 to `held` characters made `stop` answer. */
  ghost predicate NoStopWithin(input: string, start: nat, stop: string -> int, held: nat) {
    forall j :: 1 <= j <= held && start + j <= |input| ==> stop(Buffer(input, start, j)) < 0
  }

  /** The buffer of `k` characters is the shortest one `stop` answers for. */
  ghost predicate FirstStop(input: string, start: nat, stop: string -> int, k: nat) {
    && 1 <= k && start + k <= |input|
    && stop(Buffer(input, start, k)) >= 0
    && NoStopWithin(input, start, stop, k - 1)
  }

  /** `stop` answers for no buffer before the end of the input. */
  ghost predicate NeverStops(input: string, start: nat, stop: string -> int)
    requires start <= |input|
  {
    NoStopWithin(input, start, stop, |input| - start)
  }

  /** The first buffer `stop` answers for is the one of `held + 1`
      characters, and so `stop` does answer before the end. */
  lemma StopsHere(input: string, start: nat, stop: string -> int, held: nat)
    requires start + held < |input|
    requires NoStopWithin(input, start, stop, held)
    requires stop(Buffer(input, start, held + 1)) >= 0
    ensures FirstStop(input, start, stop, held + 1)
    ensures forall k :: FirstStop(input, start, stop, k) ==> k == held + 1
    ensures !NeverStops(input, start, stop)
  {
    forall k: nat | FirstStop(input, start, stop, k) ensures k == held + 1 {
      assert stop(Buffer(input, start, k)) >= 0;
      assert stop(Buffer(input, start, held + 1)) >= 0;
    }
    assert 1 <= held + 1 <= |input| - start;
  }

  /** The do-while loop of `Read(Func<string, int>)` with `held` characters
      already in the buffer: read one more, or give up at the end of the input. */
  function ReadLoop(input: string, start: nat, held: nat, stop: string -> int): (r: ReadResult)
    requires start + held <= |input|
    requires Bounded(stop)
    requires NoStopWithin(input, start, stop, held)
    decreases |input| - start - held
    ensures start <= r.cursor <= |input|
    ensures r.token.None? <==> start == |input|
    ensures r.token.None? ==> r.cursor == start
    ensures r.token.Some? ==> r.token.value == input[start..r.cursor]
    ensures forall k :: FirstStop(input, start, stop, k) ==>
              r == ReadResult(Some(input[start..start + stop(Buffer(input, start, k))]),
                              start + stop(Buffer(input, start, k)))
    ensures NeverStops(input, start, stop) ==>
              r == ReadResult(if start == |input| then None else Some(input[start..]), |input|)
  {
    if start + held == |input| then
      // Read() gave -1: the buffer, unless it is empty
      assert Buffer(input, start, held) == input[start..];
      ReadResult(if held > 0 then Some(Buffer(input, start, held)) else None, |input|)
    else
      var buffer := Buffer(input, start, held + 1);
      var readTo := stop(buffer);
      if readTo < 0 then
        ReadLoop(input, start, held + 1, stop)
      else
        StopsHere(input, start, stop, held);
        assert readTo <= |buffer|;
        BufferPrefix(input, start, held + 1, readTo);
        ReadResult(Some(buffer[..readTo]), start + readTo)
  }

  /** `Read(Func<string, int> substringTo)`: read characters into a fresh
      buffer until `stop` gives a non-negative index, then rewind the stream
      to that index and return the buffer up to it.  At the end of the input
      it returns the buffer as it is, or `null` when nothing was read. */
  function ReadUntil(input: string, start: nat, stop: string -> int): (r: ReadResult)
    requires start <= |input|
    requires Bounded(stop)
    ensures start <= r.cursor <= |input|
    ensures r.token.None? <==> start == |input|
    ensures r.token.None? ==> r.cursor == start
    ensures r.token.Some? ==> r.token.value == input[start..r.cursor]
    ensures forall k :: FirstStop(input, start, stop, k) ==>
              r == ReadResult(Some(input[start..start + stop(Buffer(input, start, k))]),
                              start + stop(Buffer(input, start, k)))
    ensures NeverStops(input, start, stop) ==>
              r == ReadResult(if start == |input| then None else Some(input[start..]), |input|)
  {
    ReadLoop(input, start, 0, stop)
  }

  /** Phase 1's stop function: the index of the match, once there is one. */
  function UntilMatch(m: Matcher): (stop: string -> int)
    ensures forall s :: stop(s) >= 0 <==> m(s).success
    ensures forall s :: m(s).success ==> stop(s) == m(s).index
  {
    s => if !m(s).success then -1 else m(s).index
  }

  /** Phase 2's stop function: the match length, once it is neither 0 nor the
      whole buffer. */
  function UntilCut(m: Matcher): (stop: string -> int)
    ensures forall s :: stop(s) >= 0 <==> m(s).length != 0 && m(s).length != |s|
    ensures forall s :: stop(s) >= 0 ==> stop(s) == m(s).length
  {
    s => var length := m(s).length; if length == 0 || length == |s| then -1 else length
  }

  /** The buffer of `k` characters is the first one `m` matches in. */
  ghost predicate MatchedFirstAt(input: string, start: nat, m: Matcher, k: nat) {
    && 1 <= k && start + k <= |input|
    && m(Buffer(input, start, k)).success
    && forall j :: 1 <= j < k ==> !m(Buffer(input, start, j)).success
  }

  /** `m` matches none of the buffers before the end of the input. */
  ghost predicate NeverMatches(input: string, start: nat, m: Matcher) {
    forall j :: 1 <= j && start + j <= |input| ==> !m(Buffer(input, start, j)).success
  }

  /** The buffer of `k` characters is the first whose match length is
      positive and short of the whole buffer. */
  ghost predicate CutFirstAt(input: string, start: nat, m: Matcher, k: nat) {
    && 1 <= k && start + k <= |input|
    && 0 < m(Buffer(input, start, k)).length < k
    && forall j :: 1 <= j < k ==> m(Buffer(input, start, j)).length in {0, j}
  }

  /** No buffer before the end of the input has a match length short of it
      other than 0. */
  ghost predicate NeverCut(input: string, start: nat, m: Matcher) {
    forall j :: 1 <= j && start + j <= |input| ==> m(Buffer(input, start, j)).length in {0, j}
  }

  lemma UntilMatchBounded(m: Matcher)
    requires WellFormed(m)
    ensures Bounded(UntilMatch(m))
  {
    forall s ensures UntilMatch(m)(s) <= |s| {
      assert FitsIn(m(s), s);
    }
  }

  lemma UntilCutBounded(m: Matcher)
    requires WellFormed(m)
    ensures Bounded(UntilCut(m))
  {
    forall s ensures UntilCut(m)(s) <= |s| {
      assert FitsIn(m(s), s);
    }
  }

  /** Phase 1: stop at the first buffer the delimiter matches in and return
      the text before the match.  `Phase1FirstMatch` and `Phase1NoMatch`
      state where it stops. */
  function Phase1(input: string, start: nat, m: Matcher): (r: ReadResult)
    requires start <= |input|
    requires WellFormed(m)
    ensures start <= r.cursor <= |input|
    ensures r.token.None? <==> start == |input|
    ensures r.token.None? ==> r.cursor == start
    ensures r.token.Some? ==> r.token.value == input[start..r.cursor]
  {
    UntilMatchBounded(m);
    ReadUntil(input, start, UntilMatch(m))
  }

  /** Phase 1 stops at the first buffer with a match and returns the text
      before the match index, leaving the stream at that index. */
  lemma Phase1FirstMatch(input: string, start: nat, m: Matcher, k: nat)
    requires start <= |input| && WellFormed(m)
    requires MatchedFirstAt(input, start, m, k)
    ensures Phase1(input, start, m)
            == ReadResult(Some(input[start..start + m(Buffer(input, start, k)).index]),
                          start + m(Buffer(input, start, k)).index)
  {
    UntilMatchBounded(m);
    var stop := UntilMatch(m);
    forall j | 1 <= j <= k - 1 && start + j <= |input| ensures stop(Buffer(input, start, j)) < 0 {
      assert !m(Buffer(input, start, j)).success;
    }
    assert FirstStop(input, start, stop, k);
  }

  /** Without a match before the end of the input, phase 1 returns the rest
      of the input (`null` when there is none). */
  lemma Phase1NoMatch(input: string, start: nat, m: Matcher)
    requires start <= |input| && WellFormed(m)
    requires NeverMatches(input, start, m)
    ensures Phase1(input, start, m) == ReadResult(if start == |input| then None else Some(input[start..]), |input|)
  {
    UntilMatchBounded(m);
    var stop := UntilMatch(m);
    forall j | 1 <= j <= |input| - start && start + j <= |input| ensures stop(Buffer(input, start, j)) < 0 {
      assert !m(Buffer(input, start, j)).success;
    }
    assert NeverStops(input, start, stop);
  }

  /** Phase 2: grow the buffer while the match length is 0 or covers all of
      it, and return the prefix of the match length at the first buffer where
      it does neither.  `Phase2FirstCut` and `Phase2NoCut` state where it stops. */
  function Phase2(input: string, start: nat, m: Matcher): (r: ReadResult)
    requires start <= |input|
    requires WellFormed(m)
    ensures start <= r.cursor <= |input|
    ensures r.token.None? <==> start == |input|
    ensures r.token.None? ==> r.cursor == start
    ensures r.token.Some? ==> r.token.value == input[start..r.cursor] && |r.token.value| > 0
  {
    CutNotEmpty(input, start, m);
    ReadUntil(input, start, UntilCut(m))
  }

  /** Phase 2 stops at the first buffer whose match length is positive and
      short of the buffer, and returns that many characters. */
  lemma Phase2FirstCut(input: string, start: nat, m: Matcher, k: nat)
    requires start <= |input| && WellFormed(m)
    requires CutFirstAt(input, start, m, k)
    ensures Phase2(input, start, m)
            == ReadResult(Some(input[start..start + m(Buffer(input, start, k)).length]),
                          start + m(Buffer(input, start, k)).length)
  {
    UntilCutBounded(m);
    var stop := UntilCut(m);
    forall j | 1 <= j <= k - 1 && start + j <= |input| ensures stop(Buffer(input, start, j)) < 0 {
      assert m(Buffer(input, start, j)).length in {0, j};
    }
    assert FirstStop(input, start, stop, k);
  }

  /** When every match length is 0 or the whole buffer, phase 2 returns the
      rest of the input. */
  lemma Phase2NoCut(input: string, start: nat, m: Matcher)
    requires start <= |input| && WellFormed(m)
    requires NeverCut(input, start, m)
    ensures Phase2(input, start, m) == ReadResult(if start == |input| then None else Some(input[start..]), |input|)
  {
    UntilCutBounded(m);
    var stop := UntilCut(m);
    forall j | 1 <= j <= |input| - start && start + j <= |input| ensures stop(Buffer(input, start, j)) < 0 {
      assert m(Buffer(input, start, j)).length in {0, j};
    }
    assert NeverStops(input, start, stop);
  }

  /** Phase 2 never cuts an empty token: it stops only at a positive length. */
  lemma CutNotEmpty(input: string, start: nat, m: Matcher)
    requires start <= |input|
    requires WellFormed(m)
    ensures Bounded(UntilCut(m))
    ensures ReadUntil(input, start, UntilCut(m)).cursor > start || start == |input|
  {
    UntilCutBounded(m);
    var stop := UntilCut(m);
    var r := ReadUntil(input, start, stop);
    StopCases(input, start, stop);
    if start < |input| && !NeverStops(input, start, stop) {
      var k :| FirstStop(input, start, stop, k);
      assert stop(Buffer(input, start, k)) > 0;
    }
  }

  /** Either some buffer is the first `stop` answers for, or none is. */
  lemma StopCases(input: string, start: nat, stop: string -> int)
    requires start <= |input|
    ensures NeverStops(input, start, stop) || exists k :: FirstStop(input, start, stop, k)
  {
    var held := 0;
    while held < |input| - start && stop(Buffer(input, start, held + 1)) < 0
      invariant held <= |input| - start
      invariant NoStopWithin(input, start, stop, held)
    {
      held := held + 1;
    }
    if held < |input| - start {
      assert FirstStop(input, start, stop, held + 1);
    }
  }

  /** `Read(IDelimiter)`: phase 1, and phase 2 from where phase 1 left the
      stream when phase 1 found no word (`null` or ""). */
  function Read(input: string, cursor: nat, m: Matcher): (r: ReadResult)
    requires cursor <= |input|
    requires WellFormed(m)
    ensures cursor <= r.cursor <= |input|
    ensures r.token.None? <==> cursor == |input|
    ensures r.token.None? ==> r.cursor == cursor
    ensures r.token.Some? ==> r.token.value == input[cursor..r.cursor] && |r.token.value| > 0
  {
    var word := Phase1(input, cursor, m);
    if word.token.None? || word.token.value == [] then
      Phase2(input, word.cursor, m)
    else
      word
  }

  /** A delimiter match after some text: the token is that text, and the
      stream is left at the start of the match. */
  lemma ReadWordBeforeDelimiter(input: string, cursor: nat, m: Matcher, k: nat)
    requires cursor <= |input| && WellFormed(m)
    requires MatchedFirstAt(input, cursor, m, k)
    requires m(Buffer(input, cursor, k)).index > 0
    ensures var i := m(Buffer(input, cursor, k)).index;
            Read(input, cursor, m) == ReadResult(Some(input[cursor..cursor + i]), cursor + i)
  {
    Phase1FirstMatch(input, cursor, m, k);
  }

  /** A delimiter at the cursor: phase 1 yields "", and the token is the
      buffer cut at the first match length that is positive and short of it. */
  lemma ReadLeadingDelimiter(input: string, cursor: nat, m: Matcher, k: nat, k': nat)
    requires cursor <= |input| && WellFormed(m)
    requires MatchedFirstAt(input, cursor, m, k)
    requires m(Buffer(input, cursor, k)).index == 0
    requires CutFirstAt(input, cursor, m, k')
    ensures var n := m(Buffer(input, cursor, k')).length;
            Read(input, cursor, m) == ReadResult(Some(input[cursor..cursor + n]), cursor + n)
  {
    Phase1FirstMatch(input, cursor, m, k);
    assert Phase1(input, cursor, m).token.value == [];
    Phase2FirstCut(input, cursor, m, k');
  }

  /** A delimiter at the cursor whose match keeps covering the whole buffer
      (or vanishes) up to the end of the input: the rest of the input is the token. */
  lemma ReadLeadingDelimiterToEnd(input: string, cursor: nat, m: Matcher, k: nat)
    requires cursor <= |input| && WellFormed(m)
    requires MatchedFirstAt(input, cursor, m, k)
    requires m(Buffer(input, cursor, k)).index == 0
    requires NeverCut(input, cursor, m)
    ensures Read(input, cursor, m) == ReadResult(Some(input[cursor..]), |input|)
  {
    Phase1FirstMatch(input, cursor, m, k);
    assert Phase1(input, cursor, m).token.value == [];
    Phase2NoCut(input, cursor, m);
  }

  /** No delimiter anywhere ahead: the rest of the input is one token. */
  lemma ReadWithoutDelimiter(input: string, cursor: nat, m: Matcher)
    requires cursor < |input| && WellFormed(m)
    requires NeverMatches(input, cursor, m)
    ensures Read(input, cursor, m) == ReadResult(Some(input[cursor..]), |input|)
  {
    Phase1NoMatch(input, cursor, m);
  }

  /** `Peek(IDelimiter)`: read, then seek back to where the stream was. */
  function Peek(input: string, cursor: nat, m: Matcher): (r: ReadResult)
    requires cursor <= |input|
    requires WellFormed(m)
    ensures r.cursor == cursor
    ensures r.token.None? <==> cursor == |input|
    ensures r.token.Some? ==> |r.token.value| > 0 && cursor + |r.token.value| <= |input|
                              && r.token.value == input[cursor..cursor + |r.token.value|]
  {
    var r := Read(input, cursor, m);
    ReadResult(r.token, cursor)
  }

  /** A peek shows the token the next read returns, and a second peek shows it again. */
  lemma PeekAgreesWithRead(input: string, cursor: nat, m: Matcher)
    requires cursor <= |input|
    requires WellFormed(m)
    ensures Peek(input, cursor, m).token == Read(input, Peek(input, cursor, m).cursor, m).token
    ensures Peek(input, Peek(input, cursor, m).cursor, m) == Peek(input, cursor, m)
  {
  }

  /** The tokens successive reads return, up to the end of the input. */
  function Tokens(input: string, cursor: nat, m: Matcher): (ts: seq<string>)
    requires cursor <= |input|
    requires WellFormed(m)
    decreases |input| - cursor
  {
    var r := Read(input, cursor, m);
    if r.token.None? then [] else [r.token.value] + Tokens(input, r.cursor, m)
  }

  /** The tokens are the token read first, then the tokens from where it ends. */
  lemma TokensStep(input: string, cursor: nat, m: Matcher, w: string, next: nat)
    requires cursor <= |input| && WellFormed(m)
    requires Read(input, cursor, m) == ReadResult(Some(w), next)
    ensures next <= |input|
    ensures Tokens(input, cursor, m) == [w] + Tokens(input, next, m)
  {
  }

  /** The strings of `ts`, joined. */
  function Concat(ts: seq<string>): string {
    if |ts| == 0 then [] else ts[0] + Concat(ts[1..])
  }

  /** Round trip: the tokens join back into the input. */
  lemma {:induction false} TokensRoundTrip(input: string, cursor: nat, m: Matcher)
    requires cursor <= |input|
    requires WellFormed(m)
    decreases |input| - cursor
    ensures Concat(Tokens(input, cursor, m)) == input[cursor..]
  {
    var r := Read(input, cursor, m);
    if r.token.Some? {
      var w, next := r.token.value, r.cursor;
      TokensStep(input, cursor, m, w, next);
      TokensRoundTrip(input, next, m);
      ConcatCons(w, Tokens(input, next, m));
      SplitAt(input, cursor, next);
    } else {
      assert Tokens(input, cursor, m) == [];
    }
  }

  lemma ConcatCons(w: string, ts: seq<string>)
    ensures Concat([w] + ts) == w + Concat(ts)
  {
    assert ([w] + ts)[1..] == ts;
  }

  lemma SplitAt(s: string, i: nat, j: nat)
    requires i <= j <= |s|
    ensures s[i..] == s[i..j] + s[j..]
  {
  }

  /** No token is empty. */
  lemma {:induction false} TokensNotEmpty(input: string, cursor: nat, m: Matcher)
    requires cursor <= |input|
    requires WellFormed(m)
    decreases |input| - cursor
    ensures forall i :: 0 <= i < |Tokens(input, cursor, m)| ==> |Tokens(input, cursor, m)[i]| > 0
  {
    var r := Read(input, cursor, m);
    if r.token.Some? {
      var w, next := r.token.value, r.cursor;
      TokensStep(input, cursor, m, w, next);
      TokensNotEmpty(input, next, m);
      var ts, rest := Tokens(input, cursor, m), Tokens(input, next, m);
      forall i | 0 <= i < |ts| ensures |ts[i]| > 0 {
        if i > 0 {
          assert ts[i] == rest[i - 1];
        }
      }
    }
  }

  /** With no delimiter anywhere ahead, the input is a single token. */
  lemma TokensWithoutDelimiter(input: string, cursor: nat, m: Matcher)
    requires cursor < |input| && WellFormed(m)
    requires NeverMatches(input, cursor, m)
    ensures Tokens(input, cursor, m) == [input[cursor..]]
  {
    ReadWithoutDelimiter(input, cursor, m);
  }

  /** The buffer of `k` characters is matched as a whole: the match starts at
      the cursor and covers the buffer. */
  predicate WholeMatch(input: string, start: nat, m: Matcher, k: nat) {
    && 1 <= k && start + k <= |input|
    && m(Buffer(input, start, k)).success
    && m(Buffer(input, start, k)).index == 0
    && m(Buffer(input, start, k)).length == k
  }

  /** The longest buffer of at most `k` characters that is matched as a
      whole, or 0 when there is none. */
  function LongestWhole(input: string, start: nat, m: Matcher, k: nat): (n: nat)
    requires start + k <= |input|
    ensures n <= k
    ensures n > 0 ==> WholeMatch(input, start, m, n)
    ensures forall j :: n < j <= k ==> !WholeMatch(input, start, m, j)
  {
    if k == 0 then 0
    else if WholeMatch(input, start, m, k) then k
    else LongestWhole(input, start, m, k - 1)
  }

  /** Phase 2 as evidently intended: the longest delimiter at the cursor,
      when some buffer is matched as a whole; otherwise phase 2 as written. */
  function MunchPhase2(input: string, start: nat, m: Matcher): (r: ReadResult)
    requires start <= |input|
    requires WellFormed(m)
    ensures start <= r.cursor <= |input|
    ensures r.token.None? <==> start == |input|
    ensures r.token.Some? ==> r.token.value == input[start..r.cursor] && |r.token.value| > 0
  {
    var n := LongestWhole(input, start, m, |input| - start);
    if n > 0 then ReadResult(Some(input[start..start + n]), start + n) else Phase2(input, start, m)
  }

  /** Maximal munch: when some buffer at the cursor is matched as a whole,
      the corrected phase 2 returns one, and none is longer. */
  lemma MunchTakesLongest(input: string, start: nat, m: Matcher, k: nat)
    requires start <= |input| && WellFormed(m)
    requires WholeMatch(input, start, m, k)
    ensures var r := MunchPhase2(input, start, m);
            && r.token.Some? && r.cursor == start + |r.token.value|
            && WholeMatch(input, start, m, |r.token.value|)
            && forall j: nat :: WholeMatch(input, start, m, j) ==> j <= |r.token.value|
  {
    var n := LongestWhole(input, start, m, |input| - start);
    assert k <= n;
  }

  /** `Read(IDelimiter)` with the corrected phase 2. */
  function MunchRead(input: string, cursor: nat, m: Matcher): (r: ReadResult)
    requires cursor <= |input|
    requires WellFormed(m)
    ensures cursor <= r.cursor <= |input|
    ensures r.token.None? <==> cursor == |input|
    ensures r.token.None? ==> r.cursor == cursor
    ensures r.token.Some? ==> r.token.value == input[cursor..r.cursor] && |r.token.value| > 0
  {
    var word := Phase1(input, cursor, m);
    if word.token.None? || word.token.value == [] then
      MunchPhase2(input, word.cursor, m)
    else
      word
  }

  /** With a delimiter at the cursor, the corrected read returns the longest
      delimiter there. */
  lemma MunchReadLeadingDelimiter(input: string, cursor: nat, m: Matcher, k: nat, k': nat)
    requires cursor <= |input| && WellFormed(m)
    requires MatchedFirstAt(input, cursor, m, k)
    requires m(Buffer(input, cursor, k)).index == 0
    requires WholeMatch(input, cursor, m, k')
    ensures var r := MunchRead(input, cursor, m);
            && r.token.Some? && r.cursor == cursor + |r.token.value|
            && WholeMatch(input, cursor, m, |r.token.value|)
            && forall j: nat :: WholeMatch(input, cursor, m, j) ==> j <= |r.token.value|
  {
    Phase1FirstMatch(input, cursor, m, k);
    assert Phase1(input, cursor, m).token.value == [];
    MunchTakesLongest(input, cursor, m, k');
  }

  /** When the rest of the input is one delimiter, the corrected read takes
      all of it. */
  lemma MunchReadLeadingDelimiterToEnd(input: string, cursor: nat, m: Matcher, k: nat)
    requires cursor <= |input| && WellFormed(m)
    requires MatchedFirstAt(input, cursor, m, k)
    requires m(Buffer(input, cursor, k)).index == 0
    requires WholeMatch(input, cursor, m, |input| - cursor)
    ensures MunchRead(input, cursor, m) == ReadResult(Some(input[cursor..]), |input|)
  {
    MunchReadLeadingDelimiter(input, cursor, m, k, |input| - cursor);
    var r := MunchRead(input, cursor, m);
    assert |r.token.value| <= |input| - cursor by {
      assert WholeMatch(input, cursor, m, |r.token.value|);
    }
    assert r.cursor == |input|;
    assert r.token.value == input[cursor..|input|];
    assert input[cursor..|input|] == input[cursor..];
  }
}
