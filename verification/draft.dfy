/** The first, stateful version of the scanner (`Scanner.cs` at the top of
    the repository).

    It reads through a string with a cursor and keeps a buffer ACROSS calls:
    one call of `ReadNextWordOrDelim` reads up to the first delimiter match
    and returns the word before it, leaving word and delimiter start in the
    buffer; the next call sees that the buffer matches, grows the delimiter
    one character at a time, returns it and clears the buffer.  Delimiters
    are regexes; the draft uses every match a regex finds (`Matches`). */
module Draft {
  import opened Optional
  import opened Matching
  import Selection

  /** A `Regex` as the draft uses it: `Matches(content)`, every match, left to right. */
  type Pattern = string -> seq<MatchResult>

  /** `r.IsMatch(content)`: the regex has at least one match. */
  predicate IsMatch(p: Pattern, content: string) {
    |p(content)| > 0
  }

  /** `delimiters.Any(r => r.IsMatch(content))`. */
  predicate AnyMatch(ps: seq<Pattern>, content: string) {
    exists i :: 0 <= i < |ps| && IsMatch(ps[i], content)
  }

  /** The `j`-th match of regex `i` on `content`. */
  function Hit(ps: seq<Pattern>, content: string, i: nat, j: nat): MatchResult
    requires i < |ps| && j < |ps[i](content)|
  {
    ps[i](content)[j]
  }

  /** Every match a regex reports lies inside its probe. */
  ghost predicate Sound(ps: seq<Pattern>) {
    forall i, s, j :: 0 <= i < |ps| && 0 <= j < |ps[i](s)| ==> Hit(ps, s, i, j).index + Hit(ps, s, i, j).length <= |s|
  }

  /** A match survives reading further: once some regex matches a string, some
      regex matches every string that begins with it. */
  ghost predicate Persistent(ps: seq<Pattern>) {
    forall s, t :: s <= t && AnyMatch(ps, s) ==> AnyMatch(ps, t)
  }

  /** `delimiters.SelectMany(r => r.Matches(content))`: regex by regex, each
      regex's matches in order. */
  function Hits(ps: seq<Pattern>, content: string): (hs: seq<MatchResult>)
    ensures |hs| == 0 <==> !AnyMatch(ps, content)
  {
    if |ps| == 0 then
      []
    else
      assert AnyMatch(ps, content) <==> IsMatch(ps[0], content) || AnyMatch(ps[1..], content) by {
        if AnyMatch(ps, content) && !IsMatch(ps[0], content) {
          var i :| 0 <= i < |ps| && IsMatch(ps[i], content);
          assert IsMatch(ps[1..][i - 1], content);
        }
      }
      ps[0](content) + Hits(ps[1..], content)
  }

  /** Where the matches of regex `i` begin in `Hits`. */
  function Offset(ps: seq<Pattern>, content: string, i: nat): nat
    requires i <= |ps|
  {
    if i == 0 then 0 else |ps[0](content)| + Offset(ps[1..], content, i - 1)
  }

  /** The `j`-th match of regex `i` sits at `Offset(i) + j` in `Hits`. */
  lemma {:induction false} HitsAt(ps: seq<Pattern>, content: string, i: nat, j: nat)
    requires i < |ps| && j < |ps[i](content)|
    ensures Offset(ps, content, i) + j < |Hits(ps, content)|
    ensures Hits(ps, content)[Offset(ps, content, i) + j] == Hit(ps, content, i, j)
  {
    if i > 0 {
      HitsAt(ps[1..], content, i - 1, j);
    }
  }

  /** Every position of `Hits` is the place of some regex's match. */
  lemma {:induction false} HitsCover(ps: seq<Pattern>, content: string, w: nat)
    requires w < |Hits(ps, content)|
    ensures exists i, j :: 0 <= i < |ps| && 0 <= j < |ps[i](content)| && w == Offset(ps, content, i) + j
                          && Hits(ps, content)[w] == Hit(ps, content, i, j)
  {
    if w >= |ps[0](content)| {
      HitsCover(ps[1..], content, w - |ps[0](content)|);
      var i, j :| 0 <= i < |ps[1..]| && 0 <= j < |ps[1..][i](content)| && w - |ps[0](content)| == Offset(ps[1..], content, i) + j
                  && Hits(ps[1..], content)[w - |ps[0](content)|] == Hit(ps[1..], content, i, j);
      assert w == Offset(ps, content, i + 1) + j;
      assert Hit(ps[1..], content, i, j) == Hit(ps, content, i + 1, j);
    } else {
      assert Hits(ps, content)[w] == Hit(ps, content, 0, w);
    }
  }

  /** The matches of an earlier regex all come before those of a later one. */
  lemma {:induction false} OffsetOrdered(ps: seq<Pattern>, content: string, i: nat, i': nat)
    requires i < i' <= |ps|
    ensures Offset(ps, content, i) + |ps[i](content)| <= Offset(ps, content, i')
  {
    if i > 0 {
      OffsetOrdered(ps[1..], content, i - 1, i' - 1);
    }
  }

  /** `(i', j')` comes before `(i, j)`: an earlier regex, or an earlier match of the same one. */
  predicate Before(i': nat, j': nat, i: nat, j: nat) {
    i' < i || (i' == i && j' < j)
  }

  /** The match `Hits` puts first after the stable sort by length: no match
      is longer, and every match of an earlier regex, or earlier in the same
      regex, is shorter. */
  lemma FirstLongestHit(ps: seq<Pattern>, content: string, w: nat)
    requires Selection.IsFirstLongest(Hits(ps, content), Length, w)
    ensures forall i, j :: 0 <= i < |ps| && 0 <= j < |ps[i](content)| ==> Hit(ps, content, i, j).length <= Hits(ps, content)[w].length
    ensures exists i, j :: (&& 0 <= i < |ps| && 0 <= j < |ps[i](content)|
                            && Hits(ps, content)[w] == Hit(ps, content, i, j)
                            && forall i', j' :: 0 <= i' < |ps| && 0 <= j' < |ps[i'](content)| && Before(i', j', i, j)
                                                ==> Hit(ps, content, i', j').length < Hits(ps, content)[w].length)
  {
    var hs := Hits(ps, content);
    forall i, j | 0 <= i < |ps| && 0 <= j < |ps[i](content)| ensures Hit(ps, content, i, j).length <= hs[w].length {
      HitsAt(ps, content, i, j);
    }
    HitsCover(ps, content, w);
    var i, j :| 0 <= i < |ps| && 0 <= j < |ps[i](content)| && w == Offset(ps, content, i) + j
                && hs[w] == Hit(ps, content, i, j);
    forall i', j' | 0 <= i' < |ps| && 0 <= j' < |ps[i'](content)| && Before(i', j', i, j)
      ensures Hit(ps, content, i', j').length < hs[w].length
    {
      HitsAt(ps, content, i', j');
      if i' < i {
        OffsetOrdered(ps, content, i', i);
      }
    }
  }

  /** What `GetDelimLocation` returns: the start and length of a match. */
  datatype Location = Location(start: nat, length: nat)

  /** `GetDelimLocation`: the longest match of any regex, the earliest regex
      and then the earliest match on ties; `None` when nothing matches.
      `GetDelimLocationIsLongest` states the choice. */
  function GetDelimLocation(content: string, ps: seq<Pattern>): (r: Option<Location>)
    ensures r.None? <==> !AnyMatch(ps, content)
  {
    var hs := Hits(ps, content);
    Selection.LongestIsFirstLongest(hs, Length);
    match Selection.Longest(hs, Length)
    case None => None
    case Some(h) => Some(Location(h.index, h.length))
  }

  /** The location is that of a match no match is longer than, and every
      match of an earlier regex, or earlier in the same regex, is shorter. */
  lemma GetDelimLocationIsLongest(content: string, ps: seq<Pattern>)
    ensures var r := GetDelimLocation(content, ps);
            r.Some? ==> forall i, j :: 0 <= i < |ps| && 0 <= j < |ps[i](content)| ==> Hit(ps, content, i, j).length <= r.value.length
    ensures var r := GetDelimLocation(content, ps);
            r.Some? ==>
              exists i, j :: (&& 0 <= i < |ps| && 0 <= j < |ps[i](content)|
                              && r.value == Location(Hit(ps, content, i, j).index, Hit(ps, content, i, j).length)
                              && forall i', j' :: 0 <= i' < |ps| && 0 <= j' < |ps[i'](content)| && Before(i', j', i, j)
                                                  ==> Hit(ps, content, i', j').length < r.value.length)
  {
    var hs := Hits(ps, content);
    Selection.LongestIsFirstLongest(hs, Length);
    if |hs| > 0 {
      FirstLongestHit(ps, content, Selection.FirstLongest(hs, Length));
    }
  }

  /** The location found lies inside the probe. */
  lemma LocationInside(content: string, ps: seq<Pattern>)
    requires Sound(ps)
    ensures GetDelimLocation(content, ps).Some? ==>
              GetDelimLocation(content, ps).value.start + GetDelimLocation(content, ps).value.length <= |content|
  {
    if GetDelimLocation(content, ps).Some? {
      GetDelimLocationIsLongest(content, ps);
      var loc := GetDelimLocation(content, ps).value;
      var i, j :| 0 <= i < |ps| && 0 <= j < |ps[i](content)|
                  && loc == Location(Hit(ps, content, i, j).index, Hit(ps, content, i, j).length);
    }
  }

  /** `JustTheDelim`: the text of the longest match, "" when there is none.
      `JustTheDelimIsLongest` states what that text is. */
  function JustTheDelim(content: string, ps: seq<Pattern>): (r: string)
    requires Sound(ps)
    ensures !AnyMatch(ps, content) ==> r == []
  {
    match GetDelimLocation(content, ps)
    case None => []
    case Some(loc) =>
      LocationInside(content, ps);
      content[loc.start..loc.start + loc.length]
  }

  /** The delimiter text is the text of some match, no match is longer, and
      every match of an earlier regex, or earlier in the same regex, is shorter. */
  lemma JustTheDelimIsLongest(content: string, ps: seq<Pattern>)
    requires Sound(ps)
    ensures forall i, j :: 0 <= i < |ps| && 0 <= j < |ps[i](content)| ==> Hit(ps, content, i, j).length <= |JustTheDelim(content, ps)|
    ensures AnyMatch(ps, content) ==>
              exists i, j :: 0 <= i < |ps| && 0 <= j < |ps[i](content)|
                && var h := Hit(ps, content, i, j);
                   && JustTheDelim(content, ps) == content[h.index..h.index + h.length]
                   && forall i', j' :: 0 <= i' < |ps| && 0 <= j' < |ps[i'](content)| && Before(i', j', i, j)
                                       ==> Hit(ps, content, i', j').length < h.length
  {
    LocationInside(content, ps);
    GetDelimLocationIsLongest(content, ps);
  }

  /** The scanner: the string, its read position, and the buffer kept across calls. */
  datatype Reader = Reader(input: string, cursor: nat, buffer: string)

  /** The buffer holds exactly the characters read since it was last cleared. */
  predicate Valid(st: Reader) {
    && st.cursor <= |st.input|
    && |st.buffer| <= st.cursor
    && st.buffer == st.input[st.cursor - |st.buffer|..st.cursor]
  }

  /** `buffer.Append((char)Read())`. */
  function Consume(st: Reader): (r: Reader)
    requires st.cursor < |st.input|
  {
    Reader(st.input, st.cursor + 1, st.buffer + [st.input[st.cursor]])
  }

  /** Some match in `t` is longer than every match in `s`. */
  ghost predicate Outgrows(ps: seq<Pattern>, s: string, t: string) {
    exists i, j :: 0 <= i < |ps| && 0 <= j < |ps[i](t)|
      && forall i', j' :: 0 <= i' < |ps| && 0 <= j' < |ps[i'](s)| ==> Hit(ps, s, i', j').length < Hit(ps, t, i, j).length
  }

  /** `KeepReadingDelim`: does the next character make the longest match
      longer?  False at the end of the input.  The source takes `.Value` of
      both locations, so both must exist. */
  function KeepReadingDelim(st: Reader, ps: seq<Pattern>): (b: bool)
    requires st.cursor <= |st.input|
    requires GetDelimLocation(st.buffer, ps).Some?
    requires st.cursor < |st.input| ==> GetDelimLocation(st.buffer + [st.input[st.cursor]], ps).Some?
    ensures b ==> st.cursor < |st.input|
  {
    if st.cursor == |st.input| then
      false
    else
      var oldLength := GetDelimLocation(st.buffer, ps).value.length;
      var newLength := GetDelimLocation(st.buffer + [st.input[st.cursor]], ps).value.length;
      newLength > oldLength
  }

  /** The delimiter keeps growing exactly when some match with the next
      character is longer than every match without it. */
  lemma KeepReadingDelimOutgrows(st: Reader, ps: seq<Pattern>)
    requires st.cursor <= |st.input|
    requires GetDelimLocation(st.buffer, ps).Some?
    requires st.cursor < |st.input| ==> GetDelimLocation(st.buffer + [st.input[st.cursor]], ps).Some?
    ensures KeepReadingDelim(st, ps) <==> st.cursor < |st.input| && Outgrows(ps, st.buffer, st.buffer + [st.input[st.cursor]])
  {
    if st.cursor < |st.input| {
      var next := st.buffer + [st.input[st.cursor]];
      GetDelimLocationIsLongest(st.buffer, ps);
      GetDelimLocationIsLongest(next, ps);
      var oldLength := GetDelimLocation(st.buffer, ps).value.length;
      var newLength := GetDelimLocation(next, ps).value.length;
      if Outgrows(ps, st.buffer, next) {
        var i, j :| 0 <= i < |ps| && 0 <= j < |ps[i](next)|
          && forall i', j' :: 0 <= i' < |ps| && 0 <= j' < |ps[i'](st.buffer)| ==> Hit(ps, st.buffer, i', j').length < Hit(ps, next, i, j).length;
        var i', j' :| 0 <= i' < |ps| && 0 <= j' < |ps[i'](st.buffer)| && oldLength == Hit(ps, st.buffer, i', j').length;
      }
      if newLength > oldLength {
        var i, j :| 0 <= i < |ps| && 0 <= j < |ps[i](next)| && newLength == Hit(ps, next, i, j).length;
        assert Outgrows(ps, st.buffer, next);
      }
    }
  }

  /** The state after reading on from `st` up to position `k` without
      clearing the buffer. */
  function ReadTo(st: Reader, k: nat): Reader
    requires st.cursor <= k <= |st.input|
  {
    Reader(st.input, k, st.buffer + st.input[st.cursor..k])
  }

  /** Reading one character and then on to `k` is reading on to `k`. */
  lemma ReadToAfterConsume(st: Reader, k: nat)
    requires st.cursor < k <= |st.input|
    ensures ReadTo(Consume(st), k) == ReadTo(st, k)
  {
    assert st.input[st.cursor..k] == [st.input[st.cursor]] + st.input[st.cursor + 1..k];
  }

  /** Reading on from a valid state keeps the buffer equal to what was read
      since the last clear. */
  lemma ValidAfterReading(st: Reader, k: nat)
    requires Valid(st) && st.cursor <= k <= |st.input|
    ensures Valid(ReadTo(st, k))
  {
    var start := st.cursor - |st.buffer|;
    assert st.buffer + st.input[st.cursor..k] == st.input[start..k];
  }

  /** `ReadNextWord`: read until the buffer holds a match and return the
      buffer up to the match start, keeping the buffer; at the end of the
      input, return the whole buffer. */
  function ReadNextWord(st: Reader, ps: seq<Pattern>): (r: (string, Reader))
    requires st.cursor <= |st.input|
    requires Sound(ps)
    decreases |st.input| - st.cursor
    ensures st.cursor <= r.1.cursor <= |st.input| && r.1 == ReadTo(st, r.1.cursor)
    ensures st.cursor < |st.input| ==> st.cursor < r.1.cursor
  {
    if st.cursor == |st.input| then
      assert st.input[st.cursor..st.cursor] == [];
      (st.buffer, st)
    else
      var next := Consume(st);
      ReadToAfterConsume(st, next.cursor);
      match GetDelimLocation(next.buffer, ps)
      case None =>
        var r := ReadNextWord(next, ps);
        ReadToAfterConsume(st, r.1.cursor);
        r
      case Some(loc) =>
        LocationInside(next.buffer, ps);
        assert next == ReadTo(st, next.cursor);
        (next.buffer[..loc.start], next)
  }

  /** `ReadNextWord` stops at the first position where the buffer matches:
      no buffer before it matches, and the word is the buffer up to where the
      longest match starts; when no buffer matches, it reads to the end of
      the input and returns the whole buffer. */
  lemma {:induction false} ReadNextWordStopsAtFirstMatch(st: Reader, ps: seq<Pattern>)
    requires st.cursor <= |st.input|
    requires Sound(ps)
    decreases |st.input| - st.cursor
    ensures var r := ReadNextWord(st, ps);
            forall k :: st.cursor < k < r.1.cursor ==> !AnyMatch(ps, ReadTo(st, k).buffer)
    ensures var r := ReadNextWord(st, ps);
            st.cursor < r.1.cursor && AnyMatch(ps, r.1.buffer) ==>
              && GetDelimLocation(r.1.buffer, ps).value.start <= |r.1.buffer|
              && r.0 == r.1.buffer[..GetDelimLocation(r.1.buffer, ps).value.start]
    ensures var r := ReadNextWord(st, ps);
            !(st.cursor < r.1.cursor && AnyMatch(ps, r.1.buffer)) ==> r.1.cursor == |st.input| && r.0 == r.1.buffer
  {
    if st.cursor == |st.input| {
      assert ReadNextWord(st, ps) == (st.buffer, st);
    } else {
      var next := Consume(st);
      ReadToAfterConsume(st, next.cursor);
      match GetDelimLocation(next.buffer, ps)
      case None =>
        var r := ReadNextWord(next, ps);
        assert ReadNextWord(st, ps) == r;
        ReadNextWordStopsAtFirstMatch(next, ps);
        forall k | st.cursor < k < r.1.cursor ensures !AnyMatch(ps, ReadTo(st, k).buffer) {
          ReadToAfterConsume(st, k);
          if k == next.cursor {
            assert ReadTo(st, k) == next;
          }
        }
      case Some(loc) =>
        LocationInside(next.buffer, ps);
        assert ReadNextWord(st, ps) == (next.buffer[..loc.start], next);
    }
  }

  /** One step of `ReadNextWord` where the grown buffer matches: the word is
      the buffer up to where the match starts, and the reader stops there. */
  lemma WordStopsAtMatch(st: Reader, ps: seq<Pattern>, loc: Location)
    requires st.cursor < |st.input| && Sound(ps)
    requires GetDelimLocation(Consume(st).buffer, ps) == Some(loc)
    ensures loc.start <= |Consume(st).buffer|
    ensures ReadNextWord(st, ps) == (Consume(st).buffer[..loc.start], Consume(st))
  {
    LocationInside(Consume(st).buffer, ps);
  }

  /** One step of `ReadNextWord` where the grown buffer does not match: the
      draft reads on from the grown buffer. */
  lemma WordReadsOn(st: Reader, ps: seq<Pattern>)
    requires st.cursor < |st.input| && Sound(ps)
    requires GetDelimLocation(Consume(st).buffer, ps).None?
    ensures ReadNextWord(st, ps) == ReadNextWord(Consume(st), ps)
  {
  }

  /** What `ReadNextDelim` needs to run without taking `.Value` of a missing
      location: the buffer matches, and so does every buffer-plus-next-character
      that `KeepReadingDelim` probes. */
  ghost predicate CanReadDelim(st: Reader, ps: seq<Pattern>)
    requires st.cursor <= |st.input|
    decreases |st.input| - st.cursor
  {
    && GetDelimLocation(st.buffer, ps).Some?
    && (st.cursor < |st.input| ==>
          && GetDelimLocation(st.buffer + [st.input[st.cursor]], ps).Some?
          && (KeepReadingDelim(st, ps) ==> CanReadDelim(Consume(st), ps)))
  }

  /** Growth steps counted from the state after one more character, and the
      step that character made, are the growth steps from the state before. */
  lemma GrowthShifts(ps: seq<Pattern>, st: Reader, c: nat)
    requires st.cursor < c <= |st.input|
    requires Outgrows(ps, st.buffer, Consume(st).buffer)
    requires forall k :: Consume(st).cursor <= k < c ==>
               Outgrows(ps, ReadTo(Consume(st), k).buffer, ReadTo(Consume(st), k + 1).buffer)
    ensures ReadTo(Consume(st), c) == ReadTo(st, c)
    ensures forall k :: st.cursor <= k < c ==> Outgrows(ps, ReadTo(st, k).buffer, ReadTo(st, k + 1).buffer)
  {
    var next := Consume(st);
    forall k | next.cursor <= k <= c ensures ReadTo(next, k) == ReadTo(st, k) {
      ReadToAfterConsume(st, k);
    }
    assert ReadTo(st, st.cursor).buffer == st.buffer;
    assert ReadTo(st, st.cursor + 1).buffer == next.buffer;
  }

  /** `ReadNextDelim`: take characters while each makes the longest match
      longer, then return the text of the longest match.  The character that
      would not lengthen it stays unread. */
  function ReadNextDelim(st: Reader, ps: seq<Pattern>): (r: (string, Reader))
    requires st.cursor <= |st.input|
    requires Sound(ps)
    requires CanReadDelim(st, ps)
    decreases |st.input| - st.cursor
    ensures st.cursor <= r.1.cursor <= |st.input| && r.1 == ReadTo(st, r.1.cursor)
    ensures forall k :: st.cursor <= k < r.1.cursor ==> Outgrows(ps, ReadTo(st, k).buffer, ReadTo(st, k + 1).buffer)
    ensures CanReadDelim(r.1, ps) && !KeepReadingDelim(r.1, ps)
    ensures r.0 == JustTheDelim(r.1.buffer, ps)
  {
    if KeepReadingDelim(st, ps) then
      var next := Consume(st);
      KeepReadingDelimOutgrows(st, ps);
      var r := ReadNextDelim(next, ps);
      GrowthShifts(ps, st, r.1.cursor);
      r
    else
      assert ReadTo(st, st.cursor) == st;
      (JustTheDelim(st.buffer, ps), st)
  }

  /** With persistent regexes, a buffer that matches can always be grown into a delimiter. */
  lemma {:induction false} PersistentCanReadDelim(st: Reader, ps: seq<Pattern>)
    requires st.cursor <= |st.input|
    requires Persistent(ps) && AnyMatch(ps, st.buffer)
    decreases |st.input| - st.cursor
    ensures CanReadDelim(st, ps)
  {
    if st.cursor < |st.input| {
      var next := Consume(st);
      assert st.buffer <= next.buffer;
      assert AnyMatch(ps, next.buffer);
      PersistentCanReadDelim(next, ps);
    }
  }

  /** No regex reports a match of length zero. */
  ghost predicate NoEmptyHits(ps: seq<Pattern>) {
    forall i, s, j :: 0 <= i < |ps| && 0 <= j < |ps[i](s)| ==> Hit(ps, s, i, j).length > 0
  }

  /** When regexes never report empty matches, the delimiter text of a
      matching buffer is not empty. */
  lemma DelimNotEmpty(content: string, ps: seq<Pattern>)
    requires Sound(ps) && NoEmptyHits(ps)
    requires AnyMatch(ps, content)
    ensures |JustTheDelim(content, ps)| > 0
  {
    JustTheDelimIsLongest(content, ps);
    var i :| 0 <= i < |ps| && IsMatch(ps[i], content);
    assert Hit(ps, content, i, 0).length > 0;
  }

  /** The delimiter branch of `ReadNextWordOrDelim`: read the delimiter, then
      clear the buffer. */
  function ReadDelimAndClear(st: Reader, ps: seq<Pattern>): (r: (string, Reader))
    requires Valid(st)
    requires Sound(ps) && Persistent(ps) && NoEmptyHits(ps)
    requires AnyMatch(ps, st.buffer)
    ensures Valid(r.1) && r.1.input == st.input && st.cursor <= r.1.cursor
    ensures r.1.buffer == [] && |r.0| > 0
  {
    PersistentCanReadDelim(st, ps);
    var (delim, after) := ReadNextDelim(st, ps);
    ValidAfterReading(st, after.cursor);
    DelimNotEmpty(after.buffer, ps);
    (delim, Reader(after.input, after.cursor, []))
  }

  /** `ReadNextWordOrDelim`: if the buffer matches, read the delimiter and
      clear the buffer, otherwise read a word; repeat while the result is
      empty and input remains.  The model asks for regexes whose matches are
      never empty and persist as the buffer grows. */
  function ReadNextWordOrDelim(st: Reader, ps: seq<Pattern>): (r: (string, Reader))
    requires Valid(st)
    requires Sound(ps) && Persistent(ps) && NoEmptyHits(ps)
    decreases |st.input| - st.cursor, |st.buffer|
    ensures Valid(r.1) && r.1.input == st.input && st.cursor <= r.1.cursor
    ensures r.0 == [] ==> r.1.cursor == |st.input|
    ensures AnyMatch(ps, st.buffer) ==> r.1.buffer == [] && |r.0| > 0
  {
    var (ret, next) :=
      (if AnyMatch(ps, st.buffer) then
         ReadDelimAndClear(st, ps)
       else
         var (word, after) := ReadNextWord(st, ps);
         ValidAfterReading(st, after.cursor);
         (word, after));
    if |ret| == 0 && next.cursor < |st.input| then
      ReadNextWordOrDelim(next, ps)
    else
      (ret, next)
  }

  /** A call on a buffer that does not match reads a word; unless it is
      empty with input left, that word is the result. */
  lemma WordOrDelimReadsWord(st: Reader, ps: seq<Pattern>)
    requires Valid(st)
    requires Sound(ps) && Persistent(ps) && NoEmptyHits(ps)
    requires !AnyMatch(ps, st.buffer)
    requires |ReadNextWord(st, ps).0| > 0 || ReadNextWord(st, ps).1.cursor == |st.input|
    ensures ReadNextWordOrDelim(st, ps) == ReadNextWord(st, ps)
  {
  }

  /** A call on a buffer that matches reads the delimiter and clears the buffer. */
  lemma WordOrDelimReadsDelim(st: Reader, ps: seq<Pattern>)
    requires Valid(st)
    requires Sound(ps) && Persistent(ps) && NoEmptyHits(ps)
    requires AnyMatch(ps, st.buffer)
    ensures CanReadDelim(st, ps)
    ensures ReadNextWordOrDelim(st, ps) == (ReadNextDelim(st, ps).0, Reader(st.input, ReadNextDelim(st, ps).1.cursor, []))
  {
    PersistentCanReadDelim(st, ps);
    assert ReadNextWordOrDelim(st, ps) == ReadDelimAndClear(st, ps);
  }

  /** At the end of the input, a buffer left without a match is returned
      again, and the state does not change: every further call repeats the
      last word instead of signalling the end. */
  lemma RepeatsAtEnd(st: Reader, ps: seq<Pattern>)
    requires Valid(st)
    requires Sound(ps) && Persistent(ps) && NoEmptyHits(ps)
    requires st.cursor == |st.input| && !AnyMatch(ps, st.buffer)
    ensures ReadNextWordOrDelim(st, ps) == (st.buffer, st)
  {
    assert ReadNextWord(st, ps) == (st.buffer, st);
  }
}
