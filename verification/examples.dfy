/** Worked examples on literal delimiters, and the two discrepancies of the
    stateful draft next to the behaviour of the two-phase scanner. */
module Examples {
  import opened Optional
  import opened Matching
  import Literals
  import Delimiters
  import Scanner
  import Draft

  /** The draft's regexes for a list of literal patterns. */
  function Lits(ds: seq<string>): (ps: seq<Draft.Pattern>)
    ensures |ps| == |ds|
    ensures forall i :: 0 <= i < |ds| ==> ps[i] == Literals.LiteralHits(ds[i])
  {
    seq(|ds|, i requires 0 <= i < |ds| => Literals.LiteralHits(ds[i]))
  }

  /** `n` successive calls of the draft with no delimiters: the last
      result and the state after it. */
  function CallAgain(st: Draft.Reader, n: nat): (r: (string, Draft.Reader))
    requires n > 0 && Draft.Valid(st)
    ensures Draft.Valid(r.1) && r.1.input == st.input
    decreases n
  {
    var r := Draft.ReadNextWordOrDelim(st, []);
    if n == 1 then r else CallAgain(r.1, n - 1)
  }

  /** Non-empty literal patterns are regexes the draft can run on: their
      matches lie inside the probe, are never empty, and survive reading on. */
  lemma LiteralPatternsBehave(ds: seq<string>)
    requires forall i :: 0 <= i < |ds| ==> |ds[i]| > 0
    ensures Draft.Sound(Lits(ds)) && Draft.NoEmptyHits(Lits(ds)) && Draft.Persistent(Lits(ds))
  {
    var ps := Lits(ds);
    forall s, t | s <= t && Draft.AnyMatch(ps, s) ensures Draft.AnyMatch(ps, t) {
      var i :| 0 <= i < |ps| && Draft.IsMatch(ps[i], s);
      var j :| 0 <= j && Literals.OccursAt(ds[i], s, j);
      Literals.OccursInExtension(ds[i], s, t, j);
      assert Draft.IsMatch(ps[i], t);
    }
  }

  /** The delimiters of the duplication example: `=` and `a=b`. */
  function EqAndAeqb(): seq<Draft.Pattern> {
    Lits(["=", "a=b"])
  }

  lemma EqAndAeqbBehave()
    ensures Draft.Sound(EqAndAeqb()) && Draft.NoEmptyHits(EqAndAeqb()) && Draft.Persistent(EqAndAeqb())
  {
    LiteralPatternsBehave(["=", "a=b"]);
  }

  /** The draft's matches for `=` and `a=b`: those of `=`, then those of `a=b`. */
  lemma HitsOfEqAndAeqb(s: string)
    ensures Draft.Hits(EqAndAeqb(), s) == Literals.Hits("=", s, 0) + Literals.Hits("a=b", s, 0)
  {
    var ps := EqAndAeqb();
    assert ps[1..][1..] == [];
    assert Draft.Hits(ps[1..], s) == Literals.Hits("a=b", s, 0) + Draft.Hits(ps[1..][1..], s);
  }

  /** Where each literal occurs in the buffers the draft probes before the `b`. */
  lemma LiteralsBeforeTheSign()
    ensures Literals.Hits("=", "x", 0) == [] && Literals.Hits("a=b", "x", 0) == []
    ensures Literals.Hits("=", "xa", 0) == [] && Literals.Hits("a=b", "xa", 0) == []
    ensures Literals.Hits("=", "xa=", 0) == [MatchResult(true, 2, 1)] && Literals.Hits("a=b", "xa=", 0) == []
  {
    assert !Literals.OccursAt("=", "x", 0) by { assert "x"[0..1][0] == 'x'; }
    assert !Literals.OccursAt("=", "xa", 0) by { assert "xa"[0..1][0] == 'x'; }
    assert !Literals.OccursAt("=", "xa", 1) by { assert "xa"[1..2][0] == 'a'; }
    assert !Literals.OccursAt("=", "xa=", 0) by { assert "xa="[0..1][0] == 'x'; }
    assert !Literals.OccursAt("=", "xa=", 1) by { assert "xa="[1..2][0] == 'a'; }
    assert Literals.OccursAt("=", "xa=", 2) by { assert "xa="[2..3] == "="; }
    assert Literals.IndexOf("=", "xa=", 0) == Some(2);
    assert Literals.Hits("=", "xa=", 3) == [];
  }

  /** Where each literal occurs in "xa=b". */
  lemma LiteralsInXaEqB()
    ensures Literals.Hits("=", "xa=b", 0) == [MatchResult(true, 2, 1)]
    ensures Literals.Hits("a=b", "xa=b", 0) == [MatchResult(true, 1, 3)]
  {
    assert !Literals.OccursAt("=", "xa=b", 0) by { assert "xa=b"[0..1][0] == 'x'; }
    assert !Literals.OccursAt("=", "xa=b", 1) by { assert "xa=b"[1..2][0] == 'a'; }
    assert Literals.OccursAt("=", "xa=b", 2) by { assert "xa=b"[2..3] == "="; }
    assert Literals.IndexOf("=", "xa=b", 0) == Some(2);
    assert !Literals.OccursAt("=", "xa=b", 3) by { assert "xa=b"[3..4][0] == 'b'; }
    assert Literals.Hits("=", "xa=b", 3) == [];
    assert !Literals.OccursAt("a=b", "xa=b", 0) by { assert "xa=b"[0..3][0] == 'x'; }
    assert Literals.OccursAt("a=b", "xa=b", 1) by { assert "xa=b"[1..4] == "a=b"; }
    assert Literals.IndexOf("a=b", "xa=b", 0) == Some(1);
    assert Literals.Hits("a=b", "xa=b", 4) == [];
  }

  /** Neither delimiter occurs in "x" or "xa"; in "xa=" only `=` does. */
  lemma ProbesBeforeTheSign()
    ensures Draft.GetDelimLocation("x", EqAndAeqb()).None?
    ensures Draft.GetDelimLocation("xa", EqAndAeqb()).None?
    ensures Draft.GetDelimLocation("xa=", EqAndAeqb()) == Some(Draft.Location(2, 1))
  {
    LiteralsBeforeTheSign();
    HitsOfEqAndAeqb("x");
    HitsOfEqAndAeqb("xa");
    HitsOfEqAndAeqb("xa=");
    assert Draft.Hits(EqAndAeqb(), "xa=") == [MatchResult(true, 2, 1)];
  }

  /** In "xa=b" the longer delimiter `a=b` starts inside the word "xa". */
  lemma ProbeWithTheB()
    ensures Draft.GetDelimLocation("xa=b", EqAndAeqb()) == Some(Draft.Location(1, 3))
    ensures Draft.JustTheDelim("xa=b", EqAndAeqb()) == "a=b"
  {
    LiteralsInXaEqB();
    HitsOfEqAndAeqb("xa=b");
    assert Draft.Hits(EqAndAeqb(), "xa=b") == [MatchResult(true, 2, 1), MatchResult(true, 1, 3)];
  }

  /** The buffers the draft builds while reading "xa=b". */
  lemma ReadingXaEqB()
    ensures [] + ["xa=b"[0]] == "x" && "x" + ["xa=b"[1]] == "xa"
    ensures "xa" + ["xa=b"[2]] == "xa=" && "xa=" + ["xa=b"[3]] == "xa=b"
  {
  }

  /** Reading on from "xa" stops at the sign: the word is "xa". */
  lemma WordFromXa()
    ensures Draft.Sound(EqAndAeqb())
    ensures Draft.ReadNextWord(Draft.Reader("xa=b", 2, "xa"), EqAndAeqb()) == ("xa", Draft.Reader("xa=b", 3, "xa="))
  {
    EqAndAeqbBehave();
    assert Draft.Consume(Draft.Reader("xa=b", 2, "xa")) == Draft.Reader("xa=b", 3, "xa=") by { ReadingXaEqB(); }
    ProbesBeforeTheSign();
    Draft.WordStopsAtMatch(Draft.Reader("xa=b", 2, "xa"), EqAndAeqb(), Draft.Location(2, 1));
    assert "xa="[..2] == "xa";
  }

  lemma WordFromX()
    ensures Draft.Sound(EqAndAeqb())
    ensures Draft.ReadNextWord(Draft.Reader("xa=b", 1, "x"), EqAndAeqb()) == ("xa", Draft.Reader("xa=b", 3, "xa="))
  {
    WordFromXa();
    assert Draft.Consume(Draft.Reader("xa=b", 1, "x")) == Draft.Reader("xa=b", 2, "xa") by { ReadingXaEqB(); }
    ProbesBeforeTheSign();
    Draft.WordReadsOn(Draft.Reader("xa=b", 1, "x"), EqAndAeqb());
  }

  lemma WordFromStart()
    ensures Draft.Sound(EqAndAeqb())
    ensures Draft.ReadNextWord(Draft.Reader("xa=b", 0, ""), EqAndAeqb()) == ("xa", Draft.Reader("xa=b", 3, "xa="))
  {
    WordFromX();
    assert Draft.Consume(Draft.Reader("xa=b", 0, "")) == Draft.Reader("xa=b", 1, "x") by { ReadingXaEqB(); }
    ProbesBeforeTheSign();
    Draft.WordReadsOn(Draft.Reader("xa=b", 0, ""), EqAndAeqb());
  }

  /** First call on "xa=b": the word "xa", with "xa=" left in the buffer. */
  lemma DraftFirstCall()
    ensures Draft.Sound(EqAndAeqb()) && Draft.NoEmptyHits(EqAndAeqb()) && Draft.Persistent(EqAndAeqb())
    ensures Draft.ReadNextWordOrDelim(Draft.Reader("xa=b", 0, ""), EqAndAeqb())
            == ("xa", Draft.Reader("xa=b", 3, "xa="))
  {
    EqAndAeqbBehave();
    WordFromStart();
    assert !Draft.AnyMatch(EqAndAeqb(), "");
    Draft.WordOrDelimReadsWord(Draft.Reader("xa=b", 0, ""), EqAndAeqb());
  }

  /** Growing the delimiter from "xa=": the `b` turns the match `=` into the
      longer `a=b`, and the input ends there. */
  lemma DelimFromXaEq()
    ensures Draft.Sound(EqAndAeqb()) && Draft.CanReadDelim(Draft.Reader("xa=b", 3, "xa="), EqAndAeqb())
    ensures Draft.ReadNextDelim(Draft.Reader("xa=b", 3, "xa="), EqAndAeqb()) == ("a=b", Draft.Reader("xa=b", 4, "xa=b"))
  {
    EqAndAeqbBehave();
    ReadingXaEqB();
    ProbesBeforeTheSign();
    ProbeWithTheB();
    var ps := EqAndAeqb();
    var st := Draft.Reader("xa=b", 3, "xa=");
    assert Draft.Consume(st) == Draft.Reader("xa=b", 4, "xa=b");
    assert Draft.KeepReadingDelim(st, ps);
    assert Draft.CanReadDelim(Draft.Consume(st), ps);
    assert !Draft.KeepReadingDelim(Draft.Consume(st), ps);
  }

  /** Second call: the buffer "xa=" matches, `a=b` outgrows `=`, and the
      delimiter returned is "a=b", whose "a" was already returned. */
  lemma DraftSecondCall()
    ensures Draft.Sound(EqAndAeqb()) && Draft.NoEmptyHits(EqAndAeqb()) && Draft.Persistent(EqAndAeqb())
    ensures Draft.ReadNextWordOrDelim(Draft.Reader("xa=b", 3, "xa="), EqAndAeqb())
            == ("a=b", Draft.Reader("xa=b", 4, ""))
  {
    EqAndAeqbBehave();
    ReadingXaEqB();
    ProbesBeforeTheSign();
    DelimFromXaEq();
    Draft.WordOrDelimReadsDelim(Draft.Reader("xa=b", 3, "xa="), EqAndAeqb());
  }

  /** Third call: nothing is left, and the empty string is returned. */
  lemma DraftThirdCall()
    ensures Draft.Sound(EqAndAeqb()) && Draft.NoEmptyHits(EqAndAeqb()) && Draft.Persistent(EqAndAeqb())
    ensures Draft.ReadNextWordOrDelim(Draft.Reader("xa=b", 4, ""), EqAndAeqb())
            == ("", Draft.Reader("xa=b", 4, ""))
  {
    EqAndAeqbBehave();
    var ps := EqAndAeqb();
    assert !Draft.AnyMatch(ps, "");
  }

  /** The draft returns "xa", "a=b", "" for "xa=b" and then stops at the
      end of the input: the character `a` comes out twice, so joining the
      results does not give the input back. */
  lemma DraftDuplicatesText()
    ensures Draft.Sound(EqAndAeqb()) && Draft.NoEmptyHits(EqAndAeqb()) && Draft.Persistent(EqAndAeqb())
    ensures Draft.ReadNextWordOrDelim(Draft.Reader("xa=b", 0, ""), EqAndAeqb()) == ("xa", Draft.Reader("xa=b", 3, "xa="))
    ensures Draft.ReadNextWordOrDelim(Draft.Reader("xa=b", 3, "xa="), EqAndAeqb()) == ("a=b", Draft.Reader("xa=b", 4, ""))
    ensures Draft.ReadNextWordOrDelim(Draft.Reader("xa=b", 4, ""), EqAndAeqb()) == ("", Draft.Reader("xa=b", 4, ""))
    ensures "xa" + "a=b" + "" != "xa=b"
  {
    DraftFirstCall();
    DraftSecondCall();
    DraftThirdCall();
    assert |"xa" + "a=b" + ""| == 5;
  }

  /** With no delimiters, the draft returns "b" for "b" and leaves it in the
      buffer. */
  lemma DraftReadsB()
    ensures Draft.Sound([]) && Draft.NoEmptyHits([]) && Draft.Persistent([])
    ensures Draft.ReadNextWordOrDelim(Draft.Reader("b", 0, ""), []) == ("b", Draft.Reader("b", 1, "b"))
  {
    assert Draft.Consume(Draft.Reader("b", 0, "")) == Draft.Reader("b", 1, "b");
    assert Draft.ReadNextWord(Draft.Reader("b", 1, "b"), []) == ("b", Draft.Reader("b", 1, "b"));
  }

  /** Once the draft has returned "b", each further call returns "b" again. */
  lemma {:induction false} StuckAfterB(n: nat)
    requires n > 0
    ensures CallAgain(Draft.Reader("b", 1, "b"), n) == ("b", Draft.Reader("b", 1, "b"))
  {
    Draft.RepeatsAtEnd(Draft.Reader("b", 1, "b"), []);
    if n > 1 {
      StuckAfterB(n - 1);
    }
  }

  /** However many times the draft is called on "b", it returns "b": the
      end of the input is never reported. */
  lemma DraftRepeatsLastWord(n: nat)
    requires n > 0
    ensures CallAgain(Draft.Reader("b", 0, ""), n) == ("b", Draft.Reader("b", 1, "b"))
  {
    DraftReadsB();
    if n > 1 {
      StuckAfterB(n - 1);
    }
  }

  /** The two-phase scanner with the same delimiters, `=` and `a=b`, as one
      collection of literal delimiters. */
  function EqOrAeqb(): Matcher {
    Delimiters.AsMatcher(Delimiters.Collection(["=", "a=b"]), Literals.Literal)
  }

  /** What the literals `=` and `a=b` answer for the buffers the scanner probes. */
  lemma LiteralAnswers()
    ensures Literals.Literal("=")("x") == NoMatch && Literals.Literal("a=b")("x") == NoMatch
    ensures Literals.Literal("=")("xa") == NoMatch && Literals.Literal("a=b")("xa") == NoMatch
    ensures Literals.Literal("=")("xa=") == MatchResult(true, 2, 1) && Literals.Literal("a=b")("xa=") == NoMatch
    ensures Literals.Literal("=")("=") == MatchResult(true, 0, 1) && Literals.Literal("a=b")("=") == NoMatch
    ensures Literals.Literal("=")("=b") == MatchResult(true, 0, 1) && Literals.Literal("a=b")("=b") == NoMatch
    ensures Literals.Literal("=")("b") == NoMatch && Literals.Literal("a=b")("b") == NoMatch
  {
    assert !Literals.OccursAt("=", "x", 0) by { assert "x"[0..1][0] == 'x'; }
    assert !Literals.OccursAt("=", "xa", 0) by { assert "xa"[0..1][0] == 'x'; }
    assert !Literals.OccursAt("=", "xa", 1) by { assert "xa"[1..2][0] == 'a'; }
    assert !Literals.OccursAt("=", "xa=", 0) by { assert "xa="[0..1][0] == 'x'; }
    assert !Literals.OccursAt("=", "xa=", 1) by { assert "xa="[1..2][0] == 'a'; }
    assert Literals.OccursAt("=", "xa=", 2) by { assert "xa="[2..3] == "="; }
    assert !Literals.OccursAt("a=b", "xa=", 0) by { assert "xa="[0..3][0] == 'x'; }
    assert Literals.OccursAt("=", "=", 0) by { assert "="[0..1] == "="; }
    assert Literals.OccursAt("=", "=b", 0) by { assert "=b"[0..1] == "="; }
    assert !Literals.OccursAt("=", "b", 0) by { assert "b"[0..1][0] == 'b'; }
  }

  /** Where `a=b` does not occur, the combined delimiter answers as `=` does. */
  lemma AnswersAsEq(s: string)
    requires Literals.Literal("a=b")(s) == NoMatch
    ensures EqOrAeqb()(s) == Literals.Literal("=")(s)
  {
    Delimiters.MatchPicksEarliestLongest(Delimiters.Collection(["=", "a=b"]), Literals.Literal, s, 0);
  }

  lemma EqOrAeqbWellFormed()
    ensures WellFormed(EqOrAeqb())
  {
    Literals.LiteralWellFormed("=");
    Literals.LiteralWellFormed("a=b");
    Delimiters.AsMatcherWellFormed(Delimiters.Collection(["=", "a=b"]), Literals.Literal);
  }

  /** What the combined delimiter answers for those buffers: the longer
      delimiter never occurs in them, so each answer is that of `=`. */
  lemma CombinedAnswers()
    ensures !EqOrAeqb()("x").success && !EqOrAeqb()("xa").success && !EqOrAeqb()("b").success
    ensures EqOrAeqb()("xa=") == MatchResult(true, 2, 1)
    ensures EqOrAeqb()("=") == MatchResult(true, 0, 1) && EqOrAeqb()("=b") == MatchResult(true, 0, 1)
  {
    LiteralAnswers();
    AnswersAsEq("x");
    AnswersAsEq("xa");
    AnswersAsEq("b");
    AnswersAsEq("xa=");
    AnswersAsEq("=");
    AnswersAsEq("=b");
  }

  /** The buffers the two-phase scanner probes in "xa=b". */
  lemma BuffersOfXaEqB()
    ensures Scanner.Buffer("xa=b", 0, 1) == "x" && Scanner.Buffer("xa=b", 0, 2) == "xa"
    ensures Scanner.Buffer("xa=b", 0, 3) == "xa="
    ensures Scanner.Buffer("xa=b", 2, 1) == "=" && Scanner.Buffer("xa=b", 2, 2) == "=b"
    ensures Scanner.Buffer("xa=b", 3, 1) == "b"
  {
  }

  /** The pieces the two-phase scanner cuts "xa=b" into. */
  lemma PiecesOfXaEqB()
    ensures "xa=b"[0..2] == "xa" && "xa=b"[2..3] == "=" && "xa=b"[3..] == "b"
  {
  }

  /** Phase 1 from the start first succeeds on "xa=", with `=` at index 2. */
  lemma XaStopsAtSign()
    ensures Scanner.MatchedFirstAt("xa=b", 0, EqOrAeqb(), 3)
    ensures EqOrAeqb()(Scanner.Buffer("xa=b", 0, 3)).index == 2
  {
    CombinedAnswers();
    BuffersOfXaEqB();
    forall j | 1 <= j < 3 ensures !EqOrAeqb()(Scanner.Buffer("xa=b", 0, j)).success {
      assert j == 1 || j == 2;
    }
  }

  /** First read: phase 1 stops at "xa=" and returns the text before `=`. */
  lemma ScannerReadsXa()
    ensures WellFormed(EqOrAeqb())
    ensures Scanner.Read("xa=b", 0, EqOrAeqb()) == Scanner.ReadResult(Some("xa"), 2)
  {
    EqOrAeqbWellFormed();
    XaStopsAtSign();
    Scanner.ReadWordBeforeDelimiter("xa=b", 0, EqOrAeqb(), 3);
    PiecesOfXaEqB();
  }

  /** Second read: the delimiter is at the cursor, and phase 2 cuts "=b" after `=`. */
  lemma ScannerReadsEq()
    ensures WellFormed(EqOrAeqb())
    ensures Scanner.Read("xa=b", 2, EqOrAeqb()) == Scanner.ReadResult(Some("="), 3)
  {
    EqOrAeqbWellFormed();
    assert Scanner.MatchedFirstAt("xa=b", 2, EqOrAeqb(), 1)
        && EqOrAeqb()(Scanner.Buffer("xa=b", 2, 1)).index == 0
        && Scanner.CutFirstAt("xa=b", 2, EqOrAeqb(), 2)
        && EqOrAeqb()(Scanner.Buffer("xa=b", 2, 2)).length == 1 by {
      CombinedAnswers();
      BuffersOfXaEqB();
    }
    Scanner.ReadLeadingDelimiter("xa=b", 2, EqOrAeqb(), 1, 2);
    PiecesOfXaEqB();
  }

  /** Third read: no delimiter is left, and the rest is the token. */
  lemma ScannerReadsB()
    ensures WellFormed(EqOrAeqb())
    ensures Scanner.Read("xa=b", 3, EqOrAeqb()) == Scanner.ReadResult(Some("b"), 4)
  {
    EqOrAeqbWellFormed();
    assert Scanner.NeverMatches("xa=b", 3, EqOrAeqb()) by {
      CombinedAnswers();
      BuffersOfXaEqB();
      forall j | 1 <= j && 3 + j <= |"xa=b"| ensures !EqOrAeqb()(Scanner.Buffer("xa=b", 3, j)).success {
        assert j == 1;
      }
    }
    Scanner.ReadWithoutDelimiter("xa=b", 3, EqOrAeqb());
    PiecesOfXaEqB();
  }

  lemma Three(w1: string, w2: string, w3: string)
    ensures [w1] + ([w2] + ([w3] + [])) == [w1, w2, w3]
  {
  }

  /** Reads that return `w1`, `w2`, `w3` at 0, `c1`, `c2` and reach the end:
      those are the tokens. */
  lemma ThreeTokens(input: string, m: Matcher, w1: string, c1: nat, w2: string, c2: nat, w3: string)
    requires WellFormed(m)
    requires Scanner.Read(input, 0, m) == Scanner.ReadResult(Some(w1), c1)
    requires c1 <= |input| && Scanner.Read(input, c1, m) == Scanner.ReadResult(Some(w2), c2)
    requires c2 <= |input| && Scanner.Read(input, c2, m) == Scanner.ReadResult(Some(w3), |input|)
    ensures Scanner.Tokens(input, 0, m) == [w1, w2, w3]
  {
    Three(w1, w2, w3);
    assert Scanner.Tokens(input, |input|, m) == [];
    Scanner.TokensStep(input, c2, m, w3, |input|);
    Scanner.TokensStep(input, c1, m, w2, c2);
    Scanner.TokensStep(input, 0, m, w1, c1);
  }

  /** On the input where the draft repeats the `a`, the two-phase scanner
      returns "xa", "=", "b", which join back into the input. */
  lemma ScannerSplitsXaEqB()
    ensures WellFormed(EqOrAeqb())
    ensures Scanner.Tokens("xa=b", 0, EqOrAeqb()) == ["xa", "=", "b"]
  {
    ScannerReadsXa();
    ScannerReadsEq();
    ScannerReadsB();
    ThreeTokens("xa=b", EqOrAeqb(), "xa", 2, "=", 3, "b");
  }

  /** Longest wins: of `=` and `==`, the collection answers for "a==b" with `==`. */
  lemma LongerMemberWins()
    ensures Delimiters.Match(Delimiters.Collection(["=", "=="]), Literals.Literal, "a==b")
            == Some(MatchResult(true, 1, 2))
  {
    assert !Literals.OccursAt("=", "a==b", 0) by { assert "a==b"[0..1][0] == 'a'; }
    assert Literals.OccursAt("=", "a==b", 1) by { assert "a==b"[1..2] == "="; }
    assert !Literals.OccursAt("==", "a==b", 0) by { assert "a==b"[0..2][0] == 'a'; }
    assert Literals.OccursAt("==", "a==b", 1) by { assert "a==b"[1..3] == "=="; }
    Delimiters.MatchPicksEarliestLongest(Delimiters.Collection(["=", "=="]), Literals.Literal, "a==b", 1);
  }

  /** Ties go to the earlier member: `b` and `a` both match "ab" with length
      1, and the answer is that of `b`, which comes first in the list. */
  lemma EarlierMemberWinsTie()
    ensures Delimiters.Match(Delimiters.Collection(["b", "a"]), Literals.Literal, "ab")
            == Some(MatchResult(true, 1, 1))
  {
    assert !Literals.OccursAt("b", "ab", 0) by { assert "ab"[0..1][0] == 'a'; }
    assert Literals.OccursAt("b", "ab", 1) by { assert "ab"[1..2] == "b"; }
    assert Literals.OccursAt("a", "ab", 0) by { assert "ab"[0..1] == "a"; }
    Delimiters.MatchPicksEarliestLongest(Delimiters.Collection(["b", "a"]), Literals.Literal, "ab", 0);
  }

  /** The delimiters `=` then `==`, as one collection. */
  function EqOrEqEq(): Matcher {
    Delimiters.AsMatcher(Delimiters.Collection(["=", "=="]), Literals.Literal)
  }

  lemma EqOrEqEqWellFormed()
    ensures WellFormed(EqOrEqEq())
  {
    Literals.LiteralWellFormed("=");
    Literals.LiteralWellFormed("==");
    Delimiters.AsMatcherWellFormed(Delimiters.Collection(["=", "=="]), Literals.Literal);
  }

  /** Where `==` does not occur, the collection answers as `=` does. */
  lemma AnswersAsSingleEq(s: string)
    requires Literals.Literal("==")(s) == NoMatch
    ensures EqOrEqEq()(s) == Literals.Literal("=")(s)
  {
    Delimiters.MatchPicksEarliestLongest(Delimiters.Collection(["=", "=="]), Literals.Literal, s, 0);
  }

  /** Where `==` occurs first, at the same place as `=`, the collection answers as `==` does. */
  lemma AnswersAsDoubleEq(s: string)
    requires Literals.Literal("=")(s).length < Literals.Literal("==")(s).length
    ensures EqOrEqEq()(s) == Literals.Literal("==")(s)
  {
    Delimiters.MatchPicksEarliestLongest(Delimiters.Collection(["=", "=="]), Literals.Literal, s, 1);
  }

  /** The buffers the two-phase scanner probes in "a==b". */
  lemma BuffersOfAEqEqB()
    ensures Scanner.Buffer("a==b", 0, 1) == "a" && Scanner.Buffer("a==b", 0, 2) == "a="
    ensures Scanner.Buffer("a==b", 1, 1) == "=" && Scanner.Buffer("a==b", 1, 2) == "=="
    ensures Scanner.Buffer("a==b", 1, 3) == "==b" && Scanner.Buffer("a==b", 3, 1) == "b"
  {
  }

  /** What `=` and `==` answer for those buffers. */
  lemma LiteralAnswersOnAEqEqB()
    ensures Literals.Literal("=")("a") == NoMatch && Literals.Literal("==")("a") == NoMatch
    ensures Literals.Literal("=")("a=") == MatchResult(true, 1, 1) && Literals.Literal("==")("a=") == NoMatch
    ensures Literals.Literal("=")("=") == MatchResult(true, 0, 1) && Literals.Literal("==")("=") == NoMatch
    ensures Literals.Literal("=")("==") == MatchResult(true, 0, 1) && Literals.Literal("==")("==") == MatchResult(true, 0, 2)
    ensures Literals.Literal("=")("==b") == MatchResult(true, 0, 1) && Literals.Literal("==")("==b") == MatchResult(true, 0, 2)
    ensures Literals.Literal("=")("b") == NoMatch && Literals.Literal("==")("b") == NoMatch
  {
    assert !Literals.OccursAt("=", "a", 0) by { assert "a"[0..1][0] == 'a'; }
    assert !Literals.OccursAt("=", "a=", 0) by { assert "a="[0..1][0] == 'a'; }
    assert Literals.OccursAt("=", "a=", 1) by { assert "a="[1..2] == "="; }
    assert !Literals.OccursAt("==", "a=", 0) by { assert "a="[0..2][0] == 'a'; }
    assert Literals.OccursAt("=", "=", 0) by { assert "="[0..1] == "="; }
    assert Literals.OccursAt("=", "==", 0) by { assert "=="[0..1] == "="; }
    assert Literals.OccursAt("==", "==", 0) by { assert "=="[0..2] == "=="; }
    assert Literals.OccursAt("=", "==b", 0) by { assert "==b"[0..1] == "="; }
    assert Literals.OccursAt("==", "==b", 0) by { assert "==b"[0..2] == "=="; }
    assert !Literals.OccursAt("=", "b", 0) by { assert "b"[0..1][0] == 'b'; }
  }

  lemma CollectionAnswersOnAEqEqB()
    ensures !EqOrEqEq()("a").success && !EqOrEqEq()("b").success
    ensures EqOrEqEq()("a=") == MatchResult(true, 1, 1) && EqOrEqEq()("=") == MatchResult(true, 0, 1)
    ensures EqOrEqEq()("==") == MatchResult(true, 0, 2) && EqOrEqEq()("==b") == MatchResult(true, 0, 2)
  {
    LiteralAnswersOnAEqEqB();
    AnswersAsSingleEq("a");
    AnswersAsSingleEq("b");
    AnswersAsSingleEq("a=");
    AnswersAsSingleEq("=");
    AnswersAsDoubleEq("==");
    AnswersAsDoubleEq("==b");
  }

  /** The pieces the two-phase scanner cuts "a==b" into. */
  lemma PiecesOfAEqEqB()
    ensures "a==b"[0..1] == "a" && "a==b"[1..3] == "==" && "a==b"[3..] == "b"
  {
  }

  /** First read of "a==b": the text before the first `=`. */
  lemma ScannerReadsA()
    ensures WellFormed(EqOrEqEq())
    ensures Scanner.Read("a==b", 0, EqOrEqEq()) == Scanner.ReadResult(Some("a"), 1)
  {
    EqOrEqEqWellFormed();
    assert Scanner.MatchedFirstAt("a==b", 0, EqOrEqEq(), 2) && EqOrEqEq()(Scanner.Buffer("a==b", 0, 2)).index == 1 by {
      CollectionAnswersOnAEqEqB();
      BuffersOfAEqEqB();
      forall j | 1 <= j < 2 ensures !EqOrEqEq()(Scanner.Buffer("a==b", 0, j)).success {
        assert j == 1;
      }
    }
    Scanner.ReadWordBeforeDelimiter("a==b", 0, EqOrEqEq(), 2);
    PiecesOfAEqEqB();
  }

  /** Second read: a delimiter at the cursor, grown from `=` to `==` and cut
      when the `b` no longer belongs to it. */
  lemma ScannerReadsEqEq()
    ensures WellFormed(EqOrEqEq())
    ensures Scanner.Read("a==b", 1, EqOrEqEq()) == Scanner.ReadResult(Some("=="), 3)
  {
    EqOrEqEqWellFormed();
    assert Scanner.MatchedFirstAt("a==b", 1, EqOrEqEq(), 1)
        && EqOrEqEq()(Scanner.Buffer("a==b", 1, 1)).index == 0
        && Scanner.CutFirstAt("a==b", 1, EqOrEqEq(), 3)
        && EqOrEqEq()(Scanner.Buffer("a==b", 1, 3)).length == 2 by {
      CollectionAnswersOnAEqEqB();
      BuffersOfAEqEqB();
      forall j | 1 <= j < 3 ensures EqOrEqEq()(Scanner.Buffer("a==b", 1, j)).length in {0, j} {
        assert j == 1 || j == 2;
      }
    }
    Scanner.ReadLeadingDelimiter("a==b", 1, EqOrEqEq(), 1, 3);
    PiecesOfAEqEqB();
  }

  /** Third read: the `b` that is left. */
  lemma ScannerReadsLastB()
    ensures WellFormed(EqOrEqEq())
    ensures Scanner.Read("a==b", 3, EqOrEqEq()) == Scanner.ReadResult(Some("b"), 4)
  {
    EqOrEqEqWellFormed();
    assert Scanner.NeverMatches("a==b", 3, EqOrEqEq()) by {
      CollectionAnswersOnAEqEqB();
      BuffersOfAEqEqB();
      forall j | 1 <= j && 3 + j <= |"a==b"| ensures !EqOrEqEq()(Scanner.Buffer("a==b", 3, j)).success {
        assert j == 1;
      }
    }
    Scanner.ReadWithoutDelimiter("a==b", 3, EqOrEqEq());
    PiecesOfAEqEqB();
  }

  /** With `=` then `==`, "a==b" splits into "a", "==", "b": the delimiter at
      the cursor is preferred and grown from `=` to `==`, each a delimiter. */
  lemma ScannerSplitsAEqEqB()
    ensures WellFormed(EqOrEqEq())
    ensures Scanner.Tokens("a==b", 0, EqOrEqEq()) == ["a", "==", "b"]
  {
    ScannerReadsA();
    ScannerReadsEqEq();
    ScannerReadsLastB();
    ThreeTokens("a==b", EqOrEqEq(), "a", 1, "==", 3, "b");
  }

  /** The delimiters `=` then `===`, as one collection: `===` is a delimiter
      whose prefix `==` is not. */
  function EqOrTripleEq(): Matcher {
    Delimiters.AsMatcher(Delimiters.Collection(["=", "==="]), Literals.Literal)
  }

  lemma EqOrTripleEqWellFormed()
    ensures WellFormed(EqOrTripleEq())
  {
    Literals.LiteralWellFormed("=");
    Literals.LiteralWellFormed("===");
    Delimiters.AsMatcherWellFormed(Delimiters.Collection(["=", "==="]), Literals.Literal);
  }

  /** The buffers the scanner probes in "===". */
  lemma BuffersOfTripleEq()
    ensures Scanner.Buffer("===", 0, 1) == "=" && Scanner.Buffer("===", 0, 2) == "=="
    ensures Scanner.Buffer("===", 0, 3) == "===" && "==="[0..1] == "="
  {
  }

  /** What `=` and `===` answer for those buffers. */
  lemma LiteralAnswersOnTripleEq()
    ensures Literals.Literal("=")("=") == MatchResult(true, 0, 1) && Literals.Literal("===")("=") == NoMatch
    ensures Literals.Literal("=")("==") == MatchResult(true, 0, 1) && Literals.Literal("===")("==") == NoMatch
    ensures Literals.Literal("=")("===") == MatchResult(true, 0, 1)
    ensures Literals.Literal("===")("===") == MatchResult(true, 0, 3)
  {
    assert Literals.OccursAt("=", "=", 0) by { assert "="[0..1] == "="; }
    assert Literals.OccursAt("=", "==", 0) by { assert "=="[0..1] == "="; }
    assert Literals.OccursAt("=", "===", 0) by { assert "==="[0..1] == "="; }
    assert Literals.OccursAt("===", "===", 0) by { assert "==="[0..3] == "==="; }
  }

  lemma CollectionAnswersOnTripleEq()
    ensures EqOrTripleEq()("=") == MatchResult(true, 0, 1)
    ensures EqOrTripleEq()("==") == MatchResult(true, 0, 1)
    ensures EqOrTripleEq()("===") == MatchResult(true, 0, 3)
  {
    LiteralAnswersOnTripleEq();
    var c := Delimiters.Collection(["=", "==="]);
    Delimiters.MatchPicksEarliestLongest(c, Literals.Literal, "=", 0);
    Delimiters.MatchPicksEarliestLongest(c, Literals.Literal, "==", 0);
    Delimiters.MatchPicksEarliestLongest(c, Literals.Literal, "===", 1);
  }

  /** Phase 2 as written misses `===` in "===": the buffer "==" is not
      matched as a whole, so the delimiter is cut to `=`. */
  lemma ScannerMissesTripleEq()
    ensures WellFormed(EqOrTripleEq())
    ensures Scanner.Read("===", 0, EqOrTripleEq()) == Scanner.ReadResult(Some("="), 1)
  {
    EqOrTripleEqWellFormed();
    assert Scanner.MatchedFirstAt("===", 0, EqOrTripleEq(), 1)
        && EqOrTripleEq()(Scanner.Buffer("===", 0, 1)).index == 0
        && Scanner.CutFirstAt("===", 0, EqOrTripleEq(), 2)
        && EqOrTripleEq()(Scanner.Buffer("===", 0, 2)).length == 1 by {
      CollectionAnswersOnTripleEq();
      BuffersOfTripleEq();
      forall j | 1 <= j < 2 ensures EqOrTripleEq()(Scanner.Buffer("===", 0, j)).length in {0, j} {
        assert j == 1;
      }
    }
    Scanner.ReadLeadingDelimiter("===", 0, EqOrTripleEq(), 1, 2);
    BuffersOfTripleEq();
  }

  /** The corrected read takes the whole of "===". */
  lemma MunchReadsTripleEq()
    ensures WellFormed(EqOrTripleEq())
    ensures Scanner.MunchRead("===", 0, EqOrTripleEq()) == Scanner.ReadResult(Some("==="), 3)
  {
    EqOrTripleEqWellFormed();
    assert Scanner.MatchedFirstAt("===", 0, EqOrTripleEq(), 1)
        && EqOrTripleEq()(Scanner.Buffer("===", 0, 1)).index == 0
        && Scanner.WholeMatch("===", 0, EqOrTripleEq(), 3) by {
      CollectionAnswersOnTripleEq();
      BuffersOfTripleEq();
    }
    Scanner.MunchReadLeadingDelimiterToEnd("===", 0, EqOrTripleEq(), 1);
    assert "==="[0..] == "===";
  }
}
