/** Worked inputs: the tokeniser's edge cases, a tally and a censored sentence. */
module Scenarios {
  import opened Wrappers
  import opened WordScan
  import opened WordLookup
  import opened Table
  import opened Events
  import opened Consumers

  /** Digits are word characters, so `abc123` has no boundary after its letters and yields no token. */
  lemma NoTokenBeforeDigits()
    ensures Tokens("abc123") == []
  {
    var s := "abc123";
    assert RunEnd(s, 3) == 3;
    assert RunEnd(s, 0) == 3;
    assert BacktrackEnd(s, 0, 3) == None;
    assert MatchAt(s, 0) == None;
    assert TokensFrom(s, 6) == [];
    assert TokensFrom(s, 5) == [];
    assert TokensFrom(s, 4) == [];
    assert TokensFrom(s, 3) == [];
    assert TokensFrom(s, 2) == [];
    assert TokensFrom(s, 1) == [];
  }

  /** A hyphen is not a word character, so after a digit it starts a token: `1-abc` yields `-abc`. */
  lemma HyphenAfterDigit()
    ensures Tokens("1-abc") == [Span(1, 5)]
  {
    var s := "1-abc";
    assert RunEnd(s, 5) == 5;
    assert RunEnd(s, 1) == 5;
    assert MatchAt(s, 1) == Some(5);
    assert TokensFrom(s, 5) == [];
    assert TokensFrom(s, 1) == [Span(1, 5)];
  }

  lemma ThreeEvents(m: map<string, Labels>, s: string, a: Span, b: Span, c: Span)
    requires a.start <= a.end <= |s| && b.start <= b.end <= |s| && c.start <= c.end <= |s|
    ensures SpansIn(s, [a, b, c])
    ensures WordEventsOf(m, s, [a, b, c]) == [WordEvent(m, s, a), WordEvent(m, s, b), WordEvent(m, s, c)]
  {
    var evs := WordEventsOf(m, s, [a, b, c]);
    WordEventsOfAt(m, s, [a, b, c], 0);
    WordEventsOfAt(m, s, [a, b, c], 1);
    WordEventsOfAt(m, s, [a, b, c], 2);
  }

  /** The documented table: "damn" is profanity, "hell" is mild. */
  function SampleTable(): map<string, Labels> {
    map["damn" := ["profanity"], "hell" := ["mild"]]
  }

  lemma ThreeWords()
    ensures Tokens("damn damn hell") == [Span(0, 4), Span(5, 9), Span(10, 14)]
  {
    var s := "damn damn hell";
    assert RunEnd(s, 14) == 14;
    assert RunEnd(s, 10) == 14;
    assert MatchAt(s, 10) == Some(14);
    assert TokensFrom(s, 14) == [];
    assert TokensFrom(s, 10) == [Span(10, 14)];
    assert RunEnd(s, 9) == 9;
    assert MatchAt(s, 9) == None;
    assert RunEnd(s, 5) == 9;
    assert MatchAt(s, 5) == Some(9);
    assert TokensFrom(s, 5) == [Span(5, 9), Span(10, 14)];
    assert RunEnd(s, 4) == 4;
    assert MatchAt(s, 4) == None;
    assert RunEnd(s, 0) == 4;
    assert MatchAt(s, 0) == Some(4);
  }

  lemma SampleLookups()
    ensures LookupWord(SampleTable(), "damn") == Some(["profanity"])
    ensures LookupWord(SampleTable(), "hell") == Some(["mild"])
  {
    var m := SampleTable();
    assert Downcase("damn") == "damn" by {
      assert Downcase("damn")[3] == 'n';
    }
    assert Downcase("hell") == "hell" by {
      assert Downcase("hell")[3] == 'l';
    }
    assert "damn" in m && "hell" in m;
  }

  lemma SampleEventsOf()
    ensures WordEventsOf(SampleTable(), "damn damn hell", [Span(0, 4), Span(5, 9), Span(10, 14)])
      == [Event(Some(["profanity"]), "damn", 0), Event(Some(["profanity"]), "damn", 5), Event(Some(["mild"]), "hell", 10)]
  {
    var s := "damn damn hell";
    var m := SampleTable();
    SampleLookups();
    var a, b, c := Span(0, 4), Span(5, 9), Span(10, 14);
    assert s[0..4] == "damn" && s[5..9] == "damn" && s[10..14] == "hell";
    var ea, eb, ec := WordEvent(m, s, a), WordEvent(m, s, b), WordEvent(m, s, c);
    assert ea == Event(Some(["profanity"]), "damn", 0);
    assert eb == Event(Some(["profanity"]), "damn", 5);
    assert ec == Event(Some(["mild"]), "hell", 10);
    ThreeEvents(m, s, a, b, c);
  }

  lemma SampleEvents()
    ensures WordEvents(SampleTable(), "damn damn hell")
      == [Event(Some(["profanity"]), "damn", 0), Event(Some(["profanity"]), "damn", 5), Event(Some(["mild"]), "hell", 10)]
  {
    ThreeWords();
    SampleEventsOf();
  }

  lemma CountInSingle(x: string, l: string)
    ensures CountIn([x], l) == if x == l then 1 else 0
  {
    assert [x][..0] == [];
  }

  lemma OccurrencesSingle(e: Event, l: string)
    ensures Occurrences([e], l) == if Hit(e) then CountIn(e.kind.value, l) else 0
  {
    assert [e][..0] == [];
  }

  lemma OccurrencesOfThree(a: Event, b: Event, c: Event, l: string)
    ensures Occurrences([a, b, c], l) == Occurrences([a], l) + Occurrences([b], l) + Occurrences([c], l)
  {
    assert [a, b, c][..2] == [a, b];
    assert [a, b][..1] == [a];
    OccurrencesSingle(a, l);
    OccurrencesSingle(b, l);
    OccurrencesSingle(c, l);
  }

  /** `scorecard("damn damn hell")` counts profanity twice and mild once, and nothing else. */
  lemma SampleScorecard(l: string)
    ensures var evs := WordEvents(SampleTable(), "damn damn hell");
      Occurrences(evs, l) == if l == "profanity" then 2 else if l == "mild" then 1 else 0
  {
    SampleEvents();
    var a, b, c := Event(Some(["profanity"]), "damn", 0), Event(Some(["profanity"]), "damn", 5), Event(Some(["mild"]), "hell", 10);
    OccurrencesOfThree(a, b, c, l);
    OccurrencesSingle(a, l);
    OccurrencesSingle(b, l);
    OccurrencesSingle(c, l);
    CountInSingle("profanity", l);
    CountInSingle("mild", l);
  }

  lemma SentenceTokens()
    ensures Tokens("you damn fool") == [Span(0, 3), Span(4, 8), Span(9, 13)]
  {
    var s := "you damn fool";
    assert RunEnd(s, 13) == 13;
    assert RunEnd(s, 9) == 13;
    assert MatchAt(s, 9) == Some(13);
    assert TokensFrom(s, 13) == [];
    assert TokensFrom(s, 9) == [Span(9, 13)];
    assert RunEnd(s, 8) == 8;
    assert MatchAt(s, 8) == None;
    assert RunEnd(s, 4) == 8;
    assert MatchAt(s, 4) == Some(8);
    assert TokensFrom(s, 4) == [Span(4, 8), Span(9, 13)];
    assert RunEnd(s, 3) == 3;
    assert MatchAt(s, 3) == None;
    assert RunEnd(s, 0) == 3;
    assert MatchAt(s, 0) == Some(3);
  }

  lemma SampleMisses()
    ensures LookupWord(SampleTable(), "you") == None
    ensures LookupWord(SampleTable(), "fool") == None
  {
    var m := SampleTable();
    assert Downcase("you") == "you" by {
      assert Downcase("you")[2] == 'u';
    }
    LookupNoSuffix(m, "you");
    assert Downcase("fool") == "fool" by {
      assert Downcase("fool")[3] == 'l';
    }
    LookupNoSuffix(m, "fool");
  }

  lemma SentenceEventsOf()
    ensures WordEventsOf(SampleTable(), "you damn fool", [Span(0, 3), Span(4, 8), Span(9, 13)])
      == [Event(None, "you", 0), Event(Some(["profanity"]), "damn", 4), Event(None, "fool", 9)]
  {
    var s := "you damn fool";
    var m := SampleTable();
    var a, b, c := Span(0, 3), Span(4, 8), Span(9, 13);
    var ea, eb, ec := Event(None, "you", 0), Event(Some(["profanity"]), "damn", 4), Event(None, "fool", 9);
    assert s[0..3] == "you" && s[4..8] == "damn" && s[9..13] == "fool";
    SampleMisses();
    SampleLookups();
    WordEventIs(m, s, a, ea);
    WordEventIs(m, s, b, eb);
    WordEventIs(m, s, c, ec);
    ThreeEvents(m, s, a, b, c);
  }

  lemma WordEventIs(m: map<string, Labels>, s: string, t: Span, e: Event)
    requires t.start <= t.end <= |s| && s[t.start..t.end] == e.text
    requires e.offset == t.start && LookupWord(m, e.text) == e.kind
    ensures WordEvent(m, s, t) == e
  {
  }

  lemma SentenceCensorEvents()
    ensures var evs := [Event(None, "you", 0), Event(Some(["profanity"]), "damn", 4), Event(None, "fool", 9)];
      CensorEvents("you damn fool", evs, "*", None) == Ok("you **** fool")
  {
    var s := "you damn fool";
    var evs := [Event(None, "you", 0), Event(Some(["profanity"]), "damn", 4), Event(None, "fool", 9)];
    assert Masked("damn", "*") == "****" by {
      MaskedAt("damn", "*");
    }
    assert evs[..2][..1][..0] == [];
    assert CensorEvents(s, evs[..2][..1], "*", None) == Ok(s);
    assert CensorEvents(s, evs[..2], "*", None) == Ok(s[..4] + "****" + s[8..]);
    assert s[..4] + "****" + s[8..] == "you **** fool";
  }

  /** `censor("you damn fool")` with the default mask gives `"you **** fool"`. */
  lemma SampleCensor()
    ensures CensorEvents("you damn fool", WordEvents(SampleTable(), "you damn fool"), DefaultCensorMask, None) == Ok("you **** fool")
  {
    SentenceTokens();
    SentenceEventsOf();
    SentenceCensorEvents();
  }

  lemma DamnIsLower()
    ensures Downcase("damn") == "damn"
  {
    assert Downcase("damn")[3] == 'n';
  }

  lemma DamnedMisses()
    ensures LookupWord(SampleTable(), "damned") == None
  {
    var d := Downcase("damned");
    assert d == "damned" by {
      assert d[5] == 'd';
    }
    assert !EndsWith(d, "s");
    LookupNoSuffix(SampleTable(), "damned");
  }

  /** With "damn" in the table, "damns" and "damnes" hit it and "damned" does not. */
  lemma PluralExamples()
    ensures LookupWord(SampleTable(), "damns") == Some(["profanity"])
    ensures LookupWord(SampleTable(), "damnes") == Some(["profanity"])
    ensures LookupWord(SampleTable(), "damned") == None
  {
    DamnIsLower();
    assert "damn" + "s" == "damns";
    LookupPluralS(SampleTable(), "damn");
    assert "damn" + "es" == "damnes";
    LookupPluralEs(SampleTable(), "damn");
    DamnedMisses();
  }

  /** "DAMN", "Damn" and "damn" look up alike. */
  lemma CaseExamples()
    ensures LookupWord(SampleTable(), "DAMN") == Some(["profanity"])
    ensures LookupWord(SampleTable(), "Damn") == Some(["profanity"])
  {
    var m := SampleTable();
    SampleLookups();
    assert Downcase("DAMN") == "damn" by {
      assert Downcase("DAMN")[3] == 'n';
    }
    assert Downcase("Damn") == "damn" by {
      assert Downcase("Damn")[3] == 'n';
    }
    LookupIgnoresCase(m, "DAMN");
    LookupIgnoresCase(m, "Damn");
  }
}
