/**
  The event stream `scan` feeds its block: one event per word token, then
  one per emoji grapheme, then one per regex match, rule by rule.

  The emoji matcher and the regular-expression engine are not modelled:
  their matches come in as lists of `Match`, one list for the emoji phase
  and one per configured rule.
*/
module Events {
  import opened Wrappers
  import opened Chars
  import opened WordScan
  import opened WordLookup
  import opened Codepoints
  import opened Table

  /** A match reported by a foreign matcher: its text and character offset. */
  datatype Match = Match(text: string, offset: nat)

  /** What `scan` yields: the type (`None` for `nil`), the matched text and its offset. */
  datatype Event = Event(kind: Option<Labels>, text: string, offset: nat)

  /** The text of an event or match stands at its offset in `s`. */
  predicate Located(s: string, text: string, offset: nat) {
    offset + |text| <= |s| && s[offset..offset + |text|] == text
  }

  /** Emoji graphemes are never empty. */
  predicate Graphemes(ms: seq<Match>) {
    forall i :: 0 <= i < |ms| ==> |ms[i].text| > 0
  }

  predicate SpansIn(s: string, ts: seq<Span>) {
    forall i :: 0 <= i < |ts| ==> ts[i].start <= ts[i].end <= |s|
  }

  function WordEvent(table: map<string, Labels>, s: string, t: Span): Event
    requires t.start <= t.end <= |s|
  {
    var w := s[t.start..t.end];
    Event(LookupWord(table, w), w, t.start)
  }

  function WordEventsOf(table: map<string, Labels>, s: string, ts: seq<Span>): (r: seq<Event>)
    requires SpansIn(s, ts)
    ensures |r| == |ts|
  {
    if ts == [] then [] else [WordEvent(table, s, ts[0])] + WordEventsOf(table, s, ts[1..])
  }

  /** Phase 1: the word tokens of `s`, each looked up with the plural fallback. */
  function WordEvents(table: map<string, Labels>, s: string): seq<Event> {
    WordEventsOf(table, s, Tokens(s))
  }

  function EmojiEvent(table: map<string, Labels>, m: Match): Event
    requires |m.text| > 0
  {
    Event(Get(table, EmojiWithoutSkinTone(m.text)), m.text, m.offset)
  }

  /** One step of the scan from `p`: a match there yields its event and resumes at its end; otherwise move on. */
  lemma WordEventsFromStep(table: map<string, Labels>, s: string, p: nat)
    requires p < |s|
    ensures MatchAt(s, p).Some? ==>
      WordEventsOf(table, s, TokensFrom(s, p)) ==
        [WordEvent(table, s, Span(p, MatchAt(s, p).value))] + WordEventsOf(table, s, TokensFrom(s, MatchAt(s, p).value))
    ensures MatchAt(s, p).None? ==>
      WordEventsOf(table, s, TokensFrom(s, p)) == WordEventsOf(table, s, TokensFrom(s, p + 1))
  {
    var ts := TokensFrom(s, p);
    if MatchAt(s, p).Some? {
      var e := MatchAt(s, p).value;
      assert ts == [Span(p, e)] + TokensFrom(s, e);
      assert ts[1..] == TokensFrom(s, e);
    }
  }

  /** The scan loop's step on a match at `p`: append its event and resume at the match's end. */
  lemma WordEventsAdvance(table: map<string, Labels>, s: string, events: seq<Event>, p: nat)
    requires p < |s| && MatchAt(s, p).Some?
    requires events + WordEventsOf(table, s, TokensFrom(s, p)) == WordEvents(table, s)
    ensures var e := MatchAt(s, p).value;
      && p < e <= |s|
      && (events + [Event(LookupWord(table, s[p..e]), s[p..e], p)]) + WordEventsOf(table, s, TokensFrom(s, e)) == WordEvents(table, s)
  {
    var e := MatchAt(s, p).value;
    WordEventsFromStep(table, s, p);
    var ev := WordEvent(table, s, Span(p, e));
    var rest := WordEventsOf(table, s, TokensFrom(s, e));
    assert (events + [ev]) + rest == events + ([ev] + rest);
  }

  /** Phase 2: the emoji graphemes, each looked up by its first code point. */
  function EmojiEvents(table: map<string, Labels>, ms: seq<Match>): (r: seq<Event>)
    requires Graphemes(ms)
    ensures |r| == |ms|
  {
    if ms == [] then [] else EmojiEvents(table, ms[..|ms| - 1]) + [EmojiEvent(table, ms[|ms| - 1])]
  }

  /** The matches of one rule, all carrying that rule's type. */
  function RuleEvents(labels: Labels, ms: seq<Match>): (r: seq<Event>)
    ensures |r| == |ms|
  {
    if ms == [] then [] else RuleEvents(labels, ms[..|ms| - 1]) + [Event(Some(labels), ms[|ms| - 1].text, ms[|ms| - 1].offset)]
  }

  /** Phase 3: rule by rule in insertion order, each rule's matches in the order found. */
  function RegexEvents(rules: seq<Rule>, found: seq<seq<Match>>): seq<Event>
    requires |found| == |rules|
  {
    if rules == [] then []
    else RegexEvents(rules[..|rules| - 1], found[..|found| - 1]) + RuleEvents(rules[|rules| - 1].labels, found[|found| - 1])
  }

  /** Everything `scan(s)` yields, in order. */
  function ScanEvents(table: map<string, Labels>, rules: seq<Rule>, s: string, emoji: seq<Match>, found: seq<seq<Match>>): seq<Event>
    requires Graphemes(emoji) && |found| == |rules|
  {
    WordEvents(table, s) + EmojiEvents(table, emoji) + RegexEvents(rules, found)
  }

  /** The number of matches of the rules before rule `r`. */
  function MatchesBefore(found: seq<seq<Match>>, r: nat): nat
    requires r <= |found|
  {
    if r == 0 then 0 else MatchesBefore(found, r - 1) + |found[r - 1]|
  }

  lemma {:induction false} WordEventsOfAt(table: map<string, Labels>, s: string, ts: seq<Span>, i: nat)
    requires SpansIn(s, ts) && i < |ts|
    ensures WordEventsOf(table, s, ts)[i] == WordEvent(table, s, ts[i])
  {
    var head := [WordEvent(table, s, ts[0])];
    var tail := ts[1..];
    assert SpansIn(s, tail) by {
      forall j | 0 <= j < |tail| ensures tail[j].start <= tail[j].end <= |s| {
        assert tail[j] == ts[j + 1];
      }
    }
    assert WordEventsOf(table, s, ts) == head + WordEventsOf(table, s, tail);
    if i > 0 {
      WordEventsOfAt(table, s, tail, i - 1);
      assert tail[i - 1] == ts[i];
    }
  }

  lemma {:induction false} EmojiEventsAt(table: map<string, Labels>, ms: seq<Match>, j: nat)
    requires Graphemes(ms) && j < |ms|
    ensures EmojiEvents(table, ms)[j] == EmojiEvent(table, ms[j])
  {
    var init := ms[..|ms| - 1];
    if j < |ms| - 1 {
      EmojiEventsAt(table, init, j);
    }
  }

  lemma {:induction false} RuleEventsAt(labels: Labels, ms: seq<Match>, j: nat)
    requires j < |ms|
    ensures RuleEvents(labels, ms)[j] == Event(Some(labels), ms[j].text, ms[j].offset)
  {
    var init := ms[..|ms| - 1];
    if j < |ms| - 1 {
      RuleEventsAt(labels, init, j);
    }
  }

  lemma {:induction false} RegexEventsLength(rules: seq<Rule>, found: seq<seq<Match>>)
    requires |found| == |rules|
    ensures |RegexEvents(rules, found)| == MatchesBefore(found, |found|)
  {
    if rules != [] {
      var n := |found| - 1;
      RegexEventsLength(rules[..n], found[..n]);
      assert MatchesBefore(found[..n], n) == MatchesBefore(found, n) by {
        MatchesBeforePrefix(found, n, n);
      }
    }
  }

  lemma {:induction false} MatchesBeforePrefix(found: seq<seq<Match>>, n: nat, r: nat)
    requires r <= n <= |found|
    ensures MatchesBefore(found[..n], r) == MatchesBefore(found, r)
  {
    if r > 0 {
      MatchesBeforePrefix(found, n, r - 1);
    }
  }

  lemma {:induction false} RegexEventsAt(rules: seq<Rule>, found: seq<seq<Match>>, r: nat, j: nat)
    requires |found| == |rules| && r < |rules| && j < |found[r]|
    ensures MatchesBefore(found, r) + j < |RegexEvents(rules, found)|
    ensures RegexEvents(rules, found)[MatchesBefore(found, r) + j] == Event(Some(rules[r].labels), found[r][j].text, found[r][j].offset)
  {
    var n := |rules| - 1;
    var prev := RegexEvents(rules[..n], found[..n]);
    RegexEventsLength(rules[..n], found[..n]);
    MatchesBeforePrefix(found, n, n);
    if r == n {
      RuleEventsAt(rules[n].labels, found[n], j);
    } else {
      RegexEventsAt(rules[..n], found[..n], r, j);
      MatchesBeforePrefix(found, n, r);
      assert MatchesBefore(found, r) + j < |prev|;
    }
  }

  /** The three phases' lengths add up: one event per token, per grapheme and per regex match. */
  lemma ScanLength(table: map<string, Labels>, rules: seq<Rule>, s: string, emoji: seq<Match>, found: seq<seq<Match>>)
    requires Graphemes(emoji) && |found| == |rules|
    ensures |ScanEvents(table, rules, s, emoji, found)| == |Tokens(s)| + |emoji| + MatchesBefore(found, |found|)
  {
    RegexEventsLength(rules, found);
  }

  /** Phase 1 comes first: event `i` is the `i`-th token's. */
  lemma ScanWordAt(table: map<string, Labels>, rules: seq<Rule>, s: string, emoji: seq<Match>, found: seq<seq<Match>>, i: nat)
    requires Graphemes(emoji) && |found| == |rules| && i < |Tokens(s)|
    ensures ScanEvents(table, rules, s, emoji, found)[i] == WordEvent(table, s, Tokens(s)[i])
  {
    WordEventsOfAt(table, s, Tokens(s), i);
  }

  /** Phase 2 follows: event `|Tokens(s)| + j` is the `j`-th grapheme's. */
  lemma ScanEmojiAt(table: map<string, Labels>, rules: seq<Rule>, s: string, emoji: seq<Match>, found: seq<seq<Match>>, j: nat)
    requires Graphemes(emoji) && |found| == |rules| && j < |emoji|
    ensures ScanEvents(table, rules, s, emoji, found)[|Tokens(s)| + j] == EmojiEvent(table, emoji[j])
  {
    EmojiEventsAt(table, emoji, j);
    var words := WordEvents(table, s);
    IndexMiddle(words, EmojiEvents(table, emoji), RegexEvents(rules, found), j);
  }

  lemma IndexMiddle<T>(a: seq<T>, b: seq<T>, c: seq<T>, j: nat)
    requires j < |b|
    ensures (a + b + c)[|a| + j] == b[j]
  {
  }

  /**
    Phase 3 comes last, grouped by rule in rule order: the `j`-th match of
    rule `r` comes after every match of the rules before it, whatever their
    positions in `s`.
  */
  lemma ScanRegexAt(table: map<string, Labels>, rules: seq<Rule>, s: string, emoji: seq<Match>, found: seq<seq<Match>>, r: nat, j: nat)
    requires Graphemes(emoji) && |found| == |rules| && r < |rules| && j < |found[r]|
    ensures var k := |Tokens(s)| + |emoji| + MatchesBefore(found, r) + j;
      k < |ScanEvents(table, rules, s, emoji, found)| &&
      ScanEvents(table, rules, s, emoji, found)[k] == Event(Some(rules[r].labels), found[r][j].text, found[r][j].offset)
  {
    RegexEventsAt(rules, found, r, j);
    var words := WordEvents(table, s);
    var emojis := EmojiEvents(table, emoji);
    assert |words| == |Tokens(s)| && |emojis| == |emoji|;
    IndexLast(words + emojis, RegexEvents(rules, found), MatchesBefore(found, r) + j);
  }

  lemma IndexLast<T>(a: seq<T>, b: seq<T>, k: nat)
    requires k < |b|
    ensures |a| + k < |a + b| && (a + b)[|a| + k] == b[k]
  {
  }

  /**
    A word event carries the original-case token, which stands at its
    offset, is a nonempty `[A-Za-z-]` run with a word boundary on both
    sides, and is looked up with the plural fallback.
  */
  lemma WordEventAt(table: map<string, Labels>, s: string, i: nat)
    requires i < |WordEvents(table, s)|
    ensures var e := WordEvents(table, s)[i];
      && e.offset == Tokens(s)[i].start
      && Located(s, e.text, e.offset)
      && IsMatch(s, e.offset, e.offset + |e.text|)
      && e.kind == LookupWord(table, e.text)
  {
    var ts := Tokens(s);
    WordEventsOfAt(table, s, ts, i);
    TokensFromSound(s, 0, i);
    var t := ts[i];
    assert WordEvents(table, s)[i] == WordEvent(table, s, t);
    assert |s[t.start..t.end]| == t.end - t.start;
  }

  /** Word events come left to right and do not overlap. */
  lemma WordEventsOrdered(table: map<string, Labels>, s: string, i: nat)
    requires i + 1 < |WordEvents(table, s)|
    ensures var evs := WordEvents(table, s);
      evs[i].offset + |evs[i].text| <= evs[i + 1].offset
  {
    var ts := Tokens(s);
    WordEventSpan(table, s, ts, i);
    WordEventSpan(table, s, ts, i + 1);
  }

  lemma WordEventSpan(table: map<string, Labels>, s: string, ts: seq<Span>, i: nat)
    requires SpansIn(s, ts) && i < |ts|
    ensures var e := WordEventsOf(table, s, ts)[i];
      e.offset == ts[i].start && e.offset + |e.text| == ts[i].end
  {
    WordEventsOfAt(table, s, ts, i);
    assert |s[ts[i].start..ts[i].end]| == ts[i].end - ts[i].start;
  }

  /** Every event's text stands at its offset in `s`. */
  predicate AllLocated(s: string, evs: seq<Event>) {
    forall j :: 0 <= j < |evs| ==> Located(s, evs[j].text, evs[j].offset)
  }

  /** Every match's text stands at its offset in `s`, as the foreign matchers report them. */
  predicate MatchesLocated(s: string, ms: seq<Match>) {
    forall j :: 0 <= j < |ms| ==> Located(s, ms[j].text, ms[j].offset)
  }

  lemma {:induction false} EmojiEventsLocated(s: string, table: map<string, Labels>, ms: seq<Match>)
    requires Graphemes(ms) && MatchesLocated(s, ms)
    ensures AllLocated(s, EmojiEvents(table, ms))
  {
    if ms != [] {
      EmojiEventsLocated(s, table, ms[..|ms| - 1]);
    }
  }

  lemma {:induction false} RuleEventsLocated(s: string, labels: Labels, ms: seq<Match>)
    requires MatchesLocated(s, ms)
    ensures AllLocated(s, RuleEvents(labels, ms))
  {
    if ms != [] {
      RuleEventsLocated(s, labels, ms[..|ms| - 1]);
    }
  }

  lemma {:induction false} RegexEventsLocated(s: string, rules: seq<Rule>, found: seq<seq<Match>>)
    requires |found| == |rules| && forall r :: 0 <= r < |found| ==> MatchesLocated(s, found[r])
    ensures AllLocated(s, RegexEvents(rules, found))
  {
    if rules != [] {
      var n := |rules| - 1;
      RegexEventsLocated(s, rules[..n], found[..n]);
      RuleEventsLocated(s, rules[n].labels, found[n]);
    }
  }

  /** Word events are located by construction; with located foreign matches, so is every event of the scan. */
  lemma ScanLocated(table: map<string, Labels>, rules: seq<Rule>, s: string, emoji: seq<Match>, found: seq<seq<Match>>)
    requires Graphemes(emoji) && |found| == |rules|
    requires MatchesLocated(s, emoji) && forall r :: 0 <= r < |found| ==> MatchesLocated(s, found[r])
    ensures AllLocated(s, ScanEvents(table, rules, s, emoji, found))
  {
    var words := WordEvents(table, s);
    forall i | 0 <= i < |words| ensures Located(s, words[i].text, words[i].offset) {
      WordEventAt(table, s, i);
    }
    EmojiEventsLocated(s, table, emoji);
    RegexEventsLocated(s, rules, found);
  }
}
