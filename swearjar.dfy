/**
  The `Swearjar` object: its two tables, filled once by `load_file`, and
  the scan with its three consumers.
*/
module Jar {
  import opened Wrappers
  import opened Chars
  import opened WordScan
  import opened WordLookup
  import opened Codepoints
  import opened Table
  import opened Events
  import opened Consumers

  class Swearjar {
    /** Simple words and decoded emoji, one shared table. */
    var hash: map<string, Labels>
    /** The configured regular expressions, in insertion order. */
    var regexs: seq<Rule>

    /** The keys of the regex hash are unique: one rule per pattern. */
    ghost predicate Valid()
      reads this
    {
      DistinctPatterns(regexs)
    }

    /** `Swearjar.new(file)`: empty tables, then `load_file` when a file is given. */
    constructor (file: Option<Config>)
      requires file.Some? ==> EmojiKeysValid(EntriesOf(file.value.emoji))
      ensures Valid()
      ensures file.None? ==> hash == map[] && regexs == []
      ensures file.Some? ==> hash == LoadedHash(map[], file.value) && regexs == PutRules([], EntriesOf(file.value.regex))
    {
      hash := map[];
      regexs := [];
      new;
      if file.Some? {
        LoadFile(file.value);
      }
    }

    /** `load_file` after parsing: regex rules, then simple words, then emoji, entry by entry. */
    method LoadFile(data: Config)
      requires Valid() && EmojiKeysValid(EntriesOf(data.emoji))
      modifies this
      ensures Valid()
      ensures regexs == PutRules(old(regexs), EntriesOf(data.regex))
      ensures hash == LoadedHash(old(hash), data)
    {
      LoadRegexps(EntriesOf(data.regex));
      LoadEntries(EntriesOf(data.simple));
      LoadEntries(DecodeEmoji(EntriesOf(data.emoji)));
    }

    /** `@regexs[Regexp.new(pattern, "i")] = type` for each regex entry. */
    method LoadRegexps(es: seq<Entry>)
      requires Valid()
      modifies this
      ensures Valid()
      ensures regexs == PutRules(old(regexs), es) && hash == old(hash)
    {
      var i := 0;
      while i < |es|
        invariant i <= |es|
        invariant regexs == PutRules(old(regexs), es[..i]) && hash == old(hash)
        invariant Valid()
      {
        regexs := Upsert(regexs, es[i].0, es[i].1);
        assert es[..i + 1][..i] == es[..i];
        i := i + 1;
      }
      assert es[..i] == es;
    }

    /** `@hash[key] = type` for each entry (emoji keys already decoded by `unicode_to_emoji`). */
    method LoadEntries(es: seq<Entry>)
      requires Valid()
      modifies this
      ensures Valid()
      ensures hash == PutAll(old(hash), es) && regexs == old(regexs)
    {
      var i := 0;
      while i < |es|
        invariant i <= |es|
        invariant hash == PutAll(old(hash), es[..i]) && regexs == old(regexs)
      {
        hash := hash[es[i].0 := es[i].1];
        assert es[..i + 1][..i] == es[..i];
        i := i + 1;
      }
      assert es[..i] == es;
    }

    /** `scan`: the events it yields to its block, in the order it yields them. */
    method Scan(s: string, emoji: seq<Match>, found: seq<seq<Match>>) returns (events: seq<Event>)
      requires Graphemes(emoji) && |found| == |regexs|
      ensures events == ScanEvents(hash, regexs, s, emoji, found)
    {
      var words := ScanWords(hash, s);
      var emojis := ScanEmoji(emoji);
      var regexes := ScanRegexps(found);
      events := words + emojis + regexes;
    }

    /** The emoji phase: each grapheme, looked up by its first code point. */
    method ScanEmoji(emoji: seq<Match>) returns (events: seq<Event>)
      requires Graphemes(emoji)
      ensures events == EmojiEvents(hash, emoji)
    {
      events := [];
      var i := 0;
      while i < |emoji|
        invariant i <= |emoji|
        invariant events == EmojiEvents(hash, emoji[..i])
      {
        var e := emoji[i];
        events := events + [Event(Get(hash, EmojiWithoutSkinTone(e.text)), e.text, e.offset)];
        assert emoji[..i + 1][..i] == emoji[..i];
        i := i + 1;
      }
      assert emoji[..i] == emoji;
    }

    /** The regex phase: rule by rule, each rule's matches in order. */
    method ScanRegexps(found: seq<seq<Match>>) returns (events: seq<Event>)
      requires |found| == |regexs|
      ensures events == RegexEvents(regexs, found)
    {
      events := [];
      var r := 0;
      while r < |regexs|
        invariant r <= |regexs|
        invariant events == RegexEvents(regexs[..r], found[..r])
      {
        var ms := found[r];
        ghost var before := events;
        var j := 0;
        while j < |ms|
          invariant j <= |ms|
          invariant events == before + RuleEvents(regexs[r].labels, ms[..j])
        {
          events := events + [Event(Some(regexs[r].labels), ms[j].text, ms[j].offset)];
          assert ms[..j + 1][..j] == ms[..j];
          j := j + 1;
        }
        assert ms[..j] == ms;
        assert regexs[..r + 1][..r] == regexs[..r] && found[..r + 1][..r] == found[..r];
        r := r + 1;
      }
      assert regexs[..r] == regexs && found[..r] == found;
    }

    /** `profane?`: true at the first event with a type. */
    method IsProfane(s: string, emoji: seq<Match>, found: seq<seq<Match>>) returns (profane: bool)
      requires Graphemes(emoji) && |found| == |regexs|
      ensures profane <==> AnyHit(ScanEvents(hash, regexs, s, emoji, found))
    {
      var events := Scan(s, emoji, found);
      profane := HasHit(events);
    }

    /** `scorecard`: for each hit, one count per label in its type list. */
    method Scorecard(s: string, emoji: seq<Match>, found: seq<seq<Match>>) returns (card: map<string, nat>)
      requires Graphemes(emoji) && |found| == |regexs|
      ensures var evs := ScanEvents(hash, regexs, s, emoji, found);
        && (forall l :: Tally(card, l) == Occurrences(evs, l))
        && (forall l :: l in card ==> card[l] > 0)
        && (!AnyHit(evs) ==> card == map[])
    {
      var events := Scan(s, emoji, found);
      card := CountEvents(events);
    }

    /**
      `censor`: copy the input, then for each hit splice its replacement in
      at the hit's original offset; raises `IndexError` when an offset is
      past the end of the buffer.
    */
    method Censor(s: string, mask: string := DefaultCensorMask, block: Option<string -> string>, emoji: seq<Match>, found: seq<seq<Match>>)
      returns (r: Result<string, CensorError>)
      requires Graphemes(emoji) && |found| == |regexs|
      ensures var evs := ScanEvents(hash, regexs, s, emoji, found);
        && r == CensorEvents(s, evs, mask, block)
        && (!AnyHit(evs) ==> r == Ok(s))
        && (|mask| == 1 && !IsSpace(mask[0]) && block.None?
            && MatchesLocated(s, emoji) && (forall k :: 0 <= k < |found| ==> MatchesLocated(s, found[k]))
            ==> r.Ok? && MaskedView(s, evs, mask[0], r.value))
    {
      var events := Scan(s, emoji, found);
      r := CensorLoop(s, events, mask, block);
      ProveCensorFacts(hash, regexs, s, mask, block, emoji, found, r);
    }
  }

  /** The loop of `profane?`: stop at the first event whose type is not `nil`. */
  method HasHit(events: seq<Event>) returns (profane: bool)
    ensures profane <==> AnyHit(events)
  {
    var i := 0;
    while i < |events|
      invariant i <= |events|
      invariant forall j :: 0 <= j < i ==> !Hit(events[j])
    {
      if events[i].kind.Some? {
        return true;
      }
      i := i + 1;
    }
    return false;
  }

  /** The loop of `scorecard`: count every label of every hit. */
  method CountEvents(events: seq<Event>) returns (card: map<string, nat>)
    ensures forall l :: Tally(card, l) == Occurrences(events, l)
    ensures forall l :: l in card ==> card[l] > 0
    ensures !AnyHit(events) ==> card == map[]
  {
    card := map[];
    var i := 0;
    while i < |events|
      invariant i <= |events|
      invariant forall l :: Tally(card, l) == Occurrences(events[..i], l)
      invariant forall l :: l in card ==> card[l] > 0
    {
      var e := events[i];
      assert events[..i + 1][..i] == events[..i];
      if e.kind.Some? {
        card := CountLabels(card, e.kind.value);
      }
      i := i + 1;
    }
    assert events[..i] == events;
    if !AnyHit(events) {
      forall l ensures l !in card {
        NoHitNoOccurrences(events, l);
      }
      assert card == map[];
    }
  }

  /** The word phase of `scan`: leftmost-longest matches of `\b[a-zA-Z-]+\b`, resuming after each. */
  method ScanWords(table: map<string, Labels>, s: string) returns (events: seq<Event>)
    ensures events == WordEvents(table, s)
  {
    events := [];
    var pos := 0;
    while pos < |s|
      invariant pos <= |s|
      invariant events + WordEventsOf(table, s, TokensFrom(s, pos)) == WordEvents(table, s)
      decreases |s| - pos
    {
      var m := MatchAt(s, pos);
      if m.Some? {
        WordEventsAdvance(table, s, events, pos);
        var word := s[pos..m.value];
        events := events + [Event(LookupWord(table, word), word, pos)];
        pos := m.value;
      } else {
        WordEventsFromStep(table, s, pos);
        pos := pos + 1;
      }
    }
  }

  /** `scorecard[label] += 1` for each label of one hit's type list. */
  method CountLabels(card: map<string, nat>, labels: Labels) returns (next: map<string, nat>)
    requires forall l :: l in card ==> card[l] > 0
    ensures forall l :: Tally(next, l) == Tally(card, l) + CountIn(labels, l)
    ensures forall l :: l in next ==> next[l] > 0
  {
    next := card;
    var j := 0;
    while j < |labels|
      invariant j <= |labels|
      invariant forall l :: Tally(next, l) == Tally(card, l) + CountIn(labels[..j], l)
      invariant forall l :: l in next ==> next[l] > 0
    {
      var kind := labels[j];
      if kind !in next {
        next := next[kind := 0];
      }
      next := next[kind := next[kind] + 1];
      assert labels[..j + 1][..j] == labels[..j];
      j := j + 1;
    }
    assert labels[..j] == labels;
  }

  /** The loop of `censor`: `censored_string[position, word.size] = replacement` for each hit. */
  method CensorLoop(s: string, events: seq<Event>, mask: string, block: Option<string -> string>)
    returns (r: Result<string, CensorError>)
    ensures r == CensorEvents(s, events, mask, block)
  {
    var censored := s;
    var i := 0;
    while i < |events|
      invariant i <= |events|
      invariant CensorEvents(s, events[..i], mask, block) == Ok(censored)
    {
      var e := events[i];
      assert events[..i + 1][..i] == events[..i];
      if e.kind.Some? {
        var replacement := if block.Some? then block.value(e.text) else Masked(e.text, mask);
        if e.offset > |censored| {
          r := Err(IndexError(e.offset, |censored|));
          CensorErrSticks(s, events, i + 1, mask, block);
          return;
        }
        var end := if e.offset + |e.text| <= |censored| then e.offset + |e.text| else |censored|;
        censored := censored[..e.offset] + replacement + censored[end..];
      }
      i := i + 1;
    }
    assert events[..i] == events;
    r := Ok(censored);
  }

  /** Once the loop has raised, the result stays the error. */
  lemma {:induction false} CensorErrSticks(s: string, evs: seq<Event>, n: nat, mask: string, block: Option<string -> string>)
    requires 0 < n <= |evs| && CensorEvents(s, evs[..n], mask, block).Err?
    ensures CensorEvents(s, evs, mask, block) == CensorEvents(s, evs[..n], mask, block)
    decreases |evs| - n
  {
    if n < |evs| {
      assert evs[..n + 1][..n] == evs[..n];
      CensorErrSticks(s, evs, n + 1, mask, block);
    } else {
      assert evs[..n] == evs;
    }
  }

  lemma ProveCensorFacts(table: map<string, Labels>, rules: seq<Rule>, s: string, mask: string, block: Option<string -> string>,
                         emoji: seq<Match>, found: seq<seq<Match>>, r: Result<string, CensorError>)
    requires Graphemes(emoji) && |found| == |rules|
    requires r == CensorEvents(s, ScanEvents(table, rules, s, emoji, found), mask, block)
    ensures var evs := ScanEvents(table, rules, s, emoji, found);
      && (!AnyHit(evs) ==> r == Ok(s))
      && (|mask| == 1 && !IsSpace(mask[0]) && block.None?
          && MatchesLocated(s, emoji) && (forall k :: 0 <= k < |found| ==> MatchesLocated(s, found[k]))
          ==> r.Ok? && MaskedView(s, evs, mask[0], r.value))
  {
    var evs := ScanEvents(table, rules, s, emoji, found);
    if !AnyHit(evs) {
      CensorClean(s, evs, mask, block);
    }
    if |mask| == 1 && !IsSpace(mask[0]) && block.None?
       && MatchesLocated(s, emoji) && (forall k :: 0 <= k < |found| ==> MatchesLocated(s, found[k])) {
      ScanLocated(table, rules, s, emoji, found);
      CensorMasks(s, evs, mask);
    }
  }
}
