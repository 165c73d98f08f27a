/**
  What the three public operations compute from the event stream:
  `profane?` (is there a hit), `scorecard` (hits per label) and `censor`
  (splice a replacement over every hit, in emission order).
*/
module Consumers {
  import opened Wrappers
  import opened Chars
  import opened Table
  import opened Events

  /** An event whose type is not `nil`. */
  predicate Hit(e: Event) {
    e.kind.Some?
  }

  predicate AnyHit(evs: seq<Event>) {
    exists i :: 0 <= i < |evs| && Hit(evs[i])
  }

  /** How many times `l` occurs in a label list. */
  function CountIn(labels: Labels, l: string): nat {
    if labels == [] then 0
    else CountIn(labels[..|labels| - 1], l) + (if labels[|labels| - 1] == l then 1 else 0)
  }

  /** The number of times label `l` is met over the hits of `evs`, with multiplicity. */
  function Occurrences(evs: seq<Event>, l: string): nat {
    if evs == [] then 0
    else
      var e := evs[|evs| - 1];
      Occurrences(evs[..|evs| - 1], l) + (if Hit(e) then CountIn(e.kind.value, l) else 0)
  }

  /** A scorecard's count for `l`, 0 when `l` is absent. */
  function Tally(card: map<string, nat>, l: string): nat {
    if l in card then card[l] else 0
  }

  /** With no hit, no label is counted. */
  lemma {:induction false} NoHitNoOccurrences(evs: seq<Event>, l: string)
    requires !AnyHit(evs)
    ensures Occurrences(evs, l) == 0
  {
    if evs != [] {
      var init := evs[..|evs| - 1];
      assert !AnyHit(init);
      NoHitNoOccurrences(init, l);
      assert !Hit(evs[|evs| - 1]);
    }
  }

  /** A counted label comes from a hit whose label list holds it. */
  lemma {:induction false} OccurrencesWitness(evs: seq<Event>, l: string) returns (i: nat)
    requires Occurrences(evs, l) > 0
    ensures i < |evs| && Hit(evs[i]) && l in evs[i].kind.value
  {
    var init := evs[..|evs| - 1];
    var e := evs[|evs| - 1];
    if Occurrences(init, l) > 0 {
      i := OccurrencesWitness(init, l);
    } else {
      CountInPositive(e.kind.value, l);
      i := |evs| - 1;
    }
  }

  lemma {:induction false} CountInPositive(labels: Labels, l: string)
    requires CountIn(labels, l) > 0
    ensures l in labels
  {
    if labels[|labels| - 1] != l {
      CountInPositive(labels[..|labels| - 1], l);
    }
  }

  /** The default mask of `censor` (`DEFAULT_SENSOR_MASK`). */
  const DefaultCensorMask: string := "*"

  /** `word.gsub(/\S/, mask)`: every non-whitespace character becomes `mask`. */
  function Masked(word: string, mask: string): string {
    if word == [] then []
    else
      var c := word[|word| - 1];
      Masked(word[..|word| - 1], mask) + (if IsSpace(c) then [c] else mask)
  }

  /** With a one-character mask the masked text keeps its length, whitespace and nothing else. */
  lemma {:induction false} MaskedAt(word: string, mask: string)
    requires |mask| == 1
    ensures |Masked(word, mask)| == |word|
    ensures forall j :: 0 <= j < |word| ==> Masked(word, mask)[j] == if IsSpace(word[j]) then word[j] else mask[0]
  {
    if word != [] {
      MaskedAt(word[..|word| - 1], mask);
    }
  }

  /** The replacement for a hit: the block's result when a block is given, else the masked text. */
  function Replacement(word: string, mask: string, block: Option<string -> string>): string {
    if block.Some? then block.value(word) else Masked(word, mask)
  }

  /** Why `String#[]=` raised: the start is past the end of the buffer. */
  datatype CensorError = IndexError(position: nat, size: nat)

  /** `buf[pos, len] = rep`; `None` when `pos` is past the end (Ruby raises `IndexError`). */
  function Splice(buf: string, pos: nat, len: nat, rep: string): (r: Option<string>)
    ensures r.None? <==> pos > |buf|
  {
    if pos > |buf| then None
    else Some(buf[..pos] + rep + buf[if pos + len <= |buf| then pos + len else |buf|..])
  }

  /**
    `buf[pos, len] = rep` raises exactly when `pos` is past the end. Otherwise
    the layout after it is: the characters before `pos` are
    kept, `rep` follows, and then the rest of the buffer after the replaced
    part, which is clipped to the end of the buffer.
  */
  lemma SpliceLayout(buf: string, pos: nat, len: nat, rep: string)
    ensures Splice(buf, pos, len, rep).None? <==> pos > |buf|
    ensures pos <= |buf| ==>
      var r := Splice(buf, pos, len, rep).value;
      var end := if pos + len <= |buf| then pos + len else |buf|;
      && |r| == |buf| - (end - pos) + |rep|
      && (forall i :: 0 <= i < pos ==> r[i] == buf[i])
      && (forall i :: 0 <= i < |rep| ==> r[pos + i] == rep[i])
      && (forall i :: end <= i < |buf| ==> r[pos + |rep| + (i - end)] == buf[i])
  {
  }

  /** One step of `censor`'s loop: splice the replacement of a hit into the buffer at the event's original offset. */
  function CensorStep(buf: string, e: Event, mask: string, block: Option<string -> string>): Result<string, CensorError> {
    if !Hit(e) then Ok(buf)
    else match Splice(buf, e.offset, |e.text|, Replacement(e.text, mask, block))
      case None => Err(IndexError(e.offset, |buf|))
      case Some(b) => Ok(b)
  }

  /** `censor`'s loop over the events, starting from a copy of the input. */
  function CensorEvents(s: string, evs: seq<Event>, mask: string, block: Option<string -> string>): Result<string, CensorError> {
    if evs == [] then Ok(s)
    else match CensorEvents(s, evs[..|evs| - 1], mask, block)
      case Err(err) => Err(err)
      case Ok(buf) => CensorStep(buf, evs[|evs| - 1], mask, block)
  }

  /** Position `i` lies inside the text of some hit. */
  predicate Covered(evs: seq<Event>, i: int) {
    exists j :: 0 <= j < |evs| && Hit(evs[j]) && evs[j].offset <= i < evs[j].offset + |evs[j].text|
  }

  /** Every hit's text stands at its offset in `s`. */
  predicate HitsLocated(s: string, evs: seq<Event>) {
    forall j :: 0 <= j < |evs| && Hit(evs[j]) ==> Located(s, evs[j].text, evs[j].offset)
  }

  /**
    With no hit, `censor` returns its input unchanged, whatever the mask
    and block.
  */
  lemma {:induction false} CensorClean(s: string, evs: seq<Event>, mask: string, block: Option<string -> string>)
    requires !AnyHit(evs)
    ensures CensorEvents(s, evs, mask, block) == Ok(s)
  {
    if evs != [] {
      var init := evs[..|evs| - 1];
      assert !AnyHit(init);
      CensorClean(s, init, mask, block);
      assert !Hit(evs[|evs| - 1]);
    }
  }

  /** `r` is `s` with every non-whitespace position covered by a hit of `evs` replaced by `c`. */
  predicate MaskedView(s: string, evs: seq<Event>, c: char, r: string) {
    |r| == |s| && forall i :: 0 <= i < |s| ==> r[i] == if Covered(evs, i) && !IsSpace(s[i]) then c else s[i]
  }

  lemma CoveredInit(evs: seq<Event>, i: int)
    requires |evs| > 0
    ensures var e := evs[|evs| - 1];
      Covered(evs, i) <==> Covered(evs[..|evs| - 1], i) || (Hit(e) && e.offset <= i < e.offset + |e.text|)
  {
    var init := evs[..|evs| - 1];
    if Covered(evs, i) {
      var j :| 0 <= j < |evs| && Hit(evs[j]) && evs[j].offset <= i < evs[j].offset + |evs[j].text|;
      if j < |init| {
        assert init[j] == evs[j];
      }
    }
    if Covered(init, i) {
      var j :| 0 <= j < |init| && Hit(init[j]) && init[j].offset <= i < init[j].offset + |init[j].text|;
      assert evs[j] == init[j];
    }
  }

  /** A length-preserving splice overwrites exactly its span. */
  lemma SpliceInPlace(buf: string, pos: nat, rep: string)
    requires pos + |rep| <= |buf|
    ensures Splice(buf, pos, |rep|, rep).Some?
    ensures var r := Splice(buf, pos, |rep|, rep).value;
      |r| == |buf| && forall i :: 0 <= i < |buf| ==> r[i] == if pos <= i < pos + |rep| then rep[i - pos] else buf[i]
  {
  }

  /** One splice of a located hit keeps the masked view. */
  lemma CensorMaskHit(s: string, evs: seq<Event>, mask: string, buf: string)
    requires |mask| == 1 && !IsSpace(mask[0]) && |evs| > 0
    requires MaskedView(s, evs[..|evs| - 1], mask[0], buf)
    requires Hit(evs[|evs| - 1]) && Located(s, evs[|evs| - 1].text, evs[|evs| - 1].offset)
    ensures CensorStep(buf, evs[|evs| - 1], mask, None).Ok?
    ensures MaskedView(s, evs, mask[0], CensorStep(buf, evs[|evs| - 1], mask, None).value)
  {
    var e := evs[|evs| - 1];
    var rep := Masked(e.text, mask);
    MaskedAt(e.text, mask);
    SpliceInPlace(buf, e.offset, rep);
    var r := CensorStep(buf, e, mask, None).value;
    forall i | 0 <= i < |s|
      ensures r[i] == if Covered(evs, i) && !IsSpace(s[i]) then mask[0] else s[i]
    {
      CoveredInit(evs, i);
      if e.offset <= i < e.offset + |e.text| {
        assert e.text[i - e.offset] == s[i];
      }
    }
  }

  /** A miss leaves the buffer and the covered positions as they were. */
  lemma CensorMaskMiss(s: string, evs: seq<Event>, c: char, buf: string)
    requires |evs| > 0 && !Hit(evs[|evs| - 1])
    requires MaskedView(s, evs[..|evs| - 1], c, buf)
    ensures MaskedView(s, evs, c, buf)
  {
    forall i | 0 <= i < |s| ensures Covered(evs, i) == Covered(evs[..|evs| - 1], i) {
      CoveredInit(evs, i);
    }
  }

  /**
    The mask property of `censor` with a one-character, non-whitespace mask
    and no block: the output has the input's length; a position inside
    some hit becomes the mask unless it holds whitespace; every other
    position is unchanged. It holds for overlapping hits too, since each
    replacement is computed from the original matched text.
  */
  lemma {:induction false} CensorMasks(s: string, evs: seq<Event>, mask: string)
    requires |mask| == 1 && !IsSpace(mask[0])
    requires HitsLocated(s, evs)
    ensures CensorEvents(s, evs, mask, None).Ok?
    ensures MaskedView(s, evs, mask[0], CensorEvents(s, evs, mask, None).value)
  {
    if evs != [] {
      var init := evs[..|evs| - 1];
      assert HitsLocated(s, init) by {
        forall j | 0 <= j < |init| && Hit(init[j]) ensures Located(s, init[j].text, init[j].offset) {
          assert init[j] == evs[j];
        }
      }
      CensorMasks(s, init, mask);
      var buf := CensorEvents(s, init, mask, None).value;
      if Hit(evs[|evs| - 1]) {
        CensorMaskHit(s, evs, mask, buf);
      } else {
        CensorMaskMiss(s, evs, mask[0], buf);
      }
    } else {
      assert forall i :: !Covered(evs, i);
    }
  }
}
