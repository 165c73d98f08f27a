/**
  Table building (`load_file` minus YAML): the simple and emoji entries go
  into one hash, later writes winning; the regex entries go into an
  insertion-ordered hash keyed by pattern.
*/
module Table {
  import opened Wrappers
  import opened Codepoints

  /** The value stored per key: the list of type labels it is tallied under. */
  type Labels = seq<string>

  /** One `key: type` pair of a parsed table, in file order. */
  type Entry = (string, Labels)

  /** A configured regular expression (compiled case-insensitively from `pattern`) and its type. */
  datatype Rule = Rule(pattern: string, labels: Labels)

  /** The parsed file: each of `regex`, `simple` and `emoji` may be missing. */
  datatype Config = Config(regex: Option<seq<Entry>>, simple: Option<seq<Entry>>, emoji: Option<seq<Entry>>)

  function EntriesOf(t: Option<seq<Entry>>): seq<Entry> {
    if t.Some? then t.value else []
  }

  /** Some entry of `es` has key `k`. */
  predicate HasKey(es: seq<Entry>, k: string) {
    exists i :: 0 <= i < |es| && es[i].0 == k
  }

  lemma HasKeyInit(es: seq<Entry>, k: string)
    requires |es| > 0
    ensures HasKey(es, k) <==> HasKey(es[..|es| - 1], k) || es[|es| - 1].0 == k
  {
    if HasKey(es, k) && es[|es| - 1].0 != k {
      var i :| 0 <= i < |es| && es[i].0 == k;
      assert es[..|es| - 1][i].0 == k;
    }
    if HasKey(es[..|es| - 1], k) {
      var i :| 0 <= i < |es| - 1 && es[..|es| - 1][i].0 == k;
      assert es[i].0 == k;
    }
  }

  /** `es.each { |k, v| h[k] = v }`. */
  function PutAll(m: map<string, Labels>, es: seq<Entry>): (r: map<string, Labels>)
    ensures forall k :: k in r <==> k in m || HasKey(es, k)
  {
    if es == [] then m
    else
      var r := PutAll(m, es[..|es| - 1])[es[|es| - 1].0 := es[|es| - 1].1];
      assert forall k :: HasKey(es, k) <==> HasKey(es[..|es| - 1], k) || es[|es| - 1].0 == k by {
        forall k ensures HasKey(es, k) <==> HasKey(es[..|es| - 1], k) || es[|es| - 1].0 == k {
          HasKeyInit(es, k);
        }
      }
      r
  }

  /** Later writes win: the last entry with a key decides its value. */
  lemma {:induction false} PutAllLastWins(m: map<string, Labels>, es: seq<Entry>, i: nat)
    requires i < |es|
    requires forall j :: i < j < |es| ==> es[j].0 != es[i].0
    ensures es[i].0 in PutAll(m, es) && PutAll(m, es)[es[i].0] == es[i].1
  {
    if i < |es| - 1 {
      PutAllLastWins(m, es[..|es| - 1], i);
    }
  }

  /** Keys no entry mentions keep their old value. */
  lemma {:induction false} PutAllKeepsOthers(m: map<string, Labels>, es: seq<Entry>, k: string)
    requires forall j :: 0 <= j < |es| ==> es[j].0 != k
    ensures k in m ==> PutAll(m, es)[k] == m[k]
  {
    if es != [] {
      PutAllKeepsOthers(m, es[..|es| - 1], k);
    }
  }

  predicate EmojiKeysValid(es: seq<Entry>) {
    forall i :: 0 <= i < |es| ==> IsHexString(es[i].0) && IsScalarValue(HexValue(es[i].0))
  }

  /** The emoji entries with each key decoded by `unicode_to_emoji`. */
  function DecodeEmoji(es: seq<Entry>): seq<Entry>
    requires EmojiKeysValid(es)
  {
    seq(|es|, i requires 0 <= i < |es| => (UnicodeToEmoji(es[i].0), es[i].1))
  }

  predicate HasPattern(rules: seq<Rule>, p: string) {
    exists i :: 0 <= i < |rules| && rules[i].pattern == p
  }

  /** The regex hash has one rule per pattern. */
  predicate DistinctPatterns(rules: seq<Rule>) {
    forall i, j :: 0 <= i < j < |rules| ==> rules[i].pattern != rules[j].pattern
  }

  /** `h[Regexp.new(p, "i")] = l` on an insertion-ordered hash: update in place, else append. */
  function Upsert(rules: seq<Rule>, p: string, l: Labels): (r: seq<Rule>)
    ensures |r| == if HasPattern(rules, p) then |rules| else |rules| + 1
    ensures forall i :: 0 <= i < |rules| ==> r[i].pattern == rules[i].pattern
    ensures forall i :: 0 <= i < |rules| && rules[i].pattern != p ==> r[i] == rules[i]
    ensures forall i :: 0 <= i < |r| && r[i].pattern == p ==> r[i].labels == l
    ensures !HasPattern(rules, p) ==> r[|rules|] == Rule(p, l)
    ensures DistinctPatterns(rules) ==> DistinctPatterns(r)
  {
    if HasPattern(rules, p) then
      var r := seq(|rules|, j requires 0 <= j < |rules| => if rules[j].pattern == p then Rule(p, l) else rules[j]);
      r
    else rules + [Rule(p, l)]
  }

  /** `es.each { |p, l| h[Regexp.new(p, "i")] = l }`. */
  function PutRules(rules: seq<Rule>, es: seq<Entry>): (r: seq<Rule>)
    ensures |rules| <= |r|
    ensures forall i :: 0 <= i < |rules| ==> r[i].pattern == rules[i].pattern
    ensures forall p :: HasPattern(r, p) <==> HasPattern(rules, p) || HasKey(es, p)
    ensures DistinctPatterns(rules) ==> DistinctPatterns(r)
  {
    if es == [] then rules
    else
      var last := es[|es| - 1];
      var prev := PutRules(rules, es[..|es| - 1]);
      var r := Upsert(prev, last.0, last.1);
      assert forall p :: HasPattern(r, p) <==> HasPattern(prev, p) || p == last.0 by {
        forall p ensures HasPattern(r, p) <==> HasPattern(prev, p) || p == last.0 {
          if HasPattern(prev, p) {
            var i :| 0 <= i < |prev| && prev[i].pattern == p;
            assert r[i].pattern == p;
          }
          if p == last.0 && !HasPattern(prev, p) {
            assert r[|prev|].pattern == p;
          }
        }
      }
      assert forall p :: HasKey(es, p) <==> HasKey(es[..|es| - 1], p) || last.0 == p by {
        forall p ensures HasKey(es, p) <==> HasKey(es[..|es| - 1], p) || last.0 == p {
          HasKeyInit(es, p);
        }
      }
      r
  }

  /** The last entry for a pattern decides that rule's labels. */
  lemma {:induction false} PutRulesLastWins(rules: seq<Rule>, es: seq<Entry>, i: nat, k: nat)
    requires i < |es|
    requires forall j :: i < j < |es| ==> es[j].0 != es[i].0
    requires k < |PutRules(rules, es)| && PutRules(rules, es)[k].pattern == es[i].0
    ensures PutRules(rules, es)[k].labels == es[i].1
  {
    var init := es[..|es| - 1];
    if i < |es| - 1 {
      var prev := PutRules(rules, init);
      var last := es[|es| - 1];
      assert k < |prev|;
      PutRulesLastWins(rules, init, i, k);
    }
  }

  /** Rules no entry mentions are left as they were. */
  lemma {:induction false} PutRulesKeepsOthers(rules: seq<Rule>, es: seq<Entry>, k: nat)
    requires k < |rules|
    requires forall j :: 0 <= j < |es| ==> es[j].0 != rules[k].pattern
    ensures PutRules(rules, es)[k] == rules[k]
  {
    if es != [] {
      PutRulesKeepsOthers(rules, es[..|es| - 1], k);
    }
  }

  /**
    Insertion order: a pattern first written by entry `j` comes after the
    rule of every entry written before it.
  */
  lemma {:induction false} PutRulesOrder(rules: seq<Rule>, es: seq<Entry>, i: nat, j: nat, a: nat, b: nat)
    requires i < j < |es|
    requires !HasPattern(rules, es[j].0)
    requires forall x :: 0 <= x < j ==> es[x].0 != es[j].0
    requires var r := PutRules(rules, es);
      a < |r| && b < |r| && r[a].pattern == es[i].0 && r[b].pattern == es[j].0
    requires DistinctPatterns(rules)
    ensures a < b
  {
    var r := PutRules(rules, es);
    var init := es[..|es| - 1];
    var prev := PutRules(rules, init);
    var last := es[|es| - 1];
    assert r == Upsert(prev, last.0, last.1);
    if j < |es| - 1 {
      assert prev[b].pattern == init[j].0 && init[j].0 == es[j].0 by {
        assert HasPattern(r, es[j].0);
        assert HasPattern(prev, es[j].0) by {
          assert init[j].0 == es[j].0;
        }
        var b' :| 0 <= b' < |prev| && prev[b'].pattern == es[j].0;
        assert r[b'].pattern == es[j].0;
        assert b' == b;
      }
      assert HasPattern(prev, es[i].0) by {
        assert init[i].0 == es[i].0;
      }
      var a' :| 0 <= a' < |prev| && prev[a'].pattern == es[i].0;
      assert a' == a;
      PutRulesOrder(rules, init, i, j, a, b);
    } else {
      assert !HasPattern(prev, last.0);
      assert b == |prev|;
      assert HasPattern(prev, es[i].0) by {
        assert init[i].0 == es[i].0;
      }
      var a' :| 0 <= a' < |prev| && prev[a'].pattern == es[i].0;
      assert a' == a;
    }
  }

  /** The hash after `load_file`: simple entries, then decoded emoji entries, later writes winning. */
  function LoadedHash(m: map<string, Labels>, data: Config): map<string, Labels>
    requires EmojiKeysValid(EntriesOf(data.emoji))
  {
    PutAll(PutAll(m, EntriesOf(data.simple)), DecodeEmoji(EntriesOf(data.emoji)))
  }

  /**
    Simple and emoji entries share one hash and emoji entries are written
    last: a decoded emoji key equal to a simple key takes the emoji
    entry's type.
  */
  lemma EmojiOverridesSimple(m: map<string, Labels>, data: Config, i: nat)
    requires EmojiKeysValid(EntriesOf(data.emoji))
    requires var es := DecodeEmoji(EntriesOf(data.emoji));
      i < |es| && forall j :: i < j < |es| ==> es[j].0 != es[i].0
    ensures var e := DecodeEmoji(EntriesOf(data.emoji))[i];
      e.0 in LoadedHash(m, data) && LoadedHash(m, data)[e.0] == e.1
  {
    PutAllLastWins(PutAll(m, EntriesOf(data.simple)), DecodeEmoji(EntriesOf(data.emoji)), i);
  }
}
