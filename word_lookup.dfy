/**
  The word phase's table lookup: the downcased token, then that with one
  trailing "s" removed, then that with a trailing "es" removed; the first
  key present decides.
*/
module WordLookup {
  import opened Chars
  import opened Wrappers

  /** ASCII `String#downcase` (tokens hold only ASCII letters and hyphens). */
  function Downcase(w: string): (d: string)
    ensures |d| == |w|
    ensures forall i :: 0 <= i < |w| ==> d[i] == DowncaseChar(w[i])
  {
    seq(|w|, i requires 0 <= i < |w| => DowncaseChar(w[i]))
  }

  predicate EndsWith(w: string, suffix: string) {
    |suffix| <= |w| && w[|w| - |suffix|..] == suffix
  }

  /** `w.sub(/suffix\z/, '')`. */
  function StripSuffix(w: string, suffix: string): (r: string)
    ensures EndsWith(w, suffix) ==> r + suffix == w
    ensures !EndsWith(w, suffix) ==> r == w
  {
    if EndsWith(w, suffix) then w[..|w| - |suffix|] else w
  }

  /** The keys tried for a token, in priority order. */
  function Candidates(w: string): seq<string> {
    var d := Downcase(w);
    [d, StripSuffix(d, "s"), StripSuffix(d, "es")]
  }

  /** The value of the first key of `keys` present in `m`. */
  function FirstHit<V>(m: map<string, V>, keys: seq<string>): (r: Option<V>)
    ensures r.None? <==> forall i :: 0 <= i < |keys| ==> keys[i] !in m
    ensures r.Some? ==> exists i :: 0 <= i < |keys| && keys[i] in m && r.value == m[keys[i]]
                                    && forall j :: 0 <= j < i ==> keys[j] !in m
  {
    if keys == [] then None
    else if keys[0] in m then Some(m[keys[0]])
    else FirstHit(m, keys[1..])
  }

  /** The type a token looks up to: `@hash[d] || @hash[d.sub(/s\z/,'')] || @hash[d.sub(/es\z/,'')]`. */
  function LookupWord<V>(m: map<string, V>, w: string): Option<V> {
    var d := Downcase(w);
    if d in m then Some(m[d])
    else if StripSuffix(d, "s") in m then Some(m[StripSuffix(d, "s")])
    else if StripSuffix(d, "es") in m then Some(m[StripSuffix(d, "es")])
    else None
  }

  /** The fallback chain is a first-hit search over the three candidate keys, in order. */
  lemma LookupWordFirstHit<V>(m: map<string, V>, w: string)
    ensures LookupWord(m, w) == FirstHit(m, Candidates(w))
  {
    var d := Downcase(w);
    var k1, k2 := StripSuffix(d, "s"), StripSuffix(d, "es");
    var ks := Candidates(w);
    assert ks == [d, k1, k2];
    FirstHitStep(m, ks);
    assert ks[1..] == [k1, k2];
    FirstHitStep(m, [k1, k2]);
    assert [k1, k2][1..] == [k2];
    FirstHitStep(m, [k2]);
    assert [k2][1..] == [];
  }

  lemma FirstHitStep<V>(m: map<string, V>, ks: seq<string>)
    requires ks != []
    ensures FirstHit(m, ks) == if ks[0] in m then Some(m[ks[0]]) else FirstHit(m, ks[1..])
  {
  }

  /** Case is ignored: a token and its downcased form look up the same. */
  lemma {:induction false} LookupIgnoresCase<V>(m: map<string, V>, w: string)
    ensures LookupWord(m, w) == LookupWord(m, Downcase(w))
  {
    assert Downcase(Downcase(w)) == Downcase(w);
  }

  /** Plural "s": with the stem in the table and the plural itself absent, the plural hits the stem. */
  lemma LookupPluralS<V>(m: map<string, V>, stem: string)
    requires Downcase(stem) == stem
    requires stem in m && stem + "s" !in m
    ensures LookupWord(m, stem + "s") == Some(m[stem])
  {
    var w := stem + "s";
    DowncaseAppend(stem, "s");
    assert Downcase(w) == w;
    assert StripSuffix(w, "s") == stem;
  }

  /** Plural "es": with the stem in the table and neither `stem+"es"` nor `stem+"e"` present, `stem+"es"` hits the stem. */
  lemma LookupPluralEs<V>(m: map<string, V>, stem: string)
    requires Downcase(stem) == stem
    requires stem in m && stem + "es" !in m && stem + "e" !in m
    ensures LookupWord(m, stem + "es") == Some(m[stem])
  {
    var w := stem + "es";
    DowncaseAppend(stem, "es");
    assert Downcase(w) == w;
    assert StripSuffix(w, "s") == stem + "e";
    assert StripSuffix(w, "es") == stem;
  }

  /** No other stripping: a token whose downcased form does not end in "s" hits only itself. */
  lemma LookupNoSuffix<V>(m: map<string, V>, w: string)
    requires !EndsWith(Downcase(w), "s")
    ensures LookupWord(m, w) == Get(m, Downcase(w))
  {
    var d := Downcase(w);
    assert !EndsWith(d, "es");
  }

  lemma {:induction false} DowncaseAppend(a: string, b: string)
    requires Downcase(b) == b
    ensures Downcase(a + b) == Downcase(a) + b
  {
    assert Downcase(a + b) == Downcase(a) + Downcase(b);
  }
}
