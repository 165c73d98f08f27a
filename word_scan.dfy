/**
  The word phase's tokeniser: `String#scan` with `\b[a-zA-Z-]+\b`.

  `IsMatch` is the regular expression read declaratively; `MatchAt` is the
  backtracking matcher at one start position (greedy run of token
  characters, then back off until a word boundary), and `TokensFrom` is the
  scan that looks for the leftmost match and resumes after it.
*/
module WordScan {
  import opened Chars
  import opened Wrappers

  /** A match `s[start..end]`. */
  datatype Span = Span(start: nat, end: nat)

  predicate WordAt(s: string, i: int) {
    0 <= i < |s| && IsWordChar(s[i])
  }

  /** `\b` at position `i`: a word character on exactly one side. */
  predicate Boundary(s: string, i: int) {
    WordAt(s, i - 1) != WordAt(s, i)
  }

  /** `\b[a-zA-Z-]+\b` matches exactly `s[p..e]`. */
  predicate IsMatch(s: string, p: int, e: int) {
    && 0 <= p < e <= |s|
    && Boundary(s, p)
    && Boundary(s, e)
    && forall k :: p <= k < e ==> IsTokenChar(s[k])
  }

  /** The end of the greedy run `[a-zA-Z-]+` that starts at `p`. */
  function RunEnd(s: string, p: nat): (q: nat)
    requires p <= |s|
    ensures p <= q <= |s|
    ensures forall k :: p <= k < q ==> IsTokenChar(s[k])
    ensures q == |s| || !IsTokenChar(s[q])
    decreases |s| - p
  {
    if p < |s| && IsTokenChar(s[p]) then RunEnd(s, p + 1) else p
  }

  /** Backtracking from the greedy end `q`: the largest `e` in `(p, q]` with `\b` at `e`. */
  function BacktrackEnd(s: string, p: nat, q: nat): (r: Option<nat>)
    requires p <= q <= |s|
    ensures r.Some? ==> p < r.value <= q && Boundary(s, r.value)
    ensures r.Some? ==> forall e :: r.value < e <= q ==> !Boundary(s, e)
    ensures r.None? ==> forall e :: p < e <= q ==> !Boundary(s, e)
    decreases q - p
  {
    if q <= p then None
    else if Boundary(s, q) then Some(q)
    else BacktrackEnd(s, p, q - 1)
  }

  /** The regular expression anchored at `p`: the end of its (longest) match, if any. */
  function MatchAt(s: string, p: nat): (r: Option<nat>)
    requires p <= |s|
    ensures r.Some? ==> IsMatch(s, p, r.value)
    ensures forall e :: IsMatch(s, p, e) ==> r.Some? && e <= r.value
  {
    if p < |s| && Boundary(s, p) && IsTokenChar(s[p]) then BacktrackEnd(s, p, RunEnd(s, p)) else None
  }

  /** `String#scan` from position `p`: leftmost match, resume after it. */
  function TokensFrom(s: string, p: nat): (r: seq<Span>)
    requires p <= |s|
    ensures forall i :: 0 <= i < |r| ==> p <= r[i].start < r[i].end <= |s|
    ensures forall i :: 0 <= i < |r| - 1 ==> r[i].end <= r[i + 1].start
    decreases |s| - p
  {
    if p == |s| then []
    else match MatchAt(s, p)
      case Some(e) => [Span(p, e)] + TokensFrom(s, e)
      case None => TokensFrom(s, p + 1)
  }

  /** Each token is a match of the regular expression. */
  lemma {:induction false} TokensFromSound(s: string, p: nat, i: nat)
    requires p <= |s| && i < |TokensFrom(s, p)|
    ensures IsMatch(s, TokensFrom(s, p)[i].start, TokensFrom(s, p)[i].end)
    decreases |s| - p
  {
    var m := MatchAt(s, p);
    if m.Some? {
      var rest := TokensFrom(s, m.value);
      assert TokensFrom(s, p) == [Span(p, m.value)] + rest;
      if i > 0 {
        assert TokensFrom(s, p)[i] == rest[i - 1];
        TokensFromSound(s, m.value, i - 1);
      }
    } else {
      assert TokensFrom(s, p) == TokensFrom(s, p + 1);
      TokensFromSound(s, p + 1, i);
    }
  }

  /** Each token is the longest match at its start. */
  lemma {:induction false} TokensFromLongest(s: string, p: nat, i: nat, e: nat)
    requires p <= |s| && i < |TokensFrom(s, p)| && IsMatch(s, TokensFrom(s, p)[i].start, e)
    ensures e <= TokensFrom(s, p)[i].end
    decreases |s| - p
  {
    var m := MatchAt(s, p);
    if m.Some? {
      var rest := TokensFrom(s, m.value);
      assert TokensFrom(s, p) == [Span(p, m.value)] + rest;
      if i > 0 {
        assert TokensFrom(s, p)[i] == rest[i - 1];
        TokensFromLongest(s, m.value, i - 1, e);
      }
    } else {
      assert TokensFrom(s, p) == TokensFrom(s, p + 1);
      TokensFromLongest(s, p + 1, i, e);
    }
  }

  /** Every token of `s`, left to right. */
  function Tokens(s: string): seq<Span> {
    TokensFrom(s, 0)
  }

  /**
    The scan misses nothing: every position where the regular expression
    could start a match lies inside an emitted token. With the ordering in
    `TokensFrom`'s contract this makes each token the leftmost match after
    the previous one.
  */
  lemma {:induction false} TokensFromComplete(s: string, p: nat, q: nat, e: nat) returns (i: nat)
    requires p <= q && IsMatch(s, q, e)
    ensures i < |TokensFrom(s, p)|
    ensures TokensFrom(s, p)[i].start <= q < TokensFrom(s, p)[i].end
    decreases |s| - p
  {
    var m := MatchAt(s, p);
    if m.Some? {
      var end := m.value;
      var rest := TokensFrom(s, end);
      assert TokensFrom(s, p) == [Span(p, end)] + rest;
      if q < end {
        i := 0;
      } else {
        var j := TokensFromComplete(s, end, q, e);
        assert rest[j].start <= q < rest[j].end;
        i := j + 1;
      }
    } else {
      assert q != p;
      assert TokensFrom(s, p) == TokensFrom(s, p + 1);
      i := TokensFromComplete(s, p + 1, q, e);
    }
  }

  /** Corollary: no match can start strictly between two consecutive tokens, or after the last one. */
  lemma TokensLeftmost(s: string, i: int, q: nat, e: nat)
    requires -1 <= i < |Tokens(s)|
    requires i >= 0 ==> Tokens(s)[i].end <= q
    requires i + 1 < |Tokens(s)| ==> q < Tokens(s)[i + 1].start
    ensures !IsMatch(s, q, e)
  {
    var ts := Tokens(s);
    if IsMatch(s, q, e) {
      var j := TokensFromComplete(s, 0, q, e);
      if j <= i {
        OrderedTransitive(ts, j, i);
      } else {
        OrderedTransitive(ts, i + 1, j);
      }
      assert false;
    }
  }

  lemma {:induction false} OrderedTransitive(ts: seq<Span>, i: nat, j: nat)
    requires forall k :: 0 <= k < |ts| ==> ts[k].start < ts[k].end
    requires forall k :: 0 <= k < |ts| - 1 ==> ts[k].end <= ts[k + 1].start
    requires i <= j < |ts|
    ensures ts[i].start <= ts[j].start && ts[i].end <= ts[j].end
    ensures i < j ==> ts[i].end <= ts[j].start
    decreases j - i
  {
    if i < j {
      OrderedTransitive(ts, i + 1, j);
    }
  }
}
