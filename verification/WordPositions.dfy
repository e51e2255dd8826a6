/** The words of a text, told by where they stand in it. */
module WordPositions {
  import opened Bytes
  import opened Tokenizer

  predicate Blank(c: byte) {
    c as char in " \t\r\n"
  }

  predicate Mark(c: byte) {
    c as char in "!\"#$%&'()*+,-./:;<=>?@[\\]^_`{|}~"
  }

  /** No part of a word. */
  predicate Ends(c: byte) {
    Blank(c) || Mark(c)
  }

  /** A letter in small print. */
  predicate Lowers(small: byte, c: byte) {
    if 'A' as int <= c <= 'Z' as int then small - 'a' as int == c - 'A' as int else small == c
  }

  /** `w` stands at `i`: behind the start of the text or a blank, up to its end, a blank or a mark, and in small
      letters. */
  ghost predicate WordAt(t: bytes, i: nat, w: bytes) {
    && w != [] && i + |w| <= |t| && (i == 0 || Blank(t[i - 1]))
    && (forall j :: i <= j < i + |w| ==> !Ends(t[j]) && Lowers(w[j - i], t[j]))
    && (i + |w| == |t| || Ends(t[i + |w|]))
  }

  lemma BlanksAndMarks(c: byte)
    ensures Delimiter(c) <==> Blank(c)
    ensures Punctuation(c) <==> Mark(c)
  {
  }

  lemma OneWordAt(t: bytes, i: nat, v: bytes, w: bytes)
    requires WordAt(t, i, v) && WordAt(t, i, w)
    ensures v == w
  {
    hide Ends;
    assert |v| == |w|;
    forall k | 0 <= k < |v|
      ensures v[k] == w[k]
    {
      assert Lowers(v[k], t[i + k]) && Lowers(w[k], t[i + k]);
    }
  }

  lemma {:induction false} NormalizeMeans(w: bytes)
    ensures var r := Normalize(w);
            && |r| <= |w|
            && (forall k :: 0 <= k < |r| ==> !Punctuation(w[k]) && Lowers(r[k], w[k]))
            && (|r| < |w| ==> Punctuation(w[|r|]))
  {
    hide Punctuation;
    if w == [] {
    } else {
      NormalizeMeans(w[1..]);
    }
  }

  // ----- where the normalized tokens stand -----

  /** Position `k` of `ps` is where word `k` of `ws` stands. */
  ghost predicate Listed(t: bytes, p: nat, ws: seq<bytes>, ps: seq<nat>) {
    && |ps| == |ws|
    && (forall k :: 0 <= k < |ps| ==> p <= ps[k] && WordAt(t, ps[k], ws[k]))
    && forall j, k :: 0 <= j < k < |ps| ==> ps[j] < ps[k]
  }

  /** From `p` on no other word stands. */
  ghost predicate AllIn(t: bytes, p: nat, ps: seq<nat>) {
    forall i: nat, w :: p <= i && WordAt(t, i, w) ==> i in ps
  }

  ghost predicate StandAt(t: bytes, p: nat, ws: seq<bytes>, ps: seq<nat>) {
    Listed(t, p, ws, ps) && AllIn(t, p, ps)
  }

  /** The token in front: the word it holds, or none. */
  lemma TokenHolds(t: bytes, a: nat, b: nat)
    requires a < b <= |t| && (a == 0 || Delimiter(t[a - 1])) && (b == |t| || Delimiter(t[b]))
    requires forall i :: a <= i < b ==> !Delimiter(t[i])
    ensures var w := Normalize(t[a..b]);
            if w == [] then forall v :: !WordAt(t, a, v) else WordAt(t, a, w)
  {
    hide Normalize, Lowers, Blank, Mark, Delimiter, Punctuation;
    var token := t[a..b];
    var w := Normalize(token);
    NormalizeMeans(token);
    forall i | 0 <= i < |t|
      ensures Ends(t[i]) <==> Delimiter(t[i]) || Punctuation(t[i])
      ensures Blank(t[i]) <==> Delimiter(t[i])
    {
      BlanksAndMarks(t[i]);
    }
    forall k | 0 <= k < |w|
      ensures !Ends(t[a + k]) && Lowers(w[k], t[a + k])
    {
      assert token[k] == t[a + k];
    }
    if |w| < |token| {
      assert token[|w|] == t[a + |w|];
    }
    assert w == [] ==> Ends(t[a + 0]);
  }

  /** No word stands on delimiters or inside a token. */
  lemma NoWordInside(t: bytes, p: nat, a: nat, b: nat, i: nat, w: bytes)
    requires p <= a <= b <= |t| && WordAt(t, i, w) && p <= i < b
    requires forall k :: p <= k < a ==> Delimiter(t[k])
    requires forall k :: a <= k < b ==> !Delimiter(t[k])
    ensures i == a
  {
    hide Lowers, Mark, Delimiter;
    assert !Ends(t[i]);
    BlanksAndMarks(t[i]);
    if i > 0 {
      BlanksAndMarks(t[i - 1]);
    }
  }

  /** A span of delimiters, or of other bytes. */
  lemma SpanAt(t: bytes, p: nat, delimiters: bool) returns (a: nat)
    requires p <= |t|
    ensures a == p + Span(t[p..], delimiters) && p <= a <= |t| && t[p..][a - p..] == t[a..]
    ensures t[p..][..a - p] == t[p..a]
    ensures forall k :: p <= k < a ==> Delimiter(t[k]) == delimiters
    ensures a < |t| ==> Delimiter(t[a]) != delimiters
  {
    hide Delimiter;
    var u := t[p..];
    var n := Span(u, delimiters);
    hide Span;
    a := p + n;
    assert u[n..] == t[a..] && u[..n] == t[p..a];
    forall k | p <= k < a
      ensures Delimiter(t[k]) == delimiters
    {
      assert u[k - p] == t[k];
    }
    if n < |u| {
      assert u[n] == t[a];
    }
  }

  /** The first token behind `p`, if any. */
  lemma FirstToken(t: bytes, p: nat) returns (a: nat, b: nat)
    requires p <= |t| && (p == 0 || p == |t| || Delimiter(t[p]))
    ensures p <= a <= b <= |t| && (a == b <==> a == |t|)
    ensures forall k :: p <= k < a ==> Delimiter(t[k])
    ensures forall k :: a <= k < b ==> !Delimiter(t[k])
    ensures a < b ==> (a == 0 || Delimiter(t[a - 1])) && (b == |t| || Delimiter(t[b]))
    ensures Tokens(t[p..]) == if a == b then [] else [t[a..b]] + Tokens(t[b..])
  {
    hide Delimiter, Span, Tokens;
    a := SpanAt(t, p, true);
    b := SpanAt(t, a, false);
    TokensSplit(t[p..]);
  }

  lemma TokensSplit(t: bytes)
    ensures var u := t[Span(t, true)..];
            Tokens(t) == if u == [] then [] else [u[..Span(u, false)]] + Tokens(u[Span(u, false)..])
  {
  }

  lemma {:induction false} TokensStand(t: bytes, p: nat) returns (ps: seq<nat>)
    requires p <= |t| && (p == 0 || p == |t| || Delimiter(t[p]))
    ensures StandAt(t, p, Normalized(Tokens(t[p..])), ps)
    decreases |t| - p
  {
    hide WordAt, Normalize, Delimiter, StandAt, Tokens, Normalized;
    var a, b := FirstToken(t, p);
    if a == b {
      ps := [];
      NothingStands(t, p);
      NothingNormalized();
    } else {
      var rest := TokensStand(t, b);
      TokenHolds(t, a, b);
      var w, ws := Normalize(t[a..b]), Normalized(Tokens(t[b..]));
      NormalizedStep(t[a..b], Tokens(t[b..]));
      if w == [] {
        ps := rest;
        NoMoreStands(t, p, a, b, ws, rest);
        assert [] + ws == ws;
      } else {
        ps := [a] + rest;
        OneMoreStands(t, p, a, b, w, ws, rest);
      }
    }
  }

  lemma NothingNormalized()
    ensures Normalized([]) == []
  {
  }

  lemma NormalizedStep(token: bytes, more: seq<bytes>)
    ensures Normalized([token] + more) == (if Normalize(token) == [] then [] else [Normalize(token)]) + Normalized(more)
  {
    assert ([token] + more)[1..] == more;
  }

  lemma NothingStands(t: bytes, p: nat)
    requires p <= |t| && forall k :: p <= k < |t| ==> Delimiter(t[k])
    ensures StandAt(t, p, [], [])
  {
    hide Mark, Delimiter;
    forall i: nat, w | p <= i && WordAt(t, i, w)
      ensures i < |t| && !Ends(t[i])
    {
    }
    forall k | p <= k < |t|
      ensures Ends(t[k])
    {
      BlanksAndMarks(t[k]);
    }
  }

  lemma NoMoreStands(t: bytes, p: nat, a: nat, b: nat, ws: seq<bytes>, rest: seq<nat>)
    requires p <= a < b <= |t| && StandAt(t, b, ws, rest)
    requires forall k :: p <= k < a ==> Delimiter(t[k])
    requires forall k :: a <= k < b ==> !Delimiter(t[k])
    requires forall v :: !WordAt(t, a, v)
    ensures StandAt(t, p, ws, rest)
  {
    hide WordAt, Delimiter;
    forall i: nat, v | p <= i < b && WordAt(t, i, v)
      ensures i == a
    {
      NoWordInside(t, p, a, b, i, v);
    }
  }

  lemma OneMoreListed(t: bytes, p: nat, a: nat, b: nat, w: bytes, ws: seq<bytes>, rest: seq<nat>)
    requires p <= a < b <= |t| && Listed(t, b, ws, rest) && WordAt(t, a, w)
    ensures Listed(t, p, [w] + ws, [a] + rest)
  {
    hide WordAt;
  }

  lemma OneMoreStands(t: bytes, p: nat, a: nat, b: nat, w: bytes, ws: seq<bytes>, rest: seq<nat>)
    requires p <= a < b <= |t| && StandAt(t, b, ws, rest)
    requires forall k :: p <= k < a ==> Delimiter(t[k])
    requires forall k :: a <= k < b ==> !Delimiter(t[k])
    requires WordAt(t, a, w)
    ensures StandAt(t, p, [w] + ws, [a] + rest)
  {
    hide WordAt, Delimiter;
    var ps := [a] + rest;
    OneMoreListed(t, p, a, b, w, ws, rest);
    hide Listed;
    forall i: nat, v | p <= i && WordAt(t, i, v)
      ensures i in ps
    {
      if i < b {
        NoWordInside(t, p, a, b, i, v);
        assert ps[0] == a;
      } else {
        assert i in rest;
      }
    }
  }

  // ----- the words of a text -----

  /** `v` stands somewhere before `w` stands anywhere. */
  ghost predicate Before(t: bytes, v: bytes, w: bytes) {
    exists i: nat :: WordAt(t, i, v) && forall j: nat :: WordAt(t, j, w) ==> i < j
  }

  lemma EarlierStands(t: bytes, ws: seq<bytes>, ps: seq<nat>, v: bytes, w: bytes)
    requires StandAt(t, 0, ws, ps) && First(ws, v) < First(ws, w)
    ensures Before(t, v, w)
  {
    hide WordAt;
    var i := ps[First(ws, v)];
    forall j: nat | WordAt(t, j, w)
      ensures i < j
    {
      var k :| 0 <= k < |ps| && ps[k] == j;
      OneWordAt(t, j, w, ws[k]);
    }
    assert WordAt(t, i, v);
  }

  lemma StandingIsListed(t: bytes, ws: seq<bytes>, ps: seq<nat>, i: nat, w: bytes)
    requires StandAt(t, 0, ws, ps) && WordAt(t, i, w)
    ensures w in ws
  {
    hide WordAt;
    var k :| 0 <= k < |ps| && ps[k] == i;
    OneWordAt(t, i, w, ws[k]);
  }

  lemma ListedStands(t: bytes, ws: seq<bytes>, ps: seq<nat>, w: bytes)
    requires StandAt(t, 0, ws, ps) && w in ws
    ensures exists i: nat :: WordAt(t, i, w)
  {
    hide WordAt;
    assert WordAt(t, ps[First(ws, w)], w);
  }

  /** All distinct words, before the limit. */
  lemma AllStanding(t: bytes) returns (all: seq<bytes>)
    ensures Words(t) == if |all| > MAX_WORDS then all[..MAX_WORDS] else all
    ensures NoRepeats(all)
    ensures forall w :: w in all <==> exists i: nat :: WordAt(t, i, w)
    ensures forall a, b :: 0 <= a < b < |all| ==> Before(t, all[a], all[b])
  {
    var ws := Normalized(Tokens(t));
    all := Distinct([], ws);
    hide Tokens, Distinct, Normalized, WordAt, Before, StandAt;
    assert t[0..] == t && [] + ws == ws;
    var ps := TokensStand(t, 0);
    EmptyInOrder();
    DistinctMeaning([], [], ws);
    forall a, b | 0 <= a < b < |all|
      ensures Before(t, all[a], all[b])
    {
      EarlierStands(t, ws, ps, all[a], all[b]);
    }
    forall w | w in all
      ensures exists i: nat :: WordAt(t, i, w)
    {
      ListedStands(t, ws, ps, w);
    }
    forall i: nat, w | WordAt(t, i, w)
      ensures w in all
    {
      StandingIsListed(t, ws, ps, i, w);
    }
  }

  /** Every word standing in the text is collected, and nothing else, in the order in which the words first
      stand there. When more than 1024 stand there, the words left out come after all collected ones. */
  lemma {:induction false} WordsAreThoseStanding(t: bytes)
    ensures var words := Words(t);
            && NoRepeats(words)
            && (forall w :: w in words ==> exists i: nat :: WordAt(t, i, w))
            && (forall a, b :: 0 <= a < b < |words| ==> Before(t, words[a], words[b]))
            && forall i: nat, w :: WordAt(t, i, w) && w !in words ==>
                 |words| == 1024 && forall v :: v in words ==> Before(t, v, w)
  {
    hide Words, WordAt, Before;
    var all := AllStanding(t);
    var words := Words(t);
    assert forall a :: 0 <= a < |words| ==> words[a] == all[a];
    forall w | w in words
      ensures exists i: nat :: WordAt(t, i, w)
    {
      assert w in all;
    }
    forall i: nat, w | WordAt(t, i, w) && w !in words
      ensures |words| == 1024 && forall v :: v in words ==> Before(t, v, w)
    {
      assert w in all;
      var b :| 0 <= b < |all| && all[b] == w;
      assert b >= |words|;
    }
  }
}
