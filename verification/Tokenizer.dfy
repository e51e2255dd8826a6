/** `extract_unique_words` of tokenizer.c: `strtok` over a private copy, words cut and lower-cased in
    place, duplicates dropped, at most 1024 kept. */
module Tokenizer {
  import opened Bytes

  const MAX_WORDS: nat := 1024

  // ----- words of a text -----

  predicate Delimiter(c: byte) {
    c == SPACE || c == TAB || c == CR || c == LF
  }

  /** `ispunct` in the C locale. */
  predicate Punctuation(c: byte) {
    0x21 <= c <= 0x2f || 0x3a <= c <= 0x40 || 0x5b <= c <= 0x60 || 0x7b <= c <= 0x7e
  }

  /** `tolower` in the C locale. */
  function Lower(c: byte): byte {
    if 0x41 <= c <= 0x5a then c + 0x20 else c
  }

  /** How many leading bytes are (not) delimiters. */
  function Span(t: bytes, delimiters: bool): (n: nat)
    ensures n <= |t|
    ensures forall i :: 0 <= i < n ==> Delimiter(t[i]) == delimiters
    ensures n < |t| ==> Delimiter(t[n]) != delimiters
  {
    if t == [] || Delimiter(t[0]) != delimiters then 0 else 1 + Span(t[1..], delimiters)
  }

  /** The maximal runs of bytes between delimiters. */
  function Tokens(t: bytes): seq<bytes>
    decreases |t|
  {
    var u := t[Span(t, true)..];
    if u == [] then []
    else [u[..Span(u, false)]] + Tokens(u[Span(u, false)..])
  }

  /** The lower-cased part of a token before its first punctuation byte. */
  function Normalize(w: bytes): bytes {
    if w == [] || Punctuation(w[0]) then [] else [Lower(w[0])] + Normalize(w[1..])
  }

  function Normalized(ws: seq<bytes>): (r: seq<bytes>)
    ensures forall w :: w in r ==> w != []
  {
    if ws == [] then []
    else
      var w := Normalize(ws[0]);
      (if w == [] then [] else [w]) + Normalized(ws[1..])
  }

  /** `seen`, extended by the words not yet in it, in the order of their first occurrence. */
  function Distinct(seen: seq<bytes>, ws: seq<bytes>): (r: seq<bytes>)
    ensures seen <= r
    decreases |ws|
  {
    if ws == [] then seen
    else if ws[0] in seen then Distinct(seen, ws[1..])
    else Distinct(seen + [ws[0]], ws[1..])
  }

  function Words(t: bytes): (r: seq<bytes>)
    ensures |r| <= MAX_WORDS
  {
    var all := Distinct([], Normalized(Tokens(t)));
    if |all| > MAX_WORDS then all[..MAX_WORDS] else all
  }

  // ----- what `Distinct` means -----

  predicate NoRepeats(s: seq<bytes>) {
    forall i, j :: 0 <= i < j < |s| ==> s[i] != s[j]
  }

  /** Position of the first occurrence. */
  function First(s: seq<bytes>, w: bytes): (i: nat)
    ensures i <= |s|
    ensures w in s <==> i < |s|
    ensures i < |s| ==> s[i] == w
    ensures forall j :: 0 <= j < i ==> s[j] != w
  {
    if s == [] || s[0] == w then 0 else 1 + First(s[1..], w)
  }

  /** In order of first occurrence. */
  predicate InOrder(r: seq<bytes>, s: seq<bytes>) {
    forall i, j :: 0 <= i < j < |r| ==> First(s, r[i]) < First(s, r[j])
  }

  lemma FirstConcat(s: seq<bytes>, t: seq<bytes>, w: bytes)
    ensures First(s + t, w) == if w in s then First(s, w) else |s| + First(t, w)
  {
    var i := First(s + t, w);
    if w in s {
      var j := First(s, w);
      assert (s + t)[j] == w;
      assert forall k :: 0 <= k < j ==> (s + t)[k] == s[k];
    } else {
      var j := First(t, w);
      assert forall k :: 0 <= k < |s| ==> (s + t)[k] == s[k];
      assert forall k :: 0 <= k < |t| ==> (s + t)[|s| + k] == t[k];
      if w in t {
        assert (s + t)[|s| + j] == w;
      } else {
        assert forall k :: 0 <= k < |s + t| ==> (s + t)[k] == if k < |s| then s[k] else t[k - |s|];
      }
    }
  }

  /** The collected words are exactly the words that occur, once each, by first occurrence. */
  lemma {:induction false} DistinctMeaning(done: seq<bytes>, seen: seq<bytes>, ws: seq<bytes>)
    requires NoRepeats(seen) && InOrder(seen, done) && forall w :: w in seen <==> w in done
    ensures var r := Distinct(seen, ws);
            NoRepeats(r) && InOrder(r, done + ws) && forall w :: w in r <==> w in done || w in ws
    decreases |ws|
  {
    if ws == [] {
      assert done + ws == done;
    } else {
      var w := ws[0];
      var next := done + [w];
      assert next + ws[1..] == done + ws;
      forall x | x in seen
        ensures First(next, x) == First(done, x) < |done|
      {
        FirstConcat(done, [w], x);
      }
      if w !in seen {
        FirstConcat(done, [w], w);
        assert First([w], w) == 0;
        var more := seen + [w];
        assert InOrder(more, next) by {
          forall i, j | 0 <= i < j < |more|
            ensures First(next, more[i]) < First(next, more[j])
          {
            assert more[i] in seen;
            assert j < |seen| ==> more[j] in seen;
          }
        }
        DistinctMeaning(next, more, ws[1..]);
      } else {
        assert InOrder(seen, next);
        DistinctMeaning(next, seen, ws[1..]);
      }
    }
  }

  lemma {:induction false} OrderPrefix(r: seq<bytes>, s: seq<bytes>, n: nat)
    requires n <= |r| && NoRepeats(r) && InOrder(r, s)
    ensures NoRepeats(r[..n]) && InOrder(r[..n], s)
  {
  }

  lemma EmptyInOrder()
    ensures NoRepeats([]) && InOrder([], [])
  {
  }

  /** The words of a text: distinct, non-empty, by first occurrence, and all of them unless there are
      more than 1024, in which case the first 1024. */
  lemma {:induction false} WordsMeaning(t: bytes)
    ensures var s := Normalized(Tokens(t));
            && NoRepeats(Words(t)) && InOrder(Words(t), s)
            && (forall w :: w in Words(t) ==> w in s && w != [])
            && (|Words(t)| < MAX_WORDS ==> forall w :: w in s ==> w in Words(t))
            && Words(t) <= Distinct([], s)
  {
    hide Tokens, Distinct, InOrder, NoRepeats, Normalized, Normalize;
    var s := Normalized(Tokens(t));
    EmptyInOrder();
    DistinctMeaning([], [], s);
    assert [] + s == s;
    var all, n := Distinct([], s), |Words(t)|;
    OrderPrefix(all, s, n);
    assert Words(t) == all[..n];
    forall w | w in Words(t)
      ensures w in s && w != []
    {
      assert w in all;
    }
    assert n < MAX_WORDS ==> Words(t) == all;
  }

  // ----- in place -----

  /** `strtok(NULL, " \t\r\n")`: the token at `start`, closed by a NUL, or none. */
  method NextToken(copy: array<byte>, p: nat, ghost t: bytes) returns (start: nat, end: nat, next: nat)
    requires Ahead(copy, p, t) && NoNul(t)
    modifies copy
    ensures p <= start <= end <= next <= |t| && Ahead(copy, next, t) && copy[end] == 0
    ensures start == p + Span(t[p..], true)
    ensures start == end <==> t[start..] == []
    ensures end == start + Span(t[start..], false)
    ensures next == end || (next == end + 1 && Delimiter(t[end]))
    ensures forall i :: start <= i < end ==> copy[i] == t[i]
  {
    start := p;
    while Delimiter(copy[start])
      invariant p <= start <= |t| && start - p + Span(t[start..], true) == Span(t[p..], true)
      decreases |t| - start
    {
      assert t[start..][1..] == t[start + 1..];
      start := start + 1;
    }
    end := start;
    while copy[end] != 0 && !Delimiter(copy[end])
      invariant start <= end <= |t| && end - start + Span(t[end..], false) == Span(t[start..], false)
      decreases |t| - end
    {
      assert t[end..][1..] == t[end + 1..];
      end := end + 1;
    }
    next := end;
    if copy[end] != 0 {
      copy[end] := 0;
      next := end + 1;
    }
  }

  /** `normalize_word`: after its first punctuation byte the word is cut off. */
  method NormalizeWord(copy: array<byte>, start: nat, end: nat, ghost word: bytes)
    requires start <= end < copy.Length && copy[end] == 0 && NoNul(word)
    requires copy[start..end] == word
    modifies copy
    ensures forall i :: 0 <= i < copy.Length && !(start <= i < end) ==> copy[i] == old(copy[i])
    ensures CString(copy[start..end]) == Normalize(word)
  {
    assert forall i :: start <= i < end ==> copy[i] == copy[start..end][i - start];
    var p := start;
    while copy[p] != 0
      invariant start <= p <= end
      invariant forall i :: 0 <= i < copy.Length && !(start <= i < p) ==> copy[i] == old(copy[i])
      invariant forall i :: start <= i < p ==>
                  copy[i] == if Punctuation(word[i - start]) then 0 else Lower(word[i - start])
      decreases end - p
    {
      if Punctuation(copy[p]) {
        copy[p] := 0;
      } else {
        copy[p] := Lower(copy[p]);
      }
      p := p + 1;
    }
    CutAtPunctuation(word, copy[start..end]);
  }

  lemma {:induction false} CutAtPunctuation(word: bytes, cut: bytes)
    requires NoNul(word) && |cut| == |word|
    requires forall i :: 0 <= i < |word| ==> cut[i] == if Punctuation(word[i]) then 0 else Lower(word[i])
    ensures CString(cut) == Normalize(word)
  {
    if word == [] {
    } else {
      CutAtPunctuation(word[1..], cut[1..]);
    }
  }

  /** What the loop of `extract_unique_words` still has to read, from the token at `start..end` on. */
  ghost function Remaining(t: bytes, start: nat, end: nat, next: nat): seq<bytes>
    requires start <= end <= next <= |t|
  {
    if start == end then [] else [t[start..end]] + Tokens(t[next..])
  }

  lemma RemainingTokens(t: bytes, p: nat, start: nat, end: nat, next: nat)
    requires p <= start <= end <= next <= |t|
    requires start == p + Span(t[p..], true) && (start == end <==> t[start..] == [])
    requires end == start + Span(t[start..], false)
    requires next == end || (next == end + 1 && Delimiter(t[end]))
    ensures Tokens(t[p..]) == Remaining(t, start, end, next)
  {
    var u := t[start..];
    assert t[p..][Span(t[p..], true)..] == u;
    if u != [] {
      assert u[..Span(u, false)] == t[start..end];
      assert u[Span(u, false)..] == t[end..];
      if next == end + 1 {
        SkipDelimiter(t[end..]);
        assert t[end..][1..] == t[next..];
      }
    }
  }

  lemma FirstRemaining(t: bytes, start: nat, end: nat, next: nat)
    requires start < end <= next <= |t|
    ensures Remaining(t, start, end, next) == [t[start..end]] + Tokens(t[next..])
  {
  }

  lemma SkipDelimiter(t: bytes)
    requires t != [] && Delimiter(t[0])
    ensures Tokens(t) == Tokens(t[1..])
  {
  }

  /** How one token changes what the loop has found. */
  lemma TakeToken(seen: seq<bytes>, token: bytes, more: seq<bytes>)
    ensures var w := Normalize(token);
            Distinct(seen, Normalized([token] + more)) ==
            Distinct(if w == [] || w in seen then seen else seen + [w], Normalized(more))
  {
    var w := Normalize(token);
    assert ([token] + more)[1..] == more;
    if w == [] {
      assert [] + Normalized(more) == Normalized(more);
    } else {
      assert ([w] + Normalized(more))[1..] == Normalized(more);
    }
  }

  /** The search for a word among those found so far. */
  method Contains(words: array<bytes>, count: nat, w: bytes) returns (found: bool)
    requires count <= words.Length
    ensures found <==> w in words[..count]
  {
    var i := 0;
    while i < count
      invariant 0 <= i <= count && w !in words[..i]
    {
      if words[i] == w {
        return true;
      }
      i := i + 1;
    }
    return false;
  }

  /** The body of the loop: the token becomes a word, or is dropped. */
  method AddToken(words: array<bytes>, count: nat, w: bytes) returns (after: nat)
    requires count < words.Length
    modifies words
    ensures after <= words.Length
    ensures words[..after] == var seen := old(words[..count]); if w == [] || w in seen then seen else seen + [w]
  {
    after := count;
    if |w| == 0 {
      return;
    }
    var found := Contains(words, count, w);
    if !found {
      words[count] := w;
      after := count + 1;
    }
  }

  /** One round of the loop. */
  method TakeOne(
      words: array<bytes>, count: nat, copy: array<byte>, ghost t: bytes, start0: nat, end0: nat, next0: nat)
    returns (after: nat, start: nat, end: nat, next: nat)
    requires NoNul(t) && count < words.Length
    requires start0 < end0 <= next0 <= |t| && Ahead(copy, next0, t) && copy[end0] == 0
    requires copy[start0..end0] == t[start0..end0]
    modifies words, copy
    ensures after <= words.Length && start0 < start <= end <= next <= |t|
    ensures Ahead(copy, next, t) && copy[end] == 0 && (start < end ==> copy[start..end] == t[start..end])
    ensures Distinct(words[..after], Normalized(Remaining(t, start, end, next))) ==
            Distinct(old(words[..count]), Normalized(Remaining(t, start0, end0, next0)))
  {
    hide Normalized, Tokens, Distinct, Span, Delimiter, Normalize, Remaining;
    ghost var seen, token := words[..count], t[start0..end0];
    TakeToken(seen, token, Tokens(t[next0..]));
    FirstRemaining(t, start0, end0, next0);
    NormalizeWord(copy, start0, end0, token);
    after := AddToken(words, count, CString(copy[start0..end0]));
    start, end, next := NextToken(copy, next0, t);
    RemainingTokens(t, next0, start, end, next);
  }

  /** `extract_unique_words`. */
  method ExtractUniqueWords(t: bytes) returns (words: array<bytes>, count: nat)
    requires NoNul(t)
    ensures fresh(words) && count <= words.Length == MAX_WORDS && words[..count] == Words(t)
  {
    hide Normalized, Tokens, Distinct, Span, Delimiter;
    words := new bytes[MAX_WORDS];
    var copy := new byte[|t| + 1](i requires 0 <= i <= |t| => if i < |t| then t[i] else 0);
    count := 0;
    ghost var all := Distinct([], Normalized(Tokens(t)));
    var start, end, next := NextToken(copy, 0, t);
    assert t[0..] == t && words[..0] == [];
    RemainingTokens(t, 0, start, end, next);
    while start < end && count < MAX_WORDS
      invariant start <= end <= next <= |t| && count <= words.Length && fresh(words) && fresh(copy)
      invariant Ahead(copy, next, t) && copy[end] == 0 && (start < end ==> copy[start..end] == t[start..end])
      invariant Distinct(words[..count], Normalized(Remaining(t, start, end, next))) == all
      decreases |t| - start
    {
      count, start, end, next := TakeOne(words, count, copy, t, start, end, next);
    }
    NothingMore(words[..count]);
  }

  lemma NothingMore(seen: seq<bytes>)
    ensures Distinct(seen, Normalized([])) == seen
  {
  }
}
