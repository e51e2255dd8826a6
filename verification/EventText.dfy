/** The text of a realtime event (`realtime_build_event`) and the job id the hub reads back from it
    (`rt_hub_extract_job_id`). */
module EventText {
  import opened Bytes
  import opened JsonText
  import opened IntegerScan

  const TYPE_KEY: bytes := Ascii("{\"type\":\"")
  const JOB_KEY: bytes := Ascii("\"job_id\":")
  const PAYLOAD_KEY: bytes := Ascii(",\"payload\":")
  const TIME_KEY: bytes := Ascii(",\"ts\":\"")
  const EVENT_END: bytes := Ascii("\"}")

  /** The `snprintf` format of `realtime_build_event`. */
  function EventText(kind: bytes, job: int, payload: bytes, time: bytes): bytes {
    TYPE_KEY + kind + [QUOTE, COMMA] + JOB_KEY + IntText(job) + PAYLOAD_KEY + payload + TIME_KEY + time + EVENT_END
  }

  /** `realtime_build_event`. An absent payload is replaced, `time` is absent when there is no time stamp,
      and `granted` is the answer of `malloc`. */
  function BuildEvent(kind: Option<bytes>, job: int, payload: Option<bytes>, time: Option<bytes>, granted: bool)
    : Option<bytes>
  {
    if kind.None? || kind.value == [] || job < 0 || time.None? then None
    else
      var text := EventText(kind.value, job, if payload.Some? then payload.value else [LBRACE, RBRACE], time.value);
      if |text| > INT_MAX || !granted then None else Some(text)
  }

  /** An event is built exactly if there are a type and a time, the job is not negative, the length fits an `int`
      (40 bytes of it do not depend on the arguments), and there is memory. */
  lemma BuiltExactly(kind: Option<bytes>, job: int, payload: Option<bytes>, time: Option<bytes>, granted: bool)
    ensures BuildEvent(kind, job, payload, time, granted).Some? <==>
            && kind.Some? && kind.value != [] && job >= 0 && time.Some? && granted
            && 40 + |kind.value| + |IntText(job)| + (if payload.Some? then |payload.value| else 2) + |time.value|
               <= 0x7fff_ffff
  {
    hide IntText;
  }

  // ----- reading the job id back -----

  predicate At(s: bytes, needle: bytes, i: nat) {
    needle <= s[if i <= |s| then i else |s|..]
  }

  predicate Occurs(s: bytes, needle: bytes) {
    exists i :: 0 <= i < |s| && At(s, needle, i)
  }

  lemma AtShift(s: bytes, needle: bytes)
    requires s != []
    ensures At(s, needle, 0) <==> needle <= s
    ensures forall j {:trigger At(s, needle, j)} :: 0 < j < |s| ==> (At(s, needle, j) <==> At(s[1..], needle, j - 1))
  {
    assert s[0..] == s;
    forall j | 0 < j < |s|
      ensures At(s, needle, j) <==> At(s[1..], needle, j - 1)
    {
      assert s[j..] == s[1..][j - 1..];
    }
  }

  /** `strstr`: the first occurrence. */
  function Find(s: bytes, needle: bytes): (r: Option<nat>)
    requires needle != []
    ensures r.Some? ==> r.value < |s| && At(s, needle, r.value) && forall j :: 0 <= j < r.value ==> !At(s, needle, j)
    ensures r.None? ==> forall j :: 0 <= j < |s| ==> !At(s, needle, j)
  {
    if s == [] then None
    else
      AtShift(s, needle);
      if At(s, needle, 0) then Some(0)
      else
        var r := Find(s[1..], needle);
        if r.None? then None else Some(r.value + 1)
  }

  /** `isspace` in the C locale. */
  predicate Space(c: byte) {
    c == SPACE || TAB <= c <= CR
  }

  function SpaceRun(s: bytes): (n: nat)
    ensures n <= |s|
  {
    if s == [] || !Space(s[0]) then 0 else 1 + SpaceRun(s[1..])
  }

  /** `strtol` in base ten; nothing when there is no digit. A value beyond `long` is not cut off here: the
      caller refuses both. */
  function Strtol(s: bytes): Option<int> {
    var t := s[SpaceRun(s)..];
    var sign := if t != [] && (t[0] == MINUS || t[0] == 0x2b) then 1 else 0;
    var u := t[sign..];
    var n := DigitRun(u);
    if n == 0 then None
    else
      var value: int := DigitsValue(u[..n]);
      Some(if sign == 1 && t[0] == MINUS then -value else value)
  }

  /** `rt_hub_extract_job_id`: the number after the first job key, or zero. */
  function ExtractJobId(json: bytes): (n: int)
    ensures 0 <= n <= INT_MAX
  {
    var i := Find(json, JOB_KEY);
    if i.None? then 0
    else
      var v := Strtol(json[i.value + |JOB_KEY|..]);
      if v.None? || v.value <= 0 || v.value > INT_MAX then 0 else v.value
  }

  // ----- what `strtol` sees -----

  lemma {:induction false} DigitRunStops(a: bytes, b: bytes)
    requires forall i :: 0 <= i < |a| ==> Digit(a[i])
    requires b == [] || !Digit(b[0])
    ensures DigitRun(a + b) == |a|
  {
    if a != [] {
      assert (a + b)[1..] == a[1..] + b;
      DigitRunStops(a[1..], b);
    } else {
      assert a + b == b;
    }
  }

  /** A number in decimal, then something that is not a digit. */
  lemma StrtolReads(n: nat, rest: bytes)
    requires rest == [] || !Digit(rest[0])
    ensures Strtol(IntText(n) + rest) == Some(n)
  {
    var d := Digits(n);
    DigitRunStops(d, rest);
    DigitsRead(n);
    assert (d + rest)[0..] == d + rest && (d + rest)[..|d|] == d;
  }

  lemma {:induction false} SpaceRunStops(a: bytes, b: bytes)
    requires forall i :: 0 <= i < |a| ==> Space(a[i])
    requires b == [] || !Space(b[0])
    ensures SpaceRun(a + b) == |a|
  {
    if a != [] {
      assert (a + b)[1..] == a[1..] + b;
      SpaceRunStops(a[1..], b);
    } else {
      assert a + b == b;
    }
  }

  lemma StrtolSteps(s: bytes, blank: nat, sign: nat, digits: nat)
    requires SpaceRun(s) == blank && blank + sign + digits <= |s| && digits > 0
    requires var t := s[blank..]; sign == if t != [] && (t[0] == MINUS || t[0] == 0x2b) then 1 else 0
    requires DigitRun(s[blank..][sign..]) == digits
    ensures var value: int := DigitsValue(s[blank..][sign..][..digits]);
            Strtol(s) == Some(if sign == 1 && s[blank] == MINUS then -value else value)
  {
    hide SpaceRun, DigitRun, DigitsValue;
  }

  /** Blanks and a sign may stand before the digits. */
  lemma StrtolSigned(blanks: bytes, sign: bytes, n: nat, rest: bytes)
    requires forall i :: 0 <= i < |blanks| ==> blanks[i] in {0x20, 0x09, 0x0a, 0x0b, 0x0c, 0x0d}
    requires sign in [[], [0x2b], [MINUS]] && (rest == [] || !Digit(rest[0]))
    ensures var value: int := if sign == [MINUS] then -(n as int) else n;
            Strtol(blanks + (sign + (Digits(n) + rest))) == Some(value)
  {
    hide DigitRun, DigitsValue, Digits, Strtol;
    var d := Digits(n);
    var t, u := sign + (d + rest), d + rest;
    assert u[0] == d[0] && (sign != [] ==> t[0] == sign[0]);
    SpaceRunStops(blanks, t);
    assert (blanks + t)[|blanks|..] == t && t[|sign|..] == u && u[..|d|] == d;
    DigitRunStops(d, rest);
    DigitsRead(n);
    StrtolSteps(blanks + t, |blanks|, |sign|, |d|);
  }

  lemma {:induction false} SpaceRunAtQuote(a: bytes, b: bytes)
    ensures SpaceRun(a + [QUOTE] + b) == SpaceRun(a)
  {
    if a != [] && Space(a[0]) {
      assert (a + [QUOTE] + b)[1..] == a[1..] + [QUOTE] + b;
      SpaceRunAtQuote(a[1..], b);
    } else {
      assert (a + [QUOTE] + b)[0] == if a == [] then QUOTE else a[0];
    }
  }

  lemma {:induction false} DigitRunAtQuote(a: bytes, b: bytes)
    ensures DigitRun(a + [QUOTE] + b) == DigitRun(a)
  {
    if a != [] && Digit(a[0]) {
      assert (a + [QUOTE] + b)[1..] == a[1..] + [QUOTE] + b;
      DigitRunAtQuote(a[1..], b);
    } else {
      assert (a + [QUOTE] + b)[0] == if a == [] then QUOTE else a[0];
    }
  }

  /** Nothing after a quote matters. */
  lemma StrtolStopsAtQuote(a: bytes, b: bytes)
    ensures Strtol(a + [QUOTE] + b) == Strtol(a)
  {
    hide SpaceRun, DigitRun, DigitsValue;
    var s, k := a + [QUOTE] + b, SpaceRun(a);
    SpaceRunAtQuote(a, b);
    var t, t0 := s[k..], a[k..];
    assert t == t0 + [QUOTE] + b;
    var sign := if t0 != [] && (t0[0] == MINUS || t0[0] == 0x2b) then 1 else 0;
    assert t0 == [] ==> t[0] == QUOTE;
    var u, u0 := t[sign..], t0[sign..];
    assert u == u0 + [QUOTE] + b;
    DigitRunAtQuote(u0, b);
    assert u[..DigitRun(u0)] == u0[..DigitRun(u0)];
  }

  // ----- where the first job key is -----

  lemma NoKeyNoJob(json: bytes)
    requires !Occurs(json, JOB_KEY)
    ensures ExtractJobId(json) == 0
  {
  }

  /** The number behind the first key is the job, unless it is negative or beyond 32 bits. */
  lemma FirstKeyCounts(before: bytes, blanks: bytes, sign: bytes, n: nat, rest: bytes)
    requires forall i :: 0 <= i < |blanks| ==> blanks[i] in {0x20, 0x09, 0x0a, 0x0b, 0x0c, 0x0d}
    requires sign in [[], [0x2b], [MINUS]] && (rest == [] || !Digit(rest[0]))
    requires var json := before + (JOB_KEY + (blanks + (sign + (Digits(n) + rest))));
             forall j :: 0 <= j < |before| ==> !At(json, JOB_KEY, j)
    ensures var json := before + (JOB_KEY + (blanks + (sign + (Digits(n) + rest))));
            ExtractJobId(json) == if sign == [MINUS] || n > INT_MAX then 0 else n
  {
    KeysAre();
    hide JOB_KEY, Strtol, Digits;
    var more := blanks + (sign + (Digits(n) + rest));
    var json := before + (JOB_KEY + more);
    assert json[|before|..] == JOB_KEY + more;
    assert At(json, JOB_KEY, |before|);
    assert json[|before| + |JOB_KEY|..] == more;
    StrtolSigned(blanks, sign, n, rest);
  }

  /** Everything before the builder's own job key. */
  function Front(kind: bytes): bytes {
    TYPE_KEY + kind + [QUOTE, COMMA]
  }

  function Tail(job: int, payload: bytes, time: bytes): bytes {
    IntText(job) + PAYLOAD_KEY + payload + TIME_KEY + time + EVENT_END
  }

  lemma KeysAre()
    ensures |JOB_KEY| == 9 && JOB_KEY[0] == QUOTE && JOB_KEY[1] == 0x6a && JOB_KEY[7] == QUOTE && JOB_KEY[8] == COLON
    ensures forall k :: 0 < k < 7 ==> JOB_KEY[k] != QUOTE && JOB_KEY[k] != COMMA
    ensures |TYPE_KEY| == 9 && TYPE_KEY[8] == QUOTE && TYPE_KEY[0] == LBRACE && TYPE_KEY[1] == QUOTE
            && TYPE_KEY[2] == 0x74 && TYPE_KEY[6] == QUOTE && TYPE_KEY[7] == COLON
    ensures forall k :: 0 <= k < 8 && k != 1 && k != 6 ==> TYPE_KEY[k] != QUOTE
    ensures PAYLOAD_KEY != [] && PAYLOAD_KEY[0] == COMMA
  {
  }

  lemma TextParts(kind: bytes, job: int, payload: bytes, time: bytes)
    ensures EventText(kind, job, payload, time) == Front(kind) + JOB_KEY + Tail(job, payload, time)
  {
  }

  /** An occurrence before the builder's own key lies in the type, possibly beginning at its opening
      quote. */
  lemma EarlyKey(kind: bytes, tail: bytes, i: nat)
    requires i < |Front(kind)| && At(Front(kind) + JOB_KEY + tail, JOB_KEY, i)
    ensures 8 <= i && i - 8 + 9 <= |kind| + 1 && At([QUOTE] + kind, JOB_KEY, i - 8)
  {
    KeysAre();
    hide JOB_KEY, TYPE_KEY;
    var s, front := Front(kind) + JOB_KEY + tail, Front(kind);
    forall m | i <= m < i + 9
      ensures m < |s| && s[m] == JOB_KEY[m - i]
    {
      assert JOB_KEY[m - i] == s[i..][m - i];
    }
    var q := 9 + |kind|;
    assert s[q] == QUOTE && s[q + 1] == COMMA;
    assert forall k :: 0 <= k < 9 ==> s[k] == TYPE_KEY[k];
    assert i >= 8 by {
      assert s[i] == QUOTE && s[i + 1] == 0x6a;
    }
    assert i + 9 <= q;
    var t := [QUOTE] + kind;
    assert forall k :: 0 <= k < |t| ==> t[k] == s[8 + k];
    assert JOB_KEY <= t[i - 8..];
  }

  /** The other way round: an occurrence in the quoted type is one in the text. */
  lemma TypeKey(kind: bytes, tail: bytes, j: nat)
    requires j < |kind| + 1 && At([QUOTE] + kind, JOB_KEY, j)
    ensures At(Front(kind) + JOB_KEY + tail, JOB_KEY, 8 + j)
  {
  }

  lemma OwnKey(kind: bytes, tail: bytes)
    ensures At(Front(kind) + JOB_KEY + tail, JOB_KEY, |Front(kind)|)
  {
  }

  /** Without a job key in the type, the id comes back. */
  lemma OwnKeyFound(kind: bytes, job: nat, payload: bytes, time: bytes)
    requires !Occurs([QUOTE] + kind, JOB_KEY) && job <= INT_MAX
    ensures ExtractJobId(EventText(kind, job, payload, time)) == job
  {
    var front, tail := Front(kind), Tail(job, payload, time);
    var s := front + JOB_KEY + tail;
    TextParts(kind, job, payload, time);
    KeysAre();
    hide JOB_KEY, TYPE_KEY, PAYLOAD_KEY, TIME_KEY, EVENT_END, Front, Tail;
    OwnKey(kind, tail);
    var i := Find(s, JOB_KEY);
    if i.value < |front| {
      EarlyKey(kind, tail, i.value);
    }
    assert i.value == |front|;
    assert s[|front| + |JOB_KEY|..] == tail;
    TailReads(job, payload, time);
  }

  lemma TailReads(job: nat, payload: bytes, time: bytes)
    ensures Strtol(Tail(job, payload, time)) == Some(job)
  {
    KeysAre();
    hide PAYLOAD_KEY, TIME_KEY, EVENT_END, Strtol, IntText;
    var rest := PAYLOAD_KEY + payload + TIME_KEY + time + EVENT_END;
    assert Tail(job, payload, time) == IntText(job) + rest;
    StrtolReads(job, rest);
  }

  /** With a job key in the type, what is read does not depend on the job. */
  lemma ForeignKeyFound(kind: bytes, a: nat, b: nat, payload: bytes, time: bytes)
    requires Occurs([QUOTE] + kind, JOB_KEY)
    ensures ExtractJobId(EventText(kind, a, payload, time)) == ExtractJobId(EventText(kind, b, payload, time))
  {
    hide EventText, ExtractJobId, Occurs, Find, Strtol, JOB_KEY;
    ForeignKeyAt(kind, a, payload, time);
    ForeignKeyAt(kind, b, payload, time);
  }

  /** What is read when the type holds a job key: the number after it. */
  lemma ForeignKeyAt(kind: bytes, job: nat, payload: bytes, time: bytes)
    requires Occurs([QUOTE] + kind, JOB_KEY)
    ensures ExtractJobId(EventText(kind, job, payload, time)) == ExtractJobId([QUOTE] + kind)
  {
    hide Occurs, JOB_KEY, TYPE_KEY, EventText, Tail, Strtol, At, Find;
    var t, tail := [QUOTE] + kind, Tail(job, payload, time);
    TextParts(kind, job, payload, time);
    KeysAre();
    var i := FirstInType(kind, tail);
    var after := t[i + 9..];
    assert (Front(kind) + JOB_KEY + tail)[8 + i + 9..] == after + [QUOTE] + ([COMMA] + JOB_KEY + tail);
    StrtolStopsAtQuote(after, [COMMA] + JOB_KEY + tail);
  }

  /** The first job key of the text is the first one of the quoted type. */
  lemma FirstInType(kind: bytes, tail: bytes) returns (i: nat)
    requires Occurs([QUOTE] + kind, JOB_KEY)
    ensures Find([QUOTE] + kind, JOB_KEY) == Some(i) && i + 9 <= |kind| + 1
    ensures Find(Front(kind) + JOB_KEY + tail, JOB_KEY) == Some(8 + i)
  {
    KeysAre();
    hide JOB_KEY, TYPE_KEY, At;
    var s, t := Front(kind) + JOB_KEY + tail, [QUOTE] + kind;
    i := Find(t, JOB_KEY).value;
    TypeKey(kind, tail, i);
    EarlyKey(kind, tail, 8 + i);
    var k := Find(s, JOB_KEY).value;
    assert k <= 8 + i;
    EarlyKey(kind, tail, k);
  }

  lemma ShortestEvent(kind: bytes, job: nat, payload: bytes, time: bytes)
    ensures |EventText(kind, 1, [], [])| == |EventText(kind, 2, [], [])| <= |EventText(kind, job, payload, time)|
  {
    hide TYPE_KEY, JOB_KEY, PAYLOAD_KEY, TIME_KEY, EVENT_END;
    assert |IntText(1)| == |IntText(2)| == 1;
  }

  /** For which event types the hub routes every event that can be built to the job it was built for:
      exactly those whose text, with the quote before it, does not contain the job key (or that are too
      long for any event). */
  lemma RoutedByJob(kind: bytes)
    ensures (forall job: nat, payload, time, granted ::
               var event := BuildEvent(Some(kind), job, payload, time, granted);
               event.Some? && job <= INT_MAX ==> ExtractJobId(event.value) == job)
            <==> !Occurs([QUOTE] + kind, JOB_KEY) || |EventText(kind, 1, [], [])| > INT_MAX
  {
    hide EventText, ExtractJobId, JOB_KEY;
    if Occurs([QUOTE] + kind, JOB_KEY) && |EventText(kind, 1, [], [])| <= INT_MAX {
      ForeignKeyFound(kind, 1, 2, [], []);
      ShortestEvent(kind, 1, [], []);
      NotInEmptyType();
      var one := BuildEvent(Some(kind), 1, Some([]), Some([]), true);
      var two := BuildEvent(Some(kind), 2, Some([]), Some([]), true);
      assert one == Some(EventText(kind, 1, [], [])) && two == Some(EventText(kind, 2, [], []));
      assert ExtractJobId(one.value) != 1 || ExtractJobId(two.value) != 2;
    } else {
      forall job: nat, payload, time, granted | job <= INT_MAX
        ensures var event := BuildEvent(Some(kind), job, payload, time, granted);
                event.Some? ==> ExtractJobId(event.value) == job
      {
        if BuildEvent(Some(kind), job, payload, time, granted).Some? {
          var p := if payload.Some? then payload.value else [LBRACE, RBRACE];
          ShortestEvent(kind, job, p, time.value);
          OwnKeyFound(kind, job, p, time.value);
        }
      }
    }
  }

  lemma NotInEmptyType()
    ensures !Occurs([QUOTE] + [], JOB_KEY)
  {
    KeysAre();
    hide JOB_KEY;
  }

  const SEVEN_KIND: bytes := Ascii("job_id\":7")

  /** With the type `job_id":7`, every event is routed to job 7. */
  lemma MisroutedType(job: nat, payload: bytes, time: bytes)
    ensures ExtractJobId(EventText(SEVEN_KIND, job, payload, time)) == 7
  {
    var t := [QUOTE] + SEVEN_KIND;
    assert t == JOB_KEY + [0x37];
    assert t[0..] == t && At(t, JOB_KEY, 0);
    hide JOB_KEY, SEVEN_KIND, EventText, Strtol;
    ForeignKeyAt(SEVEN_KIND, job, payload, time);
    assert Find(t, JOB_KEY) == Some(0);
    assert IntText(7) == [0x37] && [0x37] + [] == [0x37];
    StrtolReads(7, []);
    assert t[|JOB_KEY|..] == [0x37];
  }
}
