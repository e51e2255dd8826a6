/** A realtime event is a JSON text: what a client that parses it gets. */
module EventJson {
  import opened Bytes
  import opened JsonValue
  import opened JsonText
  import opened JsonGrammar
  import opened Literals
  import opened ParseSpec
  import opened Acceptance
  import opened Layout
  import opened Events = EventText

  /** A member with nothing between its tokens. */
  function Plainly(name: bytes, value: Spelling, next: Fields): Fields {
    OneField([], name, name, [], [], value, [], next)
  }

  /** The object a client is to receive. */
  function EventFields(kind: Spelling, job: int, payload: Spelling, time: Spelling): Fields {
    Plainly(Ascii("type"), kind,
      Plainly(Ascii("job_id"), Figure(IntText(job), job),
        Plainly(Ascii("payload"), payload, Plainly(Ascii("ts"), time, NoField))))
  }

  // ----- the text -----

  lemma SpellPlainly(name: bytes, value: Spelling, next: Fields, rest: bytes)
    ensures SpellFields(Plainly(name, value, next), rest) ==
            [QUOTE] + name + [QUOTE, COLON]
            + Spell(value, if next.NoField? then rest else [COMMA] + SpellFields(next, rest))
  {
    hide Spell, SpellFields, InQuotes;
    SpellFieldsStep(Plainly(name, value, next), rest);
    var tail := if next.NoField? then rest else [COMMA] + SpellFields(next, rest);
    NothingBefore(tail);
    var text := Spell(value, tail);
    NothingBefore(text);
    NothingBefore([COLON] + text);
    NothingBefore(InQuotes(name, [COLON] + text));
    QuotedName(name, text);
  }

  lemma QuotedName(name: bytes, text: bytes)
    ensures InQuotes(name, [COLON] + text) == [QUOTE] + name + [QUOTE, COLON] + text
  {
  }

  // ----- the event -----

  lemma Keys()
    ensures TYPE_KEY == [LBRACE] + ([QUOTE] + Ascii("type") + [QUOTE, COLON]) + [QUOTE]
    ensures JOB_KEY == [QUOTE] + Ascii("job_id") + [QUOTE, COLON]
    ensures PAYLOAD_KEY == [COMMA] + ([QUOTE] + Ascii("payload") + [QUOTE, COLON])
    ensures TIME_KEY == [COMMA] + ([QUOTE] + Ascii("ts") + [QUOTE, COLON]) + [QUOTE]
    ensures EVENT_END == [QUOTE, RBRACE]
  {
  }

  /** The formatted event is the object with the four members, as written without any blanks. */
  lemma EventIsSpelled(kind: Spelling, job: int, payload: Spelling, time: Spelling)
    requires kind.Characters? && time.Characters?
    ensures EventText(kind.token, job, Spell(payload, []), time.token) ==
            Spell(Record([], EventFields(kind, job, payload, time)), [])
  {
    hide Spell, SpellFields, TYPE_KEY, JOB_KEY, PAYLOAD_KEY, TIME_KEY, EVENT_END;
    Keys();
    var close := [RBRACE] + [];
    var four := Plainly(Ascii("ts"), time, NoField);
    var three := Plainly(Ascii("payload"), payload, four);
    var two := Plainly(Ascii("job_id"), Figure(IntText(job), job), three);
    SpellPlainly(Ascii("ts"), time, NoField, close);
    SpellPlainly(Ascii("payload"), payload, four, close);
    SpellPlainly(Ascii("job_id"), Figure(IntText(job), job), three, close);
    SpellPlainly(Ascii("type"), kind, two, close);
    SpellThen(payload, [COMMA] + SpellFields(four, close));
    Leaves(kind, [COMMA] + SpellFields(two, close));
    Leaves(time, close);
    Leaves(Figure(IntText(job), job), [COMMA] + SpellFields(three, close));
    OpenRecord(EventFields(kind, job, payload, time));
    Together(kind.token, IntText(job), Spell(payload, []), time.token,
      [QUOTE] + Ascii("type") + [QUOTE, COLON], [QUOTE] + Ascii("job_id") + [QUOTE, COLON],
      [QUOTE] + Ascii("payload") + [QUOTE, COLON], [QUOTE] + Ascii("ts") + [QUOTE, COLON]);
  }

  lemma Leaves(s: Spelling, rest: bytes)
    ensures s.Characters? ==> Spell(s, rest) == [QUOTE] + (s.token + ([QUOTE] + rest))
    ensures s.Figure? ==> Spell(s, rest) == s.token + rest
  {
  }

  lemma OpenRecord(fields: Fields)
    ensures Spell(Record([], fields), []) == [LBRACE] + SpellFields(fields, [RBRACE] + [])
  {
  }

  lemma Together(kind: bytes, job: bytes, payload: bytes, time: bytes, a: bytes, b: bytes, c: bytes, d: bytes)
    ensures [LBRACE] + (a + ([QUOTE] + (kind + ([QUOTE] + ([COMMA] + (b + (job + ([COMMA] + (c + (payload
              + ([COMMA] + (d + ([QUOTE] + (time + ([QUOTE] + ([RBRACE] + []))))))))))))))))
            == ([LBRACE] + a + [QUOTE]) + kind + [QUOTE, COMMA] + b + job + ([COMMA] + c) + payload
               + ([COMMA] + d + [QUOTE]) + time + [QUOTE, RBRACE]
  {
  }

  // ----- what a client reads -----

  /** The plain characters of a string: bytes that stand for themselves. */
  predicate PlainText(s: bytes) {
    forall i :: 0 <= i < |s| ==> s[i] != QUOTE && s[i] != BACKSLASH && s[i] != 0
  }

  lemma PlainIsLiteral(s: bytes)
    requires PlainText(s)
    ensures IsLiteral(s, s)
  {
    var ps := RawPieces(s);
    assert AllLegal(ps);
    RawText(s);
    RawBytes(s);
  }

  lemma {:induction false} RawText(s: bytes)
    ensures LiteralText(RawPieces(s), []) == s
  {
    if s == [] {
    } else {
      assert RawPieces(s)[1..] == RawPieces(s[1..]);
      RawText(s[1..]);
    }
  }

  /** The members of an event, in order. */
  function EventObject(kind: bytes, job: int, payload: Json, time: bytes): Json {
    Object(Member(Ascii("type"), String(kind), Member(Ascii("job_id"), Number(job),
      Member(Ascii("payload"), payload, Member(Ascii("ts"), String(time), NoMember)))))
  }

  lemma NamesPlain()
    ensures PlainText(Ascii("type")) && PlainText(Ascii("job_id"))
    ensures PlainText(Ascii("payload")) && PlainText(Ascii("ts")) && White([])
  {
  }

  lemma PlainlyMeans(strtod: Strtod, name: bytes, value: Spelling, next: Fields)
    requires PlainText(name) && Proper(strtod, value) && ProperFields(strtod, next)
    ensures ProperFields(strtod, Plainly(name, value, next))
    ensures MembersOf(Plainly(name, value, next)) == Member(name, ValueOf(value), MembersOf(next))
  {
    hide IsLiteral, PlainText;
    PlainIsLiteral(name);
  }

  lemma NestingOfEvent(kind: bytes, job: int, payload: Json, time: bytes)
    ensures Nesting(EventObject(kind, job, payload, time)) == 1 + Nesting(payload)
  {
    var last := Member(Ascii("ts"), String(time), NoMember);
    assert NestingMembers(last) == 0;
    var three := Member(Ascii("payload"), payload, last);
    assert NestingMembers(three) == Nesting(payload);
    var two := Member(Ascii("job_id"), Number(job), three);
    assert NestingMembers(two) == Nesting(payload);
    assert NestingMembers(Member(Ascii("type"), String(kind), two)) == Nesting(payload);
  }

  lemma EventMeans(strtod: Strtod, kind: Spelling, job: int, payload: Spelling, time: Spelling)
    requires Lawful(strtod) && Int32(job) && kind.Characters? && time.Characters?
    requires Proper(strtod, kind) && Proper(strtod, payload) && Proper(strtod, time)
    ensures ProperFields(strtod, EventFields(kind, job, payload, time))
    ensures Object(MembersOf(EventFields(kind, job, payload, time))) ==
            EventObject(kind.text, job, ValueOf(payload), time.text)
  {
    hide Lawful, PlainText, IsFigure, IsLiteral, Plainly, MembersOf, IntText, ProperFields;
    NamesPlain();
    IntegerFigure(strtod, job);
    var four := Plainly(Ascii("ts"), time, NoField);
    var three := Plainly(Ascii("payload"), payload, four);
    var two := Plainly(Ascii("job_id"), Figure(IntText(job), job), three);
    NoFieldsMean(strtod);
    PlainlyMeans(strtod, Ascii("ts"), time, NoField);
    PlainlyMeans(strtod, Ascii("payload"), payload, four);
    PlainlyMeans(strtod, Ascii("job_id"), Figure(IntText(job), job), three);
    PlainlyMeans(strtod, Ascii("type"), kind, two);
  }

  lemma NoFieldsMean(strtod: Strtod)
    ensures ProperFields(strtod, NoField) && MembersOf(NoField) == NoMember
  {
  }

  /** Whatever JSON text the payload is, and however type and time are escaped, parsing the event gives the
      object with its type, job, payload and time, in this order. */
  lemma {:induction false} EventParses(
      strtod: Strtod, kind: Spelling, job: int, payload: Spelling, time: Spelling, requireNul: bool)
    requires Lawful(strtod) && Int32(job) && kind.Characters? && time.Characters?
    requires Proper(strtod, kind) && Proper(strtod, payload) && Proper(strtod, time)
    requires 1 + Nesting(ValueOf(payload)) <= NESTING_LIMIT
    ensures var text := EventText(kind.token, job, Spell(payload, []), time.token);
            ParseDocument(strtod, text + [0], requireNul) ==
            Some(EventObject(kind.text, job, ValueOf(payload), time.text))
  {
    hide Spell, SpellFields, ParseDocument, Lawful, IsLiteral, IsFigure, EventText, IntText, EventFields;
    hide EventObject, Nesting;
    var s := Record([], EventFields(kind, job, payload, time));
    EventIsSpelled(kind, job, payload, time);
    SpellThen(s, [0]);
    NamesPlain();
    EventMeans(strtod, kind, job, payload, time);
    NestingOfEvent(kind.text, job, ValueOf(payload), time.text);
    NothingBefore([0]);
    NothingBefore(Spell(s, [0]));
    NothingBefore([] + Spell(s, [0]));
    EveryTextParses(strtod, s, false, [], [], requireNul);
  }

  /** Every event that is built for a type and a time of plain characters and a payload printed without
      formatting is parsed to the object of these; without a payload, that member is the empty object. */
  lemma BuiltEventParses(
      strtod: Strtod, kind: bytes, job: int, payload: Option<Json>, time: bytes, requireNul: bool)
    requires Lawful(strtod) && PlainText(kind) && PlainText(time) && Int32(job)
    requires payload.Some? ==> Storable(payload.value) && 1 + Nesting(payload.value) <= 1000
    ensures var text := if payload.Some? then Some(Text(payload.value, false, 0)) else None;
            var event := BuildEvent(Some(kind), job, text, Some(time), true);
            event.Some? ==>
              ParseDocument(strtod, event.value + [0], requireNul) ==
              Some(EventObject(kind, job, if payload.Some? then payload.value else Object(NoMember), time))
  {
    hide Spell, ParseDocument, Lawful, PlainText, EventText, Render, EventObject, Proper;
    var v := if payload.Some? then payload.value else Object(NoMember);
    var laid := Laid(v, false, 0);
    EmptyObjectText();
    RenderIsLaid(v, false, 0, []);
    LaidValue(v, false, 0);
    LaidProper(strtod, v, false, 0);
    StringProper(strtod, kind);
    StringProper(strtod, time);
    EventParses(strtod, Characters(kind, kind), job, laid, Characters(time, time), requireNul);
  }

  lemma StringProper(strtod: Strtod, s: bytes)
    requires PlainText(s)
    ensures Proper(strtod, Characters(s, s))
  {
    PlainIsLiteral(s);
  }

  lemma EmptyObjectText()
    ensures Text(Object(NoMember), false, 0) == [LBRACE, RBRACE]
  {
  }
}
