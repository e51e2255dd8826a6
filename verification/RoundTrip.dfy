/** The parser undoes both printers. */
module RoundTrip {
  import opened Bytes
  import opened JsonValue
  import opened JsonText
  import opened JsonGrammar
  import opened ParseSpec
  import opened Acceptance
  import opened Layout

  /** A printed value followed by anything that ends a number is read back, and nothing more. */
  lemma {:induction false} ValueParses(
      strtod: Strtod, v: Json, fmt: bool, indent: nat, depth: nat, rest: bytes)
    requires Lawful(strtod) && Storable(v) && depth + Nesting(v) <= NESTING_LIMIT
    requires EndsNumber(rest)
    ensures ParseValue(strtod, Render(v, fmt, indent, rest), depth) == Parsed(v, rest)
  {
    hide ParseValue, Render, Spell, Lawful, Proper, Lenient;
    RenderIsLaid(v, fmt, indent, rest);
    LaidValue(v, fmt, indent);
    LaidProper(strtod, v, fmt, indent);
    ProperIsLenient(strtod, Laid(v, fmt, indent));
    SpellingParses(strtod, Laid(v, fmt, indent), depth, rest);
  }

  /** The parser undoes both printers: the text of every tree the C structures can hold, nested at
      most 1000 deep, is parsed back to that same tree, and with the check for trailing garbage on. */
  lemma {:induction false} PrintedTextParses(strtod: Strtod, v: Json, fmt: bool, requireNul: bool)
    requires Lawful(strtod) && Storable(v) && Nesting(v) <= NESTING_LIMIT
    ensures ParseDocument(strtod, Text(v, fmt, 0) + [0], requireNul) == Some(v)
  {
    hide ParseDocument, Render, Spell, Lawful, Proper;
    RenderThen(v, fmt, 0, [0]);
    RenderIsLaid(v, fmt, 0, [0]);
    LaidValue(v, fmt, 0);
    LaidProper(strtod, v, fmt, 0);
    NothingBefore([0]);
    NothingBefore(Render(v, fmt, 0, [0]));
    NothingBefore([] + Render(v, fmt, 0, [0]));
    EveryTextParses(strtod, Laid(v, fmt, 0), false, [], [], requireNul);
  }

  /** So the text determines the tree. */
  lemma {:induction false} PrintingInjective(strtod: Strtod, v: Json, w: Json, fmt: bool)
    requires Lawful(strtod) && Storable(v) && Nesting(v) <= NESTING_LIMIT
    requires Storable(w) && Nesting(w) <= NESTING_LIMIT
    requires Text(v, fmt, 0) == Text(w, fmt, 0)
    ensures v == w
  {
    PrintedTextParses(strtod, v, fmt, true);
    PrintedTextParses(strtod, w, fmt, true);
  }
}
