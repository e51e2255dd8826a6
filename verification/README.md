# Language-cards backend: verified model

This project models the parts of the backend that are hardest to get right, in Dafny, and proves what
they are for. Nothing of the original program is executed; the model follows the C code branch by branch.

* **The JSON engine** (`backend/src/libs/cJSON.c`): parser, both printers over the growing print buffer,
  child lists on the heap, `Compare`, `Duplicate` and `Minify`.
* **The generation jobs** (`backend/src/services/generation_job_service.c` with
  `backend/src/utils/tokenizer.c`): the job table, its operations, and runs of any length over them.
* **Realtime delivery** (`backend/src/modules/realtime/`): the WebSocket frame codec, the hub, and the
  routing of events by the job id in their text.
* **Prompt escaping** (`escape_json` in `backend/src/ollama/ollama.c`).

Code that changes things in place is modelled as classes, methods and loops; each of these is proved
against a pure function, and the lemmas are about these functions: each main function is tied to a description
that does not use it (a grammar, a count over words, positions in a text, the tables before and after a call).

| files | what they hold |
|---|---|
| `Bytes`, `JsonValue` | bytes, C strings, the allocator; JSON trees |
| `JsonText`, `PrintBuffer` | the pure renderer and the printers that refine it |
| `Utf`, `StringLiteral`, `Literals`, `Escapers` | string literals: two-pass decoding, surrogates, UTF-8, escapers |
| `ParseSpec`, `Parser`, `IntegerScan` | the parser as functions, and the cursor-based one that refines it |
| `JsonGrammar`, `Acceptance`, `Soundness` | the texts of RFC 8259, and that exactly these, with laxer strings and blanks, are accepted |
| `Layout`, `RoundTrip` | which texts the printers write, and that they are read back |
| `Minify`, `MinifyPrinted`, `Commented` | the in-place minifier, what it does to printed text and to text with comments |
| `ChildList`, `Forest`, `Compare`, `CompareHeap`, `Duplicate` | lists and trees on the heap, comparing and copying them |
| `Tokenizer`, `WordPositions` | words of a text, and where they stand in it |
| `JobModel`, `JobService` | the service as a step function, the service in place |
| `JobLaws`, `CreateLaws` | what each call does, told from the tables before and after it |
| `JobInvariant`, `JobRuns`, `JobSafety`, `JobPlenty`, `JobStranded`, `JobCards`, `PipelineMeaning` | what tables, runs and the pipeline guarantee |
| `Frames`, `FrameLaws`, `WebSocket` | frames, their examples and the reader's answers, sockets |
| `EventText`, `EventJson`, `Hub` | event texts, what a client parses, the hub |

## What the proofs show about the code

Where the code does less than one would expect, the exact condition is proved.

* **Two outcome events.** When the model fails and memory then runs out while the job is marked as
  failed, the failed event is emitted but the job stays open; if it already has drafts, reviewing them
  emits a completed event as well (`JobSafety.CreatedJobOutcome`, `JobStranded.SecondOutcomePossible`).
  With enough memory there is at most one (`JobPlenty.PlentifulRun`).
* **Lost cards.** `approve` stores the card before it copies the new status; if that copy fails, the card
  stays in the store and the draft stays pending. The balance of cards holds exactly for runs without such
  a call (`JobCards.BalanceExactly`, `JobCards.CardLost`).
* **Minify.** It takes the second backslash of `\\` before a closing quote as escaping the quote. The
  condition under which it agrees with the unformatted printer is exact, and slightly weaker than "no
  string ends in a backslash": the last string of the text may (`MinifyPrinted.MinifyGivesUnformatted`).
* **Repeated keys.** `cJSON_Compare` compares every member with the first one of its name on the other side. A tree equals a
  separate copy of itself exactly when all members of one name mean the same; symmetry and transitivity
  never fail (`Compare.CompareExactly`, `Compare.CompareIsPartialEquivalence`). An item always equals itself.
* **Lax parsing.** Besides the texts of RFC 8259 the parser takes raw control bytes in strings, malformed hexadecimal
  digits (as code point zero, which ends the text), and any control byte as white space; `Soundness.AcceptedExactly`
  describes all it takes.
* **Prompts.** `escape_json` leaves control bytes other than newline, carriage return and tab as they are, so the
  request is proper JSON exactly without them (`Escapers.PromptNoControl`).
* **Preallocated printing** needs text length plus two bytes, no more; the header advises five.
* **Event types** that contain the job key are routed by the number in the type (`EventText.RoutedByJob`).
* **WebSocket.** The server sends payloads up to 4096 bytes but reads at most 4095 into its buffer
  (`Frames.SentReadsBack`). The return value 0 means "nothing to read yet", but also that a text frame
  without payload or an answered ping was consumed, and nothing else (`Frames.ZeroMeans`); the reading loop
  then stops although more frames may be waiting (`WebSocket.Socket.ProcessConnection`).
* **Descriptor 0** marks a free slot: removing it makes the hub's count wrong (`Hub.Hub.RemoveClient`).

Allocation is an oracle everywhere: a function from call number (or place) to success. `strtod` is a
parameter that consumes between none and all of the characters collected, gives an int32 and reads decimal
int32 texts correctly; `IntegerScan` shows that such a reader exists. The card store, the language model and the
existence check are answers passed to the operations.

## Model

| member | source | states |
|---|---|---|
| `PrintBuffer.PrintBuffer.Heap` | backend/src/libs/cJSON.c:1234-1253 | a heap buffer starts empty and valid with the requested size; it is absent exactly when the first allocation fails |
| `PrintBuffer.PrintBuffer.Preallocated` | backend/src/libs/cJSON.c:1343-1356 | a caller's buffer is used as it is, marked as not to be reallocated |
| `PrintBuffer.PrintBuffer.Ensure` | backend/src/libs/cJSON.c:485-568 | room is granted exactly when `offset + needed + 1` fits the cap (the caller's length, or `INT_MAX` for a heap buffer); growth keeps the text written so far; otherwise the heap buffer is gone |
| `PrintBuffer.PrintBuffer.UpdateOffset` | backend/src/libs/cJSON.c:571-581 | finding the terminator again moves the offset to the end of exactly the text that was written |
| `PrintBuffer.PrintBuffer.PrintNumber` | backend/src/libs/cJSON.c:591-647 | an int32 is appended in decimal, NUL-terminated; refused exactly when text plus two bytes exceed the cap or memory ran out |
| `PrintBuffer.PrintBuffer.CountEscapes` | backend/src/libs/cJSON.c:966-996 | the size computed before writing is exactly the growth caused by escaping |
| `PrintBuffer.PrintBuffer.PutEscapes` | backend/src/libs/cJSON.c:1013-1062 | the writing loop appends exactly the escaped text, ending where the computed size says |
| `PrintBuffer.PrintBuffer.PrintString` | backend/src/libs/cJSON.c:949-1068 | any NUL-free string is appended as its quoted literal, terminated, with the exact refusal condition, in both the plain-copy and the escaping branch |
| `PrintBuffer.PrintBuffer.PrintArray` | backend/src/libs/cJSON.c:1590-1649 | an array's rendering is appended to the old text, depth restored, offset below length; a refusal means the rendering plus two does not fit |
| `PrintBuffer.PrintBuffer.PrintObject` | backend/src/libs/cJSON.c:1770-1881 | the same for objects, with the layout of tabs, newlines and separators in the formatted case |
| `PrintBuffer.PrintBuffer.PrintValue` | backend/src/libs/cJSON.c:1418-1489 | printing any tree refines the pure renderer through every growth of the buffer: prefix unchanged, exactly the rendering added, NUL behind it, refusal exactly when it does not fit |
| `PrintBuffer.Print` | backend/src/libs/cJSON.c:1234-1309 | the returned block is exactly the text and its terminator, also after shrinking by realloc or by copy; without allocation failure printing succeeds if and only if text length plus two is at most `INT_MAX` |
| `PrintBuffer.PrintPreallocated` | backend/src/libs/cJSON.c:1343-1360 | succeeds if and only if a buffer is given and its length is at least text length plus two; then it holds the text and a NUL, and nothing beyond the buffer is written |
| `PrintBuffer.PrintBoth` | backend/src/libs/cJSON.h:168-169 | both printers produce the same bytes, and the header's advice of five bytes more than the text is always enough |
| `PrintBuffer.EscapeGrows` | backend/src/libs/cJSON.c:998-1011 | escaping never shortens, and leaves the length alone only if it leaves the string alone, so the plain-copy branch is right |
| `PrintBuffer.IntTextBound` | backend/src/libs/cJSON.c:591-640 | an int32 never needs more than the 25-byte number buffer (at most 11 characters) |
| `JsonText.RenderThen` | backend/src/libs/cJSON.c:1418-1489 | rendering is compositional: a value's text does not depend on what follows it, for both layouts |
| `JsonText.RenderNoNul` | backend/src/libs/cJSON.c:1418-1489 | no rendering of a storable tree contains a NUL, so lengths found by `strlen` are right |
| `Utf.ParseHex4` | backend/src/libs/cJSON.c:661-695 | the loop computes the value of four hex digits, and 0 for anything malformed |
| `Utf.PutUtf8` | backend/src/libs/cJSON.c:775-803 | the backwards loop writes exactly the UTF-8 encoding of the code point behind the text already there |
| `Utf.Utf8Recoverable` | backend/src/libs/cJSON.c:747-803 | a strict RFC 3629 decoder, written independently, gets the code point and its length back, whatever follows |
| `StringLiteral.FindClose` | backend/src/libs/cJSON.c:832-860 | pass one finds the closing quote and counts the skipped bytes; every escape it counts was entered at a visited backslash |
| `StringLiteral.PutCode` | backend/src/libs/cJSON.c:698-816 | one `\u` escape or surrogate pair is decoded into the output or refused, as specified |
| `StringLiteral.StepFits` | backend/src/libs/cJSON.c:832-929 | one step of pass two never writes more than pass one reserved for the bytes it reads, even when the passes disagree on which backslash starts an escape |
| `StringLiteral.DecodedFits` | backend/src/libs/cJSON.c:832-929 | for every input, what pass two writes fits the block sized by pass one |
| `StringLiteral.DecodeInto` | backend/src/libs/cJSON.c:862-929 | on arbitrary bytes the decoding loop stays inside input and block, ends at most one byte past the closing quote, terminates the copy, and yields exactly the decoded literal or fails |
| `Literals.LiteralParses` | backend/src/libs/cJSON.c:819-946 | every literal made of plain bytes, short escapes, `\uXXXX` other than zero and surrogate pairs is accepted and decodes to the plain bytes and UTF-8 encodings in order, whatever input follows |
| `Literals.LooseParses` | backend/src/libs/cJSON.c:819-946 | every token without an unescaped quote that is spelled by pieces, malformed hexadecimal digits as code point zero included, is read as the text of its pieces up to the first NUL |
| `Literals.AcceptedIsLoose` | backend/src/libs/cJSON.c:819-946 | and `parse_string` accepts nothing else: whatever it accepts is such a token between quotes |
| `Literals.DigitsRead` | backend/src/libs/cJSON.c:661-695 | four hexadecimal digits, small or capital, are read with the most significant one first |
| `Literals.MalformedIsZero` | backend/src/libs/cJSON.c:661-695 | four bytes with one that is no hexadecimal digit are read as zero |
| `Literals.SurrogatesJoin` | backend/src/libs/cJSON.c:716-751 | the two surrogates of a code point beyond U+FFFF are joined to that code point |
| `Literals.ClefReads` | backend/src/libs/cJSON.c:698-816 | the example of section 7 of RFC 8259, the G clef, is read as its four UTF-8 bytes |
| `Literals.CodePointsRecovered` | backend/src/libs/cJSON.c:661-923 | for a literal whose characters are written raw in UTF-8 or escaped, strict UTF-8 decoding of the stored string gives exactly the code points |
| `Escapers.PrintedParses` | backend/src/libs/cJSON.c:819-1068 | for every NUL-free string, parsing its printed literal gives the string back and consumes nothing else |
| `Escapers.EscapeJson` | backend/src/ollama/ollama.c:48-105 | there is no result exactly when the input is NULL or memory is refused; otherwise the output fits the block of twice the length plus one and is the prompt escaping of the input, NUL-terminated |
| `Escapers.PrintedNoControl` | backend/src/libs/cJSON.c:949-1068 | a printed string holds no control byte |
| `Escapers.PromptNoControl` | backend/src/ollama/ollama.c:48-105 | the escaped prompt holds no control byte, as a JSON string demands, if and only if the prompt holds none but newline, carriage return and tab |
| `Escapers.EscapedPromptParses` | backend/src/ollama/ollama.c:48-105 | the escaped prompt, put between quotes, is read back by `parse_string` as the original bytes |
| `Parser.ParseBuffer.SkipBlanks` | backend/src/libs/cJSON.c:1085-1108 | skipping white space never moves the cursor backwards although it may step back, and leaves at least one byte |
| `Parser.ParseBuffer.ParseNumberItem` | backend/src/libs/cJSON.c:307-408 | a number is what `strtod` makes of the collected characters; the cursor stays inside the input |
| `Parser.ParseBuffer.ParseStringItem` | backend/src/libs/cJSON.c:819-946 | a string item is the decoded literal at the cursor, and the cursor moves past its closing quote |
| `Parser.ParseBuffer.ParseItem` | backend/src/libs/cJSON.c:1363-1415 | parsing terminates on every byte buffer; success strictly advances the cursor, stays inside the input, restores the depth, and turns the item into a tree of new items for the value the grammar over suffixes gives; failure without allocation failure means the grammar refuses too |
| `Parser.ParseBuffer.ParseElementLoop` | backend/src/libs/cJSON.c:1513-1561 | the loop builds a list of new items, each linked behind the last and filled, whose trees are disjoint and stand for exactly the elements of the grammar, in order |
| `Parser.ParseBuffer.ParseArrayItem` | backend/src/libs/cJSON.c:1492-1587 | the same for arrays: nesting limit, empty array, and the closed list of children under the item |
| `Parser.ParseBuffer.ParseObjectItem` | backend/src/libs/cJSON.c:1652-1767 | the same for objects, with each item named by its decoded key before it is filled; `Acceptance.FieldsParse` says which texts these are, blanks before the colon included |
| `Parser.ParseWithLength` | backend/src/libs/cJSON.c:1142-1219 | the entry point accepts a byte buffer exactly when `ParseDocument` does (which `Soundness.AcceptedExactly` ties to the texts of the grammar), unless memory runs out, and returns a fresh tree of properly linked items that represents the document |
| `Forest.AdoptChildren` | backend/src/libs/cJSON.c:1566-1576 | closing the list and handing it to the parent makes the parent a tree of the value |
| `Acceptance.EveryTextParses` | backend/src/libs/cJSON.c:1142-1219 | every JSON text of RFC 8259 whose numbers `strtod` reads as 32-bit integers and which is nested at most 1000 deep is read as its value: whatever white space stands around values, keys, commas, colons and brackets, however its strings are escaped, with or without a byte order mark, with or without the demand for a terminator; the texts are defined without any parser function |
| `Acceptance.FieldsParse` | backend/src/libs/cJSON.c:1673-1746 | the member loop reads a written member list with its keys in order, white space before and behind every key and colon included |
| `Acceptance.ItemsParse` | backend/src/libs/cJSON.c:1513-1561 | the element loop reads a written element list in order, to its bracket |
| `Acceptance.KeyParses` | backend/src/libs/cJSON.c:1700-1727 | a key is read with the white space before it, and behind it up to its colon |
| `Acceptance.TrailingText` | backend/src/libs/cJSON.c:1173-1181 | what follows the value makes the text refused exactly when a terminator is demanded |
| `Soundness.AcceptedExactly` | backend/src/libs/cJSON.c:1142-1219 | with the demand for a terminator, for all bytes and trees: a text is accepted as a tree if and only if the tree nests at most 1000 deep and the text is a spelling of it in the grammar, with the laxer strings of `Literals.LooseLiteral` and any bytes up to the space between tokens, ending in the NUL |
| `Soundness.PrefixAcceptedExactly` | backend/src/libs/cJSON.c:1142-1219 | the same without the demand: exactly the texts that begin with such a spelling, whose number may be followed by number bytes that `strtod` leaves |
| `Layout.RenderIsLaid` | backend/src/libs/cJSON.c:1418-1881 | both printers write exactly the spelling laid out independently: members on lines of their own indented by tabs, a tab behind the colon, a space behind the commas of arrays, or nothing between tokens |
| `ParseSpec.AcceptedBounded` | backend/src/libs/cJSON.c:1492-1767 | every accepted document nests at most 1000 deep and holds only int32 numbers and NUL-free strings |
| `IntegerScan.ScanReadsInteger` | backend/src/libs/cJSON.c:307-408 | reading the decimal text of an int32 gives that number and consumes it all |
| `IntegerScan.ScanIntegerIsLawful` | backend/src/libs/cJSON.c:369-405 | an integer reader with the saturation of `parse_number` meets everything the parser assumes of `strtod` |
| `IntegerScan.DigitsCanonical` | backend/src/libs/cJSON.c:591-640 | decimal texts have no leading zeros |
| `RoundTrip.ValueParses` | backend/src/libs/cJSON.c:1363-1881 | a printed value of either layout, at any nesting level and followed by anything that ends a number, is parsed back and nothing more is consumed |
| `RoundTrip.PrintedTextParses` | backend/src/libs/cJSON.c:1142-1309 | parsing the text of either printer returns the same tree, for every tree nested at most 1000 deep, with or without the demand for a terminator |
| `RoundTrip.PrintingInjective` | backend/src/libs/cJSON.c:1302-1310 | different trees never print to the same text |
| `Minify.MinifyInPlace` | backend/src/libs/cJSON.c:2909-2955 | in place, with the write cursor never ahead of the read cursor, the text becomes exactly its minified form, terminated; nothing behind the old text changes |
| `Minify.MinifyString` | backend/src/libs/cJSON.c:2887-2907 | inside a string everything is copied up to and including the first quote not preceded by a backslash |
| `Minify.SkipBlock` | backend/src/libs/cJSON.c:2873-2885 | a block comment is skipped through its end, or to the end of the text |
| `Commented.MinifySpelling` | backend/src/libs/cJSON.c:2873-2955 | minifying a JSON text with white space and comments of both kinds anywhere between its tokens gives the same tokens with nothing between them, when no string ends in an escaped backslash |
| `Commented.CommentedTextParses` | backend/src/libs/cJSON.c:2873-2955 | and the minified text, also when a last comment is not closed, is parsed to the value of the commented text |
| `MinifyPrinted.MinifyGivesUnformatted` | backend/src/libs/cJSON.c:2887-2955 | minifying the formatted text gives the unformatted text if and only if no string or key ends in a backslash, except possibly a string that ends the whole text |
| `MinifyPrinted.DirtyDiffers` | backend/src/libs/cJSON.c:2887-2907 | where the condition fails, the two texts differ whatever surrounds the value |
| `MinifyPrinted.MinifyMisreadsBackslash` | backend/src/libs/cJSON.c:2887-2907 | a concrete tree for which minifying goes wrong |
| `ChildList.AddItem` | backend/src/libs/cJSON.c:2012-2043 | appending makes the list `s + [item]` with all its links if and only if the item was not in it and, unless the list was empty, ended its own chain |
| `ChildList.Detach` | backend/src/libs/cJSON.c:2243-2276 | detaching removes exactly the item at its position, clears its links and keeps the list; an item that is not in the list is refused |
| `ChildList.Insert` | backend/src/libs/cJSON.c:2319-2350 | an item put before position `which` becomes part of a proper list whatever its old links; past the end the item is appended, which gives a proper list if and only if the list was empty or the item ended its own chain |
| `ChildList.Replace` | backend/src/libs/cJSON.c:2353-2399 | replacing updates exactly one position; the old item ends up unlinked, also as head, as tail and as only item |
| `ChildList.GetItem` | backend/src/libs/cJSON.c:1907-1923 | walking the chain finds the item at the index, or nothing past the end |
| `ChildList.GetObjectItem` | backend/src/libs/cJSON.c:1936-1965 | exact-case lookup returns the first child of that name, unless a child before it has no name; a NULL name finds nothing |
| `ChildList.InsertThenDetach` | backend/src/libs/cJSON.c:2243-2350 | detaching what was just inserted restores the list |
| `CompareHeap.CompareItems` | backend/src/libs/cJSON.c:3057-3180 | on trees of items: NULL equals nothing, an item equals itself, and otherwise the result is that of comparing the values whenever the trees share no item or are both steady; equal values always compare equal |
| `Compare.CompareIntegers` | backend/src/libs/cJSON.c:584-588 | on int32 values the relative comparison of doubles is equality |
| `Compare.CompareExactly` | backend/src/libs/cJSON.c:3057-3180 | for all trees, repeated keys or not: two trees compare equal if and only if in both all members of one name mean the same (`Steady`) and both mean the same up to the order of members |
| `Compare.CompareIsPartialEquivalence` | backend/src/libs/cJSON.c:3057-3180 | comparing is symmetric and transitive on all trees, and a tree equals a copy of itself if and only if it is steady |
| `Compare.UniqueIsSteady` | backend/src/libs/cJSON.c:3113-3172 | trees without repeated keys are steady |
| `Compare.CompareIsSameMeaning` | backend/src/libs/cJSON.c:3057-3180 | corollary: without repeated keys, comparing equal is equality up to the order of members |
| `Compare.CompareIsEquivalence` | backend/src/libs/cJSON.c:3057-3180 | corollary: without repeated keys it is an equivalence relation |
| `Compare.RepeatedKeyAgrees` | backend/src/libs/cJSON.c:3113-3172 | a repeated key with equal values does no harm |
| `Compare.RepeatedKeyDiffersFromCopy` | backend/src/libs/cJSON.c:3113-3172 | an object with two different values under one name does not equal a separate copy of itself |
| `Duplicate.Duplicate` | backend/src/libs/cJSON.c:2774-2858 | the copy is a fresh tree that shares no item with the original and stands for the same value (the bare item without recursion); without allocation failure it exists exactly when the depth limit is kept |
| `Duplicate.HeightAndNesting` | backend/src/libs/cJSON.c:2774-2833 | the depth that `Duplicate` limits is the nesting of the tree, or one less (an empty container at the bottom has no children) |
| `Duplicate.CopyChildren` | backend/src/libs/cJSON.c:2817-2848 | the copying loop keeps the copies disjoint, in order and properly linked, and fails when a child is nested too deep |
| `Tokenizer.NextToken` | backend/src/utils/tokenizer.c:22-44 | `strtok` step: skips delimiters, terminates and returns the maximal run of other bytes |
| `Tokenizer.NormalizeWord` | backend/src/utils/tokenizer.c:11-16 | after cutting and lower-casing in place, the token reads as the lower-cased part before its first punctuation byte |
| `Tokenizer.ExtractUniqueWords` | backend/src/utils/tokenizer.c:18-50 | the loop over the private copy collects exactly the words of the text |
| `WordPositions.WordsAreThoseStanding` | backend/src/utils/tokenizer.c:11-50 | told by positions in the text: collected are exactly the words that stand at its start or behind a blank, up to the next blank, mark or the end, in small letters; each once, in the order in which they first stand there; when there are more than 1024, those left out come after all collected ones |
| `Tokenizer.WordsMeaning` | backend/src/utils/tokenizer.c:18-50 | the words are distinct, non-empty, ordered by first occurrence, and all of them unless there are more than 1024, of which the first 1024 are kept |
| `JobService.IsCommonWord` | backend/src/services/generation_job_service.c:134-161 | the search decides membership in the table of common words or a length of at most two |
| `JobService.DropKnown` | backend/src/services/generation_job_service.c:418-433 | in-place compaction keeps exactly the words not known to exist, in order |
| `JobService.JobService.FinalizeIfReviewComplete` | backend/src/services/generation_job_service.c:338-361 | an open job without pending drafts is completed and announced, if the status can be copied; nothing else happens |
| `JobService.JobService.ApproveDraft` | backend/src/services/generation_job_service.c:583-642 | the call changes table, counters and log as `Step` says, in every error branch; `JobLaws.ApproveLaw` says what that is |
| `JobService.JobService.RejectDraft` | backend/src/services/generation_job_service.c:644-681 | the same for reject, which the code also allows on canceled and failed jobs |
| `JobService.JobService.RegenerateDraft` | backend/src/services/generation_job_service.c:683-767 | the same for regenerate, which the code also allows on completed jobs |
| `JobService.JobService.CancelJob` | backend/src/services/generation_job_service.c:769-794 | the same for cancel |
| `JobService.JobService.AppendDraft` | backend/src/services/generation_job_service.c:300-336 | a draft is appended with the next id, or not at all; an id is used up even when copying its fields fails |
| `JobService.JobService.GenerateDrafts` | backend/src/services/generation_job_service.c:442-475 | the generation loop, started anywhere in the table, leaves job, counter, log and code as the pure loop says |
| `JobService.JobService.RunPipeline` | backend/src/services/generation_job_service.c:363-493 | the pipeline procedure refines the pure pipeline in every branch |
| `JobService.JobService.CreateJob` | backend/src/services/generation_job_service.c:513-544 | creating refines `Step`, including the full table and failing allocation |
| `JobLaws.NotFoundExactly` | backend/src/services/generation_job_service.c:583-794 | a review call is answered with not found if and only if there is no such job, or the first job of that id has no such draft; then nothing changes |
| `JobLaws.ApproveLaw` | backend/src/services/generation_job_service.c:583-642 | which answer approve gives in which order of checks; on success exactly that draft is approved with the stored card, its text kept, the review counted, the saved event logged, and the job completed exactly if no other draft is pending; otherwise nothing changes but a stored card that is lost |
| `JobLaws.RejectLaw` | backend/src/services/generation_job_service.c:644-681 | the same for reject: no user needed, any job status, no card touched, nothing logged but a completion |
| `JobLaws.RegenerateLaw` | backend/src/services/generation_job_service.c:683-767 | the same for regenerate: exactly that draft is pending again with the model's card and no stored card, it no longer counts as reviewed, and the job keeps its status |
| `JobLaws.CancelLaw` | backend/src/services/generation_job_service.c:769-794 | the same for cancel: an open job becomes canceled and its drafts stay |
| `CreateLaws.CreateRefused` | backend/src/services/generation_job_service.c:513-530 | without text, room or memory no job is made; only the last uses up a job number |
| `CreateLaws.FiltersCount` | backend/src/services/generation_job_service.c:403-433 | told by counting over the words of the text: what the first filter drops is the number of its common words, what the second drops is the number of the others the user has cards for (none without a user) |
| `CreateLaws.CreateStops` | backend/src/services/generation_job_service.c:363-440 | when memory runs out before the loop, how far status, counters and announcements got |
| `CreateLaws.CreateLaw` | backend/src/services/generation_job_service.c:363-544 | when memory lasts to the loop: drafts are made of the new words in order up to the first one without an answer or memory, each with the model's card and the next number; the call succeeds exactly if none is left; counters are the numbers of common, known and new words; every announcement with its progress value is fixed; the answer decides status and error |
| `CreateLaws.SelectionUnique` | backend/src/services/generation_job_service.c:403-433 | there is only one list of the new words in the order of the text |
| `JobInvariant.StepKeeps` | backend/src/services/generation_job_service.c:513-794 | every call keeps: reviewed count equals non-pending drafts, generated count equals drafts, job ids increase along the table, draft ids increase across it |
| `JobInvariant.ReachableConsistent` | backend/src/services/generation_job_service.c:495-794 | so every reachable table has these properties, also with failing allocations, and the draft counter stays at most 1 + 1024 per job |
| `JobInvariant.DraftIdsUnique` | backend/src/services/generation_job_service.c:318 | no two drafts of a consistent table share an id |
| `JobInvariant.DecrementGuardRedundant` | backend/src/services/generation_job_service.c:741-744 | when a reviewed draft is regenerated, the reviewed count is positive, so the guard never matters |
| `JobInvariant.PipelineAdds` | backend/src/services/generation_job_service.c:363-493 | a pipeline run adds pending drafts with consecutive ids starting at the counter, at most 1024 |
| `JobRuns.ReviewEffect` | backend/src/services/generation_job_service.c:583-767 | what a review call can do: it ends only open jobs, emits a completed event exactly on the step to completed, and balances stored cards against approved drafts |
| `JobRuns.PipelineCreates` | backend/src/services/generation_job_service.c:363-493 | what creating can do: at most one outcome event, matching the code returned and the status reached |
| `JobSafety.RunEvolves` | backend/src/services/generation_job_service.c:338-361 | over any run from any consistent table: completed, failed and canceled are final, no second failed event appears, and a canceled or failed job stores no card and can only reject pending drafts |
| `JobSafety.ReachableAudited` | backend/src/services/generation_job_service.c:583-767 | over any run: completed jobs have exactly one completed event and others none, failed jobs exactly one failed event, and stored cards equal approved drafts plus regenerated approved drafts plus cards lost to a failing copy right after the store call |
| `JobCards.BalanceExactly` | backend/src/services/generation_job_service.c:605-634 | over any run, stored cards equal approved drafts plus regenerated approved drafts if and only if no call was an approval that passed every guard, got its card stored, and then could not copy the new status |
| `JobCards.CardLost` | backend/src/services/generation_job_service.c:622-629 | a concrete run of two calls after which one card is stored and no draft is approved or was redone |
| `JobSafety.AtMostOneOutcome` | backend/src/services/generation_job_service.c:338-361 | exactly when a job never emits a second outcome event: unless it was announced as failed, is still open and has drafts |
| `JobSafety.CreatedJobOutcome` | backend/src/services/generation_job_service.c:453-462 | seen from the create call: a second outcome event can follow if and only if generation failed, the failed status could not be copied, and drafts had been made |
| `JobStranded.SecondOutcomePossible` | backend/src/services/generation_job_service.c:453-462 | a concrete text, model and allocator after which a job announces both failure and completion |
| `JobPlenty.PlentifulRun` | backend/src/services/generation_job_service.c:480-794 | without allocation failures: a job is in review with something pending, completed, failed or canceled; it emits at most one outcome event; completed with a pending draft means one was regenerated after completion; stored cards equal approved drafts plus regenerated approved drafts |
| `PipelineMeaning.CandidatesMeaning` | backend/src/services/generation_job_service.c:403-433 | the words sent to the model are exactly the uncommon words not known for the user, once each, by first occurrence |
| `PipelineMeaning.PipelineClimbs` | backend/src/services/generation_job_service.c:375-491 | progress never decreases, stays at most 95 until the drafts are ready, and ends with 100 exactly then |
| `Frames.XorTwice` | backend/src/modules/realtime/realtime_ws.c:287-289 | unmasking undoes masking, byte by byte |
| `FrameLaws.XorBitLaw` | backend/src/modules/realtime/realtime_ws.c:287-289 | a bit of the masked byte is set exactly where payload and key differ |
| `FrameLaws.ReadExample` | backend/src/modules/realtime/realtime_ws.c:213-304 | the masked frames of section 5.7 of RFC 6455 are read as their opcode and Hello |
| `FrameLaws.TakenIsFrame` | backend/src/modules/realtime/realtime_ws.c:213-304 | whatever bytes have arrived, what is taken is one whole final masked frame that fits |
| `FrameLaws.WaitingForFrame` | backend/src/modules/realtime/realtime_ws.c:213-270 | the reader waits only for less than two bytes or for the rest of such a frame: an unmasked frame, a fragment or a 64-bit length is refused with its second byte |
| `FrameLaws.NeverRefused` | backend/src/modules/realtime/realtime_ws.c:213-270 | and it refuses nothing that begins with a frame that fits or could become one |
| `FrameLaws.ReplyLaw` | backend/src/modules/realtime/realtime_ws.c:291-303 | a close frame ends the connection, a ping is answered by a pong with the same payload, a text gives its length, other frames give 1 |
| `FrameLaws.ContinuesLaw` | backend/src/libs/http.c:560-576 | the reading loop goes on exactly after frames for which the return value is positive |
| `Frames.ScanWholeFrame` | backend/src/modules/realtime/realtime_ws.c:213-304 | a final masked frame at the front of the stream is taken as a whole with opcode and unmasked payload, whatever follows; one that does not fit buffer and frame array is refused |
| `Frames.ScanPartialFrame` | backend/src/modules/realtime/realtime_ws.c:213-270 | while any byte of a fitting frame is missing, the reader waits and consumes nothing |
| `Frames.AnySplitting` | backend/src/modules/realtime/realtime_ws.c:197-304 | for every schedule of arrivals, reads and interruptions, the reads take whole frames only, in order, and never refuse one |
| `Frames.StreamDelivers` | backend/src/modules/realtime/realtime_ws.c:197-304 | every division of frames with payloads up to 4095 bytes into arrivals delivers exactly these payloads in order once enough reads followed |
| `Frames.SentReadsBack` | backend/src/modules/realtime/realtime_ws.c:115-140 | a frame of `ws_send_frame`, masked by a client, reads back to opcode and payload if and only if the payload is shorter than the read buffer: 4096 bytes can be sent but not read into 4096 |
| `WebSocket.Socket.SendFrame` | backend/src/modules/realtime/realtime_ws.c:115-140 | succeeds exactly when the payload has at most 4096 bytes and the connection takes the frame; then exactly the frame was written, otherwise a prefix of it |
| `WebSocket.Socket.ReadFrame` | backend/src/modules/realtime/realtime_ws.c:197-304 | consumes one whole frame and does what its opcode asks (close, pong, text, ignore), or changes nothing; interrupted and failing `recv` calls change nothing; without faults it returns 0 although a frame was consumed exactly for the frames of `Frames.Quiet` |
| `Frames.ZeroMeans` | backend/src/modules/realtime/realtime_ws.c:261-303 | for all bytes that may have arrived: the return value is 0 if and only if nothing can be taken yet or a quiet frame is taken, that is text without payload or a ping whose pong is sent |
| `Frames.ZeroWitnesses` | backend/src/modules/realtime/realtime_ws.c:296-303 | an empty text frame and an answered ping, both consumed with return value 0 |
| `WebSocket.Socket.ProcessConnection` | backend/src/libs/http.c:560-576 | the reading loop takes the frames that have arrived up to and including the first text without payload, ping or close, leaves the rest on the socket, and closes exactly after a close frame or a ping it cannot answer |
| `WebSocket.Unmask` | backend/src/modules/realtime/realtime_ws.c:287-290 | the loop leaves the unmasked payload and a terminator in the output and the rest of it untouched |
| `Hub.TableSize` | backend/src/modules/realtime/realtime_hub.c:62-73 | the map has as many entries as there are occupied slots |
| `Hub.Hub.AddClient` | backend/src/modules/realtime/realtime_hub.c:45-76 | after success the client is in the table with the transports given, its user and subscription kept if it was there and 0 otherwise, and every other client unchanged; refusal exactly for a negative descriptor or a full table without it |
| `Hub.Hub.RemoveClient` | backend/src/modules/realtime/realtime_hub.c:78-95 | removes exactly that client; the count stays right if and only if the descriptor is not 0, or no slot is occupied, or none is free |
| `Hub.Hub.SetSubscription` | backend/src/modules/realtime/realtime_hub.c:97-107 | that client gets the job as its subscription, 0 for none, and keeps the rest; no other client changes |
| `Hub.Hub.Broadcast` | backend/src/modules/realtime/realtime_hub.c:119-155 | hands the event once to exactly the clients subscribed to everything or to its job whose transport carries a text of that length, as a text frame or as an event; removes and shuts down exactly those that wanted it and did not get it; count and map stay right |
| `Hub.AddThenBroadcast` | backend/src/modules/realtime/realtime_hub.c:45-155 | over two calls: a client just added as a WebSocket is sent exactly the text frame of at most 4096 bytes, one added for events exactly the event text of less than 4600, each once and nothing else; it stays exactly if that was sent and taken |
| `Hub.SubscribeThenEmit` | backend/src/modules/realtime/realtime_hub.c:97-155 | over two calls: a client hears the event of a job exactly if it is subscribed to that job or to none; it is cut off exactly if it should hear it and does not |
| `Hub.EventGoesToItsJob` | backend/src/modules/realtime/realtime_hub.c:134-140 | an event built for a job is wanted by exactly the clients subscribed to everything or to that job |
| `EventText.RoutedByJob` | backend/src/modules/realtime/realtime.c:34-71 | the hub reads back the job id of every event that can be built of a type, for all ids, payloads and times, if and only if the job key does not occur in the type behind its opening quote (or the type is too long for any event) |
| `EventJson.EventParses` | backend/src/modules/realtime/realtime.c:34-71 | for any literals as type and time and any JSON text as payload, parsing the built event gives the object with the members type, job_id, payload and ts, in this order, with these values |
| `EventJson.BuiltEventParses` | backend/src/modules/realtime/realtime.c:34-71 | so every event built of plain type and time and a payload printed without formatting is parsed to that object; without a payload that member is the empty object |
| `EventText.BuiltExactly` | backend/src/modules/realtime/realtime.c:34-71 | an event is built if and only if there are a type, a time stamp and memory, the job is not negative, and the length, 40 bytes besides the arguments, fits an `int` |
| `EventText.FirstKeyCounts` | backend/src/modules/realtime/realtime_hub.c:15-36 | the number behind the first key, after blanks and a sign, is the job id; 0 if it is negative or beyond 32 bits |
| `EventText.StrtolReads` | backend/src/modules/realtime/realtime_hub.c:26-32 | `strtol` on a printed id followed by a non-digit gives the id |
| `EventText.MisroutedType` | backend/src/modules/realtime/realtime.c:51-65 | a concrete type with which every event, whatever its job, is routed to job 7 |

## Left out

- JSON numbers other than 32-bit integers: `strtod`, `sscanf` and the `%1.15g`/`%1.17g` formats; `Compare.CompareDouble` is over the reals and used on integers only.
- Raw items, references and constant keys, `cJSON_Delete` and the hooks; who frees what is not modelled, only that blocks are fresh and trees disjoint.
- `cJSON_PrintBuffered` and the `cJSON_Create*Array` and `cJSON_Is*` helpers: the first only changes the initial buffer size and leaves the block untrimmed, the others are wrappers.
- String items and members without text (a NULL value string, printed as an empty literal), and `cJSON_SetValuestring` and its like.
- Case-insensitive lookup and comparison.
- `cJSON_Duplicate` of a cyclic structure, which its depth limit is for: items are trees here.
- Parser.ParseWithLength: the end position and error pointer it reports are not part of the contract, and the list a failing parse has built is simply dropped.
- Parser.ParseBuffer.ParseNumberItem: the double value beside the saturated integer is not modelled, see the first line.
- Commented.MinifySpelling: texts with a string that ends in an escaped backslash are excluded, since minifying misreads them; for printed trees `MinifyPrinted` gives the exact condition.
- ChildList.Detach: an item with a `prev` that belongs to another list is excluded; the source then edits that list and this parent's tail link.
- ChildList.Replace: the deletion of the replaced item is not modelled; it ends up unlinked.
- ChildList.GetObjectItem: the case-insensitive branch, as said above.
- CompareHeap.CompareItems: for trees that share items without being steady, only one direction is stated.
- Duplicate.Duplicate: its result is stated as equality of the trees' values; that copies of steady trees compare equal follows with `Compare.CompareExactly`.
- Tokenizer.ExtractUniqueWords: allocation failure is not modelled (the source does not check for it); the branch for failed tokenization in the pipeline cannot be reached, since the word count is 0 when no list is returned.
- Job ids beyond `INT_MAX`: the job counter also advances when a create call fails for lack of memory, so it is bounded by the number of calls only; the draft counter is bounded by the table.
- JobRuns.PipelineCreates: log entries are events handed to the realtime module; building and delivering them may still fail, so outcome counts are upper bounds for what clients see.
- `generation_job_service_shutdown`, the getters, null out-parameters and the payload texts of events.
- Concurrent calls: the service is single-threaded in the original too.
- WebSocket.Socket.SendFrame: the retry loop of `send_bytes` is summarised by how many bytes the connection takes before it fails; `recv` delivers everything that has arrived, up to the length asked for.
- WebSocket.Socket.ProcessConnection: stated for reads without faults and for well-formed frames followed by a partial one.
- Hub.Hub.Broadcast: the partial bytes of a failed send are not recorded; the write buffer in a slot, which nothing fills, is dropped.
- The time stamp of an event is an arbitrary text; handshake hashing, query parsing and the HTTP server around the sockets are not modelled.
- `decode_chunked_body`: it is defined only for bodies whose chunk sizes stay inside the buffer, and the decoding of such bodies would add only an easy member.
- PostgreSQL, Redis, sessions, authentication, handlers, card and generate services: foreign state and error-code translation; they appear as answers only.
