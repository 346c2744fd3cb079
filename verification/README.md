# cj `json.h` in Dafny

A model of the header-only JSON parser `json.h` of cj, with proofs about it.

The three layers of the parser (map, tokenizer, parser) each have a module, and three more modules state properties of them:

- **`ObjectMap`** is `json_object_map_t`, a hash table of `TABLE_SIZE` (10) buckets.
  - Each bucket is a chain of `(key, value)` nodes, head first.
  - `hash` sums the `char`s of the key up to its NUL.
  - Insert replaces the value of a key already in the chain, and prepends a new key at the head.
  - Get walks the key's chain.
- **`Tokenizer`** covers `token_stream_t` and `tokenize_json`.
  - The stream keeps its capacity: start at `STREAM_START_SIZE`, double when full.
  - The tokenizer is stated twice. `Lex` is the recursive reference: one step per character class. `Tokenize` is the loop-based method.
  - Lemmas state that the tokens span the input, that every token is a maximal run, that the non-blank text is kept, and which inputs are rejected.
- **`Parser`** models `parse_value`, `parse_object`, `parse_string`, `parse_number`, `parse_boolean`, `parse_null` and `json_parse`, corrected where the C is wrong.
  - Nested failures propagate.
  - Every cursor read is bounds-checked.
  - Both quote tokens of a string are checked.
  - The code `tokenize_json` returns is honoured.
- **`AsWritten`** models the same parse functions exactly as the C is written.
  - Codes that the C drops are dropped.
  - Unchecked reads are not checked.
  - Undefined behaviour is the outcome `Undefined`.
  - It proves that the C agrees with the corrected parser wherever the latter succeeds. It also exhibits, for each difference, an input on which the two disagree (see Findings).
- **`RoundTrip`** holds a renderer from values back to JSON text. `json.h` itself has no printer for values.
  - Parsing the rendering of a value gives the value back.
  - Every value `json_parse` returns can be rendered, so render-then-parse is the identity on parser output.
  - For duplicate keys, the object the member loop builds holds the last value given to each key.
- **`Samples`** works through the documents and calls of the repository's tests, plus a nested document.

`Wrappers` holds the `Option`/`Result` types.

## Model

| member | source | states |
|---|---|---|
| ObjectMap.ComputeHash | json.h:275-288 | the loop returns -1 for a NULL key, otherwise the sum of the signed `char` values before the first NUL |
| ObjectMap.CRem | json.h:327-328 | C's `%`, which truncates: the remainder lies strictly between -n and n, agrees with `%` on non-negative hashes, and is never positive for a negative hash |
| ObjectMap.AsciiKeyHashable | json.h:275-288 | a key of ASCII characters without NUL has a non-negative hash, so its bucket index lies inside the table |
| ObjectMap.Init | json.h:294-298 | the fresh map is valid, holds no key and no node |
| ObjectMap.Get | json.h:362-377 | get finds nothing exactly when no node of the key's bucket has the key; what it finds is the value of a node with that key; on a valid map it finds something exactly for the keys the map holds |
| ObjectMap.Insert | json.h:326-352 | insert touches only the key's bucket and keeps the table size |
| ObjectMap.InsertThenGet | json.h:326-377 | after insert(k, v), get(k) returns v, and get of every other key is unchanged |
| ObjectMap.InsertExistingKeepsPosition | json.h:333-341 | inserting a key already present replaces its value in place: same keys in the same order, other nodes untouched, same node count |
| ObjectMap.InsertNewKeyPrepends | json.h:343-351 | inserting a new key puts one node at the head of its bucket's chain and adds one node |
| ObjectMap.InsertPreservesValid | json.h:326-352 | insert keeps every node in the bucket of its key's hash, with keys distinct within each chain |
| ObjectMap.InsertKeys | json.h:326-352 | the keys after insert(k, v) are the keys before plus k |
| ObjectMap.KeysUnique | json.h:333-341 | in a valid map each key occurs in at most one node of the whole table |
| ObjectMap.LastWriteWins | json.h:333-341 | after any sequence of inserts, get returns the last value inserted under the key, or what it returned before if the sequence never names the key |
| ObjectMap.InsertAllKeepsKeysUnique | json.h:326-352 | any sequence of inserts into a valid map leaves it valid with every key in at most one node |
| ObjectMap.RebuildFromEntries | json.h:326-352 | inserting a map's entries, bucket by bucket and each chain from tail to head, into an empty map rebuilds exactly that map |
| ObjectMap.BuildFromEmpty | json.h:343-351 | inserting distinct keys into an empty map leaves in each bucket the keys of that bucket in reverse order of insertion |
| Tokenizer.Push | json.h:406-419 | push appends the token and keeps the earlier ones; a capacity-0 stream gets `STREAM_START_SIZE`, a full one doubles, otherwise capacity is kept; length never exceeds capacity |
| Tokenizer.KeywordLiterals | json.h:501-514 | an identifier is TRUE, FALSE or NULL_TAG exactly when it spells `true`, `false` or `null`, and STR otherwise |
| Tokenizer.WordIsAsciiKey | json.h:425-435 | an identifier run is made of ASCII letters, digits and `_`, so it can be a map key |
| Tokenizer.RunEndIsMaximal | json.h:484-523 | the end of a whitespace, identifier or number run is maximal: every character before it continues the run and the next one does not |
| Tokenizer.MaximalRunUnique | json.h:484-523 | a maximal run from a position has exactly one end |
| Tokenizer.StepClassification | json.h:455-530 | one step of the tokenizer by the class of the current character: punctuation is a one-character token, whitespace is skipped as a maximal run, a letter starts a maximal identifier that is a keyword or STR, a digit starts a maximal number run; any other character rejects |
| Tokenizer.Lex | json.h:443-539 | the tokenizer returns 0 or the failure code 1, and every token lies inside the input |
| Tokenizer.LexSpans | json.h:443-539 | the tokens are in order, do not overlap, and lie between the start and the end of the input |
| Tokenizer.LexTokenIsLexeme | json.h:455-530 | each token's text is a possible spelling of its tag |
| Tokenizer.LexCoverage | json.h:443-539 | on success the token texts, concatenated, are the input with its whitespace removed |
| Tokenizer.LexRejectsStray | json.h:525-526 | an input holding a character that is neither punctuation, whitespace, letter, digit nor `.` is rejected with code 1 (a `.` outside a number run is rejected too, as `Tokenizer.StepClassification` states step by step) |
| Tokenizer.LexAcceptsClassified | json.h:443-539 | an input made only of punctuation, whitespace, letters and digits is accepted |
| Tokenizer.LexLexemes | json.h:443-539 | well-formed lexemes that cannot run together tokenize to one token each, at their offsets |
| Tokenizer.ScanRun | json.h:492-523 | the inner loops of identifiers and numbers stop exactly at the end of the maximal run, with the cursor on its last character |
| Tokenizer.SkipWhitespace | json.h:484-489 | the whitespace loop stops exactly at the end of the maximal whitespace run |
| Tokenizer.ScanAt | json.h:455-530 | one pass of the `switch` of `tokenize_json` does what the reference step `StepAt` says |
| Tokenizer.Tokenize | json.h:443-539 | the loop-based tokenizer returns the reference code and tokens, in a stream whose length is within its capacity |
| Parser.Code | json.h:18-19 | no error has code 0; INDEX_GREATER_THAN_LEN and UNEXPECTED_TOKEN are negative, and the tokenizer's failure is the only non-negative code |
| Parser.ParseString | json.h:708-729 | a string is read exactly at QUOTATION, STR, QUOTATION: the result is the STR text with the cursor past the closing quote, and the key is hashable; a failure with all three tokens present is UNEXPECTED_TOKEN, and no failure is the tokenizer's |
| Parser.ParseValue | json.h:731-762 | a cursor at or past the end is INDEX_GREATER_THAN_LEN, a token that starts no value is UNEXPECTED_TOKEN; a success is the kind of value the first token's tag produces, with the cursor moved past it (one token for scalars, three for strings, to after a `}` for objects) |
| Parser.ParseObject | json.h:619-662 | a parsed object is a valid map whose cursor ends just after a `}` |
| Parser.ParseMembers | json.h:628-661 | the member loop, when it succeeds, returns a valid map and stops just after a `}` |
| Parser.AfterMember | json.h:653-658 | after a member a `,` or `}` continues the loop and any other token fails |
| Parser.ParseMember | json.h:636-651 | a member succeeds only at a quoted key followed by `:`, ends at least five tokens on, within the stream, and leaves a valid map |
| Parser.MemberNeedsColon | json.h:636-648 | over all inputs: no quoted key is a failure; a key at the end of the stream is INDEX_GREATER_THAN_LEN; a key followed by anything but `:` is UNEXPECTED_TOKEN; after the `:` the member succeeds exactly when its value does |
| Parser.JsonParse | json.h:772-782 | `json_parse` fails with the tokenizer's failure exactly when tokenization fails |
| Parser.Parse | json.h:772-782 | the C-style entry returns 0 exactly when it returns a value, which is the value of `JsonParse`, and otherwise the code of `JsonParse`'s error |
| Parser.TruncateValue | json.h:731-762 | cutting the token stream inside a value makes parsing it INDEX_GREATER_THAN_LEN; cutting after it changes nothing |
| AsWritten.StringC | json.h:708-729 | as written, `parse_string` is undefined when the token after the cursor does not exist; it returns 0 with the STR text and the cursor three on at an STR, whatever tokens surround it, and otherwise returns -2 with the object unwritten |
| AsWritten.ValueC | json.h:731-762 | as written, `parse_value` returns -1 at the end of the stream and -2 at a token that starts no value, each with the object unwritten; any value it starts returns 0 unless it runs into undefined behaviour |
| AsWritten.ObjectC | json.h:619-627 | as written, `parse_object` skips the `{` and starts the member loop from an empty map; whenever it returns, the slot holds an object and the cursor has moved past the `{` |
| AsWritten.MembersC | json.h:628-661 | as written, the member loop returns 0 when the tokens run out; whenever it returns, the object is set and the code is 0 or -2 |
| AsWritten.JsonParseC | json.h:772-782 | as written, `json_parse` never returns a positive code, and returns -1 with the object unwritten for an input without tokens |
| AsWritten.ValueAgrees | json.h:731-762 | wherever the corrected `parse_value` succeeds, the C returns 0 with the same value and cursor |
| AsWritten.MembersAgree | json.h:628-661 | wherever the corrected member loop succeeds, the C loop returns 0 with the same object and cursor |
| AsWritten.JsonParseAgrees | json.h:772-782 | every document the corrected `json_parse` accepts, the C accepts with code 0 and the same value |
| AsWritten.DroppedCodeExample | json.h:731-741 | `{"a"1}`: the C returns 0 and an empty object; the corrected parser reports UNEXPECTED_TOKEN |
| AsWritten.UnterminatedExample | json.h:628-661 | `{`: the C returns 0 and an empty object; the corrected parser reports INDEX_GREATER_THAN_LEN |
| AsWritten.UncheckedQuotesExample | json.h:708-729 | `{,a,:1}`: the C returns 0 and the object {a: 1}; the corrected parser reports UNEXPECTED_TOKEN |
| AsWritten.IgnoredLexCodeExample | json.h:772-776 | `1@`: tokenization fails, yet the C returns 0 and the number 1; the corrected parser reports the tokenizer failure |
| AsWritten.ReadPastEndExample | json.h:636-641 | `{"a"`: the C reads the token after the end of the stream; the corrected parser reports INDEX_GREATER_THAN_LEN |
| AsWritten.UninitialisedValueExample | json.h:647-658 | `{"a":}`: the C returns 0 with `a` bound to a never-written value; the corrected parser reports UNEXPECTED_TOKEN |
| AsWritten.UninitialisedKeyExample | json.h:636-643 | `{"":1}`: the C frees a key pointer that was never written; the corrected parser reports UNEXPECTED_TOKEN |
| RoundTrip.RenderOk | json.h:443-539 | the rendering of a renderable value is a list of well-formed lexemes that cannot run together, so it tokenizes one token per lexeme |
| RoundTrip.ParseRendered | json.h:731-762 | `parse_value` over the tokens of a value's rendering returns that value and stops at the end of the rendering |
| RoundTrip.BuildEntries | json.h:326-352 | inserting a map's entries in rendering order rebuilds the map |
| RoundTrip.InsertFromIsInsertAll | json.h:628-661 | inserting members first to last, as the member loop does, builds the same map as `InsertAll` |
| RoundTrip.RenderThenParse | json.h:772-782 | `json_parse` of the rendering of any renderable value returns that value |
| RoundTrip.LexedLexical | json.h:455-530 | every token of a tokenized input spells a lexeme of its tag |
| RoundTrip.JsonParseRenderable | json.h:772-782 | every value `json_parse` returns is renderable |
| RoundTrip.ParseRenderParse | json.h:772-782 | rendering what `json_parse` returns and parsing that again gives the same result |
| RoundTrip.MembersInserted | json.h:628-661 | the object the member loop returns is its starting map with the members it read inserted first to last |
| RoundTrip.DuplicateKeyLastWins | json.h:650 | after the member loop each key holds the value of the last member that names it, or its earlier value when no member does |
| Samples.SingleMember | json.h:326-377 | a map holding one ASCII key is valid, has exactly that key, and get returns its value |
| Samples.PushedStreamHolds | src/tests/tok_stream.c:4-38 | five tokens pushed by hand onto a fresh stream are kept in the order pushed, the capacity stays at its starting ten, and their texts in `{"foo": 5.0}` are `{`, `foo`, `:`, `5.0`, `}` |
| Samples.FooNumTokens | src/tests/tokenize.c:7-8 | `{"foo": 5.0}` tokenizes to `{`, `"`, `foo`, `"`, `:`, `5.0`, `}` at their offsets, with the space dropped |
| Samples.FooNumParsed | src/tests/tokenize.c:7-8 | `json_parse` of `{"foo": 5.0}` is the object {foo: 5.0} |
| Samples.EmptyObjectParsed | json.h:628-633 | `{}` parses to the empty object |
| Samples.MissingValueRejected | json.h:731-762 | `{"a": }` is rejected with UNEXPECTED_TOKEN |
| Samples.BlanksOnlyRejected | json.h:732 | a document of blanks has no token, so parsing reports INDEX_GREATER_THAN_LEN |
| Samples.NestedParsed | json.h:619-662 | a three-level nested document parses to the nested objects |
| Samples.SameBucketExample | src/tests/hash.c:12-16 | `number` inserted twice and `rumben` once share bucket 9; get of `number` returns its value; the map has both keys and two nodes, `rumben` at the head |
| Samples.InsertTwice | src/tests/hash.c:12-13 | inserting a key twice leaves one node and one key |
| Samples.SixLetterHash | json.h:275-288 | the hash of a six-character ASCII key is the sum of its character codes |

## Left out

- Memory is not modelled (`malloc`, `realloc`, `strdup`, `free`): memory safety is outside what a functional model can state.
- The leaks of `parse_object` are not modelled: its error returns (json.h:641-643, json.h:656-657) leave the half-built map allocated.
- `json_object_map_t_insert` frees only the old clone, not its contents (json.h:337); this is a memory matter and is not modelled.
- The deinit functions (json.h:304-318, json.h:395-399, json.h:789-806) are not modelled: they only free memory.
- `token_t_print` and `token_t_src_print` (json.h:545-610) are not modelled: they only print a token to standard output.
- The `main` programs under `src/tests` are not modelled; their inputs and calls are replayed in `Samples`. `src/cj.h`, `src/cj.c` and `src/hash.c` are build scaffolding and are not part of this model.
- Arrays are not modelled: the tokenizer emits OPEN_BRACKET and CLOSE_BRACKET, but no parse function accepts them, so `[` as a value is UNEXPECTED_TOKEN in both parsers.
- The stream buffer's pointer arithmetic is not modelled; `Stream` keeps the tokens and the capacity only.
- Text after the root value is ignored by `json_parse`, and the model keeps that; a trailing comma before `}` is accepted, as in the C.
- Parser.Value.Number keeps the text of the NUM token instead of the `float` that `strtof` makes of it (json.h:664-677), because floating point is out of scope; a boolean is the C `int` 1 or 0.
- ObjectMap.Get requires `Hashable(key)` (no NUL, non-negative hash): a negative `char` sum gives a negative bucket index (json.h:363-364), which is undefined behaviour in C; every key the tokenizer produces is ASCII and hashable (`AsciiKeyHashable`, `WordIsAsciiKey`).
- ObjectMap.Insert requires `Hashable(key)` for the same reason (json.h:327-328).
- ObjectMap.ComputeHash sums with unbounded integers: the 32-bit `int` overflow of `hash` (json.h:275-288) is not modelled, as it needs a key of about 16 million characters.
- Tokenizer.RunEnd stops a run at the end of the input, whereas the C inner loops (json.h:487, json.h:495, json.h:517) test `json[idx]` with no bound and rely on a NUL after the buffer.
- Parser.Code gives the tokenizer failure the code +1, the value `tokenize_json` returns (json.h:526), kept on purpose although json.h:770 documents a negative code for every failure of `json_parse`; the two parse errors keep their negative codes (json.h:18-19).
- Parser.ParseMember states the colon check only for successes; the property over all inputs is the lemma Parser.MemberNeedsColon, which costs the solver less than an ensures on the recursive function.

## Findings

| source | as written | input that shows it | evidently intended | confidence | as-written member | corrected member |
|---|---|---|---|---|---|---|
| json.h:731-741 | `parse_value` ignores the code of `parse_object` and `parse_string` and returns 0 | `{"a"1}` | the nested error is returned | not executed | AsWritten.DroppedCodeExample | Parser.ParseValue |
| json.h:628-661 | `parse_object` returns 0 when the tokens run out before `}` | `{` | INDEX_GREATER_THAN_LEN | not executed | AsWritten.UnterminatedExample | Parser.ParseMembers |
| json.h:708-729 | `parse_string` skips the tokens before and after STR without checking that they are quotes | `{,a,:1}` | UNEXPECTED_TOKEN unless both are QUOTATION | not executed | AsWritten.UncheckedQuotesExample | Parser.ParseString |
| json.h:772-776 | `json_parse` ignores the code of `tokenize_json` and parses the tokens made before the failure | `1@` | the failure is reported | not executed | AsWritten.IgnoredLexCodeExample | Parser.JsonParse |
| json.h:636-641 | `parse_object` reads `s->items[*idx]` after a key without checking `*idx < s->len` | `{"a"` | INDEX_GREATER_THAN_LEN | not executed | AsWritten.ReadPastEndExample | Parser.MemberNeedsColon |
| json.h:647-658 | `parse_object` inserts the value that a failed `parse_value` never wrote and goes on | `{"a":}` | UNEXPECTED_TOKEN, nothing inserted | not executed | AsWritten.UninitialisedValueExample | Parser.ParseMember |
| json.h:636-643 | after a failed `parse_string`, `parse_object` frees (or hashes) the key pointer that was never written | `{"":1}` | UNEXPECTED_TOKEN | not executed | AsWritten.UninitialisedKeyExample | Parser.ParseString |
