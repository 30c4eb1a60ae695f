# shortstr in Dafny

A model of the string-key core of the Go library shortstr. The library holds
a set of strings, such as UUIDs or content hashes. For any string it finds
the shortest prefix that exactly one member of the set starts with (`Shortest`).
It can also require that prefix's length to be a multiple of a chunk size
(`ShortestChunk`). It maps such a short form back to the full member
(`Expand`). Members can be inserted and deleted.

The library wraps a radix tree. The model treats that tree as a finite
`set<string>` and treats its prefix walk as `Prefixes.Matches`, the set of
keys that start with a prefix. A Dafny `char` stands for one byte of a Go
string, so lengths and slices follow Go's byte indexing.

Modules:

- `Chunks` (chunks.dfy): the lengths a chunked search tests (`ChunkEnd`),
  plus the facts about `%` the proofs need.
- `Prefixes` (prefixes.dfy): `Matches`, visit orders (`Enumerates`), and the
  three-way `Lookup` outcome (not found, unique, ambiguous).
- `Shortstr` (shortener.dfy): the `Shortener` of shortener.go. It contains:
  - construction, insert and delete;
  - the two walk callbacks exactly as written, and `Probe`, the flags
    `min` reads off the set of matching keys in place of a walk;
  - `min` as a recursive function and as the loop in shortener.go;
  - `ShortestChunk`, `Shortest` and `Expand`;
  - lemmas that relate several calls.
- `ShortDraft` (short.dfy): the superseded draft in short.go. It scans a list
  and returns the first chunk-aligned prefix that *no* item starts with. It
  is kept separate because its results differ from the shortener's.
- `ShortstrScenarios`, `ShortDraftScenarios` (examples_shortener.dfy): the
  checks of shortener_test.go as lemmas, plus other concrete cases.

Three points about the shortest-prefix queries:

- **Any string can be shortened, not only members.** A non-empty result is
  a prefix of the input that exactly one key starts with. That key need
  not be the input: on {"abc"}, `Shortest("axy")` is "a".
- **Chunking and rounding up.** Whenever both forms are non-empty, the
  chunked form is at least as long as the unchunked one (`ChunkNoShorter`).
  Its length is a multiple of the chunk size, so it is at least the
  unchunked length rounded up to a chunk boundary. For a member, the
  chunked form exists at that boundary and is the member cut there, as
  long as the boundary fits inside the member (`ChunkRoundsUp`). For a
  non-member it may not exist at all: on {"abc"}, `Shortest("axy")` is "a"
  but `ShortestChunk("axy", 2)` is "", because no key starts with "ax". A
  partial trailing chunk is never tried.
- **Members without a short form.** A non-empty member has a short form
  exactly when no other key starts with it (`ShortFormExistsIff`). A member
  that is a proper prefix of another key gets "".

## Model

| member | source | states |
|---|---|---|
| Shortstr.NewStrings | shortener.go:80-89 | the built set holds exactly the strings that occur in the input slice, duplicates collapsing to one key |
| Shortstr.Insert | shortener.go:101-103 | the key is present afterwards, every other key keeps its membership, and inserting an existing key changes nothing |
| Shortstr.Delete | shortener.go:117-119 | the key is absent afterwards, every other key keeps its membership, and deleting a missing key changes nothing |
| Shortstr.InsertIdempotent | shortener.go:101-103 | inserting the same key twice is the same as inserting it once |
| Shortstr.DeleteUndoesInsert | shortener.go:112-119 | deleting a freshly inserted key restores the set as it was |
| Shortstr.MinVisit | shortener.go:149-157 | the `min` callback, folded over the visited keys with its early stop, sets `found` iff at least one key is visited and `ambiguous` iff at least two are |
| Shortstr.ProbeIsWalk | shortener.go:149-157 | whatever order the tree visits the matching keys in, the callback's flags equal `Probe`, the flags `min` uses: `found` iff at least one key matches, `ambiguous` iff at least two do |
| Shortstr.ExpandVisit | shortener.go:205-212 | the `Expand` callback as written: with no empty key visited, it keeps the first key and flags ambiguity exactly when a second key is visited |
| Shortstr.ExpandAsWritten | shortener.go:199-221 | `Expand` as written, over a visit order: with no empty key visited, it returns the key when exactly one is visited and "" otherwise |
| Shortstr.Expand | shortener.go:199-221 | a non-empty result is a member that starts with the short string and is the only such member; the unique match is returned; "" when no member or two distinct members start with it |
| Prefixes.Classify | shortener.go:203-220 | a prefix query is NotFound iff no key starts with the prefix, Unique(k) only for the one key that does, Ambiguous iff two distinct keys do |
| Shortstr.ExpandAgreesWithCallback | shortener.go:205-220 | for any visit order of the matching keys, the code as written returns what `Expand` returns unless the empty key is among the matches |
| Shortstr.ShortestPrefixFrom | shortener.go:139-174 | resumed after n aligned bytes: a non-empty result is the next tested prefix of the input that exactly one key starts with, with every tested prefix in between shared by two or more keys; "" only when no such prefix exists before a not-found or the end of the input |
| Shortstr.NextChunk | shortener.go:141-145 | after n aligned bytes the next tested length is n + l, which is aligned, and no tested length lies in between |
| Shortstr.ShortestPrefix | shortener.go:137-175 | `min`: a non-empty result is a prefix of the input whose length is a positive multiple of l no greater than the input's length, exactly one key starts with it, and every shorter tested prefix is shared by two or more keys; "" exactly when no tested length has that property |
| Shortstr.ShortestPrefixLoop | shortener.go:137-175 | the loop that appends one chunk per round and stops on not-found, unique or the end of the input computes the same result as the recursive `min` |
| Shortstr.ResolvesUnique | shortener.go:165-172 | at most one tested length is the first unambiguous one with a single match, so `min`'s answer is determined |
| Shortstr.ShortestPrefixAt | shortener.go:165-172 | if the tested prefix of length m is matched by exactly one key and every shorter tested prefix is ambiguous, `min` returns exactly that prefix |
| Shortstr.ShortestPrefixNotFound | shortener.go:159-163 | a tested prefix matched by no key, reached while every earlier tested prefix was ambiguous, makes `min` return "" |
| Shortstr.ShortestPrefixAllAmbiguous | shortener.go:141-144 | if every whole chunk up to the input's length stays ambiguous, `min` returns "": a partial trailing chunk is never tried |
| Shortstr.ShortestChunk | shortener.go:184-186 | the result is "" or a prefix of the input whose length is a multiple of l, at least l and at most the input's length, shared by exactly one key, with every shorter multiple of l shared by two or more keys |
| Shortstr.Shortest | shortener.go:191-193 | the result is "" or the shortest non-empty prefix of the input that exactly one key starts with, every shorter non-empty prefix being shared by two or more keys |
| Shortstr.ShortestChunkExpands | shortener.go:184-221 | for a member k, expanding a non-empty `ShortestChunk(k, l)` gives back k |
| Shortstr.ShortestExpands | shortener.go:191-221 | for a member k, expanding a non-empty `Shortest(k)` gives back k |
| Shortstr.ChunkNoShorter | shortener.go:184-193 | for any input, when both exist, the chunked short form is at least as long as the unchunked one |
| Shortstr.MemberResolvesFrom | shortener.go:139-172 | for a member that no other key extends, the one-byte search resolves at some length from m on, once every shorter length was ambiguous |
| Shortstr.MemberHasShortForm | shortener.go:191-193 | a non-empty member that no other key starts with has a non-empty `Shortest` |
| Shortstr.ExtendedKeyHasNoShortForm | shortener.go:141-144 | a member that is a proper prefix of another key gets "" from `Shortest`: every prefix of it is shared by both keys |
| Shortstr.ShortFormExistsIff | shortener.go:191-193 | for a non-empty member, `Shortest` is non-empty exactly when no other key starts with it |
| Shortstr.ChunkRoundsUp | shortener.go:177-193 | for a member whose unchunked short form exists, the chunked short form is the member's prefix cut at the next chunk boundary, whenever that boundary fits |
| Shortstr.InsertLengthens | shortener.go:139-172 | inserting a new key that starts with a member's current short form makes the short forms of both that member and the new key longer, or "" |
| ShortstrScenarios.Basic | shortener_test.go:54-57 | `NewStrings` on the test slice gives the set {"aaaa", "aabb", "aacc"} |
| ShortstrScenarios.BasicShortestResolves | shortener_test.go:8-11 | on the test set, `Shortest("aaaa")` is "aaa" |
| ShortstrScenarios.BasicShortestNotFound | shortener_test.go:13-16 | on the test set, `Shortest("nope")` is "" |
| ShortstrScenarios.BasicShortestAmbiguous | shortener_test.go:18-21 | on the test set, `Shortest("aa")` is "" |
| ShortstrScenarios.BasicShortestChunk | shortener_test.go:23-36 | on the test set, `ShortestChunk` with chunk 2 gives "aaaa" for "aaaa", and "" for "nope" and "aa" |
| ShortstrScenarios.BasicExpand | shortener_test.go:38-51 | on the test set, `Expand("aaa")` is "aaaa", and `Expand("nope")` and `Expand("aa")` are "" |
| ShortstrScenarios.ShortFormOfNonMember | shortener.go:165-172 | on {"abc"}, the short form of the non-member "axy" is "a", which expands to the different key "abc" |
| ShortstrScenarios.ChunkedNonMember | shortener.go:159-163 | on {"abc"}, `Shortest("axy")` is "a" but `ShortestChunk("axy", 2)` is "", because no key starts with "ax" |
| ShortstrScenarios.ExpandEmptyKeyMiscount | shortener.go:205-212 | walking {"", "a"} from "" with the empty key first, the code as written returns "a", while `Expand` gives "" because two keys match |
| ShortDraft.AnyHasPrefix | short.go:70-74 | the linear scan answers true iff some item of the data starts with the prefix |
| ShortDraft.FreeAhead | short.go:68-69 | while an unclaimed tested prefix lies ahead, the next chunk's slice stays inside the input, and a claimed chunk leaves an unclaimed one further on |
| ShortDraft.ShortestPrefixFrom | short.go:68-76 | resumed after n aligned bytes: the result is the next tested prefix of the input that no item starts with, every tested prefix in between being claimed |
| ShortDraft.ShortestPrefix | short.go:65-78 | the draft's `min`: a never-empty prefix of the input whose length is a positive multiple of l, which no item starts with, while every shorter tested prefix is claimed by some item |
| ShortDraft.MinChunk | short.go:85-87 | the result's length is a multiple of l between l and the input's length, no item starts with it, and every shorter multiple of l gives a claimed prefix |
| ShortDraft.Min | short.go:91-93 | the result is the shortest non-empty prefix of the input that no item starts with |
| ShortDraft.MemberNotShortenable | short.go:68-72 | an item of the data never meets the draft's precondition: every prefix of it is claimed by itself, so the search would slice past the input |
| ShortDraft.EmptyDataFirstChunk | short.go:68-75 | with no data, the draft returns the first chunk of the input |
| ShortDraftScenarios.DraftMin | short.go:65-76 | on the test data, the draft's `Min("abc")` is "ab", the first prefix no item has |
| ShortDraftScenarios.DraftFailsOnMember | short.go:65-76 | on the test data, the draft cannot shorten the item "aaaa", while the shortener's `Shortest("aaaa")` is "aaa" |

## Left out

- Reflection-based construction and checks are not modelled: `New`, `checkType`, the struct and pointer branches of `Insert` and `Delete`, and the panics on a type mismatch. They inspect runtime types and are not part of the prefix logic. The draft's reflective `New` is left out too.
- The radix tree itself is not modelled. go-radix is a foreign library and is not part of this model. It appears only as the set of keys, and its prefix walk as the keys a walk visits, in an order the model leaves open (`Enumerates`). The walk's early stop is folded into the callback models.
- Shortstr.ShortestPrefix: requires l >= 1. With l = 0 the Go loop tests the empty prefix forever once two keys exist. With l = 0 and at most one key it returns "". A negative l slices out of range.
- ShortDraft.ShortestPrefix: requires l >= 1 and an unclaimed tested prefix inside the input. Otherwise the Go slice at short.go:69 panics. With l = 0 the draft also returns "" on empty data and loops forever otherwise. Its final `return ""` cannot be reached.
- Shortstr.ExpandAgreesWithCallback: requires that the empty key not be among the matches. That only happens for the short string "". The code as written then depends on the tree's visit order (see Findings).
- Mutation is modelled as functions returning a new `Shortener`, not as in-place updates of a shared tree. The code has no concurrency to model.
- The `Add` calls and the panic-message tests of shortener_test.go are not modelled. They exercise the reflective layer, and `Add` is not defined in shortener.go.

## Findings

| source | as written | input that shows it | evidently intended | confidence | as-written member | corrected member |
|---|---|---|---|---|---|---|
| shortener.go:205-212 | the Expand callback uses `full != ""` to mean "a key was already seen", so a visited empty key is not counted | keys {"", "a"}, `Expand("")`: go-radix visits the node's own key "" before its child "a", so the result is "a" although two keys start with "" | "" whenever two or more keys start with the short string, as the comment at shortener.go:203-204 says | medium, not executed; relies on go-radix visiting a node's key before its children | Shortstr.ExpandAsWritten (counterexample: ShortstrScenarios.ExpandEmptyKeyMiscount) | Shortstr.Expand |
| short.go:65-78 | `min` returns the first chunk-aligned prefix that no item starts with, so for an input that is itself an item no prefix qualifies and the slice at short.go:69 runs past the input | data ["aaaa", "aabb", "aacc"], `Min("aaaa")`: every prefix of "aaaa" is claimed by "aaaa" itself, so the loop slices beyond the input | the shortest prefix of the full value that is unique within the data ("aaa"), as the doc comments at short.go:8-17 and short.go:89-90 describe | high, not executed | ShortDraft.MemberNotShortenable (counterexample: ShortDraftScenarios.DraftFailsOnMember) | Shortstr.Shortest (round trip: Shortstr.ShortestExpands) |
