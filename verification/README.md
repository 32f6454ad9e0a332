# aimemo memory layer in Dafny

This project models the decision and formatting logic of aimemo, a memory
layer for LLM applications. Memories are saved to a store, searched per
namespace, classified, and mined for entities. Relevant ones are re-ranked
and rendered into a context string for injection into a prompt. The model
has four pieces, one module each:

- `Categorizer` (`categorizer.dfy`): `KeywordCategorizer.categorize`.
  - The text is lower-cased and space-padded.
  - The keyword table is consulted in the order PREFERENCE, SKILL, RULE, FACT.
  - The first category with a whole-phrase keyword hit wins.
  - CONTEXT is the default. UNKNOWN is never returned.
- `Extractors` (`extractors.dfy`): `RegexEntityExtractor.extract`.
  - The email, date and name patterns are predicates over positions of the text.
  - Executable matchers are proved to return the longest match at a position.
  - A scan in the manner of `re.finditer` collects matches left to right without overlap.
  - Entities come out in table order (email, date, name), with name = value = the matched text and confidence 0.8.
- `Retrieval` (`retrieval.dfy`): `ContextRetriever`.
  - `get_relevant_context` asks the store for `limit * 3` candidates and scores each as `rank * (1 - w) + recency * w`, with `rank = 1 - index/len`.
  - It then sorts stably by descending score and keeps Python's `[:limit]`.
  - `format_context` renders a header plus one bullet per memory.
- `Core` (`core.dfy`): the `AIMemo` class as an immutable state (`Memo`).
  - `enable`/`disable` return the provider calls they make.
  - Working memory is a bounded FIFO list.
  - `add_memory` builds the record it hands to the store: category default, entity metadata, namespace stamping and tags.
  - `search` and `clear` choose the namespace.
  - `get_context` assembles its two sections according to the mode flags.

Supporting modules:

- `Wrappers` (`wrappers.dfy`): `Option`.
- `Text` (`text.dfy`): ASCII case mapping, substring search, and Python's `join`/`split`, each with its specification.
- `Records` (`records.dfy`): the memory record, its metadata, and the store's search request.

The store is a function parameter, `SearchRequest -> seq<MemoryRecord>`. Its
namespace isolation is the ghost predicate `Records.Scoped`. The clock, the id
hash and the recency decay are parameters too.

Some behaviour of the code worth stating plainly:

- The categoriser returns the first category, in the order above, with a whole-phrase keyword hit, and CONTEXT otherwise. It never returns UNKNOWN.
- The extractor has exactly three patterns: email, date and name. Every entity's confidence is 0.8.
- Ranking uses only list position and recency. Equal final scores keep the store's order.
- `format_context` gives every memory a line, with no length budget.

## Model

| member | source | states |
|---|---|---|
| Categorizer.Categorize | aimemo/categorizer.py:48-58 | Never UNKNOWN. For each category, the result is that category exactly when its keywords hit and no earlier category's (PREFERENCE, SKILL, RULE, FACT) do. It is CONTEXT exactly when no category hits. |
| Categorizer.KeywordsOf | aimemo/categorizer.py:41-46 | The keyword table has keywords exactly for the categories of `CategoryOrder`: PREFERENCE, SKILL, RULE and FACT, in the table's order. CONTEXT and UNKNOWN have none. |
| Categorizer.AnyHitFrom | aimemo/categorizer.py:53-55 | The inner keyword loop answers true exactly when some keyword from position k on hits the padded lower-cased text. |
| Categorizer.FirstHitIndex | aimemo/categorizer.py:52-55 | The outer loop stops at the first category with a hit: every category before it misses, and the one it stops at hits. |
| Categorizer.RowHitIsHits | aimemo/categorizer.py:52-55 | Scanning one table row agrees with "some keyword of the category hits the lower-cased text". |
| Categorizer.PhraseHitIsWholePhrase | aimemo/categorizer.py:54 | `" kw " in " text "` holds exactly when the keyword occurs in the text as a whole phrase: preceded by a space or the start, followed by a space or the end. |
| Categorizer.KeywordHitIsWholePhrase | aimemo/categorizer.py:49-54 | A keyword hits a text exactly when it occurs as a whole phrase in the lower-cased text. So "like" does not hit "likely", "always" does not hit "always,", and multi-word keywords hit only as contiguous phrases. |
| Categorizer.SpacelessHitWords | aimemo/categorizer.py:54 | In space-separated words, a one-word keyword hits only if it is one of the words. |
| Categorizer.CategorizeIgnoresCase | aimemo/categorizer.py:42-49 | Upper-casing or lower-casing a text does not change its category. |
| Categorizer.PreferenceWinsOverRule | aimemo/categorizer.py:52-55 | A text with both "love" and "always" hits PREFERENCE and RULE, and is categorised PREFERENCE: the first match wins, not the majority. |
| Categorizer.CategorizeShortText | aimemo/categorizer.py:57-58 | A text shorter than every keyword, the empty text included, is CONTEXT. |
| Categorizer.CategorizeExamples | tests/test_intelligence.py:53-57 | "I love Python" is PREFERENCE, "I can code in Rust" SKILL, "Always write tests" RULE, "Paris is in France" FACT, and "Just some random text" CONTEXT. |
| Extractors.EmailEnd | aimemo/extractors.py:43 | A match found at p ends after p and inside the text. `EmailEndSpec` states that it is a match, and the longest. |
| Extractors.NameEnd | aimemo/extractors.py:47 | A match found at p ends after p and inside the text. `NameEndSpec` states that it is a match, and the longest. |
| Extractors.MatchAt | aimemo/extractors.py:42-48 | A match of any of the three patterns at p ends after p and inside the text. `MatchAtSpec` states that it is the longest match. |
| Extractors.Scan | aimemo/extractors.py:54 | Every span reported from position `pos` on is non-empty and lies between `pos` and the end of the text. |
| Extractors.FindAll | aimemo/extractors.py:54 | Every span `finditer` reports is non-empty and inside the text. The `FindAll*` lemmas below state which spans they are. |
| Extractors.Extract | aimemo/extractors.py:50-63 | One entity per match: the number of entities is the number of email, date and name matches together. |
| Extractors.LastDot | aimemo/extractors.py:43 | Finds the last dot in a range, or reports that there is none: the dot that backtracking settles on for the email domain. |
| Extractors.EmailEndSpec | aimemo/extractors.py:43 | The email matcher returns a match of `[\w\.-]+@[\w\.-]+\.\w+` at p, and no match at p is longer. |
| Extractors.NameEndSpec | aimemo/extractors.py:47 | The name matcher returns a match of `[A-Z][a-z]+ [A-Z][a-z]+` at p, and no match at p is longer. |
| Extractors.MatchAtSpec | aimemo/extractors.py:42-48 | For each pattern, the matcher returns the longest match at p, and returns nothing only when no match starts at p. For the name pattern this includes the lookbehinds. |
| Extractors.FindAllLongest | aimemo/extractors.py:54 | Every span the scan reports is the longest match of the pattern at its start. |
| Extractors.FindAllDisjoint | aimemo/extractors.py:54 | Reported spans do not overlap and come in increasing order. |
| Extractors.FindAllCovers | aimemo/extractors.py:54 | No match is skipped unless it starts inside a reported span. |
| Extractors.FindAllEmpty | aimemo/extractors.py:54 | The scan reports nothing exactly when the pattern matches nowhere. |
| Extractors.ExtractFields | aimemo/extractors.py:55-61 | Every entity's name and value equal the text at its span, the span is non-empty and inside the text, and the confidence is 0.8. |
| Extractors.ExtractKindOrder | aimemo/extractors.py:42-53 | Every entity's type is its pattern's key. Types never go backwards through the list: emails, then dates, then names. |
| Extractors.ExtractSpan | aimemo/extractors.py:53-61 | Entity k carries the span that its pattern's scan reported at the matching place of its block. |
| Extractors.KindDeterminesPattern | aimemo/extractors.py:53-57 | Two entities have the same type exactly when the same pattern found them. |
| Extractors.ExtractLongest | aimemo/extractors.py:54-58 | Each entity is the longest match of its pattern at its start. |
| Extractors.ExtractDisjoint | aimemo/extractors.py:54-60 | Entities of one type do not overlap and come in increasing position. |
| Extractors.ExtractShapes | aimemo/extractors.py:44-47 | A date value is exactly four digits, a dash, two digits, a dash and two digits. A name never starts the text or follows a dot and a whitespace character. |
| Extractors.DateIgnoresContext | aimemo/extractors.py:44 | A date matches whatever surrounds it: the pattern has no word boundary and no calendar check. |
| Extractors.ExtractComplete | aimemo/extractors.py:53-61 | Every match of every pattern starts inside the span of an entity of that pattern's type. |
| Extractors.ExtractReports | aimemo/extractors.py:53-61 | Take a longest match that no earlier match of the same pattern overlaps. It becomes an entity of that type with exactly that span and value. |
| Extractors.ExtractIndex | aimemo/extractors.py:53-61 | Span i of a pattern's scan becomes the entity at that pattern's block offset plus i. |
| Extractors.ExtractEmpty | aimemo/extractors.py:50-63 | A text yields no entities exactly when no pattern matches anywhere in it. |
| Extractors.ExtractMeeting | tests/test_intelligence.py:35-46 | "Meeting with John Doe on 2023-10-25 at test@example.com" yields an email entity "test@example.com", a date "2023-10-25", a name "John Doe", and so at least three entities. |
| Retrieval.IndexOf | aimemo/retrieval.py:59 | `candidates.index(mem)` is the first position holding an equal record. |
| Retrieval.RankScore | aimemo/retrieval.py:59 | The positional score lies in (0, 1]. It is 1 exactly for the first candidate. |
| Retrieval.RankScoreFalls | aimemo/retrieval.py:59 | The positional score strictly decreases with position. |
| Retrieval.RecencyScore | aimemo/retrieval.py:62-69 | When the decay computation raises ValueError or TypeError, the score is exactly 0.5. That happens for an unparsable timestamp, an offset-aware one, or one an hour or more in the future. Otherwise the score is the decay's value. |
| Retrieval.FinalScore | aimemo/retrieval.py:59-72 | At recency weight 0 the final score is the positional score, and at weight 1 the recency score. For a weight in [0, 1] it lies between the two. |
| Retrieval.ScoreFrom | aimemo/retrieval.py:56-74 | One scored entry per candidate, in store order, carrying the candidate's final score, its position and the record. |
| Retrieval.Insert | aimemo/retrieval.py:77 | Insertion adds exactly the one entry: as a multiset, the result is the list plus the entry. |
| Retrieval.SortDesc | aimemo/retrieval.py:77 | The sort returns a permutation of its input. `SortDescSpec` states the order. |
| Retrieval.SortDescSpec | aimemo/retrieval.py:77 | The sort yields non-increasing scores. On a list in store order it keeps equal scores in store order, as a stable sort does. |
| Retrieval.SortDescKeepsFalling | aimemo/retrieval.py:77 | A list whose scores strictly fall is left unchanged by the sort. |
| Retrieval.RankedSpec | aimemo/retrieval.py:56-77 | The sorted list is a permutation of the store-ordered scored list. Every entry is the candidate at its recorded position, with that candidate's final score. The list is descending, with ties in store order. |
| Retrieval.RankedRecords | aimemo/retrieval.py:56-77 | The sorted list holds exactly the candidates, as a multiset. |
| Retrieval.SliceLen | aimemo/retrieval.py:80 | The length of Python's `s[:limit]`, including negative limits, which count from the end. |
| Retrieval.GetRelevantContext | aimemo/retrieval.py:42-80 | The store is asked in the given namespace and category for `limit * 3` candidates. No candidates gives the empty list. Otherwise the result is the re-ranked candidates, of length `len(candidates[:limit])`. |
| Retrieval.Rerank | aimemo/retrieval.py:56-80 | The result has the length of Python's `candidates[:limit]`. The `Rerank*` lemmas below state its contents and order. |
| Retrieval.RerankMembers | aimemo/retrieval.py:56-80 | Every result is a candidate, none is repeated more often than the store listed it, and a non-negative limit bounds the length. |
| Retrieval.RerankOrdered | aimemo/retrieval.py:72-80 | Results come in non-increasing final score. |
| Retrieval.RerankStable | aimemo/retrieval.py:72-77 | Among distinct candidates, results with equal final scores keep the store's order. |
| Retrieval.RerankTopK | aimemo/retrieval.py:77-80 | A candidate left out scores no more than any result. |
| Retrieval.RerankTieAtCut | aimemo/retrieval.py:77-80 | A candidate left out that scores the same as a result first appears after it in the store's list: ties at the cut go to the store's order. |
| Retrieval.PositionalOnly | aimemo/retrieval.py:59-72 | With recency weight 0 the final score is the positional score. |
| Retrieval.RerankWithoutRecency | aimemo/retrieval.py:59-80 | With recency weight 0 and no repeated records, the result is the prefix `candidates[:limit]` of the store's order. |
| Retrieval.GetRelevantContextScoped | aimemo/retrieval.py:42-80 | Under a namespace-isolating store, every result belongs to the requested namespace. |
| Retrieval.FormatContext | aimemo/retrieval.py:92-101 | The rendering is empty exactly when there are no memories. |
| Retrieval.BulletShape | aimemo/retrieval.py:98-99 | A line is "- " then "[CATEGORY] " (upper-cased) when the category is truthy, then the content. It ends with the content and has the corresponding length. |
| Retrieval.CategoryPrefix | aimemo/retrieval.py:98 | The prefix is empty exactly when the category is falsy, that is empty. A category without a newline gives a prefix without one. |
| Retrieval.Bullet | aimemo/retrieval.py:99 | A line starts with "- " and ends with the memory's content. A memory without newlines in its content and category gives a single line. |
| Retrieval.FormatContextLines | aimemo/retrieval.py:95-101 | For memories without embedded newlines, splitting the rendering at newlines gives the header and then one bullet per memory in input order: exactly `len(memories) + 1` lines. |
| Retrieval.FormatContextHeader | aimemo/retrieval.py:95-101 | A non-empty rendering starts with "Previous context:". |
| Core.New | aimemo/core.py:31-72 | A new instance has an empty working memory and the given namespace, flags and limit. It is enabled exactly when `auto_enable` is set. |
| Core.Enable | aimemo/core.py:79-87 | Afterwards the flag is set and nothing else changes. It calls every provider's enable, in registration order, only when the flag was clear. |
| Core.Disable | aimemo/core.py:89-97 | Afterwards the flag is clear and nothing else changes. It calls every provider's disable only when the flag was set. |
| Core.EnableDisableIdempotent | aimemo/core.py:79-97 | A second `enable` (or `disable`) changes nothing and reaches no provider. |
| Core.EnabledAfterToggles | aimemo/core.py:79-97 | After any sequence of enable/disable calls, the flag is set exactly when the last call was `enable`, or, with no call, when it was set at the start. |
| Core.ProviderCallsAlternate | aimemo/core.py:79-97 | Over any sequence of enable/disable calls, provider calls come in enable-pairs and disable-pairs that alternate. The first pair switches away from the initial flag. |
| Core.Enter | aimemo/core.py:250-253 | `__enter__` leaves the instance enabled, otherwise unchanged. |
| Core.Exit | aimemo/core.py:255-257 | `__exit__` leaves the instance disabled, otherwise unchanged. |
| Core.ContextManager | tests/test_core.py:120-129 | Inside a `with` block whose body does not toggle, the instance is enabled. After the block it is disabled. |
| Core.Push | aimemo/core.py:229-233 | Below the limit the item is appended. At or over the limit, the oldest entry is dropped and the item appended. A list within the limit stays within it, and under a positive limit the item is last. |
| Core.AddToWorkingMemory | aimemo/core.py:214-233 | Only the working memory changes, and the new item is last. The list is the old list plus the item, or that without its oldest entry. A list within the limit stays within it. It is empty only when it was empty and the limit is below 1. |
| Core.WorkingMemoryKeepsNewest | aimemo/core.py:229-233 | Starting within the limit, any sequence of additions leaves exactly the newest `min(limit, total)` items, in the order they were added. |
| Core.WorkingMemoryLimitScenario | tests/test_core.py:132-143 | With the default limit 5, one addition gives length 1. After `limit + 2` more the length is 5 and the last item added is at the end. |
| Core.ClearWorkingMemory | aimemo/core.py:235-237 | The working memory is empty and nothing else changes. |
| Core.ClearThenAdd | aimemo/core.py:229-237 | After clearing, one addition under a positive limit leaves exactly that item. |
| Core.Search | aimemo/core.py:171-177 | The store is asked with the instance's namespace, whatever the other arguments are. |
| Core.SearchIsScoped | aimemo/core.py:171-177 | Under a namespace-isolating store, search never returns another namespace's memory. |
| Core.ClearTarget | aimemo/core.py:239-242 | `clear` targets a truthy argument, and the instance's own namespace otherwise. |
| Core.ClearTargetsOwnNamespace | aimemo/core.py:239-242 | `clear()` and `clear("")` target the instance's namespace. The target is empty only if the instance's namespace is. |
| Core.CategoryFor | aimemo/core.py:122-124 | A truthy caller category is kept. Otherwise the categoriser's value is used. |
| Core.AddMemory | aimemo/core.py:117-150 | The returned id is the stored record's id. The record has the content and clock reading, the instance's namespace, `tags or []`, and the chosen category. |
| Core.AddMemoryCategory | aimemo/core.py:122-124 | Without a caller category, the stored category is one of preference, skill, rule, fact and context, never "unknown". |
| Core.AddMemoryMetadata | aimemo/core.py:126-137 | The caller's other metadata keys are kept unchanged. "entities" is present exactly when extraction found something or the caller supplied it. It then holds one entry per entity in extraction order. With no entities the metadata is the caller's. |
| Core.AddMemoryEntityValues | aimemo/core.py:128-137 | Every stored entity has name = value, a value that occurs in the content, and confidence 0.8. |
| Core.WorkingSection | aimemo/core.py:193-195 | The working-memory section is present exactly when `conscious_ingest` is set and the working memory is non-empty. |
| Core.WorkingSectionLines | aimemo/core.py:193-195 | For contents without newlines, splitting the working-memory section at newlines gives "Working Memory:" and then one "- [WORKING] <content>" line per item, in order: exactly one more line than there are items. |
| Core.Retrieved | aimemo/core.py:203-208 | The retriever is consulted only when `auto_ingest` is set or `conscious_ingest` is not. It is asked for the instance's namespace with the default weight 0.3 and no category. |
| Core.RetrievalSection | aimemo/core.py:209-210 | The retrieval section is present exactly when retrieval returned something. |
| Core.GetContext | aimemo/core.py:190-212 | The context is the present sections joined by a blank line. Its contract is the six `GetContext*` lemmas that follow. |
| Core.GetContextEmpty | aimemo/core.py:190-212 | The context is "" exactly when there is no working-memory section and retrieval returned nothing. |
| Core.GetContextWorkingMemory | aimemo/core.py:192-195 | In conscious mode with a non-empty working memory, the context starts with "Working Memory:\n" and contains every working item's content. |
| Core.GetContextRetrievalOnly | aimemo/core.py:203-212 | Without the working-memory section, the context is exactly the formatted retrieval. |
| Core.GetContextIgnoresStore | aimemo/core.py:193-208 | In conscious mode without `auto_ingest`, the context does not depend on the store. |
| Core.GetContextWorkingOnly | aimemo/core.py:190-212 | With the working-memory section present and nothing retrieved, the context is exactly that section, whether or not `auto_ingest` is set. |
| Core.GetContextBothSections | aimemo/core.py:190-212 | With both sections present, the context is the working-memory section, a blank line, and the formatted retrieval. |

## Left out

- The store (`MemoryStore`, `SQLiteStore`) is not part of this model. Its search is a function parameter. `save` and `clear` are modelled as the record and namespace handed to them.
- The provider interceptors (`OpenAIProvider`, `AnthropicProvider`) are not part of this model: they patch third-party SDKs at run time. Their `enable`/`disable` appear only as the calls `Core.Enable`/`Core.Disable` return.
- Core.AddMemory: `_generate_id` (a SHA-256 over content and clock) is a parameter `id`. The 16-character length it always has is not constrained.
- `datetime.utcnow()` is a parameter wherever a timestamp is recorded.
- Retrieval.RecencyScore: the decay `1 / (1 + log1p(age_hours))` and the clock are a parameter `recency: string -> Option<real>`. `None` stands for the three failures the retriever catches: ValueError from `fromisoformat` on an unparsable timestamp, TypeError from subtracting an offset-aware timestamp from the naive `utcnow()`, and ValueError from `log1p` for a timestamp an hour or more in the future. A `ZeroDivisionError` when `1 + log1p(age_hours)` is exactly 0 is not caught by the code and is not modelled. The decay's value is not constrained to (0, 1].
- Floating point is modelled with exact reals: the scores `1 - i/n` and the weighted sum are compared exactly, without rounding.
- Retrieval.RerankStable and Retrieval.RerankWithoutRecency: stated for candidate lists without repeated records. With repeats, `candidates.index` gives equal records the same positional score.
- Core.WorkingMemoryKeepsNewest: stated for a working memory that starts within its limit. `add_to_working_memory` drops only one entry per call, so a list already over the limit stays over it.
- Text processing is over ASCII. `\w`, `\d` and `\s` in the patterns, and `str.lower`/`str.upper`, are modelled on ASCII letters, digits and whitespace, not Python's Unicode classes and case mappings.
- aimemo/config.py is not part of this model, beyond the default `working_memory_limit` of 5 (aimemo/config.py:40).
- Core.AddMemory, Core.AddToWorkingMemory: metadata aliasing is not represented. `add_memory` writes "entities" into the caller's own dictionary (aimemo/core.py:127-137), and `add_to_working_memory` keeps the caller's own dictionary in the working-memory entry (aimemo/core.py:224), so later changes by the caller show through. The model works on immutable maps.
- Core.Enable, Core.Disable, Core.New: every provider's `enable()`/`disable()` is taken to return normally. In the code, an exception from a provider propagates out of `enable`/`disable`. The flag keeps its old value, because it is assigned only after the loop (aimemo/core.py:84-87, 94-97). The providers already called stay switched. With `auto_enable` set, `__init__` raises too (aimemo/core.py:71-72).
- Python default arguments are not represented. Every model function takes explicitly what the code defaults: `namespace="default"`, `auto_enable=False`, `conscious_ingest=False` and `auto_ingest=False` (aimemo/core.py:35-38), and `limit=5` (aimemo/core.py:155 and 179, aimemo/retrieval.py:24). The exception is the recency weight 0.3 (aimemo/retrieval.py:26): `get_context` omits it, and the model passes `Core.DefaultRecencyWeight` there.
- Metadata values other than the entity list are kept as opaque text.
- Each entity's `metadata={"span": ...}` is its `span` field. It is not copied into the stored entity entries, as in the code.
