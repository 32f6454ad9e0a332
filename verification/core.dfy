/** The orchestration logic of `AIMemo` in aimemo/core.py: the enabled flag
    and the provider calls it makes, the bounded working memory, the record
    that `add_memory` hands to the store, the namespace that `search` and
    `clear` use, and how `get_context` assembles its sections. The store, the
    clock and the id hash are parameters. */
module Core {
  import opened Wrappers
  import opened Text
  import opened Records
  import Categorizer
  import Extractors
  import Retrieval

  // ---------------------------------------------------------------------------
  // State

  /** One entry of the working memory. */
  datatype WorkingItem = WorkingItem(content: string, metadata: Metadata, timestamp: string, id: string)

  /** The state of an `AIMemo` instance that its logic consults:
      `workingMemoryLimit` is `config.working_memory_limit`. */
  datatype Memo = Memo(
    namespace: string,
    consciousIngest: bool,
    autoIngest: bool,
    workingMemoryLimit: int,
    workingMemory: seq<WorkingItem>,
    enabled: bool)

  /** The default of `working_memory_limit`. */
  const DefaultWorkingMemoryLimit: int := 5

  /** The default recency weight of the retriever. */
  const DefaultRecencyWeight: real := 0.3

  /** The provider interceptors, in the order `_init_providers` registers
      them. */
  const Providers: seq<string> := ["openai", "anthropic"]

  /** A call of an interceptor's `enable` or `disable`. */
  datatype ProviderCall = EnableProvider(provider: string) | DisableProvider(provider: string)

  /** A new state, with the interceptor calls that produced it. */
  datatype Step = Step(memo: Memo, calls: seq<ProviderCall>)

  // ---------------------------------------------------------------------------
  // Enabling

  /** `AIMemo.enable`: does nothing when already enabled, otherwise enables
      every provider in turn and sets the flag. */
  function Enable(m: Memo): (r: Step)
    ensures r.memo.enabled
    ensures r.memo == m.(enabled := true)
    ensures m.enabled ==> r.calls == []
    ensures !m.enabled ==> r.calls == [EnableProvider("openai"), EnableProvider("anthropic")]
  {
    if m.enabled then Step(m, [])
    else Step(m.(enabled := true), seq(|Providers|, k requires 0 <= k < |Providers| => EnableProvider(Providers[k])))
  }

  /** `AIMemo.disable`: does nothing when already disabled, otherwise disables
      every provider in turn and clears the flag. */
  function Disable(m: Memo): (r: Step)
    ensures !r.memo.enabled
    ensures r.memo == m.(enabled := false)
    ensures !m.enabled ==> r.calls == []
    ensures m.enabled ==> r.calls == [DisableProvider("openai"), DisableProvider("anthropic")]
  {
    if !m.enabled then Step(m, [])
    else Step(m.(enabled := false), seq(|Providers|, k requires 0 <= k < |Providers| => DisableProvider(Providers[k])))
  }

  /** Enabling twice is enabling once, and the second call reaches no
      provider; likewise for disabling. */
  lemma EnableDisableIdempotent(m: Memo)
    ensures Enable(Enable(m).memo) == Step(Enable(m).memo, [])
    ensures Disable(Disable(m).memo) == Step(Disable(m).memo, [])
  {
  }

  /** `__enter__` enables and returns the instance; `__exit__` disables. */
  function Enter(m: Memo): (r: Step)
    ensures r.memo.enabled && r.memo == m.(enabled := true)
  {
    Enable(m)
  }

  function Exit(m: Memo): (r: Step)
    ensures !r.memo.enabled && r.memo == m.(enabled := false)
  {
    Disable(m)
  }

  /** A call of `enable` or `disable`. */
  datatype Toggle = On | Off

  /** The state after a sequence of toggles, and every provider call made. */
  function RunToggles(m: Memo, ops: seq<Toggle>): (r: Step)
    ensures r.memo == m.(enabled := r.memo.enabled)
    decreases |ops|
  {
    if |ops| == 0 then Step(m, [])
    else
      var first := if ops[0] == On then Enable(m) else Disable(m);
      var rest := RunToggles(first.memo, ops[1..]);
      Step(rest.memo, first.calls + rest.calls)
  }

  /** The flag is set exactly when the last toggle was an `enable`, or, with
      no toggle, when it was set to begin with. */
  lemma {:induction false} EnabledAfterToggles(m: Memo, ops: seq<Toggle>)
    ensures RunToggles(m, ops).memo.enabled == if |ops| == 0 then m.enabled else ops[|ops| - 1] == On
    decreases |ops|
  {
    if |ops| > 0 {
      var first := if ops[0] == On then Enable(m) else Disable(m);
      EnabledAfterToggles(first.memo, ops[1..]);
    }
  }

  /** The providers are never enabled twice without a disable in between: the
      calls of any toggle sequence alternate between enabling and disabling,
      starting from the flag's initial value. */
  lemma {:induction false} ProviderCallsAlternate(m: Memo, ops: seq<Toggle>)
    ensures Alternating(RunToggles(m, ops).calls, m.enabled)
    decreases |ops|
  {
    if |ops| > 0 {
      var first := if ops[0] == On then Enable(m) else Disable(m);
      ProviderCallsAlternate(first.memo, ops[1..]);
      var rest := RunToggles(first.memo, ops[1..]).calls;
      assert RunToggles(m, ops).calls == first.calls + rest;
      if first.calls != [] {
        assert first.memo.enabled == !m.enabled;
        assert (first.calls + rest)[..2] == first.calls;
        assert (first.calls + rest)[2..] == rest;
      } else {
        assert first.memo.enabled == m.enabled;
        assert first.calls + rest == rest;
      }
    }
  }

  /** Calls come in enable-pairs and disable-pairs, alternating, the first
      pair switching away from `enabled`. */
  predicate Alternating(calls: seq<ProviderCall>, enabled: bool)
    decreases |calls|
  {
    if |calls| == 0 then true
    else if |calls| == 1 then false
    else
      calls[..2] == (if enabled then [DisableProvider("openai"), DisableProvider("anthropic")]
                     else [EnableProvider("openai"), EnableProvider("anthropic")])
        && Alternating(calls[2..], !enabled)
  }

  /** `AIMemo(namespace=…, conscious_ingest=…, auto_ingest=…, auto_enable=…)`:
      empty working memory, interceptors off unless `auto_enable`. */
  function New(namespace: string, consciousIngest: bool, autoIngest: bool, workingMemoryLimit: int, autoEnable: bool): (r: Step)
    ensures r.memo.namespace == namespace && r.memo.workingMemory == []
    ensures r.memo.consciousIngest == consciousIngest && r.memo.autoIngest == autoIngest
    ensures r.memo.workingMemoryLimit == workingMemoryLimit
    ensures r.memo.enabled == autoEnable
  {
    var m := Memo(namespace, consciousIngest, autoIngest, workingMemoryLimit, [], false);
    if autoEnable then Enable(m) else Step(m, [])
  }

  /** The `with AIMemo(...) as aimemo:` block: enabled inside whatever the
      block does to the rest of the state, disabled after it. */
  lemma ContextManager(m: Memo, body: Memo -> Memo)
    requires forall x :: body(x).enabled == x.enabled
    ensures Enter(m).memo.enabled && body(Enter(m).memo).enabled
    ensures !Exit(body(Enter(m).memo)).memo.enabled
  {
  }

  // ---------------------------------------------------------------------------
  // Working memory

  /** `AIMemo.add_to_working_memory`: appends the item and, when the list has
      grown past the limit, drops its oldest entry once. `timestamp` and `id`
      stand for the clock reading and the hash of it. */
  function AddToWorkingMemory(m: Memo, content: string, metadata: Option<Metadata>, timestamp: string, id: string): (r: Memo)
    ensures r == m.(workingMemory := r.workingMemory)
    ensures |r.workingMemory| > 0 ==>
      r.workingMemory[|r.workingMemory| - 1] == WorkingItem(content, metadata.GetOr(map[]), timestamp, id)
    ensures |r.workingMemory| == 0 <==> |m.workingMemory| == 0 && m.workingMemoryLimit < 1
    ensures |m.workingMemory| <= m.workingMemoryLimit ==> |r.workingMemory| <= m.workingMemoryLimit
    ensures r.workingMemory == m.workingMemory + [WorkingItem(content, metadata.GetOr(map[]), timestamp, id)]
      || r.workingMemory == (m.workingMemory + [WorkingItem(content, metadata.GetOr(map[]), timestamp, id)])[1..]
  {
    m.(workingMemory := Push(m.workingMemory, WorkingItem(content, metadata.GetOr(map[]), timestamp, id), m.workingMemoryLimit))
  }

  /** The list operations of `add_to_working_memory`: `append`, then one
      `pop(0)` when the length exceeds the limit. */
  function Push(wm: seq<WorkingItem>, item: WorkingItem, limit: int): (r: seq<WorkingItem>)
    ensures |wm| < limit ==> r == wm + [item]
    ensures |wm| >= limit && |wm| > 0 ==> r == wm[1..] + [item]
    ensures |wm| <= limit ==> |r| <= limit
    ensures limit > 0 ==> |r| > 0 && r[|r| - 1] == item
  {
    var grown := wm + [item];
    if |grown| > limit then grown[1..] else grown
  }

  /** Adds the items in order, as repeated `add_to_working_memory` calls. */
  function AddAll(m: Memo, items: seq<WorkingItem>): (r: Memo)
    ensures r == m.(workingMemory := r.workingMemory)
    decreases |items|
  {
    if |items| == 0 then m
    else
      var it := items[0];
      AddAll(AddToWorkingMemory(m, it.content, Some(it.metadata), it.timestamp, it.id), items[1..])
  }

  /** Working memory is a FIFO window: after any sequence of additions to a
      memory within its limit, it holds the newest `min(limit, total)` items
      in the order they were added. */
  lemma {:induction false} WorkingMemoryKeepsNewest(m: Memo, items: seq<WorkingItem>)
    requires |m.workingMemory| <= m.workingMemoryLimit
    ensures AddAll(m, items).workingMemory == Newest(m.workingMemory + items, m.workingMemoryLimit)
    decreases |items|
  {
    if |items| > 0 {
      var it := items[0];
      var m1 := AddToWorkingMemory(m, it.content, Some(it.metadata), it.timestamp, it.id);
      assert m1.workingMemory == Push(m.workingMemory, it, m.workingMemoryLimit);
      WorkingMemoryKeepsNewest(m1, items[1..]);
      PushWindow(m.workingMemory, it, items[1..], m.workingMemoryLimit);
      assert [it] + items[1..] == items;
    } else {
      assert m.workingMemory + items == m.workingMemory;
    }
  }

  /** The last `min(|all|, limit)` elements of `all`. */
  function Newest(all: seq<WorkingItem>, limit: nat): (r: seq<WorkingItem>)
    ensures |r| == if |all| < limit then |all| else limit
  {
    all[|all| - (if |all| < limit then |all| else limit)..]
  }

  /** One addition to a window within the limit keeps the window of everything
      added so far. */
  lemma PushWindow(wm: seq<WorkingItem>, it: WorkingItem, rest: seq<WorkingItem>, limit: nat)
    requires |wm| <= limit
    ensures |Push(wm, it, limit)| <= limit
    ensures Newest(Push(wm, it, limit) + rest, limit) == Newest(wm + ([it] + rest), limit)
  {
    var all := wm + ([it] + rest);
    if |wm| + 1 > limit {
      assert Push(wm, it, limit) + rest == all[1..];
    } else {
      assert Push(wm, it, limit) + rest == all;
    }
  }

  /** The scenario of the working-memory test: one item, then `limit + 2`
      more, leave exactly `limit` items with the last one added at the end. */
  lemma WorkingMemoryLimitScenario(m: Memo, first: WorkingItem, items: seq<WorkingItem>)
    requires m.workingMemory == [] && m.workingMemoryLimit == DefaultWorkingMemoryLimit
    requires |items| == DefaultWorkingMemoryLimit + 2
    ensures |AddAll(m, [first]).workingMemory| == 1
    ensures |AddAll(m, [first] + items).workingMemory| == DefaultWorkingMemoryLimit
    ensures AddAll(m, [first] + items).workingMemory[DefaultWorkingMemoryLimit - 1] == items[|items| - 1]
  {
    WorkingMemoryKeepsNewest(m, [first]);
    WorkingMemoryKeepsNewest(m, [first] + items);
  }

  /** `AIMemo.clear_working_memory`. */
  function ClearWorkingMemory(m: Memo): (r: Memo)
    ensures r.workingMemory == []
    ensures r == m.(workingMemory := [])
  {
    m.(workingMemory := [])
  }

  /** After clearing, the next addition under a positive limit leaves just
      that item. */
  lemma ClearThenAdd(m: Memo, content: string, metadata: Option<Metadata>, timestamp: string, id: string)
    requires m.workingMemoryLimit >= 1
    ensures AddToWorkingMemory(ClearWorkingMemory(m), content, metadata, timestamp, id).workingMemory
      == [WorkingItem(content, metadata.GetOr(map[]), timestamp, id)]
  {
  }

  // ---------------------------------------------------------------------------
  // Store access

  /** `AIMemo.search`: the store's answer to the request with the instance's
      namespace. */
  function Search(m: Memo, store: Store, query: string, limit: int, tags: Option<seq<string>>, category: Option<string>): (r: seq<MemoryRecord>)
    ensures r == store(SearchRequest(query, m.namespace, limit, tags, category))
  {
    store(SearchRequest(query, m.namespace, limit, tags, category))
  }

  /** Under a namespace-scoped store, search never returns another
      namespace's memory. */
  lemma SearchIsScoped(m: Memo, store: Store, query: string, limit: int, tags: Option<seq<string>>, category: Option<string>)
    requires Scoped(store)
    ensures forall k :: 0 <= k < |Search(m, store, query, limit, tags, category)| ==>
      Search(m, store, query, limit, tags, category)[k].namespace == m.namespace
  {
  }

  /** `AIMemo.clear`: the namespace handed to `store.clear`, the argument when
      it is truthy and the instance's own otherwise. */
  function ClearTarget(m: Memo, namespace: Option<string>): (ns: string)
    ensures Truthy(namespace) ==> ns == namespace.value
    ensures !Truthy(namespace) ==> ns == m.namespace
  {
    if Truthy(namespace) then namespace.value else m.namespace
  }

  /** Without a namespace, or with the empty one, `clear` targets the
      instance's namespace, and the target is empty only when that is. */
  lemma ClearTargetsOwnNamespace(m: Memo, namespace: Option<string>)
    ensures ClearTarget(m, None) == m.namespace && ClearTarget(m, Some("")) == m.namespace
    ensures ClearTarget(m, namespace) == "" ==> m.namespace == ""
  {
  }

  // ---------------------------------------------------------------------------
  // Adding memories

  /** The stored form of extracted entities: everything but the span. */
  function Infos(es: seq<Extractors.Entity>): (r: seq<EntityInfo>)
    ensures |r| == |es|
  {
    seq(|es|, k requires 0 <= k < |es| => EntityInfo(es[k].name, es[k].kind, es[k].value, es[k].confidence))
  }

  /** The category recorded by `add_memory`: a truthy caller category is kept,
      otherwise the categoriser decides. */
  function CategoryFor(content: string, category: Option<string>): (c: string)
    ensures Truthy(category) ==> c == category.value
    ensures !Truthy(category) ==> c == Categorizer.Value(Categorizer.Categorize(content))
  {
    if Truthy(category) then category.value else Categorizer.Value(Categorizer.Categorize(content))
  }

  /** The record `add_memory` saves and the id it returns. */
  datatype Added = Added(record: MemoryRecord, id: string)

  /** `AIMemo.add_memory`: builds the record and returns its id. `id` and
      `timestamp` stand for the hash and the clock reading; `metadata`, `tags`
      and `category` are the optional arguments. */
  function AddMemory(m: Memo, content: string, metadata: Option<Metadata>, tags: Option<seq<string>>,
                     category: Option<string>, id: string, timestamp: string): (r: Added)
    ensures r.id == r.record.id == id
    ensures r.record.content == content && r.record.timestamp == timestamp
    ensures r.record.namespace == m.namespace
    ensures r.record.tags == tags.GetOr([])
    ensures r.record.category == CategoryFor(content, category)
  {
    var entities := Extractors.Extract(content);
    var meta := metadata.GetOr(map[]);
    var meta' := if |entities| > 0 then meta[EntitiesKey := Entities(Infos(entities))] else meta;
    Added(MemoryRecord(id, content, meta', tags.GetOr([]), m.namespace, timestamp, CategoryFor(content, category)), id)
  }

  /** A category `add_memory` picks itself is one of the five the categoriser
      returns, never "unknown". */
  lemma AddMemoryCategory(m: Memo, content: string, metadata: Option<Metadata>, tags: Option<seq<string>>,
                          category: Option<string>, id: string, timestamp: string)
    ensures var c := AddMemory(m, content, metadata, tags, category, id, timestamp).record.category;
      !Truthy(category) ==>
        c in {"preference", "skill", "rule", "fact", "context"} && c != Categorizer.Value(Categorizer.Unknown)
  {
    KnownValue(Categorizer.Categorize(content));
  }

  lemma KnownValue(c: Categorizer.MemoryCategory)
    requires c != Categorizer.Unknown
    ensures Categorizer.Value(c) in {"preference", "skill", "rule", "fact", "context"}
    ensures Categorizer.Value(c) != Categorizer.Value(Categorizer.Unknown)
  {
  }

  /** The metadata `add_memory` stores: the caller's keys are kept unchanged,
      and the "entities" key is set exactly when extraction found something,
      to one entry per entity in extraction order. */
  lemma AddMemoryMetadata(m: Memo, content: string, metadata: Option<Metadata>, tags: Option<seq<string>>,
                          category: Option<string>, id: string, timestamp: string)
    ensures var meta := metadata.GetOr(map[]);
      var stored := AddMemory(m, content, metadata, tags, category, id, timestamp).record.metadata;
      var es := Extractors.Extract(content);
      (forall k :: k != EntitiesKey ==> (k in stored <==> k in meta) && (k in meta ==> stored[k] == meta[k]))
        && (EntitiesKey in stored <==> |es| > 0 || EntitiesKey in meta)
        && (|es| > 0 ==> stored[EntitiesKey] == Entities(Infos(es)))
        && (|es| == 0 ==> stored == meta)
  {
  }

  /** Every stored entity is the matched text of the content: its name equals
      its value, which occurs in the content, and its confidence is 0.8. */
  lemma AddMemoryEntityValues(m: Memo, content: string, metadata: Option<Metadata>, tags: Option<seq<string>>,
                              category: Option<string>, id: string, timestamp: string, k: nat)
    requires |Extractors.Extract(content)| > 0
    requires k < |Extractors.Extract(content)|
    ensures var stored := AddMemory(m, content, metadata, tags, category, id, timestamp).record.metadata;
      EntitiesKey in stored && stored[EntitiesKey].Entities? && k < |stored[EntitiesKey].entities|
        && stored[EntitiesKey].entities[k].name == stored[EntitiesKey].entities[k].value
        && stored[EntitiesKey].entities[k].confidence == Extractors.Confidence
        && exists i :: OccursAt(content, stored[EntitiesKey].entities[k].value, i)
  {
    var es := Extractors.Extract(content);
    Extractors.ExtractFields(content, k);
    var s := es[k].span;
    assert OccursAt(content, es[k].value, s.start);
  }

  // ---------------------------------------------------------------------------
  // Context assembly

  const WorkingHeader: string := "Working Memory:\n"

  /** The line of one working-memory item. */
  function WorkingLine(it: WorkingItem): string {
    "- [WORKING] " + it.content
  }

  function WorkingLines(wm: seq<WorkingItem>): (r: seq<string>)
    ensures |r| == |wm|
    ensures forall k :: 0 <= k < |wm| ==> r[k] == WorkingLine(wm[k])
  {
    seq(|wm|, k requires 0 <= k < |wm| => WorkingLine(wm[k]))
  }

  /** The working-memory section, present only in conscious mode with a
      non-empty working memory. */
  function WorkingSection(m: Memo): (r: seq<string>)
    ensures |r| <= 1
    ensures |r| == 1 <==> m.consciousIngest && |m.workingMemory| > 0
  {
    if m.consciousIngest && |m.workingMemory| > 0 then [WorkingHeader + Join("\n", WorkingLines(m.workingMemory))]
    else []
  }

  /** Whether `get_context` consults the retriever at all. */
  predicate Retrieves(m: Memo) {
    m.autoIngest || !m.consciousIngest
  }

  /** The memories the retriever contributes: none unless it is consulted,
      and then those of the namespace with the default weight and no category
      filter. */
  function Retrieved(m: Memo, store: Store, recency: string -> Option<real>, query: string, limit: int): (r: seq<MemoryRecord>)
    ensures !Retrieves(m) ==> r == []
    ensures Retrieves(m) ==> r == Retrieval.GetRelevantContext(store, recency, query, m.namespace, limit, None, DefaultRecencyWeight)
  {
    if Retrieves(m) then Retrieval.GetRelevantContext(store, recency, query, m.namespace, limit, None, DefaultRecencyWeight)
    else []
  }

  /** The retrieval section, present only when the retriever returned
      something. */
  function RetrievalSection(m: Memo, store: Store, recency: string -> Option<real>, query: string, limit: int): (r: seq<string>)
    ensures |r| <= 1
    ensures |r| == 1 <==> |Retrieved(m, store, recency, query, limit)| > 0
  {
    var memories := Retrieved(m, store, recency, query, limit);
    if |memories| > 0 then [Retrieval.FormatContext(memories)] else []
  }

  /** `AIMemo.get_context`: the present sections joined by a blank line. */
  function GetContext(m: Memo, store: Store, recency: string -> Option<real>, query: string, limit: int): (r: string)
  {
    Join("\n\n", WorkingSection(m) + RetrievalSection(m, store, recency, query, limit))
  }

  /** The context is empty exactly when neither section is present. */
  lemma GetContextEmpty(m: Memo, store: Store, recency: string -> Option<real>, query: string, limit: int)
    ensures GetContext(m, store, recency, query, limit) == ""
      <==> !(m.consciousIngest && |m.workingMemory| > 0) && |Retrieved(m, store, recency, query, limit)| == 0
  {
    var parts := WorkingSection(m) + RetrievalSection(m, store, recency, query, limit);
    JoinIsEmpty("\n\n", parts);
    var memories := Retrieved(m, store, recency, query, limit);
    if |memories| > 0 {
      assert parts[|parts| - 1] == Retrieval.FormatContext(memories);
    }
    if m.consciousIngest && |m.workingMemory| > 0 {
      assert parts[0][0] == 'W';
    }
  }

  /** In conscious mode with a non-empty working memory, the context opens
      with the working-memory header and holds every working item's
      content. */
  lemma GetContextWorkingMemory(m: Memo, store: Store, recency: string -> Option<real>, query: string, limit: int, k: nat)
    requires m.consciousIngest && k < |m.workingMemory|
    ensures WorkingHeader <= GetContext(m, store, recency, query, limit)
    ensures exists i :: OccursAt(GetContext(m, store, recency, query, limit), m.workingMemory[k].content, i)
  {
    var section := WorkingSection(m)[0];
    var ctx := GetContext(m, store, recency, query, limit);
    JoinStartsWithFirst("\n\n", WorkingSection(m) + RetrievalSection(m, store, recency, query, limit));
    assert OccursAt(ctx, section, 0);
    var i := WorkingItemInSection(m, k);
    OccursWithin(ctx, section, m.workingMemory[k].content, 0, i);
  }

  /** Each working item's content occurs in the working-memory section, which
      opens with its header. */
  lemma WorkingItemInSection(m: Memo, k: nat) returns (i: nat)
    requires m.consciousIngest && k < |m.workingMemory|
    ensures WorkingHeader <= WorkingSection(m)[0]
    ensures OccursAt(WorkingSection(m)[0], m.workingMemory[k].content, i)
  {
    var lines := WorkingLines(m.workingMemory);
    var content := m.workingMemory[k].content;
    var a := JoinPartAt("\n", lines, k);
    OccursAfter("- [WORKING] ", content, content, 0);
    OccursAfter(WorkingHeader, Join("\n", lines), lines[k], a);
    i := |WorkingHeader| + a + |"- [WORKING] "|;
    OccursWithin(WorkingSection(m)[0], lines[k], content, |WorkingHeader| + a, |"- [WORKING] "|);
  }

  /** Splitting the working-memory section at newlines gives back
      "Working Memory:" and then one "- [WORKING] <content>" line per item,
      in order, provided no item's content spans lines. */
  lemma WorkingSectionLines(m: Memo)
    requires m.consciousIngest && |m.workingMemory| > 0
    requires forall k :: 0 <= k < |m.workingMemory| ==> '\n' !in m.workingMemory[k].content
    ensures Split(WorkingSection(m)[0], '\n') == ["Working Memory:"] + WorkingLines(m.workingMemory)
    ensures |Split(WorkingSection(m)[0], '\n')| == |m.workingMemory| + 1
  {
    var lines := ["Working Memory:"] + WorkingLines(m.workingMemory);
    forall k | 0 <= k < |lines|
      ensures '\n' !in lines[k]
    {
      if k > 0 {
        assert lines[k] == "- [WORKING] " + m.workingMemory[k - 1].content;
      }
    }
    assert lines[1..] == WorkingLines(m.workingMemory);
    assert WorkingSection(m)[0] == Join("\n", lines);
    SplitJoin(lines, '\n');
  }

  /** Without the working-memory section the context is the formatted
      retrieval, or nothing; in the default mode (neither flag set) that is
      the namespace's re-ranked memories. */
  lemma GetContextRetrievalOnly(m: Memo, store: Store, recency: string -> Option<real>, query: string, limit: int)
    requires !(m.consciousIngest && |m.workingMemory| > 0)
    ensures GetContext(m, store, recency, query, limit) == Retrieval.FormatContext(Retrieved(m, store, recency, query, limit))
  {
    var memories := Retrieved(m, store, recency, query, limit);
    if |memories| > 0 {
      assert WorkingSection(m) + RetrievalSection(m, store, recency, query, limit) == [Retrieval.FormatContext(memories)];
    }
  }

  /** In conscious mode without `auto_ingest` the store is never consulted:
      the context depends on the working memory alone. */
  lemma GetContextIgnoresStore(m: Memo, s1: Store, s2: Store, recency: string -> Option<real>, query: string, limit: int)
    requires m.consciousIngest && !m.autoIngest
    ensures GetContext(m, s1, recency, query, limit) == GetContext(m, s2, recency, query, limit)
    ensures GetContext(m, s1, recency, query, limit) == Join("\n\n", WorkingSection(m))
  {
    assert WorkingSection(m) + RetrievalSection(m, s1, recency, query, limit) == WorkingSection(m);
    assert WorkingSection(m) + RetrievalSection(m, s2, recency, query, limit) == WorkingSection(m);
  }

  /** With the working-memory section and nothing retrieved, the context is
      exactly the working-memory section, whatever the `auto_ingest` flag. */
  lemma GetContextWorkingOnly(m: Memo, store: Store, recency: string -> Option<real>, query: string, limit: int)
    requires m.consciousIngest && |m.workingMemory| > 0
    requires |Retrieved(m, store, recency, query, limit)| == 0
    ensures GetContext(m, store, recency, query, limit) == WorkingSection(m)[0]
  {
  }

  /** With both sections present, the context is the working-memory section,
      a blank line, and the formatted retrieval. */
  lemma GetContextBothSections(m: Memo, store: Store, recency: string -> Option<real>, query: string, limit: int)
    requires m.consciousIngest && |m.workingMemory| > 0
    requires |Retrieved(m, store, recency, query, limit)| > 0
    ensures GetContext(m, store, recency, query, limit)
      == WorkingSection(m)[0] + "\n\n" + Retrieval.FormatContext(Retrieved(m, store, recency, query, limit))
  {
    var parts := WorkingSection(m) + RetrievalSection(m, store, recency, query, limit);
    assert parts == [WorkingSection(m)[0], Retrieval.FormatContext(Retrieved(m, store, recency, query, limit))];
    assert Join("\n\n", parts[1..]) == parts[1];
  }
}
