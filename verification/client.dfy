/** js/nostr-client.js: the `NostrClient` state (the relay registry, the profile
    cache and the map of feed posts) and the operations that fold relay answers
    into it. A relay's answer to a query is given as a sequence of events, and the
    answers of all relays as one such sequence per relay, in relay order; a relay
    whose query fails contributes the empty sequence. */
module Client {
  import opened Wrappers
  import opened Seqs
  import opened JsString
  import opened Json
  import opened Events
  import opened AddressScan
  import opened Profiles
  import opened Reactions

  // ---------------------------------------------------------------- publishing

  /** What one relay did with a published event: acknowledged it, or rejected it
      with a reason (a relay that does not answer in time gives `Timeout`). */
  datatype PublishOutcome = Ack | Failed(reason: string)

  /** The failure reasons, in relay order. */
  function Reasons(outcomes: seq<PublishOutcome>): (r: seq<string>)
    ensures |r| <= |outcomes|
    ensures (forall i :: 0 <= i < |outcomes| ==> outcomes[i].Failed?) ==>
      |r| == |outcomes| && forall i :: 0 <= i < |r| ==> r[i] == outcomes[i].reason
    ensures forall i :: 0 <= i < |outcomes| && outcomes[i].Failed? ==> outcomes[i].reason in r
    decreases |outcomes|
  {
    if outcomes == [] then []
    else
      var p := outcomes[..|outcomes| - 1];
      assert forall i :: 0 <= i < |p| ==> p[i] == outcomes[i];
      Reasons(p) + match outcomes[|outcomes| - 1] case Ack => [] case Failed(x) => [x]
  }

  predicate Acknowledged(outcomes: seq<PublishOutcome>) {
    exists i :: 0 <= i < |outcomes| && outcomes[i].Ack?
  }

  /** The error thrown when no relay acknowledged. */
  function PublishError(outcomes: seq<PublishOutcome>): (r: string)
    ensures StartsWith(r, "Failed to publish to any relay: ")
    ensures forall i :: 0 <= i < |outcomes| && outcomes[i].Failed? ==> Contains(r, outcomes[i].reason)
  {
    JoinContains(Reasons(outcomes), ", ");
    ContainsAfter("Failed to publish to any relay: ", Join(Reasons(outcomes), ", "));
    "Failed to publish to any relay: " + Join(Reasons(outcomes), ", ")
  }

  /** `publishEvent` after signing: the signed event is handed back as soon as one
      relay acknowledged it; otherwise the error lists every relay's reason. */
  method PublishEvent(signed: Event, outcomes: seq<PublishOutcome>) returns (r: Result<Event, string>)
    ensures r.Ok? <==> Acknowledged(outcomes)
    ensures r.Ok? ==> r.value == signed
    ensures r.Err? ==> r.error == PublishError(outcomes)
  {
    var published := false;
    var errors: seq<string> := [];
    var i := 0;
    while i < |outcomes|
      invariant 0 <= i <= |outcomes|
      invariant published <==> Acknowledged(outcomes[..i])
      invariant errors == Reasons(outcomes[..i])
    {
      PublishStep(outcomes, i);
      if outcomes[i].Ack? {
        published := true;
      } else {
        errors := errors + [outcomes[i].reason];
      }
      i := i + 1;
    }
    assert outcomes[..|outcomes|] == outcomes;
    if !published {
      return Err("Failed to publish to any relay: " + Join(errors, ", "));
    }
    return Ok(signed);
  }

  /** One more relay's outcome: an acknowledgement sets the flag, a failure adds
      its reason. */
  lemma PublishStep(outcomes: seq<PublishOutcome>, i: nat)
    requires i < |outcomes|
    ensures Acknowledged(outcomes[..i + 1]) <==> Acknowledged(outcomes[..i]) || outcomes[i].Ack?
    ensures Reasons(outcomes[..i + 1]) ==
      Reasons(outcomes[..i]) + (if outcomes[i].Ack? then [] else [outcomes[i].reason])
  {
    assert outcomes[..i + 1][..i] == outcomes[..i];
    assert outcomes[..i + 1][i] == outcomes[i];
  }

  /** When no relay acknowledged, every relay's reason is in the error, in order. */
  lemma EveryFailureReported(outcomes: seq<PublishOutcome>)
    requires !Acknowledged(outcomes)
    ensures |Reasons(outcomes)| == |outcomes|
    ensures forall i :: 0 <= i < |outcomes| ==> Reasons(outcomes)[i] == outcomes[i].reason
  {
  }

  // ---------------------------------------------------------------- zap requests

  /** An unsigned event: what `publishEvent` signs. */
  datatype EventTemplate = EventTemplate(kind: int, content: string, tags: seq<seq<string>>)

  /** The zap request of NIP-57 for `amount` sats: kind 9734, no content, the
      recipient, the amount in millisats and the client's relays. */
  function ZapRequest(recipient: string, amount: int, relays: seq<string>): (t: EventTemplate)
    ensures t.kind == 9734 && t.content == "" && |t.tags| == 3
    ensures t.tags[0] == ["p", recipient]
    ensures |t.tags[1]| == 2 && t.tags[1][0] == "amount" && ParseInt(t.tags[1][1]) == Some(amount * 1000)
    ensures t.tags[2] == ["relays"] + relays
  {
    ParseIntOfDecimal(amount * 1000);
    EventTemplate(9734, "", [["p", recipient], ["amount", IntToDecimal(amount * 1000)], ["relays"] + relays])
  }

  // ---------------------------------------------------------------- batches

  /** `profiles.slice(i, i + batchSize)` for `i = 0, batchSize, 2 * batchSize, …`. */
  method SplitIntoBatches<T>(items: seq<T>, size: nat) returns (batches: seq<seq<T>>)
    requires size > 0
    ensures Flatten(batches) == items
    ensures forall b :: 0 <= b < |batches| ==> 0 < |batches[b]| <= size
    ensures forall b :: 0 <= b < |batches| - 1 ==> |batches[b]| == size
  {
    batches := [];
    var i := 0;
    while i < |items|
      invariant BatchedUpTo(batches, items, i, size)
      decreases |items| - i
    {
      var end := if i + size <= |items| then i + size else |items|;
      NextBatch(batches, items, i, end, size);
      batches := batches + [items[i..end]];
      i := end;
    }
    assert items[..i] == items;
  }

  /** `batches` cut `items[..i]` into runs of at most `size`, all but the last of
      them full, and the last full too while items remain. */
  ghost predicate BatchedUpTo<T>(batches: seq<seq<T>>, items: seq<T>, i: nat, size: nat) {
    && i <= |items|
    && Flatten(batches) == items[..i]
    && (forall b :: 0 <= b < |batches| ==> 0 < |batches[b]| <= size)
    && (forall b :: 0 <= b < |batches| - 1 ==> |batches[b]| == size)
    && (i < |items| && 0 < |batches| ==> |batches[|batches| - 1]| == size)
  }

  lemma NextBatch<T>(batches: seq<seq<T>>, items: seq<T>, i: nat, end: nat, size: nat)
    requires BatchedUpTo(batches, items, i, size) && i < |items| && size > 0
    requires end == if i + size <= |items| then i + size else |items|
    ensures BatchedUpTo(batches + [items[i..end]], items, end, size)
  {
    var next := batches + [items[i..end]];
    FlattenSnoc(batches, items[i..end]);
    assert items[..i] + items[i..end] == items[..end];
    assert Flatten(next) == items[..end];
    forall b | 0 <= b < |next| ensures 0 < |next[b]| <= size {
      if b < |batches| {
        assert next[b] == batches[b];
      }
    }
    forall b | 0 <= b < |next| - 1 ensures |next[b]| == size {
      assert next[b] == batches[b];
    }
  }

  /** The parsed profile of a profile event whose content holds an address; `None`
      when it holds none or does not parse. */
  function ProfileHit(e: Event, parse: Parser): Option<JsonObject> {
    if FindNanoAddress(JString(e.content)).Some? then parse(e.content) else None
  }

  /** A test applied to each profile event. */
  type Hits = Event -> Option<JsonObject>

  function ProfileHits(parse: Parser): Hits {
    e => ProfileHit(e, parse)
  }

  /** The authors of the events that hit. */
  function NanoAuthors(profiles: seq<Event>, hit: Hits): set<string> {
    set i | 0 <= i < |profiles| && hit(profiles[i]).Some? :: profiles[i].pubkey
  }

  /** The cache after the events that hit were stored, later ones overwriting. */
  function CacheHits(cache: map<string, JsonObject>, profiles: seq<Event>, hit: Hits): map<string, JsonObject>
    decreases |profiles|
  {
    if profiles == [] then cache
    else
      var c := CacheHits(cache, profiles[..|profiles| - 1], hit);
      var e := profiles[|profiles| - 1];
      match hit(e)
      case Some(v) => c[e.pubkey := v]
      case None => c
  }

  lemma CacheHitsSnoc(cache: map<string, JsonObject>, profiles: seq<Event>, e: Event, hit: Hits)
    ensures CacheHits(cache, profiles + [e], hit)
            == match hit(e) case Some(v) => CacheHits(cache, profiles, hit)[e.pubkey := v] case None => CacheHits(cache, profiles, hit)
  {
    assert (profiles + [e])[..|profiles|] == profiles;
  }

  /** `v` is what the last event by `k` that hits gave. */
  ghost predicate LastHit(profiles: seq<Event>, hit: Hits, k: string, v: JsonObject) {
    exists i :: 0 <= i < |profiles| && profiles[i].pubkey == k && hit(profiles[i]) == Some(v)
      && forall j :: i < j < |profiles| && profiles[j].pubkey == k ==> hit(profiles[j]).None?
  }

  /** Each author with a hit is cached with the profile of their last hit; no other
      entry changes. */
  lemma {:induction false} CacheHitsMeaning(cache: map<string, JsonObject>, profiles: seq<Event>, hit: Hits)
    ensures CacheHits(cache, profiles, hit).Keys == cache.Keys + NanoAuthors(profiles, hit)
    ensures forall k :: k in cache && k !in NanoAuthors(profiles, hit) ==> CacheHits(cache, profiles, hit)[k] == cache[k]
    ensures forall k :: k in NanoAuthors(profiles, hit) ==> LastHit(profiles, hit, k, CacheHits(cache, profiles, hit)[k])
    decreases |profiles|
  {
    if profiles != [] {
      var p := profiles[..|profiles| - 1];
      var e := profiles[|profiles| - 1];
      CacheHitsMeaning(cache, p, hit);
      assert profiles == p + [e];
      NanoAuthorsSnoc(p, e, hit);
      var c := CacheHits(cache, profiles, hit);
      forall k | k in NanoAuthors(profiles, hit) ensures LastHit(profiles, hit, k, c[k]) {
        if hit(e).Some? && k == e.pubkey {
          LastHitNew(p, e, hit);
        } else {
          LastHitExtend(p, e, hit, k, c[k]);
        }
      }
    }
  }

  lemma NanoAuthorsSnoc(p: seq<Event>, e: Event, hit: Hits)
    ensures NanoAuthors(p + [e], hit) == NanoAuthors(p, hit) + (if hit(e).Some? then {e.pubkey} else {})
  {
    var es := p + [e];
    assert es[|p|] == e;
    forall k | k in NanoAuthors(es, hit) ensures k in NanoAuthors(p, hit) + (if hit(e).Some? then {e.pubkey} else {}) {
      var i :| 0 <= i < |es| && hit(es[i]).Some? && es[i].pubkey == k;
      if i < |p| { assert p[i] == es[i]; }
    }
    forall k | k in NanoAuthors(p, hit) ensures k in NanoAuthors(es, hit) {
      var i :| 0 <= i < |p| && hit(p[i]).Some? && p[i].pubkey == k;
      assert es[i] == p[i];
    }
  }

  lemma LastHitNew(p: seq<Event>, e: Event, hit: Hits)
    requires hit(e).Some?
    ensures LastHit(p + [e], hit, e.pubkey, hit(e).value)
  {
    assert (p + [e])[|p|] == e;
  }

  lemma LastHitExtend(p: seq<Event>, e: Event, hit: Hits, k: string, v: JsonObject)
    requires LastHit(p, hit, k, v)
    requires hit(e).Some? ==> e.pubkey != k
    ensures LastHit(p + [e], hit, k, v)
  {
    var es := p + [e];
    var i :| 0 <= i < |p| && p[i].pubkey == k && hit(p[i]) == Some(v)
      && forall j :: i < j < |p| && p[j].pubkey == k ==> hit(p[j]).None?;
    assert es[i] == p[i];
    assert es[|p|] == e;
    forall j | i < j < |es| && es[j].pubkey == k ensures hit(es[j]).None? {
      if j < |p| { assert es[j] == p[j]; }
    }
  }

  // ---------------------------------------------------------------- one event per id

  /** The events of all relays that satisfy `keep`, folded into one event per id. */
  method KeepNewest(answers: seq<seq<Event>>, keep: Event -> bool) returns (tab: Table)
    ensures tab == KeepAll(EmptyTable, Filter(Flatten(answers), keep))
  {
    tab := EmptyTable;
    ghost var seen: seq<Event> := [];
    var i := 0;
    while i < |answers|
      invariant 0 <= i <= |answers|
      invariant seen == Flatten(answers[..i])
      invariant tab == KeepAll(EmptyTable, Filter(seen, keep))
    {
      FlattenPrefix(answers, i);
      tab := KeepRelay(tab, answers[i], keep, seen);
      seen := seen + answers[i];
      i := i + 1;
    }
    assert answers[..|answers|] == answers;
  }

  /** The events of one relay added to the fold of the earlier ones. */
  method KeepRelay(tab: Table, events: seq<Event>, keep: Event -> bool, ghost seen: seq<Event>) returns (r: Table)
    requires tab == KeepAll(EmptyTable, Filter(seen, keep))
    ensures r == KeepAll(EmptyTable, Filter(seen + events, keep))
  {
    r := tab;
    var j := 0;
    assert seen + events[..0] == seen;
    while j < |events|
      invariant 0 <= j <= |events|
      invariant r == KeepAll(EmptyTable, Filter(seen + events[..j], keep))
    {
      var e := events[j];
      AppendSlice(seen, events, j);
      KeepFilteredSnoc(seen + events[..j], e, keep);
      if keep(e) {
        r := Keep(r, e);
      }
      j := j + 1;
    }
    assert events[..|events|] == events;
  }

  lemma KeepFilteredSnoc(seen: seq<Event>, e: Event, keep: Event -> bool)
    ensures KeepAll(EmptyTable, Filter(seen + [e], keep))
            == if keep(e) then Keep(KeepAll(EmptyTable, Filter(seen, keep)), e) else KeepAll(EmptyTable, Filter(seen, keep))
  {
    FilterSnoc(seen, e, keep);
    if keep(e) {
      KeepAllSnoc(EmptyTable, Filter(seen, keep), e);
    } else {
      assert Filter(seen + [e], keep) == Filter(seen, keep);
    }
  }

  /** What a fold from the empty map leaves: one event per id, the newest of the
      events kept, and every id of them present. */
  lemma KeptEvents(es: seq<Event>, keep: Event -> bool)
    ensures var f := Filter(es, keep);
      var tab := KeepAll(EmptyTable, f);
      && FoldedNewest(f, tab)
      && (forall k :: k in tab.byId ==> keep(tab.byId[k]))
  {
    var f := Filter(es, keep);
    var tab := KeepAll(EmptyTable, f);
    KeepAllKeepsNewest(f);
    forall k | k in tab.byId ensures keep(tab.byId[k]) {
      var i :| 0 <= i < |f| && f[i] == tab.byId[k];
    }
  }

  /** A valid table has as many keys in its order as entries. */
  lemma TableSize(tab: Table)
    requires TableValid(tab)
    ensures |tab.order| == |tab.byId.Keys|
  {
    DistinctCardinality(tab.order);
    assert (set x | x in tab.order) == tab.byId.Keys;
  }

  predicate NotReply(e: Event) {
    !HasETag(e)
  }

  /** The filter of `getReplies`: the event carries `['e', eventId]`. */
  function RepliesTo(eventId: string): Event -> bool {
    e => RefersTo(e, eventId)
  }

  /** `getReplies`: the events that carry `['e', eventId]`, one per id, in ascending
      `created_at` order. */
  function RepliesOf(es: seq<Event>, eventId: string): (r: seq<Event>)
    ensures SortedBy(r, CreatedAt)
  {
    SortBy(Values(KeepAll(EmptyTable, Filter(es, RepliesTo(eventId)))), CreatedAt)
  }

  /** Each returned reply refers to the event and is the newest reply with its id
      (the first seen among equally new ones). */
  lemma RepliesAreNewest(es: seq<Event>, eventId: string)
    ensures var r := RepliesOf(es, eventId);
      forall i :: 0 <= i < |r| ==>
        RefersTo(r[i], eventId) && KeptNewest(Filter(es, RepliesTo(eventId)), r[i].id, r[i])
  {
    var f := Filter(es, RepliesTo(eventId));
    var tab := KeepAll(EmptyTable, f);
    var r := SortBy(Values(tab), CreatedAt);
    KeptEvents(es, RepliesTo(eventId));
    SortedEntriesStored(tab, CreatedAt);
    forall i | 0 <= i < |r| ensures RefersTo(r[i], eventId) && KeptNewest(f, r[i].id, r[i]) {
      var k := r[i].id;
      assert r[i] == tab.byId[k];
      assert RepliesTo(eventId)(tab.byId[k]);
    }
  }

  /** No replying id occurs twice among the replies. */
  lemma RepliesDistinct(es: seq<Event>, eventId: string)
    ensures var r := RepliesOf(es, eventId);
      forall i, j :: 0 <= i < j < |r| ==> r[i].id != r[j].id
  {
    var tab := KeepAll(EmptyTable, Filter(es, RepliesTo(eventId)));
    KeptEvents(es, RepliesTo(eventId));
    assert TableValid(tab);
    SortedEntriesDistinct(tab, CreatedAt);
    assert RepliesOf(es, eventId) == SortBy(Values(tab), CreatedAt);
  }

  /** The replies are ordered by time, one per replying id. */
  lemma RepliesOrdered(es: seq<Event>, eventId: string)
    ensures var r := RepliesOf(es, eventId);
      SortedBy(r, CreatedAt) && |r| == |Ids(Filter(es, RepliesTo(eventId)))|
  {
    var tab := KeepAll(EmptyTable, Filter(es, RepliesTo(eventId)));
    KeepAllKeepsNewest(Filter(es, RepliesTo(eventId)));
    TableSize(tab);
  }

  /** No replying id is missed: every event that carries `['e', eventId]` has its
      id among the replies. */
  lemma RepliesCoverReplyingIds(es: seq<Event>, eventId: string, i: nat)
    requires i < |es| && RefersTo(es[i], eventId)
    ensures es[i].id in Ids(RepliesOf(es, eventId))
  {
    var keep := RepliesTo(eventId);
    var f := Filter(es, keep);
    var tab := KeepAll(EmptyTable, f);
    KeepAllKeepsNewest(f);
    assert keep(es[i]);
    assert es[i] in f;
    var k := es[i].id;
    assert k in Ids(f);
    SortedEntriesPresent(tab, CreatedAt, k);
    var r := RepliesOf(es, eventId);
    var j :| 0 <= j < |r| && r[j] == tab.byId[k];
    assert r[j].id == k;
  }

  /** The entries of a valid table, sorted, are as many as its keys, and each is
      the entry stored under its id. */
  lemma SortedEntriesStored(tab: Table, key: Event -> int)
    requires TableValid(tab)
    ensures var r := SortBy(Values(tab), key);
      && |r| == |tab.order|
      && forall i :: 0 <= i < |r| ==> r[i].id in tab.byId && r[i] == tab.byId[r[i].id]
  {
    var vs := Values(tab);
    var r := SortBy(vs, key);
    forall i | 0 <= i < |r| ensures r[i].id in tab.byId && r[i] == tab.byId[r[i].id] {
      assert r[i] in multiset(vs);
      var a :| 0 <= a < |vs| && vs[a] == r[i];
    }
  }

  /** No id occurs twice among the sorted entries. */
  lemma SortedEntriesDistinct(tab: Table, key: Event -> int)
    requires TableValid(tab)
    ensures var r := SortBy(Values(tab), key);
      forall i, j :: 0 <= i < j < |r| ==> r[i].id != r[j].id
  {
    var vs := Values(tab);
    var r := SortBy(vs, key);
    assert Distinct(vs);
    PermutationKeepsDistinct(vs, r);
    SortedEntriesStored(tab, key);
  }

  /** Every key's entry is among the sorted entries. */
  lemma SortedEntriesPresent(tab: Table, key: Event -> int, k: string)
    requires TableValid(tab) && k in tab.byId
    ensures tab.byId[k] in SortBy(Values(tab), key)
  {
    var vs := Values(tab);
    var a :| 0 <= a < |tab.order| && tab.order[a] == k;
    assert vs[a] == tab.byId[k];
    assert vs[a] in multiset(SortBy(vs, key));
  }

  lemma PermutationKeepsDistinct<T>(s: seq<T>, t: seq<T>)
    requires Distinct(s) && multiset(s) == multiset(t)
    ensures Distinct(t)
  {
    DistinctCounts(s);
    DistinctCounts(t);
  }

  /** A sequence is without repetitions exactly when every element occurs once. */
  lemma {:induction false} DistinctCounts<T>(s: seq<T>)
    ensures Distinct(s) <==> forall x :: multiset(s)[x] <= 1
    decreases |s|
  {
    if s != [] {
      var p := s[..|s| - 1];
      var x := s[|s| - 1];
      assert s == p + [x];
      DistinctCounts(p);
      assert multiset(s) == multiset(p) + multiset{x};
      if Distinct(s) {
        assert x !in multiset(p);
      } else {
        var i, j :| 0 <= i < j < |s| && s[i] == s[j];
        if j < |s| - 1 {
          assert p[i] == p[j];
          var y :| multiset(p)[y] > 1;
          assert multiset(s)[y] >= multiset(p)[y];
        } else {
          assert p[i] == x;
          assert multiset(s)[x] >= 2;
        }
      }
    }
  }

  /** The collection and merge of `getProfileForPubkey`: the events of all relays
      gathered, sorted newest first, the newest parsed and the older ones merged
      into it. */
  method ResolveAnswers(answers: seq<seq<Event>>, parse: Parser) returns (r: Option<JsonObject>)
    ensures r == ResolveProfile(Flatten(answers), parse)
  {
    var all := GatherAnswers(answers);
    var sorted := SortBy(all, NewestFirst);
    if |sorted| == 0 {
      return None;
    }
    var parsedBase := parse(sorted[0].content);
    if parsedBase.None? {
      return None;
    }
    var base := MergeOlderEvents(parsedBase.value, sorted, parse);
    return Some(Processed(base));
  }

  /** The events of every relay's answer, one relay after the other. */
  method GatherAnswers(answers: seq<seq<Event>>) returns (all: seq<Event>)
    ensures all == Flatten(answers)
  {
    all := [];
    var i := 0;
    while i < |answers|
      invariant 0 <= i <= |answers|
      invariant all == Flatten(answers[..i])
    {
      FlattenPrefix(answers, i);
      all := all + answers[i];
      i := i + 1;
    }
    assert answers[..|answers|] == answers;
  }

  /** The older events, newest first, each parsed and backfilled into `base`. */
  method MergeOlderEvents(base0: JsonObject, sorted: seq<Event>, parse: Parser) returns (base: JsonObject)
    requires sorted != []
    ensures base == MergeOlder(base0, ParsedOthers(sorted, parse))
  {
    ghost var others := ParsedOthers(sorted, parse);
    base := base0;
    var j := 1;
    while j < |sorted|
      invariant 1 <= j <= |sorted|
      invariant base == MergeOlder(base0, others[..j - 1])
    {
      assert others[..j] == others[..j - 1] + [parse(sorted[j].content)];
      var other := parse(sorted[j].content);
      if other.Some? {
        base := MergeMissing(base, other.value);
      }
      j := j + 1;
    }
    assert others[..|sorted| - 1] == others;
  }

  /** The author's posts that are not replies, one per id, written into `tab`,
      and how many there were. */
  method WithUserPosts(tab: Table, postAnswers: seq<seq<Event>>) returns (r: Table, count: nat)
    ensures var posts := KeepAll(EmptyTable, Filter(Flatten(postAnswers), NotReply));
      r == PutAll(tab, Values(posts)) && count == |posts.order|
    ensures TableValid(tab) ==> TableValid(r)
  {
    var posts := KeepNewest(postAnswers, NotReply);
    r := PutEach(tab, Values(posts));
    count := |posts.order|;
  }

  /** `uniquePosts.forEach(post => this.nanoPosts.set(post.id, post))`. */
  method PutEach(tab: Table, posts: seq<Event>) returns (r: Table)
    ensures r == PutAll(tab, posts)
  {
    r := tab;
    var k := 0;
    while k < |posts|
      invariant 0 <= k <= |posts|
      invariant r == PutAll(tab, posts[..k])
    {
      assert posts[..k + 1][..k] == posts[..k];
      r := Put(r, posts[k]);
      k := k + 1;
    }
    assert posts[..|posts|] == posts;
  }

  /** `backfill` in place: `Object.keys(other).forEach(key => { if (!base[key] &&
      other[key]) base[key] = other[key]; })`, in whatever order the keys come. */
  method MergeMissing(base: JsonObject, other: JsonObject) returns (merged: JsonObject)
    ensures merged == Backfill(base, other)
  {
    merged := base;
    var todo := other.Keys;
    while todo != {}
      invariant todo <= other.Keys
      invariant forall k :: k in merged <==> k in base || (k in other && k !in todo && Truthy(other[k]))
      invariant forall k :: k in merged ==>
        merged[k] == if k in other && k !in todo && !Truthy(Get(base, k)) && Truthy(other[k]) then other[k] else base[k]
      decreases todo
    {
      var k :| k in todo;
      if !Truthy(Get(merged, k)) && Truthy(other[k]) {
        merged := merged[k := other[k]];
      }
      todo := todo - {k};
    }
    assert forall k :: k in merged <==> k in Backfill(base, other);
  }

  /** The profile cache after `addUserToNanoFeed` resolved an uncached author: the
      resolved profile as `getProfileForPubkey` cached it, then cached again with
      `nano_address` set when an address is found in it. */
  function FeedCache(cache: map<string, JsonObject>, pk: string, resolved: Option<JsonObject>): (r: map<string, JsonObject>)
    ensures r.Keys <= cache.Keys + {pk}
    ensures forall k :: k in cache && k != pk ==> k in r && r[k] == cache[k]
    ensures resolved.None? ==> r == cache
    ensures resolved.Some? ==> pk in r
    ensures resolved.Some? ==>
      forall f :: f in resolved.value && f != "nano_address" ==> f in r[pk] && r[pk][f] == resolved.value[f]
    ensures resolved.Some? && FindNanoAddressInProfile(resolved).None? ==> r[pk] == resolved.value
    ensures resolved.Some? && FindNanoAddressInProfile(resolved).Some? ==>
      "nano_address" in r[pk] && r[pk]["nano_address"] == FindNanoAddressInProfile(resolved).value
  {
    var profile := if resolved.Some? then resolved.value else EmptyProfile;
    var c := if resolved.Some? then cache[pk := profile] else cache;
    match FindNanoAddressInProfile(Some(profile))
    case Some(a) => c[pk := profile["nano_address" := a]]
    case None => c
  }

  // ---------------------------------------------------------------- the client

  class NostrClient {
    /** The signed-in user's public key. */
    var pubkey: string
    /** The connected relays' URLs in the order they were added (`Object.keys(this.relays)`). */
    var relays: seq<string>
    var profileCache: map<string, JsonObject>
    /** `this.nanoPosts`: feed posts by id. */
    var nanoPosts: Table

    ghost predicate Valid()
      reads this
    {
      Distinct(relays) && TableValid(nanoPosts)
    }

    constructor(pubkey: string)
      ensures Valid()
      ensures this.pubkey == pubkey && relays == [] && profileCache == map[] && nanoPosts == EmptyTable
    {
      this.pubkey := pubkey;
      relays := [];
      profileCache := map[];
      nanoPosts := EmptyTable;
    }

    /** `addRelay`: a known URL is refused; otherwise the relay is added when the
        connection succeeds (`connects`) and refused when it fails. */
    method AddRelay(url: string, connects: bool) returns (r: Result<(), string>)
      requires Valid()
      modifies this
      ensures Valid()
      ensures url in old(relays) ==> r == Err("Relay already exists") && relays == old(relays)
      ensures url !in old(relays) && !connects ==> r == Err("Failed to connect to relay") && relays == old(relays)
      ensures url !in old(relays) && connects ==> r == Ok(()) && relays == old(relays) + [url]
      ensures pubkey == old(pubkey) && profileCache == old(profileCache) && nanoPosts == old(nanoPosts)
    {
      if url in relays {
        return Err("Relay already exists");
      }
      if !connects {
        return Err("Failed to connect to relay");
      }
      relays := relays + [url];
      return Ok(());
    }

    /** `removeRelay`: the URL is dropped when present; nothing happens otherwise. */
    method RemoveRelay(url: string)
      requires Valid()
      modifies this
      ensures Valid()
      ensures relays == Without(old(relays), url)
      ensures pubkey == old(pubkey) && profileCache == old(profileCache) && nanoPosts == old(nanoPosts)
    {
      WithoutKeepsDistinct(relays, url);
      relays := Without(relays, url);
    }

    /** `getProfileForPubkey`: a cached profile is returned as it is, with no query;
        otherwise the events of all relays are resolved, and a resolved profile is
        cached and returned; when nothing resolves, the empty profile is returned
        and nothing is cached. */
    method GetProfileForPubkey(pk: string, answers: seq<seq<Event>>, parse: Parser) returns (profile: JsonObject)
      requires Valid()
      modifies this
      ensures Valid()
      ensures pk in old(profileCache) ==> profile == old(profileCache)[pk] && profileCache == old(profileCache)
      ensures pk !in old(profileCache) ==>
        match ResolveProfile(Flatten(answers), parse)
        case Some(p) => profile == p && profileCache == old(profileCache)[pk := p]
        case None => profile == EmptyProfile && profileCache == old(profileCache)
      ensures pubkey == old(pubkey) && relays == old(relays) && nanoPosts == old(nanoPosts)
    {
      if pk in profileCache {
        return profileCache[pk];
      }
      var resolved := ResolveAnswers(answers, parse);
      match resolved
      case None =>
        profile := EmptyProfile;
      case Some(p) =>
        profile := p;
        profileCache := profileCache[pk := p];
    }

    /** `getReactions`: the reactions and reposts of all relays counted once per key. */
    method GetReactions(answers: seq<seq<Event>>) returns (r: Reactions)
      ensures r == CountAll(NoReactions, Flatten(answers), pubkey).counts
    {
      var me := pubkey;
      var seen: set<string> := {};
      var reactions := Reactions(0, false, false);
      ghost var done: seq<Event> := [];
      var i := 0;
      while i < |answers|
        invariant 0 <= i <= |answers|
        invariant done == Flatten(answers[..i])
        invariant Tally(seen, reactions) == CountAll(NoReactions, done, me)
      {
        FlattenPrefix(answers, i);
        seen, reactions := CountRelay(seen, reactions, answers[i], me, done);
        done := done + answers[i];
        i := i + 1;
      }
      assert answers[..|answers|] == answers;
      r := reactions;
    }

    /** `getReplies`. */
    method GetReplies(eventId: string, answers: seq<seq<Event>>) returns (replies: seq<Event>)
      ensures replies == RepliesOf(Flatten(answers), eventId)
    {
      var tab := KeepNewest(answers, RepliesTo(eventId));
      replies := SortBy(Values(tab), CreatedAt);
    }

    /** `addUserToNanoFeed`: when the author is not cached, their profile is
        resolved (which may cache it) and cached again with the address found in
        it; then their posts that are not replies, one per id, are written into
        `nanoPosts`, and the number of distinct posts is returned. */
    method AddUserToNanoFeed(pk: string, profileAnswers: seq<seq<Event>>, postAnswers: seq<seq<Event>>, parse: Parser)
      returns (count: nat)
      requires Valid()
      modifies this
      ensures Valid()
      ensures pk in old(profileCache) ==> profileCache == old(profileCache)
      ensures pk !in old(profileCache) ==>
        profileCache == FeedCache(old(profileCache), pk, ResolveProfile(Flatten(profileAnswers), parse))
      ensures var posts := KeepAll(EmptyTable, Filter(Flatten(postAnswers), NotReply));
        nanoPosts == PutAll(old(nanoPosts), Values(posts)) && count == |posts.order|
      ensures pubkey == old(pubkey) && relays == old(relays)
    {
      if pk !in profileCache {
        CacheNanoProfile(pk, profileAnswers, parse);
      }
      assert TableValid(nanoPosts);
      nanoPosts, count := WithUserPosts(nanoPosts, postAnswers);
    }

    /** The profile step of `addUserToNanoFeed` for an uncached author. */
    method CacheNanoProfile(pk: string, profileAnswers: seq<seq<Event>>, parse: Parser)
      requires Valid() && pk !in profileCache
      modifies this
      ensures Valid()
      ensures profileCache == FeedCache(old(profileCache), pk, ResolveProfile(Flatten(profileAnswers), parse))
      ensures pubkey == old(pubkey) && relays == old(relays) && nanoPosts == old(nanoPosts)
    {
      var profile := GetProfileForPubkey(pk, profileAnswers, parse);
      var address := FindNanoAddressInProfile(Some(profile));
      if address.Some? {
        profileCache := profileCache[pk := profile["nano_address" := address.value]];
      }
    }

    /** `checkProfilesInParallel`: the profiles are taken in batches; each whose
        content holds an address and parses marks its author as a Nano user and is
        cached. The batches decide only what runs at the same time. */
    method CheckProfilesInParallel(profiles: seq<Event>, batchSize: nat, parse: Parser) returns (nanoUsers: set<string>)
      requires Valid() && batchSize > 0
      modifies this
      ensures Valid()
      ensures nanoUsers == NanoAuthors(profiles, ProfileHits(parse))
      ensures profileCache == CacheHits(old(profileCache), profiles, ProfileHits(parse))
      ensures pubkey == old(pubkey) && relays == old(relays) && nanoPosts == old(nanoPosts)
    {
      var batches := SplitIntoBatches(profiles, batchSize);
      var users, cache := CheckBatches(batches, profileCache, ProfileHits(parse));
      nanoUsers := users;
      profileCache := cache;
    }
  }

  /** The batches of `checkProfilesInParallel` taken one after the other. */
  method CheckBatches(batches: seq<seq<Event>>, cache0: map<string, JsonObject>, hit: Hits)
    returns (nanoUsers: set<string>, cache: map<string, JsonObject>)
    ensures nanoUsers == NanoAuthors(Flatten(batches), hit)
    ensures cache == CacheHits(cache0, Flatten(batches), hit)
  {
    nanoUsers := {};
    cache := cache0;
    ghost var done: seq<Event> := [];
    var b := 0;
    while b < |batches|
      invariant 0 <= b <= |batches|
      invariant done == Flatten(batches[..b])
      invariant nanoUsers == NanoAuthors(done, hit)
      invariant cache == CacheHits(cache0, done, hit)
    {
      FlattenPrefix(batches, b);
      var batch := batches[b];
      ghost var before := done;
      var i := 0;
      while i < |batch|
        invariant 0 <= i <= |batch|
        invariant done == before + batch[..i]
        invariant nanoUsers == NanoAuthors(done, hit)
        invariant cache == CacheHits(cache0, done, hit)
      {
        var e := batch[i];
        assert batch[..i + 1] == batch[..i] + [e];
        CacheHitsSnoc(cache0, done, e, hit);
        NanoAuthorsSnoc(done, e, hit);
        var found := hit(e);
        if found.Some? {
          nanoUsers := nanoUsers + {e.pubkey};
          cache := cache[e.pubkey := found.value];
        }
        done := done + [e];
        i := i + 1;
      }
      assert batch[..|batch|] == batch;
      b := b + 1;
    }
    assert batches[..|batches|] == batches;
  }

  /** The events of one relay counted on top of the earlier ones. */
  method CountRelay(seen: set<string>, reactions: Reactions, events: seq<Event>, me: string, ghost done: seq<Event>)
    returns (seen': set<string>, reactions': Reactions)
    requires Tally(seen, reactions) == CountAll(NoReactions, done, me)
    ensures Tally(seen', reactions') == CountAll(NoReactions, done + events, me)
  {
    seen', reactions' := seen, reactions;
    var j := 0;
    assert done + events[..0] == done;
    while j < |events|
      invariant 0 <= j <= |events|
      invariant Tally(seen', reactions') == CountAll(NoReactions, done + events[..j], me)
    {
      var e := events[j];
      AppendSlice(done, events, j);
      CountAllSnoc(NoReactions, done + events[..j], e, me);
      seen', reactions' := CountReaction(seen', reactions', e, me);
      j := j + 1;
    }
    assert events[..|events|] == events;
  }

  /** One reaction: `if (!seenReactions.has(key)) { seenReactions.add(key); ... }`. */
  method CountReaction(seen: set<string>, reactions: Reactions, e: Event, me: string)
    returns (seen': set<string>, reactions': Reactions)
    ensures Tally(seen', reactions') == Count(Tally(seen, reactions), e, me)
  {
    seen', reactions' := seen, reactions;
    var key := ReactionKey(e);
    if key !in seen {
      seen' := seen + {key};
      if e.kind == 7 && e.content == "+" {
        reactions' := reactions'.(likes := reactions'.likes + 1);
        if e.pubkey == me {
          reactions' := reactions'.(liked := true);
        }
      } else if e.kind == 6 {
        if e.pubkey == me {
          reactions' := reactions'.(reposted := true);
        }
      }
    }
  }
}
