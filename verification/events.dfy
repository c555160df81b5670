/** Nostr events as the client receives them from relays, the tag tests it applies
    (NIP-01 and NIP-10 `e` tags), and the fold that keeps one event per id. */
module Events {
  import opened Seqs

  /** A signed Nostr event (NIP-01). Signatures are not looked at. */
  datatype Event = Event(
    id: string,
    pubkey: string,
    createdAt: int,
    kind: int,
    content: string,
    tags: seq<seq<string>>)

  function CreatedAt(e: Event): int {
    e.createdAt
  }

  /** `event.tags.some(tag => tag[0] === 'e' && tag[1] === eventId)`: a missing
      element reads as `undefined`, which equals no string. */
  predicate RefersTo(e: Event, eventId: string) {
    exists i :: 0 <= i < |e.tags| && |e.tags[i]| >= 2 && e.tags[i][0] == "e" && e.tags[i][1] == eventId
  }

  /** `event.tags.some(tag => tag[0] === 'e')`: the event is a reply or a quote. */
  predicate HasETag(e: Event) {
    exists i :: 0 <= i < |e.tags| && |e.tags[i]| >= 1 && e.tags[i][0] == "e"
  }

  lemma RefersToHasETag(e: Event, eventId: string)
    requires RefersTo(e, eventId)
    ensures HasETag(e)
  {
  }

  // ---------------------------------------------------------------- one event per id

  /** A JavaScript `Map` from event id to event: the keys in insertion order and
      the entries. Re-setting a key keeps its place. */
  datatype Table = Table(order: seq<string>, byId: map<string, Event>)

  const EmptyTable := Table([], map[])

  /** Each key listed once, the listed keys are the keys, and each entry is stored
      under its own id. */
  ghost predicate TableValid(tab: Table) {
    && Distinct(tab.order)
    && (forall k :: k in tab.byId <==> k in tab.order)
    && (forall k :: k in tab.byId ==> tab.byId[k].id == k)
  }

  /** `map.set(e.id, e)`: a new key goes last, an existing key keeps its place. */
  function Put(tab: Table, e: Event): (r: Table)
    ensures TableValid(tab) ==> TableValid(r)
    ensures r.byId == tab.byId[e.id := e]
    ensures |tab.order| <= |r.order| && r.order[..|tab.order|] == tab.order
  {
    if e.id in tab.byId then Table(tab.order, tab.byId[e.id := e])
    else Table(tab.order + [e.id], tab.byId[e.id := e])
  }

  /** One step of the fold: `if (!existing || existing.created_at < event.created_at)
      map.set(event.id, event)`. */
  function Keep(tab: Table, e: Event): (r: Table)
    ensures TableValid(tab) ==> TableValid(r)
    ensures e.id in r.byId && r.byId.Keys == tab.byId.Keys + {e.id}
    ensures forall k :: k in tab.byId && k != e.id ==> r.byId[k] == tab.byId[k]
  {
    if e.id !in tab.byId || tab.byId[e.id].createdAt < e.createdAt then Put(tab, e) else tab
  }

  /** `es.forEach(e => map.set(e.id, e))`. */
  function PutAll(tab: Table, es: seq<Event>): (r: Table)
    ensures TableValid(tab) ==> TableValid(r)
    decreases |es|
  {
    if es == [] then tab else Put(PutAll(tab, es[..|es| - 1]), es[|es| - 1])
  }

  /** Copying the entries of one map into another: the keys of both, the copied
      entries winning. */
  lemma PutAllTable(tab: Table, from: Table)
    requires TableValid(from)
    ensures PutAll(tab, Values(from)).byId == tab.byId + from.byId
  {
    var n := |from.order|;
    PutAllPrefix(tab, from, n);
    assert Values(from)[..n] == Values(from);
    CopiedKeys(from, n);
    CopiedValues(from, n);
    assert from.order[..n] == from.order;
    assert Copied(from, n) == from.byId;
  }

  /** The first `i` entries of `from`, as a map. */
  ghost function Copied(from: Table, i: nat): map<string, Event>
    requires TableValid(from) && i <= |from.order|
  {
    if i == 0 then map[] else Copied(from, i - 1)[from.order[i - 1] := from.byId[from.order[i - 1]]]
  }

  /** Copying the first `i` entries of `from` into `tab` adds them to it, each
      replacing what was there under its key. */
  lemma {:induction false} PutAllPrefix(tab: Table, from: Table, i: nat)
    requires TableValid(from) && i <= |from.order|
    ensures PutAll(tab, Values(from)[..i]).byId == tab.byId + Copied(from, i)
    decreases i
  {
    var vs := Values(from);
    if i == 0 {
      assert vs[..0] == [];
    } else {
      PutAllPrefix(tab, from, i - 1);
      var k := from.order[i - 1];
      assert vs[..i][..i - 1] == vs[..i - 1];
      assert vs[..i][i - 1] == from.byId[k] && from.byId[k].id == k;
      UnionUpdate(tab.byId, Copied(from, i - 1), k, from.byId[k]);
    }
  }

  lemma UnionUpdate(a: map<string, Event>, b: map<string, Event>, k: string, v: Event)
    ensures (a + b)[k := v] == a + b[k := v]
  {
  }

  /** The copied keys are the first `i` keys. */
  lemma {:induction false} CopiedKeys(from: Table, i: nat)
    requires TableValid(from) && i <= |from.order|
    ensures Copied(from, i).Keys == set k | k in from.order[..i]
    decreases i
  {
    if i > 0 {
      CopiedKeys(from, i - 1);
      assert from.order[..i] == from.order[..i - 1] + [from.order[i - 1]];
    }
  }

  /** Each copied entry is the one `from` holds. */
  lemma {:induction false} CopiedValues(from: Table, i: nat)
    requires TableValid(from) && i <= |from.order|
    ensures forall k :: k in Copied(from, i) ==> k in from.byId && Copied(from, i)[k] == from.byId[k]
    decreases i
  {
    if i > 0 {
      CopiedValues(from, i - 1);
    }
  }

  /** The fold over a whole sequence, left to right. */
  function KeepAll(tab: Table, es: seq<Event>): (r: Table)
    ensures TableValid(tab) ==> TableValid(r)
    decreases |es|
  {
    if es == [] then tab else Keep(KeepAll(tab, es[..|es| - 1]), es[|es| - 1])
  }

  lemma KeepAllSnoc(tab: Table, es: seq<Event>, e: Event)
    ensures KeepAll(tab, es + [e]) == Keep(KeepAll(tab, es), e)
  {
    assert (es + [e])[..|es|] == es;
  }

  /** The entries in key order: `Array.from(map.values())`. */
  function Values(tab: Table): (vs: seq<Event>)
    requires TableValid(tab)
    ensures |vs| == |tab.order|
    ensures forall i :: 0 <= i < |vs| ==> vs[i] == tab.byId[tab.order[i]]
  {
    seq(|tab.order|, i requires 0 <= i < |tab.order| => tab.byId[tab.order[i]])
  }

  /** The ids in a sequence of events. */
  function Ids(es: seq<Event>): (ids: set<string>)
    ensures forall i :: 0 <= i < |es| ==> es[i].id in ids
  {
    set i | 0 <= i < |es| :: es[i].id
  }

  /** What the fold promises, for every id: the kept event is one of the input
      events with that id, no event with that id is newer, and it is the first
      with that id and that time (a later tie does not replace it). */
  ghost predicate KeptNewest(es: seq<Event>, k: string, w: Event) {
    && w.id == k
    && (forall j :: 0 <= j < |es| && es[j].id == k ==> es[j].createdAt <= w.createdAt)
    && exists i :: 0 <= i < |es| && es[i] == w
                   && forall j :: 0 <= j < i && es[j].id == k ==> es[j].createdAt < w.createdAt
  }

  /** What the fold from the empty map has produced after the events `es`. */
  ghost predicate FoldedNewest(es: seq<Event>, tab: Table) {
    && TableValid(tab)
    && tab.byId.Keys == Ids(es)
    && forall k :: k in tab.byId ==> KeptNewest(es, k, tab.byId[k])
  }

  /** Folding from the empty map keeps exactly the ids that occur, and under each
      the newest event, the first seen among equally new ones. */
  lemma {:induction false} KeepAllKeepsNewest(es: seq<Event>)
    ensures FoldedNewest(es, KeepAll(EmptyTable, es))
    decreases |es|
  {
    if es != [] {
      var p := es[..|es| - 1];
      var e := es[|es| - 1];
      KeepAllKeepsNewest(p);
      assert es == p + [e];
      KeepAllSnoc(EmptyTable, p, e);
      KeepStep(p, e, KeepAll(EmptyTable, p));
    }
  }

  lemma KeepStep(p: seq<Event>, e: Event, before: Table)
    requires FoldedNewest(p, before)
    ensures FoldedNewest(p + [e], Keep(before, e))
  {
    var after := Keep(before, e);
    IdsSnoc(p, e);
    forall k | k in after.byId
      ensures KeptNewest(p + [e], k, after.byId[k])
    {
      KeptNewestStep(p, e, k, before, after);
    }
  }

  lemma IdsSnoc(p: seq<Event>, e: Event)
    ensures Ids(p + [e]) == Ids(p) + {e.id}
  {
    var es := p + [e];
    forall k | k in Ids(es) ensures k in Ids(p) + {e.id} {
      var i :| 0 <= i < |es| && es[i].id == k;
      if i < |p| { assert p[i] == es[i]; }
    }
    forall k | k in Ids(p) ensures k in Ids(es) {
      var i :| 0 <= i < |p| && p[i].id == k;
      assert es[i] == p[i];
    }
    assert es[|p|] == e;
  }

  lemma KeptNewestStep(p: seq<Event>, e: Event, k: string, before: Table, after: Table)
    requires after == Keep(before, e) && k in after.byId
    requires before.byId.Keys == Ids(p)
    requires forall k :: k in before.byId ==> KeptNewest(p, k, before.byId[k])
    ensures KeptNewest(p + [e], k, after.byId[k])
  {
    if k != e.id {
      KeptNewestExtend(p, e, k, before.byId[k]);
    } else if k !in before.byId {
      forall j | 0 <= j < |p| ensures p[j].id != k {
        assert p[j].id in Ids(p);
      }
      KeptNewestNew(p, e);
    } else if before.byId[k].createdAt < e.createdAt {
      KeptNewestNew(p, e);
    } else {
      KeptNewestExtend(p, e, k, before.byId[k]);
    }
  }

  /** An event that is not newer leaves the kept one in place. */
  lemma KeptNewestExtend(p: seq<Event>, e: Event, k: string, w: Event)
    requires KeptNewest(p, k, w)
    requires e.id == k ==> e.createdAt <= w.createdAt
    ensures KeptNewest(p + [e], k, w)
  {
    var es := p + [e];
    var i :| 0 <= i < |p| && p[i] == w
      && forall j :: 0 <= j < i && p[j].id == k ==> p[j].createdAt < w.createdAt;
    assert es[i] == w;
    assert forall j :: 0 <= j < i ==> es[j] == p[j];
    forall j | 0 <= j < |es| && es[j].id == k
      ensures es[j].createdAt <= w.createdAt
    {
      if j < |p| { assert es[j] == p[j]; }
    }
  }

  /** An event newer than every earlier one with its id is kept. */
  lemma KeptNewestNew(p: seq<Event>, e: Event)
    requires forall j :: 0 <= j < |p| && p[j].id == e.id ==> p[j].createdAt < e.createdAt
    ensures KeptNewest(p + [e], e.id, e)
  {
    var es := p + [e];
    assert es[|p|] == e;
    assert forall j :: 0 <= j < |p| ==> es[j] == p[j];
  }
}
