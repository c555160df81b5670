/** js/nostr-client.js `getProfileForPubkey`: how kind-0 metadata events (NIP-01)
    from several relays are merged into one profile. */
module Profiles {
  import opened Wrappers
  import opened Seqs
  import opened Json
  import opened Events
  import opened AddressScan

  /** `JSON.parse` of an event's content, given from outside: `None` when it throws
      or does not give an object. */
  type Parser = string -> Option<JsonObject>

  /** The fields every resolved profile carries, defaulted to `''`. */
  const DefaultedFields: seq<string> := ["name", "about", "picture", "banner", "nip05", "lud16"]

  /** One older profile merged into the base: a key of `other` is copied when the
      base's value is falsy and the other's is truthy; nothing else changes. Each key
      is decided on its own, so the order of `Object.keys` does not matter. */
  function Backfill(base: JsonObject, other: JsonObject): (r: JsonObject)
    ensures forall k :: Truthy(Get(base, k)) ==> Get(r, k) == Get(base, k)
    ensures forall k :: !Truthy(Get(base, k)) && Truthy(Get(other, k)) ==> Get(r, k) == Get(other, k)
    ensures forall k :: !Truthy(Get(base, k)) && !Truthy(Get(other, k)) ==> Get(r, k) == Get(base, k)
    ensures base.Keys <= r.Keys
    ensures forall k :: k in r ==> k in base || (k in other && Truthy(other[k]))
  {
    map k | k in base.Keys + other.Keys && (k in base || Truthy(other[k])) ::
      if !Truthy(Get(base, k)) && k in other && Truthy(other[k]) then other[k] else base[k]
  }

  /** The older profiles merged in order; the ones that did not parse are skipped. */
  function MergeOlder(base: JsonObject, others: seq<Option<JsonObject>>): (r: JsonObject)
    ensures base.Keys <= r.Keys
    ensures forall k :: k in r ==> k in base || exists i :: 0 <= i < |others| && SuppliesKey(others, i, k)
    decreases |others|
  {
    if others == [] then base
    else
      var p := others[..|others| - 1];
      var merged := MergeOlder(base, p);
      assert forall i, k :: 0 <= i < |p| ==> SuppliesKey(p, i, k) == SuppliesKey(others, i, k);
      match others[|others| - 1]
      case None => merged
      case Some(o) =>
        assert forall k :: k in o && Truthy(o[k]) ==> SuppliesKey(others, |others| - 1, k);
        Backfill(merged, o)
  }

  /** Whether the `i`-th older profile parsed and has a truthy `k`. */
  predicate SuppliesKey(others: seq<Option<JsonObject>>, i: nat, k: string)
    requires i < |others|
  {
    others[i].Some? && Truthy(Get(others[i].value, k))
  }

  /** A truthy base value is never overwritten. */
  lemma {:induction false} MergeKeepsTruthy(base: JsonObject, others: seq<Option<JsonObject>>, k: string)
    requires Truthy(Get(base, k))
    ensures Get(MergeOlder(base, others), k) == Get(base, k)
    decreases |others|
  {
    if others != [] {
      MergeKeepsTruthy(base, others[..|others| - 1], k);
    }
  }

  /** When no older profile has a truthy value for `k`, the base's own value stays. */
  lemma {:induction false} MergeWithoutSupplier(base: JsonObject, others: seq<Option<JsonObject>>, k: string)
    requires forall i :: 0 <= i < |others| ==> !SuppliesKey(others, i, k)
    ensures Get(MergeOlder(base, others), k) == Get(base, k)
    decreases |others|
  {
    if others != [] {
      var p := others[..|others| - 1];
      assert forall i :: 0 <= i < |p| ==> SuppliesKey(p, i, k) == SuppliesKey(others, i, k);
      MergeWithoutSupplier(base, p, k);
      assert !SuppliesKey(others, |others| - 1, k);
    }
  }

  lemma {:induction false} MergeAppend(base: JsonObject, q: seq<Option<JsonObject>>, r: seq<Option<JsonObject>>)
    ensures MergeOlder(base, q + r) == MergeOlder(MergeOlder(base, q), r)
    decreases |r|
  {
    if r == [] {
      assert q + r == q;
    } else {
      assert (q + r)[..|q + r| - 1] == q + r[..|r| - 1];
      MergeAppend(base, q, r[..|r| - 1]);
    }
  }

  /** When the base's value for `k` is falsy, the first older profile with a truthy
      value for `k` supplies it. */
  lemma MergeTakesFirstSupplier(base: JsonObject, others: seq<Option<JsonObject>>, k: string, i: nat)
    requires i < |others| && !Truthy(Get(base, k)) && SuppliesKey(others, i, k)
    requires forall j :: 0 <= j < i ==> !SuppliesKey(others, j, k)
    ensures Get(MergeOlder(base, others), k) == Get(others[i].value, k)
  {
    var before := others[..i];
    assert forall j :: 0 <= j < i ==> SuppliesKey(before, j, k) == SuppliesKey(others, j, k);
    MergeWithoutSupplier(base, before, k);
    assert others[..i + 1][..i] == before;
    var upto := MergeOlder(base, others[..i + 1]);
    assert Get(upto, k) == Get(others[i].value, k);
    assert others == others[..i + 1] + others[i + 1..];
    MergeAppend(base, others[..i + 1], others[i + 1..]);
    MergeKeepsTruthy(upto, others[i + 1..], k);
  }

  /** The profile handed back: the six fields `|| ''`, and `nano_address` when an
      address is found in the merged profile. */
  function Processed(base: JsonObject): (r: JsonObject)
    ensures forall i :: 0 <= i < |DefaultedFields| ==>
      DefaultedFields[i] in r && r[DefaultedFields[i]] == OrEmpty(Get(base, DefaultedFields[i]))
    ensures ("nano_address" in r) == FindNanoAddressInProfile(Some(base)).Some?
    ensures "nano_address" in r ==> r["nano_address"] == FindNanoAddressInProfile(Some(base)).value
    ensures forall k :: k in r ==> k in DefaultedFields || k == "nano_address"
  {
    var fields := map[
      "name" := OrEmpty(Get(base, "name")),
      "about" := OrEmpty(Get(base, "about")),
      "picture" := OrEmpty(Get(base, "picture")),
      "banner" := OrEmpty(Get(base, "banner")),
      "nip05" := OrEmpty(Get(base, "nip05")),
      "lud16" := OrEmpty(Get(base, "lud16"))];
    match FindNanoAddressInProfile(Some(base))
    case Some(a) => fields["nano_address" := a]
    case None => fields
  }

  /** The profile returned when nothing could be resolved. */
  const EmptyProfile: JsonObject := map[
    "name" := JString(""), "about" := JString(""), "picture" := JString(""),
    "banner" := JString(""), "nip05" := JString(""), "lud16" := JString(""),
    "nano_address" := JString("")]

  /** `(a, b) => b.created_at - a.created_at` as a key: newest first. */
  function NewestFirst(e: Event): int {
    -e.createdAt
  }

  /** The parsed older profiles, in sorted order after the base. */
  function ParsedOthers(sorted: seq<Event>, parse: Parser): (others: seq<Option<JsonObject>>)
    requires sorted != []
    ensures |others| == |sorted| - 1
    ensures forall i :: 0 <= i < |others| ==> others[i] == parse(sorted[i + 1].content)
  {
    seq(|sorted| - 1, i requires 0 <= i < |sorted| - 1 => parse(sorted[i + 1].content))
  }

  /** The merge of `getProfileForPubkey` on the collected events: `None` when there
      are none or the newest does not parse (the error path), otherwise the
      processed merge. */
  function ResolveProfile(events: seq<Event>, parse: Parser): (r: Option<JsonObject>)
    ensures r.None? <==> events == [] || parse(SortBy(events, NewestFirst)[0].content).None?
    ensures r.Some? ==> "name" in r.value && "lud16" in r.value
  {
    var sorted := SortBy(events, NewestFirst);
    if sorted == [] then None
    else match parse(sorted[0].content)
      case None => None
      case Some(base) =>
        assert DefaultedFields[0] == "name" && DefaultedFields[5] == "lud16";
        Some(Processed(MergeOlder(base, ParsedOthers(sorted, parse))))
  }

  /** Whether the `i`-th event, newest first, parsed and has a truthy `f`. */
  predicate SuppliesField(sorted: seq<Event>, parse: Parser, i: nat, f: string)
    requires i < |sorted|
  {
    parse(sorted[i].content).Some? && Truthy(Get(parse(sorted[i].content).value, f))
  }

  /** On the sorted events: the merged value of `f` is that of the first event that
      parsed and has `f` truthy. */
  lemma MergedFieldIsFirstSupplier(sorted: seq<Event>, parse: Parser, f: string, i: nat)
    requires sorted != [] && parse(sorted[0].content).Some?
    requires i < |sorted| && SuppliesField(sorted, parse, i, f)
    requires forall j :: 0 <= j < i ==> !SuppliesField(sorted, parse, j, f)
    ensures Get(MergeOlder(parse(sorted[0].content).value, ParsedOthers(sorted, parse)), f)
            == Get(parse(sorted[i].content).value, f)
  {
    var base := parse(sorted[0].content).value;
    var others := ParsedOthers(sorted, parse);
    if i == 0 {
      MergeKeepsTruthy(base, others, f);
    } else {
      assert !SuppliesField(sorted, parse, 0, f);
      assert SuppliesKey(others, i - 1, f);
      forall j | 0 <= j < i - 1 ensures !SuppliesKey(others, j, f) {
        assert !SuppliesField(sorted, parse, j + 1, f);
      }
      MergeTakesFirstSupplier(base, others, f, i - 1);
    }
  }

  /** On the sorted events: with no event supplying `f`, the merged value is the
      newest profile's own (falsy) one. */
  lemma MergedFieldWithoutSupplier(sorted: seq<Event>, parse: Parser, f: string)
    requires sorted != [] && parse(sorted[0].content).Some?
    requires forall j :: 0 <= j < |sorted| ==> !SuppliesField(sorted, parse, j, f)
    ensures !Truthy(Get(MergeOlder(parse(sorted[0].content).value, ParsedOthers(sorted, parse)), f))
  {
    var base := parse(sorted[0].content).value;
    var others := ParsedOthers(sorted, parse);
    assert !SuppliesField(sorted, parse, 0, f);
    forall j | 0 <= j < |others| ensures !SuppliesKey(others, j, f) {
      assert !SuppliesField(sorted, parse, j + 1, f);
    }
    MergeWithoutSupplier(base, others, f);
  }

  /** A field of the six in a resolved profile is `OrEmpty` of the merged value. */
  lemma ResolvedField(events: seq<Event>, parse: Parser, f: string)
    requires ResolveProfile(events, parse).Some? && f in DefaultedFields
    ensures var sorted := SortBy(events, NewestFirst);
      && sorted != [] && parse(sorted[0].content).Some?
      && f in ResolveProfile(events, parse).value
      && ResolveProfile(events, parse).value[f]
         == OrEmpty(Get(MergeOlder(parse(sorted[0].content).value, ParsedOthers(sorted, parse)), f))
  {
    var sorted := SortBy(events, NewestFirst);
    var m := MergeOlder(parse(sorted[0].content).value, ParsedOthers(sorted, parse));
    assert ResolveProfile(events, parse) == Some(Processed(m));
    var n :| 0 <= n < |DefaultedFields| && DefaultedFields[n] == f;
  }

  /** Each of the six fields of a resolved profile is the value of the first event,
      newest first, that parsed and has that field truthy. */
  lemma ResolvedFieldIsFirstSupplier(events: seq<Event>, parse: Parser, f: string, i: nat)
    requires ResolveProfile(events, parse).Some? && f in DefaultedFields
    requires i < |events| && SuppliesField(SortBy(events, NewestFirst), parse, i, f)
    requires forall j :: 0 <= j < i ==> !SuppliesField(SortBy(events, NewestFirst), parse, j, f)
    ensures f in ResolveProfile(events, parse).value
    ensures ResolveProfile(events, parse).value[f] == Get(parse(SortBy(events, NewestFirst)[i].content).value, f)
  {
    ResolvedField(events, parse, f);
    MergedFieldIsFirstSupplier(SortBy(events, NewestFirst), parse, f, i);
  }

  /** A field of the six that no parsed event has truthy is `''` in a resolved
      profile. */
  lemma ResolvedFieldDefault(events: seq<Event>, parse: Parser, f: string)
    requires ResolveProfile(events, parse).Some? && f in DefaultedFields
    requires forall j :: 0 <= j < |events| ==> !SuppliesField(SortBy(events, NewestFirst), parse, j, f)
    ensures f in ResolveProfile(events, parse).value
    ensures ResolveProfile(events, parse).value[f] == JString("")
  {
    ResolvedField(events, parse, f);
    MergedFieldWithoutSupplier(SortBy(events, NewestFirst), parse, f);
  }

  /** The base profile comes from the newest event: no event is newer, and it is
      the first, in relay order, of the newest ones. */
  lemma BaseIsNewest(events: seq<Event>)
    requires events != []
    ensures forall j :: 0 <= j < |events| ==> events[j].createdAt <= SortBy(events, NewestFirst)[0].createdAt
    ensures exists i :: 0 <= i < |events| && events[i] == SortBy(events, NewestFirst)[0]
                        && forall j :: 0 <= j < i ==> events[j].createdAt < events[i].createdAt
  {
    SortByHead(events, NewestFirst);
  }
}
