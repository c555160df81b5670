/** js/nostr-client.js `getReactions`: kind-7 `+` reactions (NIP-25) and kind-6
    reposts (NIP-18) counted once per `kind-pubkey-content` key. */
module Reactions {
  import opened JsString
  import opened Events

  /** `${event.kind}-${event.pubkey}-${event.content}`: the kind's digits, the
      author and the content, with a dash after the digits and after the author
      (`KeySlices` reads the parts back). */
  function ReactionKey(e: Event): (key: string)
    ensures |key| == |IntToDecimal(e.kind)| + |e.pubkey| + |e.content| + 2
    ensures key[|IntToDecimal(e.kind)|] == '-' && key[|IntToDecimal(e.kind)| + 1 + |e.pubkey|] == '-'
  {
    IntToDecimal(e.kind) + "-" + e.pubkey + "-" + e.content
  }

  datatype Reactions = Reactions(likes: nat, liked: bool, reposted: bool)

  /** The counters and the set of keys seen so far. */
  datatype Tally = Tally(seen: set<string>, counts: Reactions)

  const NoReactions := Tally({}, Reactions(0, false, false))

  predicate IsLike(e: Event) {
    e.kind == 7 && e.content == "+"
  }

  /** One event: counted only when its key is new; a like adds one and marks
      `liked` when it is the own key's; a repost marks `reposted` when it is the own. */
  function Count(t: Tally, e: Event, me: string): (r: Tally)
    ensures r.seen == t.seen + {ReactionKey(e)}
    ensures r.counts.likes == t.counts.likes + (if ReactionKey(e) !in t.seen && IsLike(e) then 1 else 0)
  {
    var key := ReactionKey(e);
    if key in t.seen then t
    else
      var seen := t.seen + {key};
      if IsLike(e) then
        Tally(seen, Reactions(t.counts.likes + 1, t.counts.liked || e.pubkey == me, t.counts.reposted))
      else if e.kind == 6 then
        Tally(seen, Reactions(t.counts.likes, t.counts.liked, t.counts.reposted || e.pubkey == me))
      else Tally(seen, t.counts)
  }

  /** The events of all relays, in order. */
  function CountAll(t: Tally, es: seq<Event>, me: string): (r: Tally)
    ensures t.seen <= r.seen
    ensures t.counts.likes <= r.counts.likes <= t.counts.likes + |es|
    decreases |es|
  {
    if es == [] then t
    else
      var p := es[..|es| - 1];
      Count(CountAll(t, p, me), es[|es| - 1], me)
  }

  lemma CountAllSnoc(t: Tally, es: seq<Event>, e: Event, me: string)
    ensures CountAll(t, es + [e], me) == Count(CountAll(t, es, me), e, me)
  {
    assert (es + [e])[..|es|] == es;
  }

  // ---------------------------------------------------------------- what the counters mean

  /** The authors of likes. */
  function Likers(es: seq<Event>): set<string> {
    set i | 0 <= i < |es| && IsLike(es[i]) :: es[i].pubkey
  }

  predicate RepostedBy(es: seq<Event>, me: string) {
    exists i :: 0 <= i < |es| && es[i].kind == 6 && es[i].pubkey == me
  }

  function Keys(es: seq<Event>): set<string> {
    set i | 0 <= i < |es| :: ReactionKey(es[i])
  }

  /** Public keys are hex strings (NIP-01), so they hold no `-`. */
  predicate DashFree(es: seq<Event>) {
    forall i :: 0 <= i < |es| ==> '-' !in es[i].pubkey
  }

  /** The first `-` at or after `i`, or the length. */
  function DashFrom(s: string, i: nat): (j: nat)
    requires i <= |s|
    ensures i <= j <= |s|
    decreases |s| - i
  {
    if i == |s| || s[i] == '-' then i else DashFrom(s, i + 1)
  }

  lemma {:induction false} DashFromSkips(u: string, v: string, i: nat)
    requires i <= |u|
    requires forall k :: i <= k < |u| ==> u[k] != '-'
    ensures DashFrom(u + "-" + v, i) == |u|
    decreases |u| - i
  {
    var s := u + "-" + v;
    if i < |u| {
      assert s[i] == u[i];
      DashFromSkips(u, v, i + 1);
    } else {
      assert s[i] == '-';
    }
  }

  /** With dash-free public keys, the key determines kind, author and content. */
  lemma KeyInjective(e1: Event, e2: Event)
    requires '-' !in e1.pubkey && '-' !in e2.pubkey
    requires ReactionKey(e1) == ReactionKey(e2)
    ensures e1.kind == e2.kind && e1.pubkey == e2.pubkey && e1.content == e2.content
  {
    var d1, d2 := IntToDecimal(e1.kind), IntToDecimal(e2.kind);
    KeyParts(e1);
    KeyParts(e2);
    assert |d1| == |d2|;
    KeySlices(e1);
    KeySlices(e2);
    assert d1 == d2;
    DecimalInjective(e1.kind, e2.kind);
    assert |e1.pubkey| == |e2.pubkey|;
  }

  /** The key read back part by part. */
  lemma KeySlices(e: Event)
    ensures var d := IntToDecimal(e.kind); var s := ReactionKey(e);
      && |d| + |e.pubkey| + 2 <= |s|
      && s[..|d|] == d
      && s[|d| + 1..|d| + 1 + |e.pubkey|] == e.pubkey
      && s[|d| + 1 + |e.pubkey| + 1..] == e.content
  {
    var d := IntToDecimal(e.kind);
    var s := ReactionKey(e);
    assert s == d + "-" + e.pubkey + "-" + e.content;
  }

  /** Without the dash-free assumption two different reactions can share a key:
      author `a-b` with content `c`, and author `a` with content `b-c`. */
  lemma DashedKeysCollide()
    ensures var e1 := Event("x", "a-b", 0, 7, "c", []);
            var e2 := Event("y", "a", 0, 7, "b-c", []);
            ReactionKey(e1) == ReactionKey(e2) && e1.pubkey != e2.pubkey
  {
    assert IntToDecimal(7) == "7";
  }

  /** The two separators are found where the parts end. */
  lemma KeyParts(e: Event)
    requires '-' !in e.pubkey
    ensures |IntToDecimal(e.kind)| + |e.pubkey| + 2 <= |ReactionKey(e)|
    ensures DashFrom(ReactionKey(e), 1) == |IntToDecimal(e.kind)|
    ensures DashFrom(ReactionKey(e), |IntToDecimal(e.kind)| + 1) == |IntToDecimal(e.kind)| + 1 + |e.pubkey|
  {
    var d := IntToDecimal(e.kind);
    DecimalDashOnlyFirst(e.kind);
    var s := ReactionKey(e);
    assert s == d + "-" + (e.pubkey + "-" + e.content);
    DashFromSkips(d, e.pubkey + "-" + e.content, 1);
    var a := |d|;
    var w := d + "-" + e.pubkey;
    assert s == w + "-" + e.content;
    forall k | a + 1 <= k < |w| ensures w[k] != '-' {
      assert w[k] == e.pubkey[k - a - 1];
    }
    DashFromSkips(w, e.content, a + 1);
  }

  /** What a tally over `es` holds. */
  predicate TallyOf(t: Tally, es: seq<Event>, me: string) {
    && t.seen == Keys(es)
    && t.counts.likes == |Likers(es)|
    && t.counts.liked == (me in Likers(es))
    && t.counts.reposted == RepostedBy(es, me)
  }

  /** `likes` is the number of distinct authors of a `+` reaction, however many
      relays return it; `liked` says whether the own key is among them; `reposted`
      whether some repost is the own. */
  lemma {:induction false} CountAllMeaning(es: seq<Event>, me: string)
    requires DashFree(es)
    ensures TallyOf(CountAll(NoReactions, es, me), es, me)
    decreases |es|
  {
    if es == [] {
      assert Likers(es) == {};
    } else {
      var p := es[..|es| - 1];
      var e := es[|es| - 1];
      assert es == p + [e];
      assert DashFree(p);
      CountAllMeaning(p, me);
      CountStep(p, e, me, CountAll(NoReactions, p, me));
    }
  }

  lemma CountStep(p: seq<Event>, e: Event, me: string, t: Tally)
    requires DashFree(p + [e])
    requires TallyOf(t, p, me)
    ensures TallyOf(Count(t, e, me), p + [e], me)
  {
    var key := ReactionKey(e);
    KeysSnoc(p, e);
    LikersSnoc(p, e);
    RepostedSnoc(p, e, me);
    if key in t.seen {
      SeenChangesNothing(p, e, me);
      assert Likers(p + [e]) == Likers(p);
    } else {
      LikerHasKey(p, e);
    }
  }

  /** A like whose author already liked has a key already seen. */
  lemma LikerHasKey(p: seq<Event>, e: Event)
    ensures IsLike(e) && e.pubkey in Likers(p) ==> ReactionKey(e) in Keys(p)
  {
    if IsLike(e) && e.pubkey in Likers(p) {
      var j :| 0 <= j < |p| && IsLike(p[j]) && p[j].pubkey == e.pubkey;
      assert ReactionKey(p[j]) == ReactionKey(e);
    }
  }

  /** A repeated key adds no liker and no repost. */
  lemma SeenChangesNothing(p: seq<Event>, e: Event, me: string)
    requires DashFree(p + [e])
    requires ReactionKey(e) in Keys(p)
    ensures IsLike(e) ==> e.pubkey in Likers(p)
    ensures e.kind == 6 && e.pubkey == me ==> RepostedBy(p, me)
  {
    var i :| 0 <= i < |p| && ReactionKey(p[i]) == ReactionKey(e);
    assert (p + [e])[i] == p[i] && (p + [e])[|p|] == e;
    KeyInjective(p[i], e);
  }

  lemma KeysSnoc(p: seq<Event>, e: Event)
    ensures Keys(p + [e]) == Keys(p) + {ReactionKey(e)}
  {
    var es := p + [e];
    assert es[|p|] == e;
    forall k | k in Keys(es) ensures k in Keys(p) + {ReactionKey(e)} {
      var i :| 0 <= i < |es| && ReactionKey(es[i]) == k;
      if i < |p| { assert p[i] == es[i]; }
    }
    forall k | k in Keys(p) ensures k in Keys(es) {
      var i :| 0 <= i < |p| && ReactionKey(p[i]) == k;
      assert es[i] == p[i];
    }
  }

  lemma LikersSnoc(p: seq<Event>, e: Event)
    ensures Likers(p + [e]) == Likers(p) + (if IsLike(e) then {e.pubkey} else {})
  {
    var es := p + [e];
    assert es[|p|] == e;
    forall x | x in Likers(es) ensures x in Likers(p) + (if IsLike(e) then {e.pubkey} else {}) {
      var i :| 0 <= i < |es| && IsLike(es[i]) && es[i].pubkey == x;
      if i < |p| { assert p[i] == es[i]; }
    }
    forall x | x in Likers(p) ensures x in Likers(es) {
      var i :| 0 <= i < |p| && IsLike(p[i]) && p[i].pubkey == x;
      assert es[i] == p[i];
    }
  }

  lemma RepostedSnoc(p: seq<Event>, e: Event, me: string)
    ensures RepostedBy(p + [e], me) == (RepostedBy(p, me) || (e.kind == 6 && e.pubkey == me))
  {
    var es := p + [e];
    assert es[|p|] == e;
    if RepostedBy(es, me) {
      var i :| 0 <= i < |es| && es[i].kind == 6 && es[i].pubkey == me;
      if i < |p| { assert p[i] == es[i]; }
    }
    if RepostedBy(p, me) {
      var i :| 0 <= i < |p| && p[i].kind == 6 && p[i].pubkey == me;
      assert es[i] == p[i];
    }
  }
}
