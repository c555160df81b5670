/** js/app.js `App`: the posts it has stored, the authors it knows to have a Nano
    address, the `nanoOnly` switch and the rendered feed, and how live and
    historical events are routed into them. `hasNanoAddress` is an oracle: a
    function from public key to answer, fixed for one call. The rendered feed is
    the list of `post-<id>` elements, top first. */
module Feed {
  import opened Wrappers
  import opened Seqs
  import opened JsString
  import opened Json
  import opened Events
  import opened Profiles
  import opened Client

  /** The answer of `hasNanoAddress` for each public key. */
  type Oracle = string -> bool

  // ---------------------------------------------------------------- tags

  predicate TopicTag(tag: seq<string>) {
    |tag| >= 1 && tag[0] == "t"
  }

  /** A `t` tag with no value: `tag[1].toLowerCase()` throws on it. */
  predicate ValuelessTopic(tag: seq<string>) {
    TopicTag(tag) && |tag| < 2
  }

  predicate NanoTopic(tag: seq<string>) {
    TopicTag(tag) && |tag| >= 2 && ToLowerCase(tag[1]) == "nanocurrency"
  }

  /** `event.tags.some(tag => tag[0] === 't' && tag[1].toLowerCase() === 'nanocurrency')`,
      scanning in order and stopping at the first hit; `None` when it throws. */
  function NanoTagScan(tags: seq<seq<string>>): (r: Option<bool>)
    ensures r == Some(false) <==> forall i :: 0 <= i < |tags| ==> !NanoTopic(tags[i]) && !ValuelessTopic(tags[i])
    ensures r == Some(true) ==> exists i :: 0 <= i < |tags| && NanoTopic(tags[i])
    ensures r.None? ==> exists i :: 0 <= i < |tags| && ValuelessTopic(tags[i])
    decreases |tags|
  {
    if tags == [] then Some(false)
    else if ValuelessTopic(tags[0]) then None
    else if NanoTopic(tags[0]) then Some(true)
    else NanoTagScan(tags[1..])
  }

  /** A valueless `t` tag comes before every `nanocurrency` tag. */
  predicate ValuelessComesFirst(tags: seq<seq<string>>) {
    exists i :: 0 <= i < |tags| && ValuelessTopic(tags[i]) && forall j :: 0 <= j < i ==> !NanoTopic(tags[j])
  }

  /** A `nanocurrency` tag comes before every valueless `t` tag. */
  predicate NanoComesFirst(tags: seq<seq<string>>) {
    exists i :: 0 <= i < |tags| && NanoTopic(tags[i]) && forall j :: 0 <= j < i ==> !ValuelessTopic(tags[j])
  }

  /** The scan throws exactly when a valueless `t` tag comes before every
      `nanocurrency` tag, and finds the topic exactly when a `nanocurrency` tag
      comes before every valueless `t` tag. */
  lemma {:induction false} NanoTagScanMeaning(tags: seq<seq<string>>)
    ensures NanoTagScan(tags).None? <==> ValuelessComesFirst(tags)
    ensures NanoTagScan(tags) == Some(true) <==> NanoComesFirst(tags)
    decreases |tags|
  {
    if tags != [] {
      NanoTagScanMeaning(tags[1..]);
      ValuelessComesFirstCons(tags);
      NanoComesFirstCons(tags);
    }
  }

  lemma ValuelessComesFirstCons(tags: seq<seq<string>>)
    requires tags != []
    ensures ValuelessComesFirst(tags) <==>
      ValuelessTopic(tags[0]) || (!NanoTopic(tags[0]) && ValuelessComesFirst(tags[1..]))
  {
    var rest := tags[1..];
    if ValuelessComesFirst(tags) && !ValuelessTopic(tags[0]) {
      var i :| 0 <= i < |tags| && ValuelessTopic(tags[i]) && forall j :: 0 <= j < i ==> !NanoTopic(tags[j]);
      assert i > 0 && !NanoTopic(tags[0]);
      assert ValuelessTopic(rest[i - 1]);
      forall j | 0 <= j < i - 1 ensures !NanoTopic(rest[j]) {
        assert rest[j] == tags[j + 1];
      }
    }
    if !NanoTopic(tags[0]) && ValuelessComesFirst(rest) {
      var i :| 0 <= i < |rest| && ValuelessTopic(rest[i]) && forall j :: 0 <= j < i ==> !NanoTopic(rest[j]);
      assert ValuelessTopic(tags[i + 1]);
      forall j | 0 <= j < i + 1 ensures !NanoTopic(tags[j]) {
        if j > 0 {
          assert tags[j] == rest[j - 1];
        }
      }
    }
  }

  lemma NanoComesFirstCons(tags: seq<seq<string>>)
    requires tags != []
    ensures NanoComesFirst(tags) <==>
      NanoTopic(tags[0]) || (!ValuelessTopic(tags[0]) && NanoComesFirst(tags[1..]))
  {
    var rest := tags[1..];
    if NanoComesFirst(tags) && !NanoTopic(tags[0]) {
      var i :| 0 <= i < |tags| && NanoTopic(tags[i]) && forall j :: 0 <= j < i ==> !ValuelessTopic(tags[j]);
      assert i > 0 && !ValuelessTopic(tags[0]);
      assert NanoTopic(rest[i - 1]);
      forall j | 0 <= j < i - 1 ensures !ValuelessTopic(rest[j]) {
        assert rest[j] == tags[j + 1];
      }
    }
    if !ValuelessTopic(tags[0]) && NanoComesFirst(rest) {
      var i :| 0 <= i < |rest| && NanoTopic(rest[i]) && forall j :: 0 <= j < i ==> !ValuelessTopic(rest[j]);
      assert NanoTopic(tags[i + 1]);
      forall j | 0 <= j < i + 1 ensures !ValuelessTopic(tags[j]) {
        if j > 0 {
          assert tags[j] == rest[j - 1];
        }
      }
    }
  }

  // ---------------------------------------------------------------- rendering

  /** `renderEvent`: an id already rendered is skipped; with `nanoOnly` on, a post
      whose author the oracle denies is skipped; otherwise the post goes on top. */
  function Rendered(feed: seq<string>, e: Event, nanoOnly: bool, hasNano: Oracle): (r: seq<string>)
    ensures e.id in feed ==> r == feed
    ensures r == feed || r == [e.id] + feed
    ensures e.id in r <==> e.id in feed || !nanoOnly || hasNano(e.pubkey)
    ensures Distinct(feed) ==> Distinct(r)
  {
    if e.id in feed then feed
    else if nanoOnly && !hasNano(e.pubkey) then feed
    else [e.id] + feed
  }

  /** The live subscription's decision: a known author's post, a post whose author
      the oracle confirms, and with `nanoOnly` off every post, go to `renderEvent`. */
  predicate LiveRoute(known: set<string>, nanoOnly: bool, e: Event, hasNano: Oracle) {
    e.pubkey in known || hasNano(e.pubkey) || !nanoOnly
  }

  /** The feed after the live callback: nothing changes when the tag scan throws;
      otherwise the routed post is rendered. A post ends up shown exactly when it
      already was, or the scan does not throw and `nanoOnly` is off or the oracle
      confirms its author: a known author alone does not pass `renderEvent`. */
  function LiveFeed(feed: seq<string>, known: set<string>, nanoOnly: bool, e: Event, hasNano: Oracle): (r: seq<string>)
    ensures r == feed || r == [e.id] + feed
    ensures e.id in r <==> e.id in feed || (NanoTagScan(e.tags).Some? && (!nanoOnly || hasNano(e.pubkey)))
  {
    if NanoTagScan(e.tags).Some? && LiveRoute(known, nanoOnly, e, hasNano) then Rendered(feed, e, nanoOnly, hasNano)
    else feed
  }

  /** `refreshFeed`'s re-rendering of the stored posts in map order: with
      `nanoOnly` on only known authors' posts are passed on. */
  function RefreshedFeed(vs: seq<Event>, known: set<string>, nanoOnly: bool, hasNano: Oracle): (r: seq<string>)
    ensures Distinct(r)
    decreases |vs|
  {
    if vs == [] then []
    else
      var r := RefreshedFeed(vs[..|vs| - 1], known, nanoOnly, hasNano);
      var e := vs[|vs| - 1];
      if !nanoOnly || e.pubkey in known then Rendered(r, e, nanoOnly, hasNano) else r
  }

  /** Whether `refreshFeed` shows a stored post. */
  predicate Shown(e: Event, known: set<string>, nanoOnly: bool, hasNano: Oracle) {
    !nanoOnly || (e.pubkey in known && hasNano(e.pubkey))
  }

  /** `refreshFeed` shows exactly the stored posts whose author is known and
      confirmed by the oracle when `nanoOnly` is on, and all of them otherwise. */
  lemma {:induction false} RefreshShowsExactly(vs: seq<Event>, known: set<string>, nanoOnly: bool, hasNano: Oracle)
    requires forall i, j :: 0 <= i < j < |vs| ==> vs[i].id != vs[j].id
    ensures forall i :: 0 <= i < |vs| ==>
      (vs[i].id in RefreshedFeed(vs, known, nanoOnly, hasNano) <==> Shown(vs[i], known, nanoOnly, hasNano))
    ensures forall id :: id in RefreshedFeed(vs, known, nanoOnly, hasNano) ==> exists i :: 0 <= i < |vs| && vs[i].id == id
    decreases |vs|
  {
    if vs != [] {
      var p := vs[..|vs| - 1];
      var e := vs[|vs| - 1];
      RefreshShowsExactly(p, known, nanoOnly, hasNano);
      var r := RefreshedFeed(p, known, nanoOnly, hasNano);
      assert forall i :: 0 <= i < |p| ==> p[i] == vs[i];
      assert e.id !in r;
    }
  }

  // ---------------------------------------------------------------- the historical crawl

  /** What one relay answered to the two queries of `fetchHistoricalPosts`: the
      recent kind-0 profiles, then the posts of the authors found. */
  datatype RelayHistory = RelayHistory(profiles: seq<Event>, posts: seq<Event>)

  /** `profile.about?.includes('nano_')`: `None` when it throws (an `about` with no
      `includes` method); a missing or null `about` gives `undefined`. */
  function AboutIncludesNano(about: Json): (r: Option<bool>)
    ensures r.None? <==> about.JBool? || about.JNumber? || about.JObject?
    ensures about.JNull? ==> r == Some(false)
    ensures r == Some(true) ==> about.JString? || about.JArray?
  {
    match about
    case JNull => Some(false)
    case JString(s) => Some(Contains(s, "nano_"))
    case JArray(items) => Some(JString("nano_") in items)
    case _ => None
  }

  /** A profile event marks its author when its content parses and
      `profile.about?.includes('nano_') || profile.nano` holds; one that fails to
      parse or throws is skipped. */
  function MarksNanoUser(e: Event, parse: Parser): (marks: bool)
    ensures marks ==> parse(e.content).Some? && AboutIncludesNano(Get(parse(e.content).value, "about")).Some?
    ensures (parse(e.content).Some? && Get(parse(e.content).value, "about").JString?
             && Contains(Get(parse(e.content).value, "about").s, "nano_")) ==> marks
    ensures parse(e.content).Some? && "about" !in parse(e.content).value ==>
      (marks <==> Truthy(Get(parse(e.content).value, "nano")))
  {
    match parse(e.content)
    case None => false
    case Some(p) =>
      match AboutIncludesNano(Get(p, "about"))
      case None => false
      case Some(b) => b || Truthy(Get(p, "nano"))
  }

  /** The authors a relay's profiles mark. */
  function NanoUsersIn(profiles: seq<Event>, parse: Parser): (users: set<string>)
    ensures forall i :: 0 <= i < |profiles| && MarksNanoUser(profiles[i], parse) ==> profiles[i].pubkey in users
    ensures forall u :: u in users ==> exists i :: 0 <= i < |profiles| && MarksNanoUser(profiles[i], parse) && profiles[i].pubkey == u
  {
    set i | 0 <= i < |profiles| && MarksNanoUser(profiles[i], parse) :: profiles[i].pubkey
  }

  lemma NanoUsersSnoc(p: seq<Event>, e: Event, parse: Parser)
    ensures NanoUsersIn(p + [e], parse) == NanoUsersIn(p, parse) + (if MarksNanoUser(e, parse) then {e.pubkey} else {})
  {
    var es := p + [e];
    assert es[|p|] == e;
    assert forall i :: 0 <= i < |p| ==> es[i] == p[i];
  }

  /** The stored posts and the feed together. */
  datatype View = View(posts: Table, feed: seq<string>)

  /** `if (!this.posts.has(event.id)) { this.posts.set(event.id, event); this.renderEvent(event); }`
      for each post, in order. */
  function InsertNew(v: View, es: seq<Event>, nanoOnly: bool, hasNano: Oracle): (r: View)
    ensures TableValid(v.posts) ==> TableValid(r.posts)
    ensures forall id :: id in v.feed ==> id in r.feed
    ensures |r.feed| <= |v.feed| + |es|
    decreases |es|
  {
    if es == [] then v
    else
      var w := InsertNew(v, es[..|es| - 1], nanoOnly, hasNano);
      var e := es[|es| - 1];
      if e.id in w.posts.byId then w else View(Put(w.posts, e), Rendered(w.feed, e, nanoOnly, hasNano))
  }

  lemma InsertNewSnoc(v: View, es: seq<Event>, e: Event, nanoOnly: bool, hasNano: Oracle)
    ensures var w := InsertNew(v, es, nanoOnly, hasNano);
      InsertNew(v, es + [e], nanoOnly, hasNano)
      == if e.id in w.posts.byId then w else View(Put(w.posts, e), Rendered(w.feed, e, nanoOnly, hasNano))
  {
    assert (es + [e])[..|es|] == es;
  }

  /** The historical path never overwrites a stored post: the stored entries stay
      as they were, and the ids of the posts given are added. */
  lemma {:induction false} InsertNewKeeps(v: View, es: seq<Event>, nanoOnly: bool, hasNano: Oracle)
    ensures var r := InsertNew(v, es, nanoOnly, hasNano);
      && r.posts.byId.Keys == v.posts.byId.Keys + Ids(es)
      && forall k :: k in v.posts.byId ==> r.posts.byId[k] == v.posts.byId[k]
    decreases |es|
  {
    if es != [] {
      var p := es[..|es| - 1];
      var e := es[|es| - 1];
      InsertNewKeeps(v, p, nanoOnly, hasNano);
      assert es == p + [e];
      IdsSnoc(p, e);
    }
  }

  /** What the app holds between two events. */
  ghost predicate ViewValid(v: View) {
    && TableValid(v.posts)
    && Distinct(v.feed)
    && forall id :: id in v.feed ==> id in v.posts.byId
  }

  lemma {:induction false} InsertNewValid(v: View, es: seq<Event>, nanoOnly: bool, hasNano: Oracle)
    requires ViewValid(v)
    ensures ViewValid(InsertNew(v, es, nanoOnly, hasNano))
    decreases |es|
  {
    if es != [] {
      InsertNewValid(v, es[..|es| - 1], nanoOnly, hasNano);
    }
  }

  // ---------------------------------------------------------------- relay URLs

  /** `addRelay`'s check on the typed URL: trimmed, it must start with `wss://`. */
  function CheckRelayUrl(input: string): (r: Result<string, string>)
    ensures r.Ok? <==> StartsWith(Trim(input), "wss://")
    ensures r.Ok? ==> r.value == Trim(input)
    ensures r.Err? ==> r.error == "Relay URL must start with wss://"
  {
    var url := Trim(input);
    if StartsWith(url, "wss://") then Ok(url) else Err("Relay URL must start with wss://")
  }

  // ---------------------------------------------------------------- the app

  class App {
    var client: NostrClient
    var nanoOnly: bool
    /** `this.posts`: every post seen, by id, in insertion order. */
    var posts: Table
    /** `this.knownNanoUsers`. */
    var knownNanoUsers: set<string>
    /** The ids of the rendered posts, top first. */
    var feed: seq<string>

    ghost predicate Valid()
      reads this, client
    {
      client.Valid() && ViewValid(View(posts, feed))
    }

    /** `pubkey` stands for the key the client obtains when it connects. */
    constructor(pubkey: string)
      ensures Valid() && fresh(client)
      ensures !nanoOnly && posts == EmptyTable && knownNanoUsers == {} && feed == []
    {
      client := new NostrClient(pubkey);
      nanoOnly := false;
      posts := EmptyTable;
      knownNanoUsers := {};
      feed := [];
    }

    /** `renderEvent` on a stored post. */
    method RenderEvent(e: Event, hasNano: Oracle)
      requires Valid() && e.id in posts.byId
      modifies this
      ensures Valid()
      ensures feed == Rendered(old(feed), e, nanoOnly, hasNano)
      ensures client == old(client) && nanoOnly == old(nanoOnly) && posts == old(posts)
      ensures knownNanoUsers == old(knownNanoUsers)
    {
      if e.id in feed {
        return;
      }
      if nanoOnly && !hasNano(e.pubkey) {
        return;
      }
      feed := [e.id] + feed;
    }

    /** The live subscription callback of `setupFeed`: the post is stored (a later
        arrival with the same id replaces it); when the tag scan throws nothing
        else happens; a known author's post is rendered; an author the oracle
        confirms becomes known and the post is rendered; with `nanoOnly` off any
        other post is rendered too. */
    method OnLiveEvent(e: Event, hasNano: Oracle)
      requires Valid()
      modifies this
      ensures Valid()
      ensures posts == Put(old(posts), e)
      ensures knownNanoUsers == old(knownNanoUsers) +
        (if NanoTagScan(e.tags).Some? && e.pubkey !in old(knownNanoUsers) && hasNano(e.pubkey) then {e.pubkey} else {})
      ensures feed == LiveFeed(old(feed), old(knownNanoUsers), nanoOnly, e, hasNano)
      ensures client == old(client) && nanoOnly == old(nanoOnly)
    {
      posts := Put(posts, e);
      var hasNanoTag := NanoTagScan(e.tags);
      if hasNanoTag.None? {
        return;
      }
      if e.pubkey in knownNanoUsers {
        RenderEvent(e, hasNano);
        return;
      }
      if hasNano(e.pubkey) {
        knownNanoUsers := knownNanoUsers + {e.pubkey};
        RenderEvent(e, hasNano);
      } else if !nanoOnly && hasNanoTag.value {
        RenderEvent(e, hasNano);
      } else if !nanoOnly {
        RenderEvent(e, hasNano);
      }
    }

    /** `fetchHistoricalPosts` on one relay: the authors its profiles mark become
        known; when it marked any, each of its posts not yet stored is stored and
        rendered. */
    method FromRelay(h: RelayHistory, parse: Parser, hasNano: Oracle)
      requires Valid()
      modifies this
      ensures Valid()
      ensures knownNanoUsers == old(knownNanoUsers) + NanoUsersIn(h.profiles, parse)
      ensures NanoUsersIn(h.profiles, parse) == {} ==> posts == old(posts) && feed == old(feed)
      ensures NanoUsersIn(h.profiles, parse) != {} ==>
        View(posts, feed) == InsertNew(View(old(posts), old(feed)), h.posts, nanoOnly, hasNano)
      ensures client == old(client) && nanoOnly == old(nanoOnly)
    {
      var users := MarkedUsers(h.profiles, parse);
      knownNanoUsers := knownNanoUsers + users;
      if users != {} {
        InsertNewValid(View(posts, feed), h.posts, nanoOnly, hasNano);
        var v := InsertPosts(View(posts, feed), h.posts, nanoOnly, hasNano);
        posts, feed := v.posts, v.feed;
      }
    }

    /** `fetchHistoricalPosts`: the relays one after the other. */
    method FetchHistoricalPosts(history: seq<RelayHistory>, parse: Parser, hasNano: Oracle)
      requires Valid()
      modifies this
      ensures Valid()
      ensures knownNanoUsers == old(knownNanoUsers) + AllNanoUsers(history, parse)
      ensures View(posts, feed) == Historical(View(old(posts), old(feed)), history, parse, nanoOnly, hasNano)
      ensures client == old(client) && nanoOnly == old(nanoOnly)
    {
      var i := 0;
      while i < |history|
        invariant 0 <= i <= |history|
        invariant Valid()
        invariant knownNanoUsers == old(knownNanoUsers) + AllNanoUsers(history[..i], parse)
        invariant View(posts, feed) == Historical(View(old(posts), old(feed)), history[..i], parse, nanoOnly, hasNano)
        invariant client == old(client) && nanoOnly == old(nanoOnly)
      {
        assert history[..i + 1][..i] == history[..i];
        FromRelay(history[i], parse, hasNano);
        i := i + 1;
      }
      assert history[..|history|] == history;
    }

    /** `refreshFeed`: the feed is emptied and the stored posts are rendered again
        in map order, with `nanoOnly` on only those of known authors. */
    method RefreshFeed(hasNano: Oracle)
      requires Valid()
      modifies this
      ensures Valid()
      ensures feed == RefreshedFeed(Values(posts), knownNanoUsers, nanoOnly, hasNano)
      ensures client == old(client) && nanoOnly == old(nanoOnly) && posts == old(posts)
      ensures knownNanoUsers == old(knownNanoUsers)
    {
      feed := [];
      var vs := Values(posts);
      var k := 0;
      while k < |vs|
        invariant 0 <= k <= |vs|
        invariant Valid()
        invariant feed == RefreshedFeed(vs[..k], knownNanoUsers, nanoOnly, hasNano)
        invariant client == old(client) && nanoOnly == old(nanoOnly) && posts == old(posts)
        invariant knownNanoUsers == old(knownNanoUsers)
      {
        var e := vs[k];
        assert vs[..k + 1][..k] == vs[..k];
        if nanoOnly {
          if e.pubkey in knownNanoUsers {
            RenderEvent(e, hasNano);
          }
        } else {
          RenderEvent(e, hasNano);
        }
        k := k + 1;
      }
      assert vs[..|vs|] == vs;
    }

    /** The `nano-only-toggle` listener: the switch is set and the feed refreshed. */
    method ToggleNanoOnly(checked: bool, hasNano: Oracle)
      requires Valid()
      modifies this
      ensures Valid()
      ensures nanoOnly == checked
      ensures feed == RefreshedFeed(Values(posts), knownNanoUsers, checked, hasNano)
      ensures client == old(client) && posts == old(posts) && knownNanoUsers == old(knownNanoUsers)
    {
      nanoOnly := checked;
      RefreshFeed(hasNano);
    }

    /** `App.addRelay`: the trimmed input must start with `wss://`, or nothing is
        attempted; otherwise the client adds it, and its refusal is reported. */
    method AddRelay(input: string, connects: bool) returns (r: Result<(), string>)
      requires Valid()
      modifies client
      ensures Valid()
      ensures CheckRelayUrl(input).Err? ==> r == Err("Relay URL must start with wss://") && client.relays == old(client.relays)
      ensures CheckRelayUrl(input).Ok? ==>
        var url := Trim(input);
        && (r.Ok? <==> url !in old(client.relays) && connects)
        && client.relays == if r.Ok? then old(client.relays) + [url] else old(client.relays)
      ensures CheckRelayUrl(input).Ok? && Trim(input) in old(client.relays) ==>
        r == Err("Failed to add relay: " + "Relay already exists")
      ensures CheckRelayUrl(input).Ok? && Trim(input) !in old(client.relays) && !connects ==>
        r == Err("Failed to add relay: " + "Failed to connect to relay")
      ensures client.relays != old(client.relays) ==> StartsWith(client.relays[|client.relays| - 1], "wss://")
      ensures client.pubkey == old(client.pubkey) && client.profileCache == old(client.profileCache)
      ensures client.nanoPosts == old(client.nanoPosts)
    {
      match CheckRelayUrl(input)
      case Err(message) =>
        return Err(message);
      case Ok(url) =>
        var added := client.AddRelay(url, connects);
        if added.Err? {
          return Err("Failed to add relay: " + added.error);
        }
        return Ok(());
    }
  }

  // ---------------------------------------------------------------- helpers of the crawl

  /** The relays' marked authors, all together. */
  function AllNanoUsers(history: seq<RelayHistory>, parse: Parser): set<string>
    decreases |history|
  {
    if history == [] then {}
    else AllNanoUsers(history[..|history| - 1], parse) + NanoUsersIn(history[|history| - 1].profiles, parse)
  }

  /** The posts and feed after the crawl of the relays, in order. */
  function Historical(v: View, history: seq<RelayHistory>, parse: Parser, nanoOnly: bool, hasNano: Oracle): View
    decreases |history|
  {
    if history == [] then v
    else
      var w := Historical(v, history[..|history| - 1], parse, nanoOnly, hasNano);
      var h := history[|history| - 1];
      if NanoUsersIn(h.profiles, parse) == {} then w else InsertNew(w, h.posts, nanoOnly, hasNano)
  }

  /** The `profiles` set one relay's profile events build. */
  method MarkedUsers(profiles: seq<Event>, parse: Parser) returns (users: set<string>)
    ensures users == NanoUsersIn(profiles, parse)
  {
    users := {};
    var i := 0;
    while i < |profiles|
      invariant 0 <= i <= |profiles|
      invariant users == NanoUsersIn(profiles[..i], parse)
    {
      var e := profiles[i];
      assert profiles[..i + 1] == profiles[..i] + [e];
      NanoUsersSnoc(profiles[..i], e, parse);
      var profile := parse(e.content);
      if profile.Some? {
        var about := AboutIncludesNano(Get(profile.value, "about"));
        if about.Some? && (about.value || Truthy(Get(profile.value, "nano"))) {
          users := users + {e.pubkey};
        }
      }
      i := i + 1;
    }
    assert profiles[..|profiles|] == profiles;
  }

  /** The post subscription of one relay: each post not yet stored is stored and
      rendered. */
  method InsertPosts(v: View, es: seq<Event>, nanoOnly: bool, hasNano: Oracle) returns (r: View)
    ensures r == InsertNew(v, es, nanoOnly, hasNano)
  {
    r := v;
    var i := 0;
    while i < |es|
      invariant 0 <= i <= |es|
      invariant r == InsertNew(v, es[..i], nanoOnly, hasNano)
    {
      var e := es[i];
      assert es[..i + 1] == es[..i] + [e];
      InsertNewSnoc(v, es[..i], e, nanoOnly, hasNano);
      if e.id !in r.posts.byId {
        r := View(Put(r.posts, e), Rendered(r.feed, e, nanoOnly, hasNano));
      }
      i := i + 1;
    }
    assert es[..|es|] == es;
  }
}
