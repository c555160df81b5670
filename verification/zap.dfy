/** js/app.js `sendZap`: the checks made before a zap is requested, the LNURL
    endpoint of a Lightning address (LUD-16) and the callback URL that asks for
    the invoice (LUD-06), carrying the amount in millisats as NIP-57 asks. */
module Zap {
  import opened Wrappers
  import opened JsString
  import opened Json
  import opened Client

  /** Where `sendZap` stops, or the amount it goes on with. */
  datatype ZapStep =
    | NoWebLn            // 'Please install a WebLN provider (like Alby) to send zaps!'
    | NoNostr            // 'Please install a Nostr provider (like Alby) to send zaps!'
    | NoLightning        // 'This user has not set up Lightning payments'
    | Cancelled          // the prompt was dismissed or left empty
    | InvalidAmount      // 'Please enter a valid amount'
    | Proceed(sats: int, lud16: Json)

  /** The checks of `sendZap` in their order: a WebLN provider, a Nostr provider,
      a truthy `lud16` in the author's profile, an answer to the prompt, and a
      positive `parseInt` of it. `answer` is `None` when the prompt is dismissed. */
  function PlanZap(hasWebLn: bool, hasNostr: bool, profile: Option<JsonObject>, answer: Option<string>): (r: ZapStep)
    ensures !hasWebLn ==> r == NoWebLn
    ensures hasWebLn && !hasNostr ==> r == NoNostr
    ensures r.Proceed? <==>
      && hasWebLn && hasNostr
      && profile.Some? && Truthy(Get(profile.value, "lud16"))
      && answer.Some? && answer.value != ""
      && ParseInt(answer.value).Some? && ParseInt(answer.value).value > 0
    ensures r.Proceed? ==> r.sats > 0 && Some(r.sats) == ParseInt(answer.value) && r.lud16 == Get(profile.value, "lud16")
    ensures r == NoLightning <==>
      hasWebLn && hasNostr && (profile.None? || !Truthy(Get(profile.value, "lud16")))
    ensures r == Cancelled <==>
      && hasWebLn && hasNostr
      && profile.Some? && Truthy(Get(profile.value, "lud16"))
      && (answer.None? || answer.value == "")
    ensures r == InvalidAmount <==>
      && hasWebLn && hasNostr
      && profile.Some? && Truthy(Get(profile.value, "lud16"))
      && answer.Some? && answer.value != ""
      && (ParseInt(answer.value).None? || ParseInt(answer.value).value <= 0)
  {
    if !hasWebLn then NoWebLn
    else if !hasNostr then NoNostr
    else if profile.None? || !Truthy(Get(profile.value, "lud16")) then NoLightning
    else if answer.None? || answer.value == "" then Cancelled
    else match ParseInt(answer.value)
      case None => InvalidAmount
      case Some(sats) => if sats <= 0 then InvalidAmount else Proceed(sats, Get(profile.value, "lud16"))
  }

  /** The first index of `c` in `s`, or `|s|` when there is none. */
  function IndexOf(s: string, c: char): (i: nat)
    ensures i <= |s|
    ensures i < |s| ==> s[i] == c
    ensures forall j :: 0 <= j < i ==> s[j] != c
    decreases |s|
  {
    if s == [] || s[0] == c then 0 else 1 + IndexOf(s[1..], c)
  }

  /** `const [name, domain] = lnurl.split('@')` and the LUD-16 endpoint
      `https://<domain>/.well-known/lnurlp/<name>`, when `lnurl` holds an `@`; the
      part after a second `@` is dropped. Without an `@` no endpoint is made. */
  function LightningEndpoint(lnurl: string): (r: Option<string>)
    ensures r.None? <==> '@' !in lnurl
  {
    var i := IndexOf(lnurl, '@');
    if i == |lnurl| then None
    else
      var name := lnurl[..i];
      var rest := lnurl[i + 1..];
      var domain := rest[..IndexOf(rest, '@')];
      Some("https://" + domain + "/.well-known/lnurlp/" + name)
  }

  /** For a Lightning address `name@domain`, the endpoint LUD-16 names. */
  lemma EndpointOfAddress(name: string, domain: string)
    requires '@' !in name && '@' !in domain
    ensures LightningEndpoint(name + "@" + domain) == Some("https://" + domain + "/.well-known/lnurlp/" + name)
  {
    var s := name + "@" + domain;
    IndexOfAt(name, domain);
    assert s[..|name|] == name;
    assert s[|name| + 1..] == domain;
    IndexOfAbsent(domain, '@');
    assert domain[..|domain|] == domain;
  }

  lemma IndexOfAt(name: string, domain: string)
    requires '@' !in name
    ensures IndexOf(name + "@" + domain, '@') == |name|
  {
    var s := name + "@" + domain;
    assert s[|name|] == '@';
    forall j | 0 <= j < |name| ensures s[j] != '@' {
      assert s[j] == name[j];
    }
    IndexOfFirst(s, '@', |name|);
  }

  /** The first index is the one where `c` occurs with no `c` before it. */
  lemma {:induction false} IndexOfFirst(s: string, c: char, k: nat)
    requires k < |s| && s[k] == c && forall j :: 0 <= j < k ==> s[j] != c
    ensures IndexOf(s, c) == k
    decreases k
  {
    if k > 0 {
      IndexOfFirst(s[1..], c, k - 1);
    }
  }

  lemma {:induction false} IndexOfAbsent(s: string, c: char)
    requires c !in s
    ensures IndexOf(s, c) == |s|
    decreases |s|
  {
    if s != [] {
      IndexOfAbsent(s[1..], c);
    }
  }

  /** `${lnurlData.callback}?amount=${sats * 1000}&nostr=${nostrJson}`; `nostrJson`
      is the URI-encoded signed zap request. */
  function CallbackUrl(callback: string, sats: int, nostrJson: string): (u: string)
    ensures exists amount ::
      ParseInt(amount) == Some(sats * 1000) && u == callback + "?amount=" + amount + "&nostr=" + nostrJson
  {
    ParseIntOfDecimal(sats * 1000);
    callback + "?amount=" + IntToDecimal(sats * 1000) + "&nostr=" + nostrJson
  }

  /** The amount the callback asks for is the amount tag of the zap request sent
      with it, in millisats (NIP-57 asks that they agree), and it reads back as
      `sats * 1000`. */
  lemma CallbackCarriesRequestAmount(callback: string, recipient: string, sats: int, relays: seq<string>, nostrJson: string)
    ensures var amount := ZapRequest(recipient, sats, relays).tags[1][1];
      && CallbackUrl(callback, sats, nostrJson) == callback + "?amount=" + amount + "&nostr=" + nostrJson
      && ParseInt(amount) == Some(sats * 1000)
  {
  }
}
