/** js/nostr-client.js `updateProfile`: the client's own pass over the about text
    the profile form sends, before it publishes the kind-0 metadata. It takes the
    leftmost Nano address it finds (the first pattern of `findNanoAddress`), cuts the
    leftmost `\n?(?:Nano:\s*)?(addr)` match out of the text, trims it and writes the
    address back on a last `Nano:` line; it then keeps the given name and Lightning
    address, falling back on the current profile's. The published profile becomes
    the client's `profile`, which `loadProfile` in js/app.js reads. */
module ProfileSave {
  import opened Wrappers
  import opened JsString
  import opened Json
  import opened Utils
  import opened AddressScan
  import T = ProfileText

  /** `(?:Nano:\s*)?(addr)` with the `i` flag: the pattern of the capture. */
  const NanoLabel := Labelled("nano:")

  /** `/\n?(?:Nano:\s*)?(addr)/i` attempted at `b`: where the address it ends with
      starts. The optional newline is tried first, then the optional label, each
      given up in turn when what follows does not match. */
  function LineMatchAt(t: string, b: nat): (r: Option<nat>)
    ensures r.Some? ==> b <= r.value && IsAddressAt(t, r.value)
  {
    var withNewline := if b < |t| && t[b] == '\n' then MatchAt(t, b + 1, NanoLabel) else None;
    if withNewline.Some? then withNewline else MatchAt(t, b, NanoLabel)
  }

  /** The leftmost match from `b` on: where it starts and where its address starts. */
  function LineSearch(t: string, b: nat): (r: Option<(nat, nat)>)
    ensures r.Some? ==> b <= r.value.0 <= r.value.1 && IsAddressAt(t, r.value.1)
    ensures r.Some? ==> LineMatchAt(t, r.value.0) == Some(r.value.1)
    ensures r.Some? ==> forall c :: b <= c < r.value.0 ==> LineMatchAt(t, c).None?
    ensures r.None? ==> forall c :: b <= c <= |t| ==> LineMatchAt(t, c).None?
    decreases |t| + 1 - b
  {
    if b > |t| then None
    else match LineMatchAt(t, b)
      case Some(q) => Some((b, q))
      case None => LineSearch(t, b + 1)
  }

  /** `about.replace(/\n?(?:Nano:\s*)?(addr)/i, '')`: the leftmost match cut out,
      from where it starts to the end of its address; with no match the text stays. */
  function CutAddressLine(t: string): (r: string)
    ensures LineSearch(t, 0).None? ==> r == t
    ensures LineSearch(t, 0).Some? ==> |r| + 64 <= |t|
  {
    match LineSearch(t, 0)
    case None => t
    case Some((b, q)) => t[..b] + t[q + AddressLengthAt(t, q)..]
  }

  /** The about text `updateProfile` publishes: an empty or address-free text is
      kept as it is; otherwise the leftmost address moves to a last `\nNano: ` line,
      after the rest of the text with its leftmost address line cut out and trimmed. */
  function SavedAbout(about: string): (r: string)
    ensures FirstAddress(about, 0).None? ==> r == about
  {
    LabelledSearchIsLeftmost(about, 0, "nano:");
    if about == "" then about
    else match AddressFrom(about, Search(about, 0, NanoLabel))
      case None => about
      case Some(a) => Trim(CutAddressLine(about)) + T.NanoLine + a
  }

  /** With an address in it, `SavedAbout` moves the leftmost one to the last line. */
  lemma SavedAboutMovesLeftmost(about: string)
    requires FirstAddress(about, 0).Some?
    ensures var q := FirstAddress(about, 0).value;
      SavedAbout(about) == Trim(CutAddressLine(about)) + T.NanoLine + about[q..q + AddressLengthAt(about, q)]
  {
    LabelledSearchIsLeftmost(about, 0, "nano:");
  }

  /** `cleanProfile`: the name and Lightning address given, else the current
      profile's when truthy, else `''`; the about text as `SavedAbout` leaves it; the
      picture, banner and NIP-05 kept from the current profile, else `''`. */
  function CleanProfile(name: string, savedAbout: string, lud16: string, current: JsonObject): (p: JsonObject)
    ensures p.Keys == {"name", "about", "picture", "banner", "nip05", "lud16"}
    ensures p["about"] == JString(savedAbout)
    ensures name != "" ==> p["name"] == JString(name)
    ensures name == "" ==> p["name"] == OrEmpty(Get(current, "name"))
    ensures lud16 != "" ==> p["lud16"] == JString(lud16)
    ensures lud16 == "" ==> p["lud16"] == OrEmpty(Get(current, "lud16"))
    ensures p["picture"] == OrEmpty(Get(current, "picture")) && p["banner"] == OrEmpty(Get(current, "banner"))
    ensures p["nip05"] == OrEmpty(Get(current, "nip05"))
  {
    map[
      "name" := if name != "" then JString(name) else OrEmpty(Get(current, "name")),
      "about" := JString(savedAbout),
      "picture" := OrEmpty(Get(current, "picture")),
      "banner" := OrEmpty(Get(current, "banner")),
      "nip05" := OrEmpty(Get(current, "nip05")),
      "lud16" := if lud16 != "" then JString(lud16) else OrEmpty(Get(current, "lud16"))
    ]
  }

  // ---------------------------------------------------------------- addresses in parts of a text

  /** The first character of a matched address tells its length. */
  lemma AddressLengthFromFirst(t: string, q: nat)
    requires IsAddressAt(t, q)
    ensures AddressLengthAt(t, q) == 65 ==> AsciiLowerChar(t[q]) == 'n'
    ensures AddressLengthAt(t, q) == 64 ==> AsciiLowerChar(t[q]) == 'x'
  {
    if AddressLengthAt(t, q) == 65 {
      assert AsciiLowerChar(t[q + 0]) == "nano_"[0];
    } else {
      assert AsciiLowerChar(t[q + 0]) == "xno_"[0];
    }
  }

  /** An address in a slice of a text is an address in the text. */
  lemma AddressInSlice(u: string, a: nat, v: string, p: nat)
    requires a + |v| <= |u| && v == u[a..a + |v|]
    requires IsAddressAt(v, p)
    ensures IsAddressAt(u, a + p)
  {
    var n := AddressLengthAt(v, p);
    assert forall i :: p <= i < p + n ==> v[i] == u[a + i];
    if n == 65 {
      assert FoldedAt(u, a + p, "nano_") && BodyAt(u, a + p + 5, 60);
    } else {
      assert FoldedAt(u, a + p, "xno_") && BodyAt(u, a + p + 4, 60);
    }
  }

  /** An address of a text that lies inside a prefix of it is an address there. */
  lemma AddressWithinPrefix(u: string, v: string, p: nat)
    requires |v| <= |u| && u[..|v|] == v
    requires IsAddressAt(u, p) && p + AddressLengthAt(u, p) <= |v|
    ensures IsAddressAt(v, p)
  {
    var n := AddressLengthAt(u, p);
    assert forall i :: p <= i < p + n ==> v[i] == u[i];
    if n == 65 {
      assert FoldedAt(v, p, "nano_") && BodyAt(v, p + 5, 60);
    } else {
      assert FoldedAt(v, p, "xno_") && BodyAt(v, p + 4, 60);
    }
  }

  /** A trimmed text without an address holds none. */
  lemma TrimmedHasNoAddress(about: string)
    requires FirstAddress(about, 0).None?
    ensures FirstAddress(Trim(about), 0).None?
  {
    var t := Trim(about);
    var a := |about| - |TrimStart(about)|;
    assert a + |t| <= |about| && t == about[a..a + |t|];
    NoAddressInSlice(about, a, t);
    NoAddressNoFirst(t);
  }

  /** A slice of a text without an address holds none. */
  lemma NoAddressInSlice(u: string, a: nat, v: string)
    requires a + |v| <= |u| && v == u[a..a + |v|]
    requires forall j :: !IsAddressAt(u, j)
    ensures forall p :: !IsAddressAt(v, p)
  {
    forall p ensures !IsAddressAt(v, p) {
      if IsAddressAt(v, p) {
        AddressInSlice(u, a, v, p);
      }
    }
  }

  /** With no address anywhere, none is found. */
  lemma NoAddressNoFirst(t: string)
    requires forall p :: !IsAddressAt(t, p)
    ensures FirstAddress(t, 0).None?
  {
  }

  // ---------------------------------------------------------------- the written text

  /** What the proofs use of the text `t + "\nNano: " + addr`. */
  predicate WrittenAs(s: string, t: string, addr: string) {
    && |s| == |t| + 7 + |addr|
    && s[..|t|] == t
    && s[|t|] == '\n' && s[|t| + 5] == ':' && s[|t| + 6] == ' '
    && AsciiLower(s[|t| + 1..|t| + 6]) == "nano:"
    && s[|t| + 7..] == addr
  }

  lemma WrittenParts(t: string, addr: string)
    ensures WrittenAs(t + T.NanoLine + addr, t, addr)
  {
    var s := t + T.NanoLine + addr;
    var m := |t| + 1;
    assert s[m..m + 5] == "Nano:";
    var w := AsciiLower(s[m..m + 5]);
    assert w[0] == 'n' && w[1] == 'a' && w[2] == 'n' && w[3] == 'o' && w[4] == ':';
    assert w == "nano:";
  }

  /** What the proofs use of an address written with a lower-case prefix: its
      length, its first two characters, and that only the `nano_` prefix comes
      with 65 characters. */
  predicate WrittenShape(addr: string) {
    && (|addr| == 64 || |addr| == 65)
    && (addr[0] == 'n' || addr[0] == 'x')
    && (addr[1] == 'a' || addr[1] == 'n')
    && (|addr| == 65 ==> addr[0] == 'n')
  }

  lemma ValidWrittenShape(addr: string)
    requires ValidateNanoAddress(addr) && (StartsWith(addr, "nano_") || StartsWith(addr, "xno_"))
    ensures WrittenShape(addr)
  {
    ValidAddressLength(addr);
    if StartsWith(addr, "nano_") {
      assert addr[..5][0] == 'n' && addr[..5][1] == 'a';
    } else {
      assert addr[..4][0] == 'x' && addr[..4][1] == 'n';
      if |addr| == 65 {
        assert ToLowerCase(addr)[..5][0] == 'n';
        assert ToLowerCase(addr)[0] == LowerChar(addr[0]);
      }
    }
  }

  /** In the written text, where `t` holds no address, an address can only start
      at the written one: any other would take in the newline, the space after the
      label, or a shifted copy of the address's own prefix. */
  lemma OnlyWrittenAddress(s: string, t: string, addr: string, p: nat)
    requires WrittenAs(s, t, addr) && WrittenShape(addr)
    requires forall j :: !IsAddressAt(t, j)
    requires IsAddressAt(s, p)
    ensures p == |t| + 7
  {
    var n := AddressLengthAt(s, p);
    if p + n <= |t| {
      AddressWithinPrefix(s, t, p);
    } else if p <= |t| {
      AddressCharsAt(s, p, |t|);
    } else if p <= |t| + 6 {
      AddressCharsAt(s, p, |t| + 6);
    } else if p != |t| + 7 {
      NotShiftedAddress(s, t, addr, p);
    }
  }

  /** Past the start of the written address no address starts: one character
      in, the rest is too short for a `nano_` address and starts with `a` or `n`,
      not the `x` of an `xno_` one. */
  lemma NotShiftedAddress(s: string, t: string, addr: string, p: nat)
    requires WrittenAs(s, t, addr) && WrittenShape(addr)
    requires |t| + 7 < p
    ensures !IsAddressAt(s, p)
  {
    if IsAddressAt(s, p) {
      assert s[|t| + 8] == s[|t| + 7..][1];
      AddressLengthFromFirst(s, p);
    }
  }

  /** The written address, when it is one, is captured whole. */
  lemma WrittenLength(s: string, t: string, addr: string)
    requires WrittenAs(s, t, addr) && WrittenShape(addr)
    requires IsAddressAt(s, |t| + 7)
    ensures AddressLengthAt(s, |t| + 7) == |addr|
  {
    var q := |t| + 7;
    var n := AddressLengthAt(s, q);
    if n != |addr| {
      assert n == 64 && |addr| == 65;
      assert s[q] == s[q..][0];
      AddressLengthFromFirst(s, q);
    }
  }

  /** With no address before it, the written address is the leftmost. */
  lemma WrittenAddressFirst(s: string, t: string, addr: string)
    requires WrittenAs(s, t, addr) && WrittenShape(addr)
    requires forall j :: !IsAddressAt(t, j)
    requires IsAddressAt(s, |t| + 7)
    ensures FirstAddress(s, 0) == Some(|t| + 7)
  {
    var q := |t| + 7;
    forall j | 0 <= j < q ensures !IsAddressAt(s, j) {
      if IsAddressAt(s, j) {
        OnlyWrittenAddress(s, t, addr, j);
      }
    }
    FirstAddressIs(s, 0, q);
  }

  /** With the written address not matched, the text holds no address at all. */
  lemma WrittenAddressMissed(s: string, t: string, addr: string)
    requires WrittenAs(s, t, addr) && WrittenShape(addr)
    requires forall j :: !IsAddressAt(t, j)
    requires !IsAddressAt(s, |t| + 7)
    ensures FirstAddress(s, 0).None?
  {
    forall j ensures !IsAddressAt(s, j) {
      if IsAddressAt(s, j) {
        OnlyWrittenAddress(s, t, addr, j);
      }
    }
    NoAddressNoFirst(s);
  }

  /** A labelled match that does not take the address where it was tried takes
      only white space between the label and the address. */
  lemma LabelledMatchSpaces(t: string, c: nat, q: nat)
    requires MatchAt(t, c, NanoLabel) == Some(q) && q != c
    ensures c + 5 <= q && forall i :: c + 5 <= i < q ==> IsJsSpace(t[i])
  {
  }

  /** Before the written line no match of the cut pattern starts: its address
      would have to be the written one, and the label's colon is not white space. */
  lemma NoLineMatchBefore(s: string, t: string, addr: string, b: nat)
    requires WrittenAs(s, t, addr) && WrittenShape(addr)
    requires forall j :: !IsAddressAt(t, j)
    requires b < |t|
    ensures LineMatchAt(s, b).None?
  {
    var r := LineMatchAt(s, b);
    if r.Some? {
      OnlyWrittenAddress(s, t, addr, r.value);
      var c := if s[b] == '\n' && MatchAt(s, b + 1, NanoLabel).Some? then b + 1 else b;
      assert MatchAt(s, c, NanoLabel) == r;
      LabelledMatchSpaces(s, c, r.value);
    }
  }

  /** At the written line the cut pattern takes the newline, the label, the space
      and the address. */
  lemma LineMatchAtWritten(s: string, t: string, addr: string)
    requires WrittenAs(s, t, addr)
    requires IsAddressAt(s, |t| + 7)
    ensures LineMatchAt(s, |t|) == Some(|t| + 7)
  {
    var m := |t| + 1;
    AddressCharsAt(s, |t| + 7, |t| + 7);
    assert SpaceRunEnd(s, m + 5) == |t| + 7 by {
      assert SpaceRunEnd(s, m + 5) == SpaceRunEnd(s, m + 6);
    }
  }

  /** Cutting the address line out of the written text leaves what came before it. */
  lemma CutWrittenLine(s: string, t: string, addr: string)
    requires WrittenAs(s, t, addr) && WrittenShape(addr)
    requires forall j :: !IsAddressAt(t, j)
    requires IsAddressAt(s, |t| + 7)
    ensures CutAddressLine(s) == t
  {
    forall b | 0 <= b < |t| ensures LineMatchAt(s, b).None? {
      NoLineMatchBefore(s, t, addr, b);
    }
    LineMatchAtWritten(s, t, addr);
    LineSearchIs(s, 0, |t|, |t| + 7);
    WrittenLength(s, t, addr);
    assert s[|t| + 7 + |addr|..] == [];
  }

  /** A match at `m` with none before it, from `b` on, is the leftmost. */
  lemma {:induction false} LineSearchIs(t: string, b: nat, m: nat, q: nat)
    requires b <= m <= |t| && LineMatchAt(t, m) == Some(q)
    requires forall c :: b <= c < m ==> LineMatchAt(t, c).None?
    ensures LineSearch(t, b) == Some((m, q))
    decreases m - b
  {
    if b < m {
      LineSearchIs(t, b + 1, m, q);
    }
  }

  /** `SavedAbout` on the written text, when the written address is matched:
      it is cut out and written back after the trimmed text before it. */
  lemma SavedWritten(s: string, t: string, addr: string)
    requires WrittenAs(s, t, addr) && WrittenShape(addr)
    requires forall j :: !IsAddressAt(t, j)
    requires IsAddressAt(s, |t| + 7)
    ensures SavedAbout(s) == Trim(t) + T.NanoLine + addr
  {
    WrittenFound(s, t, addr);
    SavedAboutFound(s, |t| + 7, t, Trim(t), addr);
  }

  /** What `SavedAbout` needs of the written text when its address is matched:
      it is the leftmost, it is captured whole, and the cut leaves `t`. */
  lemma WrittenFound(s: string, t: string, addr: string)
    requires WrittenAs(s, t, addr) && WrittenShape(addr)
    requires forall j :: !IsAddressAt(t, j)
    requires IsAddressAt(s, |t| + 7)
    ensures FirstAddress(s, 0) == Some(|t| + 7) && AddressLengthAt(s, |t| + 7) == |addr|
    ensures |t| + 7 + |addr| <= |s| && s[|t| + 7..|t| + 7 + |addr|] == addr
    ensures CutAddressLine(s) == t
  {
    WrittenAddressFirst(s, t, addr);
    WrittenLength(s, t, addr);
    CutWrittenLine(s, t, addr);
    SuffixIs(s, |t| + 7, addr);
  }

  lemma SuffixIs(s: string, k: nat, a: string)
    requires k <= |s| && s[k..] == a
    ensures k + |a| == |s| && s[k..k + |a|] == a
  {
  }

  /** `SavedAbout` when the leftmost address and the cut text are known. */
  lemma SavedAboutFound(about: string, q: nat, cut: string, rest: string, a: string)
    requires FirstAddress(about, 0) == Some(q) && AddressLengthAt(about, q) == |a|
    requires q + |a| <= |about| && about[q..q + |a|] == a
    requires CutAddressLine(about) == cut && Trim(cut) == rest
    ensures SavedAbout(about) == rest + T.NanoLine + a
  {
    SavedAboutMovesLeftmost(about);
  }

  /** The client keeps the text the form wrote when the form's about text holds
      no address: the written address is the only one, so it is cut out and written
      back in the same place; if the `i`-flag pattern does not see it, nothing is
      found and nothing changes. */
  lemma SavedAboutKeepsWritten(about: string, addr: string)
    requires ValidateNanoAddress(addr) && (StartsWith(addr, "nano_") || StartsWith(addr, "xno_"))
    requires FirstAddress(about, 0).None?
    ensures SavedAbout(T.Formatted(about, addr)) == T.Formatted(about, addr)
  {
    var t := Trim(about);
    var s := t + T.NanoLine + addr;
    TrimmedHasNoAddress(about);
    TrimIdempotent(about);
    ValidWrittenShape(addr);
    WrittenParts(t, addr);
    if IsAddressAt(s, |t| + 7) {
      SavedWritten(s, t, addr);
    } else {
      WrittenAddressMissed(s, t, addr);
    }
  }

  /** The round trip through the form, the client and `loadProfile`: when the
      address has a lower-case prefix and the about text has neither `Nano: ` nor
      an address in it, the profile the client keeps gives back the address and the
      trimmed about text. */
  lemma SaveThenLoad(name: string, about: string, addr: string, lud16: string, current: JsonObject)
    requires ValidateNanoAddress(addr) && (StartsWith(addr, "nano_") || StartsWith(addr, "xno_"))
    requires !Contains(about, T.NanoMarker) && FirstAddress(about, 0).None?
    ensures T.FormatAbout(about, addr).Ok?
    ensures var saved := CleanProfile(name, SavedAbout(T.FormatAbout(about, addr).value), lud16, current)["about"];
      && saved.JString?
      && T.ExtractNano(saved.s) == addr
      && T.CleanAbout(saved.s) == Trim(about)
  {
    T.FormatWithoutLine(about, addr);
    SavedAboutKeepsWritten(about, addr);
    T.FormatThenExtract(about, addr);
    T.FormatThenClean(about, addr);
  }

  /** With no address given, the form's about text passes through the client
      unchanged when it holds no address. */
  lemma SaveWithoutAddress(about: string)
    requires FirstAddress(about, 0).None?
    ensures T.FormatAbout(about, "") == Ok(about)
    ensures SavedAbout(T.FormatAbout(about, "").value) == about
  {
  }
}
