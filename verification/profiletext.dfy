/** js/app.js: the `Nano:` line that `updateProfile` writes into the about text
    and that `loadProfile` reads back out of it. The two regular expressions,
    `/Nano: ((?:nano|xno)_[^\s]+)/` and `/\nNano: (?:nano|xno)_[^\s]+/`, are matched
    the way a JavaScript matcher does: case-sensitive, the leftmost match, the
    greedy run of non-white-space characters. */
module ProfileText {
  import opened Wrappers
  import opened JsString
  import opened Json
  import opened Utils

  /** The marker `loadProfile` looks for. */
  const NanoMarker := "Nano: "
  /** The line `updateProfile` writes and replaces. */
  const NanoLine := "\nNano: "

  /** `[^\s]*` from `p`, greedy: the length of the run of non-white-space characters. */
  function NonSpaceRun(s: string, p: nat): (n: nat)
    requires p <= |s|
    ensures p + n <= |s|
    ensures forall i :: p <= i < p + n ==> !IsJsSpace(s[i])
    ensures p + n < |s| ==> IsJsSpace(s[p + n])
    decreases |s| - p
  {
    if p == |s| || IsJsSpace(s[p]) then 0 else 1 + NonSpaceRun(s, p + 1)
  }

  /** `(?:nano|xno)_[^\s]+` at `p`: the length of the match. The alternatives are
      tried in order; they cannot both match, and the run ends the pattern, so the
      greedy run is the match. */
  function AddressAt(s: string, p: nat): (r: Option<nat>)
    requires p <= |s|
    ensures r.Some? ==> p + r.value <= |s|
    ensures r.Some? ==> (OccursAt(s, "nano_", p) && r.value > 5) || (OccursAt(s, "xno_", p) && r.value > 4)
    ensures r.Some? ==> forall i :: p <= i < p + r.value ==> !IsJsSpace(s[i])
    ensures r.Some? ==> p + r.value == |s| || IsJsSpace(s[p + r.value])
  {
    var k := if OccursAt(s, "nano_", p) then 5 else if OccursAt(s, "xno_", p) then 4 else 0;
    if k == 0 then None
    else
      assert forall i :: p <= i < p + k ==> s[i] in "nanox_";
      var n := NonSpaceRun(s, p + k);
      if n == 0 then None else Some(k + n)
  }

  /** `marker` followed by an address, at `i`: the length of the whole match. */
  function MatchAt(s: string, marker: string, i: nat): (r: Option<nat>)
    requires i <= |s|
    ensures r.Some? ==> OccursAt(s, marker, i) && i + r.value <= |s| && r.value > |marker|
    ensures r.Some? ==> AddressAt(s, i + |marker|) == Some(r.value - |marker|)
  {
    if OccursAt(s, marker, i) then
      match AddressAt(s, i + |marker|)
      case None => None
      case Some(n) => Some(|marker| + n)
    else None
  }

  /** The leftmost match at or after `from`: where it starts and how long it is. */
  function FirstMatch(s: string, marker: string, from: nat): (r: Option<(nat, nat)>)
    requires from <= |s|
    ensures r.Some? ==> from <= r.value.0 <= |s| && MatchAt(s, marker, r.value.0) == Some(r.value.1)
    decreases |s| - from
  {
    match MatchAt(s, marker, from)
    case Some(n) => Some((from, n))
    case None => if from == |s| then None else FirstMatch(s, marker, from + 1)
  }

  /** The match found is the leftmost: no match starts at a position from `from`
      on before it, nor anywhere from `from` on when none is found. */
  lemma {:induction false} FirstMatchLeftmost(s: string, marker: string, from: nat, j: nat)
    requires from <= j <= |s|
    requires FirstMatch(s, marker, from).None? || j < FirstMatch(s, marker, from).value.0
    ensures MatchAt(s, marker, j).None?
    decreases j - from
  {
    if j > from {
      assert MatchAt(s, marker, from).None?;
      FirstMatchLeftmost(s, marker, from + 1, j);
    }
  }

  /** `loadProfile`: the address captured by `/Nano: ((?:nano|xno)_[^\s]+)/`, or
      `''` when nothing matches. A found address starts with a lower-case prefix
      and holds no white space. */
  function ExtractNano(about: string): (addr: string)
    ensures addr != [] <==> FirstMatch(about, NanoMarker, 0).Some?
    ensures addr != [] ==> (StartsWith(addr, "nano_") || StartsWith(addr, "xno_")) && NoSpaces(addr)
  {
    match FirstMatch(about, NanoMarker, 0)
    case None => ""
    case Some(found) =>
      CaptureShape(about, found.0, found.1);
      about[found.0 + |NanoMarker|..found.0 + found.1]
  }

  /** What a match of the marker captures has that shape. */
  lemma CaptureShape(s: string, i: nat, n: nat)
    requires i <= |s| && MatchAt(s, NanoMarker, i) == Some(n)
    ensures i + n <= |s| && |NanoMarker| <= n
    ensures var addr := s[i + |NanoMarker|..i + n];
      (StartsWith(addr, "nano_") || StartsWith(addr, "xno_")) && NoSpaces(addr)
  {
    var p := i + |NanoMarker|;
    var m := n - |NanoMarker|;
    assert AddressAt(s, p) == Some(m);
    CapturedPrefix(s, p, m);
    CapturedNoSpaces(s, p, m);
  }

  /** The run `AddressAt` matches starts with a lower-case prefix. */
  lemma CapturedPrefix(s: string, p: nat, m: nat)
    requires p <= |s| && AddressAt(s, p) == Some(m)
    ensures StartsWith(s[p..p + m], "nano_") || StartsWith(s[p..p + m], "xno_")
  {
    var addr := s[p..p + m];
    if OccursAt(s, "nano_", p) && m > 5 {
      assert addr[..5] == s[p..p + 5];
    } else {
      assert addr[..4] == s[p..p + 4];
    }
  }

  /** The run `AddressAt` matches holds no white space. */
  lemma CapturedNoSpaces(s: string, p: nat, m: nat)
    requires p <= |s| && AddressAt(s, p) == Some(m)
    ensures NoSpaces(s[p..p + m])
  {
    var addr := s[p..p + m];
    forall i | 0 <= i < m ensures !IsJsSpace(addr[i]) {
      assert addr[i] == s[p + i];
    }
  }

  /** `text.replace(/\nNano: (?:nano|xno)_[^\s]+/, '')`: the first match cut out. */
  function RemoveNanoLine(text: string): (r: string)
    ensures |r| <= |text|
    ensures FirstMatch(text, NanoLine, 0).None? ==> r == text
  {
    match FirstMatch(text, NanoLine, 0)
    case None => text
    case Some((i, n)) => text[..i] + text[i + n..]
  }

  /** `loadProfile`'s cleaned about: the first `Nano:` line cut out, then trimmed. */
  function CleanAbout(about: string): (r: string)
    ensures Trim(r) == r
  {
    TrimIdempotent(RemoveNanoLine(about));
    Trim(RemoveNanoLine(about))
  }

  /** `updateProfile`'s about text: an address that is given and invalid is
      refused; a given address replaces the first `Nano:` line, after trimming;
      with no address the about text is left as it is. */
  function FormatAbout(about: string, nanoAddress: string): (r: Result<string, string>)
    ensures r.Err? <==> nanoAddress != "" && !ValidateNanoAddress(nanoAddress)
    ensures r.Err? ==> r.error == "Invalid Nano address format"
    ensures nanoAddress == "" ==> r == Ok(about)
  {
    if nanoAddress != "" && !ValidateNanoAddress(nanoAddress) then Err("Invalid Nano address format")
    else if nanoAddress != "" then Ok(Trim(RemoveNanoLine(about)) + NanoLine + nanoAddress)
    else Ok(about)
  }

  /** `updateProfile`'s metadata: `{ name: name || '', about, lud16: lightning || '' }`,
      built only when the address is accepted. */
  function UpdateProfile(name: string, about: string, nanoAddress: string, lightning: string): (r: Result<JsonObject, string>)
    ensures r.Err? <==> FormatAbout(about, nanoAddress).Err?
    ensures r.Ok? ==> r.value.Keys == {"name", "about", "lud16"}
    ensures r.Ok? ==> r.value["name"] == JString(name) && r.value["lud16"] == JString(lightning)
    ensures r.Ok? ==> r.value["about"] == JString(FormatAbout(about, nanoAddress).value)
  {
    match FormatAbout(about, nanoAddress)
    case Err(e) => Err(e)
    case Ok(text) => Ok(map["name" := JString(name), "about" := JString(text), "lud16" := JString(lightning)])
  }

  // ---------------------------------------------------------------- the round trip

  /** A valid address holds no white space: lower-casing leaves white space as it
      is, and no character of the grammar is white space. */
  lemma ValidAddressHasNoSpaces(a: string)
    requires ValidateNanoAddress(a)
    ensures NoSpaces(a)
  {
    var t := ToLowerCase(a);
    LowerAddressHasNoSpaces(t);
    forall i | 0 <= i < |a| ensures !IsJsSpace(a[i]) {
      assert t[i] == LowerChar(a[i]);
      LowerKeepsSpace(a[i]);
    }
  }

  /** Lower-casing leaves white space as it is. */
  lemma LowerKeepsSpace(c: char)
    ensures IsJsSpace(c) ==> LowerChar(c) == c
  {
  }

  lemma LowerAddressHasNoSpaces(t: string)
    requires IsLowerAddress(t)
    ensures NoSpaces(t)
  {
    var k := if |t| == 65 then 5 else 4;
    assert t[..k] == "nano_" || t[..k] == "xno_";
    forall i | 0 <= i < |t| ensures !IsJsSpace(t[i]) {
      if i < k {
        assert t[i] == t[..k][i];
      } else if i > k {
        assert InAlphabet(t[i]);
      }
    }
  }

  /** An occurrence lying inside `t` is an occurrence in `t`. */
  lemma OccursInside(t: string, rest: string, sub: string, j: nat)
    requires j + |sub| <= |t|
    ensures OccursAt(t + rest, sub, j) == OccursAt(t, sub, j)
  {
    assert (t + rest)[j..j + |sub|] == t[j..j + |sub|];
  }

  /** An occurrence that would run over the newline at `|t|` needs a newline at
      that place of `sub`. */
  lemma NoStraddle(t: string, rest: string, sub: string, j: nat)
    requires j <= |t| < j + |sub| && rest != [] && rest[0] == '\n'
    requires sub[|t| - j] != '\n'
    ensures !OccursAt(t + rest, sub, j)
  {
    var s := t + rest;
    assert s[|t|] == '\n';
    if j + |sub| <= |s| {
      assert s[j..j + |sub|][|t| - j] == s[|t|];
    }
  }

  /** What is in a trimmed text is in the text. */
  lemma TrimmedOccurrence(about: string, sub: string, j: nat)
    requires OccursAt(Trim(about), sub, j)
    ensures Contains(about, sub)
  {
    var t := Trim(about);
    var a := |about| - |TrimStart(about)|;
    assert about[a + j..a + j + |sub|] == t[j..j + |sub|];
    assert OccursAt(about, sub, a + j);
  }

  /** The address run of a valid address with a lower-case prefix, at the end of
      a text, is the whole address. */
  lemma AddressAtEnd(s: string, p: nat, addr: string)
    requires ValidateNanoAddress(addr) && (StartsWith(addr, "nano_") || StartsWith(addr, "xno_"))
    requires p + |addr| == |s| && s[p..] == addr
    ensures AddressAt(s, p) == Some(|addr|)
  {
    ValidAddressHasNoSpaces(addr);
    ValidAddressLength(addr);
    var k := if StartsWith(addr, "nano_") then 5 else 4;
    assert OccursAt(s, "nano_", p) <==> StartsWith(addr, "nano_") by {
      assert s[p..p + 5] == addr[..5];
    }
    if k == 4 {
      assert s[p..p + 4] == addr[..4];
    }
    forall i | p + k <= i < |s| ensures !IsJsSpace(s[i]) {
      assert s[i] == addr[i - p];
    }
    NonSpaceRunToEnd(s, p + k);
  }

  lemma {:induction false} NonSpaceRunToEnd(s: string, p: nat)
    requires p <= |s| && forall i :: p <= i < |s| ==> !IsJsSpace(s[i])
    ensures NonSpaceRun(s, p) == |s| - p
    decreases |s| - p
  {
    if p < |s| {
      NonSpaceRunToEnd(s, p + 1);
    }
  }

  /** The text `updateProfile` writes, when the about text has no `Nano: ` in it. */
  function Formatted(about: string, addr: string): string {
    Trim(about) + NanoLine + addr
  }

  /** Trimming adds no occurrence. */
  lemma TrimKeepsAbsent(about: string)
    requires !Contains(about, NanoMarker)
    ensures !Contains(Trim(about), NanoMarker)
  {
    if Contains(Trim(about), NanoMarker) {
      var j: nat :| j <= |Trim(about)| && OccursAt(Trim(about), NanoMarker, j);
      TrimmedOccurrence(about, NanoMarker, j);
    }
  }

  /** Before the written line there is no match of either pattern. */
  lemma NoEarlierMatch(t: string, addr: string, j: nat)
    requires !Contains(t, NanoMarker)
    requires j <= |t|
    ensures var s := t + NanoLine + addr;
      MatchAt(s, NanoMarker, j).None? && (j < |t| ==> MatchAt(s, NanoLine, j).None?)
  {
    var rest := NanoLine + addr;
    var s := t + NanoLine + addr;
    assert s == t + rest;
    if j + |NanoMarker| <= |t| {
      OccursInside(t, rest, NanoMarker, j);
    } else {
      NoStraddle(t, rest, NanoMarker, j);
    }
    if j < |t| {
      if j + |NanoLine| <= |t| {
        OccursInside(t, rest, NanoLine, j);
        LineHoldsMarker(t, j);
      } else {
        NoStraddle(t, rest, NanoLine, j);
      }
    }
  }

  /** With no `Nano: ` in the about text, `updateProfile` writes the trimmed about
      text and then the line. */
  lemma FormatWithoutLine(about: string, addr: string)
    requires ValidateNanoAddress(addr)
    requires !Contains(about, NanoMarker)
    ensures FormatAbout(about, addr) == Ok(Formatted(about, addr))
  {
    NoLineWithoutMarker(about);
  }

  /** The round trip of `updateProfile` and `loadProfile`: when the address has a
      lower-case prefix and the about text has no `Nano: ` in it, the text written
      gives back the address. */
  lemma FormatThenExtract(about: string, addr: string)
    requires ValidateNanoAddress(addr) && (StartsWith(addr, "nano_") || StartsWith(addr, "xno_"))
    requires !Contains(about, NanoMarker)
    ensures ExtractNano(Formatted(about, addr)) == addr
  {
    TrimKeepsAbsent(about);
    ReadBackWritten(Trim(about), addr);
  }

  /** The address on the written line is the one read back. */
  lemma ReadBackWritten(t: string, addr: string)
    requires ValidateNanoAddress(addr) && (StartsWith(addr, "nano_") || StartsWith(addr, "xno_"))
    requires !Contains(t, NanoMarker)
    ensures ExtractNano(t + NanoLine + addr) == addr
  {
    var s := t + NanoLine + addr;
    WrittenMarkerFirst(t, addr);
    ExtractNanoIs(s, |t| + 1, 6 + |addr|);
    WrittenAddressSlice(t, addr);
  }

  lemma WrittenAddressSlice(t: string, addr: string)
    ensures (t + NanoLine + addr)[|t| + 7..|t| + 7 + |addr|] == addr
  {
  }

  /** What `loadProfile` captures from a text whose leftmost match is known. */
  lemma ExtractNanoIs(s: string, i: nat, n: nat)
    requires FirstMatch(s, NanoMarker, 0) == Some((i, n))
    ensures ExtractNano(s) == s[i + |NanoMarker|..i + n]
  {
    var f := FirstMatch(s, NanoMarker, 0);
    assert f.value.0 == i && f.value.1 == n;
  }

  /** In the text written, the leftmost marker is the one on the written line. */
  lemma WrittenMarkerFirst(t: string, addr: string)
    requires ValidateNanoAddress(addr) && (StartsWith(addr, "nano_") || StartsWith(addr, "xno_"))
    requires !Contains(t, NanoMarker)
    ensures FirstMatch(t + NanoLine + addr, NanoMarker, 0) == Some((|t| + 1, 6 + |addr|))
  {
    var s := t + NanoLine + addr;
    WrittenMarkerAt(t, addr);
    NoMarkerBefore(t, addr);
    FirstMatchIs(s, NanoMarker, 0, |t| + 1, 6 + |addr|);
  }

  lemma NoMarkerBefore(t: string, addr: string)
    requires !Contains(t, NanoMarker)
    ensures NoMatchBetween(t + NanoLine + addr, NanoMarker, 0, |t| + 1)
  {
    forall j | 0 <= j < |t| + 1 ensures MatchAt(t + NanoLine + addr, NanoMarker, j).None? {
      NoEarlierMatch(t, addr, j);
    }
  }

  /** In the text written, the leftmost line is the written one. */
  lemma WrittenLineFirst(t: string, addr: string)
    requires ValidateNanoAddress(addr) && (StartsWith(addr, "nano_") || StartsWith(addr, "xno_"))
    requires !Contains(t, NanoMarker)
    ensures FirstMatch(t + NanoLine + addr, NanoLine, 0) == Some((|t|, 7 + |addr|))
  {
    var s := t + NanoLine + addr;
    WrittenLineAt(t, addr);
    NoLineBefore(t, addr);
    FirstMatchIs(s, NanoLine, 0, |t|, 7 + |addr|);
  }

  lemma NoLineBefore(t: string, addr: string)
    requires !Contains(t, NanoMarker)
    ensures NoMatchBetween(t + NanoLine + addr, NanoLine, 0, |t|)
  {
    forall j | 0 <= j < |t| ensures MatchAt(t + NanoLine + addr, NanoLine, j).None? {
      NoEarlierMatch(t, addr, j);
    }
  }

  /** The other half of the round trip: the cleaned about of the text written is
      the trimmed about text. */
  lemma FormatThenClean(about: string, addr: string)
    requires ValidateNanoAddress(addr) && (StartsWith(addr, "nano_") || StartsWith(addr, "xno_"))
    requires !Contains(about, NanoMarker)
    ensures RemoveNanoLine(Formatted(about, addr)) == Trim(about)
    ensures CleanAbout(Formatted(about, addr)) == Trim(about)
  {
    TrimKeepsAbsent(about);
    RemoveWrittenLine(Trim(about), addr);
    TrimIdempotent(about);
  }

  /** Cutting out the first line of the text written leaves what came before it. */
  lemma RemoveWrittenLine(t: string, addr: string)
    requires ValidateNanoAddress(addr) && (StartsWith(addr, "nano_") || StartsWith(addr, "xno_"))
    requires !Contains(t, NanoMarker)
    ensures RemoveNanoLine(t + NanoLine + addr) == t
  {
    var s := t + NanoLine + addr;
    WrittenLineFirst(t, addr);
    assert s[..|t|] == t;
    assert s[|t| + 7 + |addr|..] == [];
  }

  /** The marker of the written line, followed by the address, matches. */
  lemma WrittenMarkerAt(t: string, addr: string)
    requires ValidateNanoAddress(addr) && (StartsWith(addr, "nano_") || StartsWith(addr, "xno_"))
    ensures MatchAt(t + NanoLine + addr, NanoMarker, |t| + 1) == Some(6 + |addr|)
  {
    var s := t + NanoLine + addr;
    var m := |t| + 1;
    assert s[m..m + 6] == NanoMarker;
    assert s[m + 6..] == addr;
    AddressAtEnd(s, m + 6, addr);
  }

  /** The written line, with the address, matches right after `t`. */
  lemma WrittenLineAt(t: string, addr: string)
    requires ValidateNanoAddress(addr) && (StartsWith(addr, "nano_") || StartsWith(addr, "xno_"))
    ensures MatchAt(t + NanoLine + addr, NanoLine, |t|) == Some(7 + |addr|)
  {
    var s := t + NanoLine + addr;
    assert s[|t|..|t| + 7] == NanoLine;
    assert s[|t| + 7..] == addr;
    AddressAtEnd(s, |t| + 7, addr);
  }

  /** A `\nNano: ` line holds the marker one character in. */
  lemma LineHoldsMarker(t: string, j: nat)
    ensures OccursAt(t, NanoLine, j) ==> OccursAt(t, NanoMarker, j + 1)
  {
    if j + |NanoLine| <= |t| {
      assert t[j + 1..j + 7] == t[j..j + 7][1..];
    }
  }

  /** Without `Nano: ` there is no `\nNano: ` line to cut out. */
  lemma NoLineWithoutMarker(about: string)
    requires !Contains(about, NanoMarker)
    ensures FirstMatch(about, NanoLine, 0).None?
  {
    forall j | 0 <= j <= |about| ensures MatchAt(about, NanoLine, j).None? {
      LineHoldsMarker(about, j);
    }
    FirstMatchNone(about, NanoLine, 0);
  }

  /** With no match anywhere from `from`, there is none. */
  lemma {:induction false} FirstMatchNone(s: string, marker: string, from: nat)
    requires from <= |s|
    requires forall j :: from <= j <= |s| ==> MatchAt(s, marker, j).None?
    ensures FirstMatch(s, marker, from).None?
    decreases |s| - from
  {
    if from < |s| {
      FirstMatchNone(s, marker, from + 1);
    }
  }

  /** No match starts from `from` up to `m`. */
  predicate NoMatchBetween(s: string, marker: string, from: nat, m: nat)
    requires m <= |s|
  {
    forall j :: from <= j < m ==> MatchAt(s, marker, j).None?
  }

  /** A match at `m` with none before it, from `from` on, is the leftmost match. */
  lemma {:induction false} FirstMatchIs(s: string, marker: string, from: nat, m: nat, n: nat)
    requires from <= m <= |s| && MatchAt(s, marker, m) == Some(n)
    requires NoMatchBetween(s, marker, from, m)
    ensures FirstMatch(s, marker, from) == Some((m, n))
    decreases m - from
  {
    if from < m {
      FirstMatchIs(s, marker, from + 1, m, n);
    }
  }

  /** Saving again with another address replaces the line: a single `Nano:` line
      with the new address stays. */
  lemma UpdateReplacesLine(about: string, addr: string, newAddr: string)
    requires ValidateNanoAddress(addr) && (StartsWith(addr, "nano_") || StartsWith(addr, "xno_"))
    requires ValidateNanoAddress(newAddr)
    requires !Contains(about, NanoMarker)
    ensures FormatAbout(Formatted(about, addr), newAddr) == Ok(Formatted(about, newAddr))
  {
    FormatWithoutLine(about, addr);
    FormatThenClean(about, addr);
    TrimIdempotent(about);
  }

  /** Validation accepts an upper-case `XNO_` prefix but the case-sensitive
      extraction does not find it: the address written is not read back. */
  lemma UpperCasePrefixNotReadBack()
    ensures var addr := "XNO_1" + Ones(59);
      && ValidateNanoAddress(addr)
      && FormatAbout("", addr) == Ok(NanoLine + addr)
      && ExtractNano(NanoLine + addr) == ""
  {
    var addr := "XNO_1" + Ones(59);
    UpperCasePrefixAccepted();
    assert FirstMatch("", NanoLine, 0).None?;
    assert Trim("") == "";
    assert "" + NanoLine + addr == NanoLine + addr;
    UpperCaseLineHasNoMatch(addr);
  }

  lemma UpperCaseLineHasNoMatch(addr: string)
    requires addr == "XNO_1" + Ones(59)
    ensures FirstMatch(NanoLine + addr, NanoMarker, 0).None?
  {
    var s := NanoLine + addr;
    forall j | 0 <= j <= |s| ensures MatchAt(s, NanoMarker, j).None? {
      NoMatchInUpperCaseLine(addr, j);
    }
    FirstMatchNone(s, NanoMarker, 0);
  }

  lemma NoMatchInUpperCaseLine(addr: string, j: nat)
    requires addr == "XNO_1" + Ones(59) && j <= |NanoLine + addr|
    ensures MatchAt(NanoLine + addr, NanoMarker, j).None?
  {
    var s := NanoLine + addr;
    OnlyMarkerAtOne(addr, j);
    if j == 1 {
      assert s[7..12][0] == 'X';
      assert s[7..11][0] == 'X';
      assert !OccursAt(s, "nano_", 7) && !OccursAt(s, "xno_", 7);
      assert AddressAt(s, 7).None?;
    }
  }

  /** In that text the marker can only start at 1: its `a` occurs nowhere else. */
  lemma OnlyMarkerAtOne(addr: string, j: nat)
    requires addr == "XNO_1" + Ones(59) && j <= |NanoLine + addr|
    ensures OccursAt(NanoLine + addr, NanoMarker, j) ==> j == 1
  {
    var s := NanoLine + addr;
    forall k | 7 <= k < |s| ensures s[k] != 'a' {
      if k < 12 {
        assert s[k] == "XNO_1"[k - 7];
      } else {
        assert s[k] == Ones(59)[k - 12];
      }
    }
    if OccursAt(s, NanoMarker, j) {
      assert s[j + 1] == s[j..j + 6][1];
    }
  }
}
