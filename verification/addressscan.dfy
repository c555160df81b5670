/** js/nostr-client.js: `findNanoAddress`, which pulls the leftmost Nano address out
    of free text, and `findNanoAddressInProfile`, which tries the profile fields in a
    fixed order. */
module AddressScan {
  import opened Wrappers
  import opened JsString
  import opened Json
  import opened Utils

  // ---------------------------------------------------------------- cleaning

  /** `text.replace(/\\n/g, '\n')`: every backslash followed by `n` becomes a
      newline, scanning left to right without overlaps. */
  function UnescapeNewlines(s: string): (r: string)
    ensures |r| <= |s|
    ensures !HasEscapedNewline(r)
    ensures (forall i :: 0 <= i < |s| ==> s[i] != '\\') ==> r == s
    ensures r != [] && s != [] && s[0] != '\\' ==> r[0] == s[0]
    decreases |s|
  {
    if s == [] then []
    else if |s| >= 2 && s[0] == '\\' && s[1] == 'n' then "\n" + UnescapeNewlines(s[2..])
    else
      var rest := UnescapeNewlines(s[1..]);
      assert s[0] == '\\' && rest != [] ==> rest[0] != 'n' by {
        if s[0] == '\\' && rest != [] {
          assert |s| >= 2 ==> s[1] != 'n';
          assert s[1] != '\\' ==> rest[0] == s[1];
        }
      }
      [s[0]] + rest
  }

  /** Text with no escaped newline is left as it is. */
  lemma {:induction false} NoBackslashNUnchanged(s: string)
    requires !HasEscapedNewline(s)
    ensures UnescapeNewlines(s) == s
    decreases |s|
  {
    if s != [] {
      assert !(|s| >= 2 && s[0] == '\\' && s[1] == 'n');
      assert !HasEscapedNewline(s[1..]) by {
        forall i | 0 <= i < |s| - 2 ensures !(s[1..][i] == '\\' && s[1..][i + 1] == 'n') {
          assert s[1..][i] == s[i + 1] && s[1..][i + 1] == s[i + 2];
        }
      }
      NoBackslashNUnchanged(s[1..]);
      assert [s[0]] + s[1..] == s;
    }
  }

  /** Each escaped newline becomes a newline in place: the text before it and the
      text after it are unescaped on their own. */
  lemma {:induction false} UnescapeAtPair(a: string, b: string)
    ensures UnescapeNewlines(a + "\\n" + b) == UnescapeNewlines(a) + "\n" + UnescapeNewlines(b)
    decreases |a|
  {
    var s := a + "\\n" + b;
    if a == [] {
      assert s[2..] == b;
    } else if |a| >= 2 && a[0] == '\\' && a[1] == 'n' {
      assert s[0] == '\\' && s[1] == 'n';
      assert s[2..] == a[2..] + "\\n" + b;
      UnescapeAtPair(a[2..], b);
    } else {
      assert s[0] == a[0];
      assert !(s[0] == '\\' && s[1] == 'n') by {
        if |a| == 1 {
          assert s[1] == '\\';
        } else {
          assert s[1] == a[1];
        }
      }
      assert s[1..] == a[1..] + "\\n" + b;
      UnescapeAtPair(a[1..], b);
    }
  }

  /** A backslash directly followed by `n`. */
  predicate HasEscapedNewline(s: string) {
    exists i :: 0 <= i < |s| - 1 && s[i] == '\\' && s[i + 1] == 'n'
  }

  /** The cleaned text the patterns are run on. */
  function CleanText(s: string): (r: string)
    ensures |r| <= |s|
  {
    Trim(UnescapeNewlines(s))
  }

  /** The cleaned text is already trimmed and has no escaped newline left:
      cleaning it again changes nothing. */
  lemma CleanTextIsClean(s: string)
    ensures var r := CleanText(s);
      Trim(r) == r && !HasEscapedNewline(r) && CleanText(r) == r
  {
    var u := UnescapeNewlines(s);
    var r := Trim(u);
    TrimIdempotent(u);
    TrimKeepsNoEscapedNewline(u);
    NoBackslashNUnchanged(r);
  }

  /** Trimming a text with no escaped newline leaves none. */
  lemma TrimKeepsNoEscapedNewline(u: string)
    requires !HasEscapedNewline(u)
    ensures !HasEscapedNewline(Trim(u))
  {
    var a := |u| - |TrimStart(u)|;
    var v := Trim(u);
    assert v == u[a..a + |v|];
    forall i | 0 <= i < |v| - 1 ensures !(v[i] == '\\' && v[i + 1] == 'n') {
      assert v[i] == u[a + i] && v[i + 1] == u[a + i + 1];
    }
  }

  // ---------------------------------------------------------------- the address sub-pattern

  /** A character that can occur in a lower-cased address. */
  predicate AddressChar(c: char) {
    c == '_' || ('a' <= c <= 'z') || ('0' <= c <= '9')
  }

  /** The literal `w` at `q`, with ASCII letters folded (the `i` flag). */
  predicate FoldedAt(t: string, q: nat, w: string) {
    q + |w| <= |t| && forall i :: 0 <= i < |w| ==> AsciiLowerChar(t[q + i]) == w[i]
  }

  /** `[13][...]{n - 1}` at `k`, with ASCII letters folded. */
  predicate BodyAt(t: string, k: nat, n: nat) {
    && 1 <= n && k + n <= |t|
    && (AsciiLowerChar(t[k]) == '1' || AsciiLowerChar(t[k]) == '3')
    && forall i :: k < i < k + n ==> InAlphabet(AsciiLowerChar(t[i]))
  }

  /** The length of the text matched at `q` by `(nano|xno)_[13][...]{59}` under the
      `i` flag, or 0 when it does not match there. The sub-pattern has no end anchor,
      so a longer run of alphabet characters still matches its first 60 after the
      prefix. */
  function AddressLengthAt(t: string, q: nat): (n: nat)
    ensures n == 0 || n == 64 || n == 65
    ensures n != 0 ==> q + n <= |t|
  {
    if FoldedAt(t, q, "nano_") && BodyAt(t, q + 5, 60) then 65
    else if FoldedAt(t, q, "xno_") && BodyAt(t, q + 4, 60) then 64
    else 0
  }

  predicate IsAddressAt(t: string, q: nat) {
    AddressLengthAt(t, q) != 0
  }

  /** Every character of a matched address is an address character once folded: in
      particular none is white space, and the first is `n` or `x`. */
  lemma AddressCharsAt(t: string, q: nat, k: nat)
    requires IsAddressAt(t, q) && q <= k < q + AddressLengthAt(t, q)
    ensures AddressChar(AsciiLowerChar(t[k]))
    ensures !IsJsSpace(t[k])
    ensures k == q ==> AsciiLowerChar(t[k]) == 'n' || AsciiLowerChar(t[k]) == 'x'
  {
    var w := if AddressLengthAt(t, q) == 65 then "nano_" else "xno_";
    if k < q + |w| {
      assert AsciiLowerChar(t[q + (k - q)]) == w[k - q];
    }
  }

  /** The text matched at `q`, folded to lower case, is an address by the grammar
      `validateNanoAddress` checks. */
  lemma MatchedIsLowerAddress(t: string, q: nat)
    requires IsAddressAt(t, q)
    ensures IsLowerAddress(AsciiLower(t[q..q + AddressLengthAt(t, q)]))
  {
    var n := AddressLengthAt(t, q);
    var u := AsciiLower(t[q..q + n]);
    var w := if n == 65 then "nano_" else "xno_";
    assert forall i :: 0 <= i < n ==> u[i] == AsciiLowerChar(t[q + i]);
    assert u[..|w|] == w;
  }

  // ---------------------------------------------------------------- the four patterns

  /** The four regular expressions, in the order they are tried:
      `(?:Nano:\s*)?(addr)`, `(addr)`, `\n\s*(addr)` and `(?:Address:\s*)?(addr)`,
      all with the `i` flag. A word is kept in lower case. */
  datatype Pattern = Labelled(word: string) | Plain | AfterNewline

  const Patterns: seq<Pattern> := [Labelled("nano:"), Plain, AfterNewline, Labelled("address:")]

  /** The end of the run of white space that starts at `p` (`\s*`, greedy). */
  function SpaceRunEnd(t: string, p: nat): (e: nat)
    requires p <= |t|
    ensures p <= e <= |t|
    ensures forall i :: p <= i < e ==> IsJsSpace(t[i])
    ensures e < |t| ==> !IsJsSpace(t[e])
    decreases |t| - p
  {
    if p < |t| && IsJsSpace(t[p]) then SpaceRunEnd(t, p + 1) else p
  }

  /** `\s*(addr)` after the greedy run has stopped at `j`: the address is tried at
      `j`, then the run gives back one character at a time down to `lo`. */
  function Backtrack(t: string, lo: nat, j: nat): (r: Option<nat>)
    requires lo <= j
    ensures r.Some? ==> lo <= r.value <= j && IsAddressAt(t, r.value)
    decreases j - lo
  {
    if IsAddressAt(t, j) then Some(j)
    else if j == lo then None
    else Backtrack(t, lo, j - 1)
  }

  /** Giving back white space never helps: an address cannot start with it. */
  lemma BacktrackOverSpaces(t: string, lo: nat, j: nat)
    requires lo <= j <= |t|
    requires forall i :: lo <= i < j ==> IsJsSpace(t[i])
    ensures IsAddressAt(t, j) ==> Backtrack(t, lo, j) == Some(j)
    ensures !IsAddressAt(t, j) ==> Backtrack(t, lo, j).None?
  {
    if !IsAddressAt(t, j) {
      forall i | lo <= i < j ensures !IsAddressAt(t, i) {
        NoSpaceStartsAddress(t, i);
      }
      BacktrackFindsNone(t, lo, j);
    }
  }

  /** With no address anywhere from `lo` to `j`, backtracking finds none. */
  lemma {:induction false} BacktrackFindsNone(t: string, lo: nat, j: nat)
    requires lo <= j
    requires !IsAddressAt(t, j) && forall i :: lo <= i < j ==> !IsAddressAt(t, i)
    ensures Backtrack(t, lo, j).None?
    decreases j - lo
  {
    if j > lo {
      BacktrackFindsNone(t, lo, j - 1);
    }
  }

  /** `\s*(addr)` from `p`. */
  function SpacesThenAddress(t: string, p: nat): (r: Option<nat>)
    requires p <= |t|
    ensures r.Some? ==> p <= r.value && IsAddressAt(t, r.value)
  {
    Backtrack(t, p, SpaceRunEnd(t, p))
  }

  /** The match of one pattern attempted at `s`: the position of the captured
      address, if the pattern matches there. */
  function MatchAt(t: string, s: nat, pat: Pattern): (r: Option<nat>)
    ensures r.Some? ==> s <= r.value && IsAddressAt(t, r.value)
  {
    match pat
    case Plain => if IsAddressAt(t, s) then Some(s) else None
    case AfterNewline =>
      if s < |t| && t[s] == '\n' then SpacesThenAddress(t, s + 1) else None
    case Labelled(word) =>
      var viaLabel :=
        if s + |word| <= |t| && AsciiLower(t[s..s + |word|]) == word
        then SpacesThenAddress(t, s + |word|) else None;
      if viaLabel.Some? then viaLabel
      else if IsAddressAt(t, s) then Some(s)
      else None
  }

  /** `String.prototype.match` with a non-global pattern: the first start position
      from `s` on where the pattern matches. */
  function Search(t: string, s: nat, pat: Pattern): (r: Option<nat>)
    ensures r.Some? ==> s <= r.value && IsAddressAt(t, r.value)
    decreases |t| + 1 - s
  {
    if s > |t| then None
    else match MatchAt(t, s, pat)
      case Some(e) => Some(e)
      case None => Search(t, s + 1, pat)
  }

  /** The reference definition: the leftmost position from `s` on where an address
      starts. */
  function FirstAddress(t: string, s: nat): (r: Option<nat>)
    ensures r.Some? ==> s <= r.value && IsAddressAt(t, r.value)
    ensures r.Some? ==> forall j :: s <= j < r.value ==> !IsAddressAt(t, j)
    ensures r.None? ==> forall j :: s <= j ==> !IsAddressAt(t, j)
    decreases |t| + 1 - s
  {
    if s > |t| then None
    else if IsAddressAt(t, s) then Some(s)
    else FirstAddress(t, s + 1)
  }

  /** The leftmost address is determined by any address that has none before it. */
  lemma FirstAddressIs(t: string, s: nat, e: nat)
    requires s <= e && IsAddressAt(t, e)
    requires forall j :: s <= j < e ==> !IsAddressAt(t, j)
    ensures FirstAddress(t, s) == Some(e)
  {
  }

  /** One attempt of a labelled pattern whose word ends in a colon: when it
      matches, no address starts between the attempt and the captured one (the word
      cannot overlap an address, and the white space after it cannot start one); when
      it does not, no address starts at the attempt. */
  lemma LabelledMatchIsLeftmost(t: string, s: nat, word: string)
    requires 1 <= |word| <= 64 && word[|word| - 1] == ':'
    requires s <= |t|
    ensures MatchAt(t, s, Labelled(word)).None? ==> !IsAddressAt(t, s)
    ensures MatchAt(t, s, Labelled(word)).Some? ==>
      forall j :: s <= j < MatchAt(t, s, Labelled(word)).value ==> !IsAddressAt(t, j)
  {
    var p := s + |word|;
    if p <= |t| && AsciiLower(t[s..p]) == word {
      var run := SpaceRunEnd(t, p);
      BacktrackOverSpaces(t, p, run);
      assert AsciiLowerChar(t[p - 1]) == ':' by {
        assert AsciiLower(t[s..p])[|word| - 1] == AsciiLowerChar(t[p - 1]);
      }
      forall j | s <= j < run
        ensures !IsAddressAt(t, j)
      {
        if j < p {
          NoColonInAddress(t, j, p - 1);
        } else {
          NoSpaceStartsAddress(t, j);
        }
      }
    }
  }

  lemma NoColonInAddress(t: string, j: nat, k: nat)
    requires j <= k < j + 64 && k < |t| && AsciiLowerChar(t[k]) == ':'
    ensures !IsAddressAt(t, j)
  {
    if IsAddressAt(t, j) {
      AddressCharsAt(t, j, k);
    }
  }

  lemma NoSpaceStartsAddress(t: string, j: nat)
    requires j < |t| && IsJsSpace(t[j])
    ensures !IsAddressAt(t, j)
  {
    if IsAddressAt(t, j) {
      AddressCharsAt(t, j, j);
    }
  }

  /** A labelled pattern whose word ends in a colon finds exactly the leftmost
      address. */
  lemma {:induction false} LabelledSearchIsLeftmost(t: string, s: nat, word: string)
    requires 1 <= |word| <= 64 && word[|word| - 1] == ':'
    ensures Search(t, s, Labelled(word)) == FirstAddress(t, s)
    decreases |t| + 1 - s
  {
    if s <= |t| {
      LabelledMatchIsLeftmost(t, s, word);
      var m := MatchAt(t, s, Labelled(word));
      if m.None? {
        LabelledSearchIsLeftmost(t, s + 1, word);
      } else {
        FirstAddressIs(t, s, m.value);
      }
    }
  }

  /** The address whose position is given. */
  function AddressFrom(t: string, pos: Option<nat>): (r: Option<string>)
    ensures pos.None? ==> r.None?
    ensures pos.Some? && IsAddressAt(t, pos.value) ==>
      r.Some? && r.value == t[pos.value..pos.value + AddressLengthAt(t, pos.value)]
    ensures r.Some? ==> |r.value| == 64 || |r.value| == 65
  {
    match pos
    case None => None
    case Some(q) => if IsAddressAt(t, q) then Some(t[q..q + AddressLengthAt(t, q)]) else None
  }

  /** The patterns tried in order; the first that matches gives its captured address. */
  function ScanWith(t: string, pats: seq<Pattern>): (r: Option<string>)
    ensures r.None? <==> forall i :: 0 <= i < |pats| ==> Search(t, 0, pats[i]).None?
    ensures r.Some? ==> |r.value| == 64 || |r.value| == 65
  {
    if pats == [] then None
    else match Search(t, 0, pats[0])
      case Some(q) => AddressFrom(t, Some(q))
      case None => ScanWith(t, pats[1..])
  }

  /** `findNanoAddress(text)`: nothing for a value that is not a non-empty string;
      otherwise the patterns in order on the cleaned text. */
  function FindNanoAddress(text: Json): (r: Option<string>)
    ensures r.Some? ==> text.JString? && text.s != ""
    ensures r.Some? ==> |r.value| == 64 || |r.value| == 65
  {
    match text
    case JString(s) => if s == "" then None else ScanWith(CleanText(s), Patterns)
    case _ => None
  }

  /** Only the first pattern decides: it finds the leftmost address, and when it
      finds none no other pattern can match, since each of them captures an address. */
  lemma ScanDecidedByFirstPattern(t: string)
    ensures ScanWith(t, Patterns) == AddressFrom(t, FirstAddress(t, 0))
  {
    LabelledSearchIsLeftmost(t, 0, "nano:");
    if FirstAddress(t, 0).None? {
      assert forall i :: 0 <= i < |Patterns| ==> Search(t, 0, Patterns[i]).None?;
    }
  }

  /** The result of `findNanoAddress` is the leftmost address of the cleaned text,
      read from that text; there is none exactly when no address occurs. */
  lemma FindNanoAddressIsLeftmost(s: string)
    requires s != ""
    ensures var t := CleanText(s);
      && (FirstAddress(t, 0).None? ==> FindNanoAddress(JString(s)).None?)
      && (FirstAddress(t, 0).Some? ==>
            var q := FirstAddress(t, 0).value;
            FindNanoAddress(JString(s)) == Some(t[q..q + AddressLengthAt(t, q)]))
  {
    var t := CleanText(s);
    ScanDecidedByFirstPattern(t);
    assert FindNanoAddress(JString(s)) == ScanWith(t, Patterns);
  }

  /** Every captured address passes `validateNanoAddress`: it is ASCII, so
      `toLowerCase` and the `i` flag agree on it. */
  lemma MatchedAddressValidates(t: string, q: nat)
    requires IsAddressAt(t, q)
    ensures ValidateNanoAddress(t[q..q + AddressLengthAt(t, q)])
  {
    var a := t[q..q + AddressLengthAt(t, q)];
    MatchedIsLowerAddress(t, q);
    forall i | 0 <= i < |a|
      ensures a[i] < '\U{0080}'
    {
      AddressCharsAt(t, q, q + i);
    }
    LowerCasesAgreeOnAscii(a);
  }

  /** A non-null result of `findNanoAddress` is accepted by `validateNanoAddress`. */
  lemma FoundAddressValidates(text: Json)
    requires FindNanoAddress(text).Some?
    ensures ValidateNanoAddress(FindNanoAddress(text).value)
  {
    var t := CleanText(text.s);
    FindNanoAddressIsLeftmost(text.s);
    assert FirstAddress(t, 0).Some?;
    var q := FirstAddress(t, 0).value;
    assert FindNanoAddress(text) == Some(t[q..q + AddressLengthAt(t, q)]);
    MatchedAddressValidates(t, q);
  }

  /** A matched address, taken on its own, matches at its start with its full
      length. */
  lemma MatchedAddressAlone(t: string, q: nat)
    requires IsAddressAt(t, q)
    ensures AddressLengthAt(t[q..q + AddressLengthAt(t, q)], 0) == AddressLengthAt(t, q)
  {
    var n := AddressLengthAt(t, q);
    var a := t[q..q + n];
    assert forall i :: 0 <= i < n ==> a[i] == t[q + i];
    if n == 65 {
      assert FoldedAt(a, 0, "nano_") && BodyAt(a, 5, 60);
    } else {
      assert FoldedAt(a, 0, "xno_") && BodyAt(a, 4, 60);
      assert AsciiLowerChar(t[q + 0]) == "xno_"[0];
    }
  }

  /** Cleaning a matched address changes nothing: it holds no backslash and does
      not start or end with white space. */
  lemma MatchedAddressIsClean(t: string, q: nat)
    requires IsAddressAt(t, q)
    ensures CleanText(t[q..q + AddressLengthAt(t, q)]) == t[q..q + AddressLengthAt(t, q)]
  {
    var n := AddressLengthAt(t, q);
    var a := t[q..q + n];
    forall i | 0 <= i < n
      ensures a[i] != '\\'
    {
      AddressCharsAt(t, q, q + i);
    }
    AddressCharsAt(t, q, q);
    AddressCharsAt(t, q, q + n - 1);
    TrimOfTrimmed(a);
  }

  /** A matched address, taken on its own, is found again whole. */
  lemma MatchedAddressFoundAgain(t: string, q: nat)
    requires IsAddressAt(t, q)
    ensures FindNanoAddress(JString(t[q..q + AddressLengthAt(t, q)]))
      == Some(t[q..q + AddressLengthAt(t, q)])
  {
    MatchedAddressAlone(t, q);
    MatchedAddressIsClean(t, q);
    WholeAddressFound(t[q..q + AddressLengthAt(t, q)]);
  }

  /** A clean text that is one address from start to end is found whole. */
  lemma WholeAddressFound(a: string)
    requires AddressLengthAt(a, 0) == |a| != 0
    requires CleanText(a) == a
    ensures FindNanoAddress(JString(a)) == Some(a)
  {
    WholeAddressScanned(a);
    assert FindNanoAddress(JString(a)) == ScanWith(CleanText(a), Patterns);
  }

  lemma WholeAddressScanned(a: string)
    requires AddressLengthAt(a, 0) == |a| != 0
    ensures ScanWith(a, Patterns) == Some(a)
  {
    assert FirstAddress(a, 0) == Some(0);
    ScanDecidedByFirstPattern(a);
    assert a[0..|a|] == a;
  }

  /** Scanning a found address again gives the same address. */
  lemma FindNanoAddressIdempotent(text: Json)
    requires FindNanoAddress(text).Some?
    ensures FindNanoAddress(JString(FindNanoAddress(text).value)) == FindNanoAddress(text)
  {
    var t := CleanText(text.s);
    FindNanoAddressIsLeftmost(text.s);
    assert FirstAddress(t, 0).Some?;
    var q := FirstAddress(t, 0).value;
    var a := t[q..q + AddressLengthAt(t, q)];
    assert FindNanoAddress(text) == Some(a);
    MatchedAddressFoundAgain(t, q);
  }

  // ---------------------------------------------------------------- profiles

  /** The fields scanned, in priority order. */
  const ProfileFields: seq<string> := ["about", "nano", "website", "display_name", "name", "description"]

  /** One field: scanned only when truthy. */
  function FieldHit(p: JsonObject, field: string): (r: Option<string>)
    ensures r.Some? ==> |r.value| == 64 || |r.value| == 65
  {
    if Truthy(Get(p, field)) then FindNanoAddress(Get(p, field)) else None
  }

  /** The outcome of each field, in priority order. */
  function FieldHits(p: JsonObject): (hits: seq<Option<string>>)
    ensures |hits| == |ProfileFields|
    ensures forall i :: 0 <= i < |hits| ==> hits[i] == FieldHit(p, ProfileFields[i])
  {
    seq(|ProfileFields|, i requires 0 <= i < |ProfileFields| => FieldHit(p, ProfileFields[i]))
  }

  /** The first hit from index `k` on. */
  function FirstHit(hits: seq<Option<string>>, k: nat): (r: Option<string>)
    requires k <= |hits|
    ensures r.None? <==> forall i :: k <= i < |hits| ==> hits[i].None?
    ensures r.Some? ==> exists i :: k <= i < |hits| && hits[i] == r
    decreases |hits| - k
  {
    if k == |hits| then None
    else if hits[k].Some? then hits[k]
    else FirstHit(hits, k + 1)
  }

  /** A hit with none before it, from `k` on, is the first hit. */
  lemma {:induction false} FirstHitIs(hits: seq<Option<string>>, k: nat, i: nat)
    requires k <= i < |hits| && hits[i].Some?
    requires forall j :: k <= j < i ==> hits[j].None?
    ensures FirstHit(hits, k) == hits[i]
    decreases i - k
  {
    if k < i {
      FirstHitIs(hits, k + 1, i);
    }
  }

  /** `findNanoAddressInProfile(profile)`: nothing for a missing profile; the first
      field, in priority order, that holds an address; failing that the
      `nano_address` field as it stands, unchecked, when it is truthy. */
  function FindNanoAddressInProfile(profile: Option<JsonObject>): (r: Option<Json>)
    ensures profile.None? ==> r.None?
  {
    match profile
    case None => None
    case Some(p) =>
      match FirstHit(FieldHits(p), 0)
      case Some(a) => Some(JString(a))
      case None =>
        if Truthy(Get(p, "nano_address")) then Some(Get(p, "nano_address")) else None
  }

  /** The first field, in priority order, that holds an address decides. */
  lemma InProfileFirstFieldWins(p: JsonObject, i: nat)
    requires i < |ProfileFields| && FieldHits(p)[i].Some?
    requires forall j :: 0 <= j < i ==> FieldHits(p)[j].None?
    ensures FindNanoAddressInProfile(Some(p)) == Some(JString(FieldHits(p)[i].value))
  {
    FirstHitIs(FieldHits(p), 0, i);
  }

  /** Only when no field holds an address is `nano_address` returned, as it
      stands, when it is truthy. */
  lemma InProfileFallback(p: JsonObject)
    requires forall i :: 0 <= i < |ProfileFields| ==> FieldHits(p)[i].None?
    ensures FindNanoAddressInProfile(Some(p)).Some? <==> Truthy(Get(p, "nano_address"))
    ensures FindNanoAddressInProfile(Some(p)).Some? ==> FindNanoAddressInProfile(Some(p)).value == Get(p, "nano_address")
  {
    assert FirstHit(FieldHits(p), 0).None?;
  }

  /** A non-null result is truthy: a found address is never empty. */
  lemma InProfileResultTruthy(profile: Option<JsonObject>)
    requires FindNanoAddressInProfile(profile).Some?
    ensures Truthy(FindNanoAddressInProfile(profile).value)
  {
    var hits := FieldHits(profile.value);
    var r := FirstHit(hits, 0);
    if r.Some? {
      var i :| 0 <= i < |hits| && hits[i] == r;
      assert |hits[i].value| >= 64;
    }
  }
}
