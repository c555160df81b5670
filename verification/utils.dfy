/** js/utils.js: the Nano address format check and the raw-to-Nano unit
    conversion. */
module Utils {
  import opened Wrappers
  import opened JsString

  /** Nano's base32 alphabet (no `0`, `2`, `l` or `v`). */
  const Alphabet := "13456789abcdefghijkmnopqrstuwxyz"

  /** Membership in `Alphabet`, written as character ranges. */
  predicate InAlphabet(c: char) {
    c == '1' || ('3' <= c <= '9') || ('a' <= c <= 'k') || ('m' <= c <= 'u') || ('w' <= c <= 'z')
  }

  lemma InAlphabetIsAlphabet(c: char)
    ensures InAlphabet(c) <==> c in Alphabet
  {
  }

  /** The address grammar over lower-case text: the prefix `nano_` or `xno_`,
      then `1` or `3`, then exactly 59 alphabet characters, and nothing else. */
  predicate IsLowerAddress(t: string) {
    || (|t| == 65 && t[..5] == "nano_" && BodyFrom(t, 5))
    || (|t| == 64 && t[..4] == "xno_" && BodyFrom(t, 4))
  }

  /** From index `k` on: a `1` or `3`, then alphabet characters to the end. */
  predicate BodyFrom(t: string, k: nat)
    requires k < |t|
  {
    (t[k] == '1' || t[k] == '3') && forall i :: k < i < |t| ==> InAlphabet(t[i])
  }

  // The anchored regular expression `^(xno|nano)_[13][...]{59}$`, matched the way
  // a backtracking matcher does: the alternatives in order, then the rest.

  /** `[...]{n}` at position `p`. */
  function MatchRun(t: string, p: nat, n: nat): (m: bool)
    ensures m <==> p + n <= |t| && forall i :: p <= i < p + n ==> InAlphabet(t[i])
    decreases n
  {
    if n == 0 then p <= |t|
    else if p < |t| && InAlphabet(t[p]) then MatchRun(t, p + 1, n - 1)
    else false
  }

  /** `_[13][...]{59}$` at position `p`. */
  function MatchAfterPrefix(t: string, p: nat): bool {
    && p + 2 <= |t|
    && t[p] == '_'
    && (t[p + 1] == '1' || t[p + 1] == '3')
    && MatchRun(t, p + 2, 59)
    && p + 61 == |t|
  }

  /** `utils.validateNanoAddress`: an empty address is refused; otherwise the
      lower-cased address must match the anchored pattern. It holds exactly when the
      lower-cased address is an address by the grammar. */
  function ValidateNanoAddress(address: string): (ok: bool)
    ensures ok <==> IsLowerAddress(ToLowerCase(address))
  {
    if address == "" then false
    else
      var t := ToLowerCase(address);
      MatcherAgreesWithGrammar(t);
      (StartsWith(t, "xno") && MatchAfterPrefix(t, 3)) || (StartsWith(t, "nano") && MatchAfterPrefix(t, 4))
  }

  /** The pattern matcher and the grammar accept the same strings. */
  lemma MatcherAgreesWithGrammar(t: string)
    ensures ((StartsWith(t, "xno") && MatchAfterPrefix(t, 3)) || (StartsWith(t, "nano") && MatchAfterPrefix(t, 4)))
            <==> IsLowerAddress(t)
  {
    if |t| >= 5 && t[..5] == "nano_" {
      assert t[..4] == t[..5][..4];
      assert t[4] == t[..5][4];
    }
    if |t| >= 4 && t[..4] == "xno_" {
      assert t[..3] == t[..4][..3];
      assert t[3] == t[..4][3];
    }
    if StartsWith(t, "nano") && MatchAfterPrefix(t, 4) {
      assert t[..5] == t[..4] + [t[4]];
    }
    if StartsWith(t, "xno") && MatchAfterPrefix(t, 3) {
      assert t[..4] == t[..3] + [t[3]];
    }
  }

  /** Validation ignores case: an address and its lower case are judged alike. */
  lemma ValidateIgnoresCase(address: string)
    ensures ValidateNanoAddress(address) == ValidateNanoAddress(ToLowerCase(address))
  {
    ToLowerCaseIdempotent(address);
  }

  /** A valid address has 65 characters with the `nano_` prefix and 64 with `xno_`. */
  lemma ValidAddressLength(address: string)
    requires ValidateNanoAddress(address)
    ensures |address| == 65 <==> ToLowerCase(address)[..5] == "nano_"
    ensures |address| == 64 <==> ToLowerCase(address)[..4] == "xno_"
    ensures |address| == 64 || |address| == 65
  {
  }

  /** A `0`, `2`, `l` or `v` in the 59-character body, or a `2` right after the
      prefix, makes the address invalid. */
  lemma ForbiddenCharacterRejected(address: string, i: nat)
    requires i < |address|
    requires ToLowerCase(address)[i] in "02lv"
    requires (StartsWith(ToLowerCase(address), "nano_") && 5 <= i)
          || (StartsWith(ToLowerCase(address), "xno_") && 4 <= i)
    ensures !ValidateNanoAddress(address)
  {
    var t := ToLowerCase(address);
    assert !InAlphabet(t[i]) && t[i] != '1' && t[i] != '3';
  }

  /** The upper-case `XNO_` prefix is accepted. */
  lemma UpperCasePrefixAccepted()
    ensures ValidateNanoAddress("XNO_1" + Ones(59))
  {
    var a := "XNO_1" + Ones(59);
    var t := ToLowerCase(a);
    assert t[..4] == "xno_";
    assert forall i :: 4 < i < |t| ==> t[i] == '1';
  }

  /** A run of `n` ones. */
  function Ones(n: nat): (s: string)
    ensures |s| == n && forall i :: 0 <= i < n ==> s[i] == '1'
  {
    seq(n, i => '1')
  }

  // ---------------------------------------------------------------- rawToNano

  /** One Nano is 10^30 raw. */
  const RawPerNano: nat := 1_000_000_000_000_000_000_000_000_000_000

  /** `BigInt(raw) / 10n ** 30n`: BigInt division truncates toward zero. */
  function RawToNanoAmount(raw: int): (q: int)
    ensures raw >= 0 ==> 0 <= q && q * RawPerNano <= raw < (q + 1) * RawPerNano
    ensures raw < 0 ==> q <= 0 && (q - 1) * RawPerNano < raw <= q * RawPerNano
  {
    if raw >= 0 then raw / RawPerNano else -((-raw) / RawPerNano)
  }

  /** `utils.rawToNano`: the truncated quotient written in decimal. */
  function RawToNano(raw: int): (s: string)
    ensures ParseDecimal(s) == Some(RawToNanoAmount(raw))
  {
    DecimalRoundTrip(RawToNanoAmount(raw));
    IntToDecimal(RawToNanoAmount(raw))
  }

  /** More raw never gives fewer Nano. */
  lemma RawToNanoMonotone(a: int, b: int)
    requires a <= b
    ensures RawToNanoAmount(a) <= RawToNanoAmount(b)
  {
  }

  /** Less than one whole Nano, in either direction, reads as "0". */
  lemma BelowOneNanoIsZero(raw: int)
    requires -(RawPerNano as int) < raw < RawPerNano
    ensures RawToNano(raw) == "0"
  {
    assert RawToNanoAmount(raw) == 0;
  }
}
