/**
 Enrolling a configuration checksum: the tool looks for a signature in the bootloader's
 image, with a search that rewinds its index after a failed match, and overwrites the
 128 characters behind the signature.
 */
module EnrollConfig {
  import opened Options

  const SIGNATURE: string := "++CONFIG_B2SUM_SIGNATURE++"

  datatype Outcome = Enrolled | BadChecksum | TooSmall | NotFound

  predicate MatchAt(f: string, s: nat) {
    s + 26 <= |f| && f[s..s + 26] == SIGNATURE
  }

  /** The simple search: the first signature at s or later whose last character is at most at |f| - 154. */
  function FirstMatch(f: string, s: nat): (r: Option<nat>)
    ensures r.Some? ==> s <= r.value && r.value + 179 <= |f| && MatchAt(f, r.value)
    ensures r.Some? ==> forall t | s <= t < r.value :: !MatchAt(f, t)
    ensures r.None? ==> forall t | s <= t && t + 179 <= |f| :: !MatchAt(f, t)
    decreases |f| - s
  {
    if s + 179 > |f| then None
    else if MatchAt(f, s) then Some(s)
    else FirstMatch(f, s + 1)
  }

  predicate IsHex(c: char) { '0' <= c <= '9' || 'a' <= c <= 'f' || 'A' <= c <= 'F' }

  predicate ValidChecksum(h: string) {
    |h| == 128 && forall k | 0 <= k < 128 :: IsHex(h[k])
  }

  /** The hexadecimal digits are these 22 characters. */
  lemma {:induction false} HexCharacters(c: char)
    ensures IsHex(c) <==> c in "0123456789abcdefABCDEF"
  {
    var all := "0123456789abcdefABCDEF";
    if '0' <= c <= '9' {
      assert all[(c - '0') as int] == c;
    } else if 'a' <= c <= 'f' {
      assert all[10 + (c - 'a') as int] == c;
    } else if 'A' <= c <= 'F' {
      assert all[16 + (c - 'A') as int] == c;
    }
  }

  lemma {:induction false} ChecksumCharacters(h: string)
    ensures ValidChecksum(h) <==> |h| == 128 && forall k | 0 <= k < 128 :: h[k] in "0123456789abcdefABCDEF"
  {
    forall c: char ensures IsHex(c) <==> c in "0123456789abcdefABCDEF" {
      HexCharacters(c);
    }
  }

  /** The image with h behind the signature at s. */
  function Patched(f: string, s: nat, h: string): (r: string)
    requires |h| == 128 && s + 154 <= |f|
    ensures |r| == |f|
    ensures forall k | 0 <= k < |f| :: r[k] == if s + 26 <= k < s + 154 then h[k - s - 26] else f[k]
  {
    f[..s + 26] + h + f[s + 154..]
  }

  /** What enrolling h does to an image. */
  function Enroll(f: string, h: string): (Outcome, string) {
    if !ValidChecksum(h) then (BadChecksum, f)
    else if |f| < 154 then (TooSmall, f)
    else
      match FirstMatch(f, 0)
      case None => (NotFound, f)
      case Some(s) => (Enrolled, Patched(f, s, h))
  }

  /** Patching behind the first signature creates no earlier one. */
  lemma {:induction false} PatchKeepsMatch(f: string, s: nat, h: string, t: nat)
    requires |h| == 128 && s + 154 <= |f| && t <= s
    ensures MatchAt(Patched(f, s, h), t) == MatchAt(f, t)
  {
    assert Patched(f, s, h)[t..t + 26] == f[t..t + 26];
  }

  lemma {:induction false} FirstMatchUnique(f: string, s: nat)
    requires s + 179 <= |f| && MatchAt(f, s) && forall t: nat | t < s :: !MatchAt(f, t)
    ensures FirstMatch(f, 0) == Some(s)
  {
  }

  /** The search finds the same place again. */
  lemma {:induction false} PatchKeepsFirst(f: string, h: string)
    requires |h| == 128 && FirstMatch(f, 0).Some?
    ensures FirstMatch(Patched(f, FirstMatch(f, 0).value, h), 0) == FirstMatch(f, 0)
  {
    var s := FirstMatch(f, 0).value;
    PatchKeepsMatch(f, s, h, s);
    forall t: nat | t < s ensures !MatchAt(Patched(f, s, h), t) {
      PatchKeepsMatch(f, s, h, t);
    }
    FirstMatchUnique(Patched(f, s, h), s);
  }

  /** Enrolling twice is enrolling the second checksum only. */
  lemma {:induction false} EnrollTwice(f: string, g: string, h: string)
    ensures Enroll(Enroll(f, g).1, h) == (Enroll(f, h).0, if ValidChecksum(h) then Enroll(f, h).1 else Enroll(f, g).1)
  {
    if ValidChecksum(g) && ValidChecksum(h) && |f| >= 154 && FirstMatch(f, 0).Some? {
      PatchKeepsFirst(f, g);
      var s := FirstMatch(f, 0).value;
      assert Patched(Patched(f, s, g), s, h) == Patched(f, s, h);
    }
  }

  /**
   Of an image whose first signature has room for a checksum, the place is found exactly if 25 more
   characters follow.
   */
  lemma {:induction false} FoundExactly(f: string, s: nat, h: string)
    requires ValidChecksum(h) && MatchAt(f, s) && s + 154 <= |f| && forall t: nat | t < s :: !MatchAt(f, t)
    ensures Enroll(f, h) == (Enrolled, Patched(f, s, h)) <==> s + 179 <= |f|
    ensures Enroll(f, h) == (NotFound, f) <==> |f| < s + 179
  {
    if s + 179 <= |f| {
      FirstMatchUnique(f, s);
    } else {
      NoEarlyMatch(f, s);
    }
  }

  lemma {:induction false} NoEarlyMatch(f: string, s: nat)
    requires |f| < s + 179 && forall t: nat | t < s :: !MatchAt(f, t)
    ensures FirstMatch(f, 0) == None
  {
  }

  /** When a checksum is enrolled, and which characters change. */
  lemma {:induction false} EnrollOutcomes(f: string, h: string)
    ensures Enroll(f, h).0.BadChecksum? <==> !ValidChecksum(h)
    ensures Enroll(f, h).0.TooSmall? <==> ValidChecksum(h) && |f| < 154
    ensures Enroll(f, h).0.Enrolled? <==> ValidChecksum(h) && exists s: nat :: s + 179 <= |f| && MatchAt(f, s)
    ensures !Enroll(f, h).0.Enrolled? ==> Enroll(f, h).1 == f
    ensures Enroll(f, h).0.Enrolled? ==> exists s: nat :: ChecksumBehind(f, s, h, Enroll(f, h).1)
  {
    if ValidChecksum(h) && |f| >= 154 && FirstMatch(f, 0).Some? {
      var s := FirstMatch(f, 0).value;
      assert MatchAt(f, s) && ChecksumBehind(f, s, h, Patched(f, s, h));
    }
  }

  /** g is f with the checksum h behind the first signature, which is at s. */
  ghost predicate ChecksumBehind(f: string, s: nat, h: string, g: string) {
    && MatchAt(f, s) && (forall t: nat | t < s :: !MatchAt(f, t)) && |g| == |f| && |h| == 128
    && forall k | 0 <= k < |f| :: g[k] == if s + 26 <= k < s + 154 then h[k - s - 26] else f[k]
  }

  /** A file that is nothing but the signature and room for the checksum is large enough, yet nothing is found. */
  lemma {:induction false} SmallestFileIsNotEnrolled(room: string, h: string)
    requires |room| == 128 && ValidChecksum(h)
    ensures var f := "++CONFIG_B2SUM_SIGNATURE++" + room;
            |f| == 154 && MatchAt(f, 0) && Enroll(f, h) == (NotFound, f)
  {
    var f := "++CONFIG_B2SUM_SIGNATURE++" + room;
    assert f[0..26] == SIGNATURE;
    FoundExactly(f, 0, h);
  }

  /** The search as the tool runs it: one index that moves back to the failed start, and the length matched so far. */
  method Search(f: array<char>) returns (r: Option<nat>)
    requires f.Length >= 154
    ensures r == FirstMatch(f[..], 0)
  {
    var i: nat, checked: nat := 0, 0;
    ghost var image := f[..];
    r := None;
    while i < f.Length - 154 + 1
      invariant checked < 26 && checked <= i <= f.Length - 153
      invariant image[i - checked..i] == SIGNATURE[..checked]
      invariant forall t: nat | t < i - checked :: !MatchAt(image, t)
      decreases f.Length - (i - checked), 26 - checked
    {
      if f[i] != SIGNATURE[checked] {
        Mismatch(image, i, checked);
        i := i - checked;
        checked := 0;
      } else {
        checked := checked + 1;
        MatchGrows(image, i, checked);
        if checked == 26 {
          assert SIGNATURE[..26] == SIGNATURE;
          FirstMatchUnique(image, i - 25);
          return Some(i - 25);
        }
      }
      i := i + 1;
    }
    NoEarlyMatch(image, i - checked);
  }

  lemma {:induction false} Mismatch(f: string, i: nat, checked: nat)
    requires checked < 26 && checked <= i < |f| && f[i] != SIGNATURE[checked]
    ensures !MatchAt(f, i - checked)
  {
    var s := i - checked;
    assert s + 26 <= |f| ==> f[s..s + 26][checked] == f[i];
  }

  lemma {:induction false} MatchGrows(f: string, i: nat, checked: nat)
    requires 0 < checked <= 26 && checked - 1 <= i < |f| && f[i] == SIGNATURE[checked - 1]
    requires f[i - (checked - 1)..i] == SIGNATURE[..checked - 1]
    ensures f[i + 1 - checked..i + 1] == SIGNATURE[..checked]
  {
    assert SIGNATURE[..checked] == SIGNATURE[..checked - 1] + [SIGNATURE[checked - 1]];
  }

  /** The two checks of the checksum argument. */
  method CheckArgument(h: string) returns (ok: bool)
    ensures ok == ValidChecksum(h)
    ensures ok <==> |h| == 128 && forall k | 0 <= k < 128 :: h[k] in "0123456789abcdefABCDEF"
  {
    ChecksumCharacters(h);
    if |h| != 128 { return false; }
    for k := 0 to 128
      invariant forall j | 0 <= j < k :: IsHex(h[j])
    {
      if !IsHex(h[k]) { return false; }
    }
    return true;
  }

  /** enroll_config on the file's contents; a reset enrolls 128 zeros. */
  method EnrollConfig(f: array<char>, reset: bool, h: string) returns (outcome: Outcome)
    modifies f
    ensures (outcome, f[..]) == Enroll(old(f[..]), if reset then seq(128, _ => '0') else h)
  {
    var text := if reset then seq(128, _ => '0') else h;
    if !reset {
      var ok := CheckArgument(h);
      if !ok { return BadChecksum; }
    }
    if f.Length < 154 { return TooSmall; }
    var place := Search(f);
    if place.None? { return NotFound; }
    CopyChecksum(f, place.value, text);
    return Enrolled;
  }

  /** memcpy(checksum_loc, text, 128). */
  method CopyChecksum(f: array<char>, s: nat, text: string)
    requires |text| == 128 && s + 154 <= f.Length
    modifies f
    ensures f[..] == Patched(old(f[..]), s, text)
  {
    for k := 0 to 128
      invariant forall j | 0 <= j < f.Length :: f[j] == if s + 26 <= j < s + 26 + k then text[j - s - 26] else old(f[j])
    {
      f[s + 26 + k] := text[k];
    }
  }
}
