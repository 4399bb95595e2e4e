/**
  `stringToHue`: the colour of a registrant's progress bar. Three names have
  fixed hues; any other name is hashed djb2-style over its UTF-16 code units
  (`hash = c + ((hash << 5) - hash)`) and the hue is `hash % 360`, which in
  JavaScript takes the sign of the hash.
 */
module Hue {
  import opened Wrappers
  import opened JsStrings
  import opened JsNumbers

  /** 來夏 */
  const Raika: JsString := [0x4F86, 0x590F]
  /** 湊斗 */
  const Minato: JsString := [0x6E4A, 0x6597]
  /** 和奏 */
  const Wakana: JsString := [0x548C, 0x594F]

  /** The `colors` table: the fixed hue of a name, if it has one. */
  function Override(name: JsString): Option<int> {
    if name == Raika then Some(35)
    else if name == Minato then Some(210)
    else if name == Wakana then Some(320)
    else None
  }

  /** One step of the loop: `c + ((hash << 5) - hash)`. */
  function HashStep(hash: int, c: CodeUnit): int {
    c + (ShiftLeft(hash, 5) - hash)
  }

  /** The value of `hash` after the loop has read every code unit of `s`. */
  function Hash(s: JsString): int {
    if s == [] then 0 else HashStep(Hash(s[..|s| - 1]), s[|s| - 1])
  }

  /** The hue `stringToHue` returns for `name`. */
  function HueOf(name: JsString): (hue: int)
    ensures -360 < hue < 360
    ensures Override(name).Some? ==> hue == Override(name).value
    ensures Override(name).None? ==> (Hash(name) < 0 ==> hue <= 0) && (Hash(name) >= 0 ==> hue >= 0)
    ensures Override(name).None? ==> Abs(hue) == Abs(Hash(name)) % 360
  {
    match Override(name)
    case Some(v) => v
    case None => Remainder(Hash(name), 360)
  }

  /**
    `stringToHue(str)`: the fixed hue of a name in the table, or else the
    hash loop over the code units followed by the truncating remainder.
   */
  method StringToHue(str: JsString) returns (hue: int)
    ensures hue == HueOf(str)
  {
    var color := Override(str);
    if color.Some? {
      return color.value;
    }
    var hash := 0;
    for i := 0 to |str|
      invariant hash == Hash(str[..i])
    {
      assert str[..i + 1] == str[..i] + [str[i]];
      HashAppend(str[..i], str[i]);
      hash := str[i] + (ShiftLeft(hash, 5) - hash);
    }
    assert str[..|str|] == str;
    hue := Remainder(hash, 360);
  }

  /** The three names of the table get exactly their fixed hues. */
  lemma OverriddenHues()
    ensures HueOf(Raika) == 35 && HueOf(Minato) == 210 && HueOf(Wakana) == 320
  {
  }

  /**
    Each step moves the hash by less than 2^31 + 2^16 in magnitude, so after
    `n` code units it is below n * (2^31 + 2^16): far below 2^53, where every
    integer is an exact Number, for any name shorter than 2^21 code units.
   */
  lemma {:induction false} HashBound(s: JsString)
    ensures Abs(Hash(s)) <= |s| * (TwoTo31 + 0x1_0000)
  {
    if s != [] {
      var init := s[..|s| - 1];
      HashBound(init);
      var h := Hash(init);
      var shifted := ShiftLeft(h, 5);
      assert -TwoTo31 <= shifted < TwoTo31;
      assert Abs(Hash(s)) <= Abs(h) + TwoTo31 + 0x1_0000;
    }
  }

  /** Appending a code unit extends the hash by one loop step. */
  lemma HashAppend(s: JsString, c: CodeUnit)
    ensures Hash(s + [c]) == HashStep(Hash(s), c)
  {
    assert (s + [c])[..|s|] == s;
  }

  /** Without 32-bit overflow, a step multiplies the hash by 31 and adds the code unit. */
  lemma SmallStep(hash: int, c: CodeUnit)
    requires IsInt32(hash) && IsInt32(hash * 32)
    ensures HashStep(hash, c) == c + 31 * hash
  {
    assert Pow2(5) == 32;
    ToInt32Unique(hash, hash);
    ToInt32Unique(hash * 32, hash * 32);
  }

  /** `s` is made of the code unit `z` (U+007A) only. */
  predicate AllZ(s: JsString) {
    forall k :: 0 <= k < |s| ==> s[k] == 0x7A
  }

  /** The hash of "", "z", "zz", ..., "zzzzz". */
  const ZHashes: seq<int> := [0, 122, 3904, 121146, 3755648, 116425210]

  /** Up to five `z`s the hash never overflows 32 bits: each step is `31 * hash + 122`. */
  lemma {:induction false} ZPrefixHashes(s: JsString)
    requires AllZ(s) && |s| <= 5
    ensures Hash(s) == ZHashes[|s|]
  {
    if s != [] {
      var n := |s|;
      var h := ZHashes[n - 1];
      ZPrefixHashes(s[..n - 1]);
      assert IsInt32(h) && IsInt32(h * 32) && 0x7A + 31 * h == ZHashes[n];
      SmallStep(h, s[n - 1]);
    }
  }

  /** `116425210 << 5` overflows: the product 3725606720 reads back as -569360576. */
  lemma ShiftOverflows()
    ensures ShiftLeft(116425210, 5) == -569360576
  {
    assert Pow2(5) == 32;
    assert ToInt32(116425210) == 116425210;
    assert ToInt32(3725606720) == -569360576;
  }

  /** "zzzzzz" hashes to -685785664: the sixth shift overflows 32 bits. */
  lemma SixZHash(s: JsString)
    requires AllZ(s) && |s| == 6
    ensures Hash(s) == -685785664
  {
    ZPrefixHashes(s[..5]);
    ShiftOverflows();
    assert Hash(s) == HashStep(Hash(s[..5]), s[5]);
  }

  /** So the hue of "zzzzzz" is negative: -64. */
  lemma NegativeHue(s: JsString)
    requires AllZ(s) && |s| == 6
    ensures HueOf(s) == -64
  {
    SixZHash(s);
    assert s != Raika && s != Minato && s != Wakana by {
      assert s[0] != Raika[0] && s[0] != Minato[0] && s[0] != Wakana[0];
    }
    assert Override(s) == None;
    assert -685785664 == -(1904960 * 360 + 64);
  }
}
