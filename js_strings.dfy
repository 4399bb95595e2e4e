/**
  ECMAScript string values and String.prototype.trim.

  A JavaScript string is a sequence of UTF-16 code units, so `length` and
  `charCodeAt` count and return code units, not Unicode scalar values.
 */
module JsStrings {

  /** One UTF-16 code unit, the value `charCodeAt` returns. */
  type CodeUnit = c: int | 0 <= c < 0x1_0000

  type JsString = seq<CodeUnit>

  /**
    The code units that TrimString removes: WhiteSpace (section 12.2 of
    ECMA-262: TAB, VT, FF, ZWNBSP and every code point of category Zs, which
    are SPACE, NBSP, U+1680, U+2000-U+200A, U+202F, U+205F and U+3000) and
    LineTerminator (section 12.3: LF, CR, LS, PS). TAB, LF, VT, FF and CR are
    the contiguous range U+0009-U+000D.
   */
  predicate IsTrimmable(c: CodeUnit) {
    || 0x0009 <= c <= 0x000D
    || c == 0x0020 || c == 0x00A0 || c == 0x1680
    || 0x2000 <= c <= 0x200A
    || c == 0x2028 || c == 0x2029 || c == 0x202F || c == 0x205F
    || c == 0x3000 || c == 0xFEFF
  }

  /** True when `s` holds nothing but white space and line terminators. */
  predicate IsBlank(s: JsString) {
    forall k :: 0 <= k < |s| ==> IsTrimmable(s[k])
  }

  /** TrimString(s, start): drops the longest blank prefix. */
  function TrimStart(s: JsString): (r: JsString)
    ensures |r| <= |s|
  {
    if s != [] && IsTrimmable(s[0]) then TrimStart(s[1..]) else s
  }

  /** What TrimStart leaves is a suffix, and what it drops is blank. */
  lemma {:induction false} TrimStartDropsBlankPrefix(s: JsString)
    ensures var r := TrimStart(s);
      && r == s[|s| - |r|..]
      && (forall k :: 0 <= k < |s| - |r| ==> IsTrimmable(s[k]))
      && (r == [] || !IsTrimmable(r[0]))
  {
    if s != [] && IsTrimmable(s[0]) {
      TrimStartDropsBlankPrefix(s[1..]);
      assert forall k :: 1 <= k < |s| ==> s[k] == s[1..][k - 1];
    }
  }

  /** TrimString(s, end): drops the longest blank suffix. */
  function TrimEnd(s: JsString): (r: JsString)
    ensures |r| <= |s|
  {
    if s != [] && IsTrimmable(s[|s| - 1]) then TrimEnd(s[..|s| - 1]) else s
  }

  /** What TrimEnd leaves is a prefix, and what it drops is blank. */
  lemma {:induction false} TrimEndDropsBlankSuffix(s: JsString)
    ensures var r := TrimEnd(s);
      && r == s[..|r|]
      && (forall k :: |r| <= k < |s| ==> IsTrimmable(s[k]))
      && (r == [] || !IsTrimmable(r[|r| - 1]))
  {
    if s != [] && IsTrimmable(s[|s| - 1]) {
      TrimEndDropsBlankSuffix(s[..|s| - 1]);
      assert forall k :: 0 <= k < |s| - 1 ==> s[..|s| - 1][k] == s[k];
    }
  }

  /**
    `r` is the slice of `s` starting at `i`, and everything in `s` before and
    after that slice is blank.
   */
  predicate TrimmedAt(s: JsString, i: nat, r: JsString) {
    && i + |r| <= |s| && r == s[i..i + |r|]
    && (forall k :: 0 <= k < i ==> IsTrimmable(s[k]))
    && (forall k :: i + |r| <= k < |s| ==> IsTrimmable(s[k]))
  }

  /**
    String.prototype.trim (section 22.1.3.32 of ECMA-262): the slice of `s`
    left after removing blank code units at both ends.
   */
  function Trim(s: JsString): (r: JsString)
    ensures |r| <= |s|
  {
    TrimEnd(TrimStart(s))
  }

  /**
    Trim leaves the empty string exactly for a blank input, and otherwise a
    slice of the input that neither starts nor ends with a blank code unit,
    with only blank code units around it.
   */
  lemma TrimIsBlankFree(s: JsString)
    ensures var r := Trim(s);
      && (r == [] <==> IsBlank(s))
      && (r == [] || (!IsTrimmable(r[0]) && !IsTrimmable(r[|r| - 1])))
      && TrimmedAt(s, |s| - |TrimStart(s)|, r)
  {
    var t := TrimStart(s);
    TrimStartDropsBlankPrefix(s);
    TrimEndDropsBlankSuffix(t);
    TrimBothEnds(s, t, TrimEnd(t));
  }

  /**
    The facts behind TrimIsBlankFree: a blank prefix of `s` is dropped to
    give `t`, and a blank suffix of `t` is dropped to give `r`.
   */
  lemma TrimBothEnds(s: JsString, t: JsString, r: JsString)
    requires |t| <= |s| && t == s[|s| - |t|..]
    requires forall k :: 0 <= k < |s| - |t| ==> IsTrimmable(s[k])
    requires t == [] || !IsTrimmable(t[0])
    requires |r| <= |t| && r == t[..|r|]
    requires forall k :: |r| <= k < |t| ==> IsTrimmable(t[k])
    requires r == [] || !IsTrimmable(r[|r| - 1])
    ensures r == [] <==> IsBlank(s)
    ensures r == [] || (!IsTrimmable(r[0]) && !IsTrimmable(r[|r| - 1]))
    ensures TrimmedAt(s, |s| - |t|, r)
  {
    var i := |s| - |t|;
    assert forall k :: 0 <= k < |t| ==> t[k] == s[i + k];
    if r != [] {
      assert r[0] == t[0] == s[i];
    }
  }

  /** Trimming an already trimmed string changes nothing. */
  lemma TrimIdempotent(s: JsString)
    ensures Trim(Trim(s)) == Trim(s)
  {
    var r := Trim(s);
    TrimIsBlankFree(s);
    if r != [] {
      assert TrimStart(r) == r;
      assert TrimEnd(r) == r;
    }
  }
}
