/**
 * The string primitives the system relies on: case mapping, `trim`,
 * `includes`, decimal rendering of integers and `padStart(2, "0")`.
 * Case mapping covers the ASCII letters only.
 */
module Text {

  // ---------------------------------------------------------------------
  // Case mapping
  // ---------------------------------------------------------------------

  predicate IsUpperAscii(c: char) { 'A' <= c <= 'Z' }

  predicate IsLowerAscii(c: char) { 'a' <= c <= 'z' }

  /** `toLowerCase` on one character. */
  function LowerChar(c: char): (r: char)
    ensures !IsUpperAscii(r)
    ensures IsUpperAscii(c) ==> r as int == c as int + 32
    ensures !IsUpperAscii(c) ==> r == c
  {
    if IsUpperAscii(c) then (c as int + 32) as char else c
  }

  /** `toUpperCase` on one character. */
  function UpperChar(c: char): (r: char)
    ensures !IsLowerAscii(r)
    ensures IsLowerAscii(c) ==> r as int == c as int - 32
    ensures !IsLowerAscii(c) ==> r == c
  {
    if IsLowerAscii(c) then (c as int - 32) as char else c
  }

  /** A string with no upper-case letter: what `toLowerCase` produces. */
  predicate IsLowerString(s: string) {
    forall i :: 0 <= i < |s| ==> !IsUpperAscii(s[i])
  }

  function Lower(s: string): (r: string)
    ensures |r| == |s|
    ensures forall i :: 0 <= i < |s| ==> r[i] == LowerChar(s[i])
  {
    seq(|s|, i requires 0 <= i < |s| => LowerChar(s[i]))
  }

  function Upper(s: string): (r: string)
    ensures |r| == |s|
    ensures forall i :: 0 <= i < |s| ==> r[i] == UpperChar(s[i])
  {
    seq(|s|, i requires 0 <= i < |s| => UpperChar(s[i]))
  }

  /** Lower-casing yields a lower-case string and changes nothing the second time. */
  lemma LowerIsLowerAndIdempotent(s: string)
    ensures IsLowerString(Lower(s))
    ensures Lower(Lower(s)) == Lower(s)
    ensures IsLowerString(s) <==> Lower(s) == s
  {
    if IsLowerString(s) {
      assert forall i :: 0 <= i < |s| ==> Lower(s)[i] == s[i];
    }
    if Lower(s) == s {
      assert forall i :: 0 <= i < |s| ==> !IsUpperAscii(s[i]) by {
        forall i | 0 <= i < |s| ensures !IsUpperAscii(s[i]) {
          assert s[i] == Lower(s)[i] == LowerChar(s[i]);
        }
      }
    }
  }

  // ---------------------------------------------------------------------
  // trim
  // ---------------------------------------------------------------------

  /**
   * The characters `String.prototype.trim` removes: the ECMAScript
   * WhiteSpace set (tab, vertical tab, form feed, space, no-break space,
   * byte-order mark and the Unicode space separators) and LineTerminator.
   */
  predicate IsWhitespace(c: char) {
    || c == '\U{0009}' || c == '\U{000B}' || c == '\U{000C}' || c == ' '
    || c == '\U{00A0}' || c == '\U{FEFF}' || c == '\U{1680}'
    || ('\U{2000}' <= c <= '\U{200A}')
    || c == '\U{202F}' || c == '\U{205F}' || c == '\U{3000}'
    || c == '\U{000A}' || c == '\U{000D}' || c == '\U{2028}' || c == '\U{2029}'
  }

  /** Every character is whitespace (the empty string included). */
  predicate IsBlank(s: string) {
    forall i :: 0 <= i < |s| ==> IsWhitespace(s[i])
  }

  /** Drops the leading whitespace. */
  function TrimStart(s: string): (r: string)
    ensures |r| <= |s| && r == s[|s| - |r|..]
    ensures IsBlank(s[..|s| - |r|])
    ensures r != [] ==> !IsWhitespace(r[0])
  {
    if s != [] && IsWhitespace(s[0]) then TrimStart(s[1..]) else s
  }

  /** Drops the trailing whitespace. */
  function TrimEnd(s: string): (r: string)
    ensures |r| <= |s| && r == s[..|r|]
    ensures IsBlank(s[|r|..])
    ensures r != [] ==> !IsWhitespace(r[|r| - 1])
  {
    if s != [] && IsWhitespace(s[|s| - 1]) then TrimEnd(s[..|s| - 1]) else s
  }

  /** `r` occurs in `s` starting at position `a`. */
  predicate SliceAt(s: string, a: int, r: string) {
    0 <= a <= |s| - |r| && s[a..a + |r|] == r
  }

  /** `s.trim()`: a slice of `s` that neither starts nor ends with whitespace. */
  function Trim(s: string): (r: string)
    ensures |r| <= |s|
    ensures exists a :: SliceAt(s, a, r) && IsBlank(s[..a]) && IsBlank(s[a + |r|..])
    ensures r != [] ==> !IsWhitespace(r[0]) && !IsWhitespace(r[|r| - 1])
  {
    var t := TrimStart(s);
    var r := TrimEnd(t);
    var a := |s| - |t|;
    assert t == s[a..];
    assert s[a..a + |r|] == t[..|r|];
    assert SliceAt(s, a, r);
    assert s[a + |r|..] == t[|r|..];
    r
  }

  /** `s.trim()` is falsy (empty) exactly when `s` holds nothing but whitespace. */
  lemma TrimEmptyIffBlank(s: string)
    ensures Trim(s) == [] <==> IsBlank(s)
  {
    var t := TrimStart(s);
    if Trim(s) == [] {
      assert IsBlank(t[0..]);
      assert t == [];
      forall i | 0 <= i < |s| ensures IsWhitespace(s[i]) {
        assert s[i] == s[..|s| - |t|][i];
      }
    }
  }

  // ---------------------------------------------------------------------
  // includes
  // ---------------------------------------------------------------------

  predicate StartsWith(s: string, prefix: string) {
    |prefix| <= |s| && s[..|prefix|] == prefix
  }

  /** `haystack.includes(needle)`, scanning the start positions left to right. */
  predicate Contains(haystack: string, needle: string)
    decreases |haystack|
  {
    StartsWith(haystack, needle) || (haystack != [] && Contains(haystack[1..], needle))
  }

  /** `includes` holds exactly when `needle` occurs as a slice at some position. */
  lemma {:induction false} ContainsIffOccurs(haystack: string, needle: string)
    ensures Contains(haystack, needle)
        <==> exists i :: SliceAt(haystack, i, needle)
    decreases |haystack|
  {
    if haystack == [] {
      if Contains(haystack, needle) {
        assert SliceAt(haystack, 0, needle);
      }
    } else {
      ContainsIffOccurs(haystack[1..], needle);
      if Contains(haystack, needle) {
        if !StartsWith(haystack, needle) {
          var j :| SliceAt(haystack[1..], j, needle);
          assert haystack[j + 1..j + 1 + |needle|] == haystack[1..][j..j + |needle|];
          assert SliceAt(haystack, j + 1, needle);
        } else {
          assert SliceAt(haystack, 0, needle);
        }
      } else {
        forall i | SliceAt(haystack, i, needle)
          ensures false
        {
          if i > 0 {
            var tail := haystack[1..];
            var a, b := tail[i - 1..i - 1 + |needle|], haystack[i..i + |needle|];
            assert forall k :: 0 <= k < |needle| ==> a[k] == b[k];
            assert a == b;
            assert SliceAt(haystack[1..], i - 1, needle);
          }
        }
      }
    }
  }

  // ---------------------------------------------------------------------
  // Decimal rendering
  // ---------------------------------------------------------------------

  predicate IsDigit(c: char) { '0' <= c <= '9' }

  function DigitChar(d: nat): (c: char)
    requires d < 10
    ensures IsDigit(c) && c as int - '0' as int == d
  {
    ('0' as int + d) as char
  }

  /** `String(n)` for a non-negative integer: its decimal digits, most significant first. */
  function NatToString(n: nat): (s: string)
    ensures |s| >= 1
    ensures forall i :: 0 <= i < |s| ==> IsDigit(s[i])
    ensures s[|s| - 1] == DigitChar(n % 10)
    ensures n < 10 <==> |s| == 1
  {
    if n < 10 then [DigitChar(n)] else NatToString(n / 10) + [DigitChar(n % 10)]
  }

  /** Distinct numbers have distinct decimal renderings. */
  lemma {:induction false} NatToStringInjective(a: nat, b: nat)
    ensures NatToString(a) == NatToString(b) ==> a == b
    decreases a
  {
    var sa, sb := NatToString(a), NatToString(b);
    if sa == sb {
      assert a % 10 == b % 10 by {
        assert DigitChar(a % 10) == sa[|sa| - 1] == sb[|sb| - 1] == DigitChar(b % 10);
      }
      if a >= 10 && b >= 10 {
        assert NatToString(a / 10) == sa[..|sa| - 1] == sb[..|sb| - 1] == NatToString(b / 10);
        NatToStringInjective(a / 10, b / 10);
      }
    }
  }

  /** Numbers 1000..9999 render as exactly four digits (the `getUTCFullYear` part of a key). */
  lemma FourDigitYear(y: nat)
    requires 1000 <= y <= 9999
    ensures |NatToString(y)| == 4
  {
    assert |NatToString(y / 1000)| == 1;
    assert |NatToString(y / 100)| == 2;
    assert |NatToString(y / 10)| == 3;
  }

  /** `String(n).padStart(2, "0")`. */
  function PadStart2(n: nat): (s: string)
    ensures n < 100 ==> |s| == 2 && s[0] == DigitChar(n / 10) && s[1] == DigitChar(n % 10)
    ensures n >= 100 ==> s == NatToString(n)
    ensures forall i :: 0 <= i < |s| ==> IsDigit(s[i])
  {
    var d := NatToString(n);
    if |d| < 2 then "0" + d
    else (assert n < 100 ==> d == NatToString(n / 10) + [DigitChar(n % 10)];
          d)
  }
}
