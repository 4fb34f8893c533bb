/**
 * String primitives shared by the browser script and the Django backend:
 * whitespace trimming, ASCII/Latin-1 upper-casing, prefix and substring tests,
 * joining and splitting, and decimal integer rendering and parsing.
 */
module Text {
  import opened Wrappers

  /** The whitespace that both `String.prototype.trim` and Python's `str.split()` skip. */
  predicate IsSpace(c: char) {
    || c == ' ' || c == '\t' || c == '\n' || c == '\r' || c == '\U{B}' || c == '\U{C}'
    || c == '\U{A0}' || c == '\U{1680}' || ('\U{2000}' <= c <= '\U{200A}')
    || c == '\U{2028}' || c == '\U{2029}' || c == '\U{202F}' || c == '\U{205F}' || c == '\U{3000}'
  }

  predicate IsDigit(c: char) { '0' <= c <= '9' }

  predicate AllDigits(s: string) { forall i :: 0 <= i < |s| ==> IsDigit(s[i]) }

  function TrimStart(s: string): (r: string)
    ensures |r| <= |s| && r == s[|s| - |r|..]
    ensures r == [] || !IsSpace(r[0])
    ensures forall i :: 0 <= i < |s| - |r| ==> IsSpace(s[i])
  {
    if s != [] && IsSpace(s[0]) then TrimStart(s[1..]) else s
  }

  function TrimEnd(s: string): (r: string)
    ensures |r| <= |s| && r == s[..|r|]
    ensures r == [] || !IsSpace(r[|r| - 1])
    ensures forall i :: |r| <= i < |s| ==> IsSpace(s[i])
  {
    if s != [] && IsSpace(s[|s| - 1]) then TrimEnd(s[..|s| - 1]) else s
  }

  /** `s.trim()` in JavaScript, `s.strip()` in Python. */
  function Trim(s: string): string {
    TrimEnd(TrimStart(s))
  }

  /** The trimmed text is the slice `s[i..j]` of the input between the leading and the trailing whitespace. */
  lemma {:induction false} TrimIsSlice(s: string) returns (i: nat, j: nat)
    ensures i <= j <= |s| && Trim(s) == s[i..j]
    ensures forall k :: 0 <= k < i ==> IsSpace(s[k])
    ensures forall k :: j <= k < |s| ==> IsSpace(s[k])
    ensures Trim(s) == [] || (!IsSpace(Trim(s)[0]) && !IsSpace(Trim(s)[|Trim(s)| - 1]))
  {
    var t := TrimStart(s);
    var e := TrimEnd(t);
    i := |s| - |t|;
    j := i + |e|;
    SliceBetweenBlanks(s, t, e, i, j);
  }

  /** Blanks cut off the front of `s` to give `t`, then off the back of `t` to give `e`: `e` is the slice `s[i..j]` between blanks. */
  lemma SliceBetweenBlanks(s: string, t: string, e: string, i: nat, j: nat)
    requires |t| <= |s| && t == s[|s| - |t|..] && |e| <= |t| && e == t[..|e|]
    requires i == |s| - |t| && j == i + |e|
    requires forall k :: 0 <= k < i ==> IsSpace(s[k])
    requires forall k :: |e| <= k < |t| ==> IsSpace(t[k])
    requires t == [] || !IsSpace(t[0])
    requires e == [] || !IsSpace(e[|e| - 1])
    ensures i <= j <= |s| && e == s[i..j]
    ensures forall k :: j <= k < |s| ==> IsSpace(s[k])
    ensures e == [] || (!IsSpace(e[0]) && !IsSpace(e[|e| - 1]))
  {
    forall k | j <= k < |s| ensures IsSpace(s[k]) {
      assert s[k] == t[k - i];
    }
    if e != [] {
      assert e[0] == t[0];
    }
  }

  /** A text with no blank at either end is its own trim. */
  lemma TrimUnchanged(s: string)
    requires s == [] || (!IsSpace(s[0]) && !IsSpace(s[|s| - 1]))
    ensures Trim(s) == s
  {
    assert TrimStart(s) == s;
  }

  lemma TrimIdempotent(s: string)
    ensures Trim(Trim(s)) == Trim(s)
  {
    var r := Trim(s);
    if r != [] {
      assert TrimStart(r) == r;
      assert TrimEnd(r) == r;
    }
  }

  /** `s.startsWith(p)` / `s.startswith(p)`. */
  predicate StartsWith(s: string, p: string) {
    |p| <= |s| && s[..|p|] == p
  }

  /** `sub` occurs in `s` starting at position `i`. */
  predicate OccursAt(s: string, sub: string, i: int) {
    0 <= i && i + |sub| <= |s| && s[i..i + |sub|] == sub
  }

  /** `s.includes(sub)` / `sub in s`, defined by scanning the start positions of `s`. */
  predicate Contains(s: string, sub: string)
    decreases |s|
  {
    StartsWith(s, sub) || (s != [] && Contains(s[1..], sub))
  }

  lemma OccursAtZero(s: string, sub: string)
    ensures OccursAt(s, sub, 0) <==> StartsWith(s, sub)
  {
    if |sub| <= |s| {
      assert s[0..|sub|] == s[..|sub|];
    }
  }

  lemma OccursAtTail(s: string, sub: string, i: int)
    requires s != [] && 0 <= i
    ensures OccursAt(s[1..], sub, i) <==> OccursAt(s, sub, i + 1)
  {
    if 0 <= i && i + 1 + |sub| <= |s| {
      assert s[1..][i..i + |sub|] == s[i + 1..i + 1 + |sub|];
    }
  }

  /** Scanning agrees with the positional definition of a substring. */
  lemma {:induction false} ContainsIff(s: string, sub: string)
    ensures Contains(s, sub) <==> exists i :: OccursAt(s, sub, i)
    decreases |s|
  {
    if StartsWith(s, sub) {
      OccursAtZero(s, sub);
    } else if s == [] {
      forall i ensures !OccursAt(s, sub, i) {
        OccursAtZero(s, sub);
      }
    } else {
      ContainsIff(s[1..], sub);
      if Contains(s[1..], sub) {
        var i :| OccursAt(s[1..], sub, i);
        OccursAtTail(s, sub, i);
      } else {
        forall i ensures !OccursAt(s, sub, i) {
          if i > 0 { OccursAtTail(s, sub, i - 1); } else { OccursAtZero(s, sub); }
        }
      }
    }
  }

  /** Every text contains the empty text. */
  lemma {:induction false} ContainsEmpty(s: string)
    ensures Contains(s, "")
  {
    assert StartsWith(s, "");
  }

  /** Upper-casing of one character: ASCII letters and the Latin-1 small letters à..þ (except ÷). */
  function UpperChar(c: char): (u: char) {
    if 'a' <= c <= 'z' then (c as int - 32) as char
    else if '\U{E0}' <= c <= '\U{FE}' && c != '\U{F7}' then (c as int - 32) as char
    else c
  }

  /** `s.toUpperCase()` restricted to the characters `UpperChar` handles. */
  function ToUpper(s: string): (r: string)
    ensures |r| == |s|
  {
    seq(|s|, i requires 0 <= i < |s| => UpperChar(s[i]))
  }

  /** A text made of characters that are their own upper case is its own upper case. */
  lemma ToUpperUnchanged(s: string)
    requires forall i :: 0 <= i < |s| ==> UpperChar(s[i]) == s[i]
    ensures ToUpper(s) == s
  {
  }

  lemma ToUpperAppend(a: string, b: string)
    ensures ToUpper(a + b) == ToUpper(a) + ToUpper(b)
  {
  }

  function Join(parts: seq<string>, sep: string): string
  {
    if |parts| == 0 then ""
    else if |parts| == 1 then parts[0]
    else parts[0] + sep + Join(parts[1..], sep)
  }

  function Repeat(c: char, n: nat): (r: string)
    ensures |r| == n && forall i :: 0 <= i < n ==> r[i] == c
  {
    if n == 0 then "" else [c] + Repeat(c, n - 1)
  }

  /** `s.padStart(n, c)` for a one-character pad. */
  function PadStart(s: string, n: nat, c: char): (r: string)
    ensures |r| == if |s| >= n then |s| else n
    ensures r[|r| - |s|..] == s
    ensures forall i :: 0 <= i < |r| - |s| ==> r[i] == c
  {
    if |s| >= n then s else Repeat(c, n - |s|) + s
  }

  // ---- decimal integers -------------------------------------------------

  function DigitChar(d: nat): (c: char)
    requires d < 10
    ensures IsDigit(c) && c as int - '0' as int == d
  {
    (d + '0' as int) as char
  }

  function DigitValue(c: char): (d: nat)
    requires IsDigit(c)
    ensures d < 10
  {
    c as int - '0' as int
  }

  /** Base-10 rendering of a natural number, no leading zeros. */
  function NatToString(n: nat): (s: string)
    ensures |s| >= 1 && AllDigits(s)
    ensures n > 0 ==> s[0] != '0'
    decreases n
  {
    if n < 10 then [DigitChar(n)] else NatToString(n / 10) + [DigitChar(n % 10)]
  }

  /** `str(i)` / `String(i)` for an integer. */
  function IntToString(i: int): (s: string)
  {
    if i < 0 then "-" + NatToString(-i) else NatToString(i)
  }

  /** A number below 100 in two digits, `String(n).padStart(2, '0')`. */
  function TwoDigits(n: nat): (r: string)
    requires n < 100
    ensures |r| == 2 && AllDigits(r)
  {
    [DigitChar(n / 10), DigitChar(n % 10)]
  }

  lemma TwoDigitsIsPadded(n: nat)
    requires n < 100
    ensures TwoDigits(n) == PadStart(NatToString(n), 2, '0')
  {
    var s := NatToString(n);
    if n < 10 {
      assert s == [DigitChar(n)];
      assert PadStart(s, 2, '0') == ['0', DigitChar(n)];
      assert n / 10 == 0 && n % 10 == n;
    } else {
      assert NatToString(n / 10) == [DigitChar(n / 10)];
      assert s == [DigitChar(n / 10), DigitChar(n % 10)];
      assert PadStart(s, 2, '0') == s;
    }
  }

  lemma TwoDigitsValue(n: nat)
    requires n < 100
    ensures DigitsValue(TwoDigits(n)) == n
  {
    var r := TwoDigits(n);
    assert r[..1][..0] == [];
    assert r[..|r| - 1] == r[..1];
    assert DigitValue(r[0]) == n / 10 && DigitValue(r[1]) == n % 10;
    assert DigitsValue(r[..1]) == DigitValue(r[0]);
    assert DigitsValue(r) == 10 * DigitsValue(r[..1]) + DigitValue(r[1]);
  }

  /** The value of a string of decimal digits. */
  function DigitsValue(s: string): nat
    requires AllDigits(s)
  {
    if s == [] then 0 else 10 * DigitsValue(s[..|s| - 1]) + DigitValue(s[|s| - 1])
  }

  lemma {:induction false} DigitsValueOfNatToString(n: nat)
    ensures DigitsValue(NatToString(n)) == n
    decreases n
  {
    var s := NatToString(n);
    if n >= 10 {
      DigitsValueOfNatToString(n / 10);
      assert s[..|s| - 1] == NatToString(n / 10);
    }
  }

  /** Distinct numbers render differently. */
  lemma NatToStringInjective(m: nat, n: nat)
    requires NatToString(m) == NatToString(n)
    ensures m == n
  {
    DigitsValueOfNatToString(m);
    DigitsValueOfNatToString(n);
  }

  /** Length of the longest all-digit prefix. */
  function DigitPrefixLength(s: string): (k: nat)
    ensures k <= |s| && AllDigits(s[..k])
    ensures k < |s| ==> !IsDigit(s[k])
  {
    if s != [] && IsDigit(s[0]) then
      var k := 1 + DigitPrefixLength(s[1..]);
      assert s[..k] == [s[0]] + s[1..][..k - 1];
      k
    else 0
  }

  /**
   * JavaScript `parseInt(s)` in base 10: leading whitespace, an optional sign,
   * then the longest run of digits; `None` stands for `NaN`.
   */
  function ParseInt(s: string): (r: Option<int>)
  {
    ParseSigned(TrimStart(s))
  }

  /** `parseInt` after the leading whitespace: an optional sign, then the digits. */
  function ParseSigned(t: string): (r: Option<int>)
  {
    var neg := t != [] && t[0] == '-';
    var body := if t != [] && (t[0] == '-' || t[0] == '+') then t[1..] else t;
    match LeadingDigits(body)
    case None => None
    case Some(v) =>
      var n: int := v;
      Some(if neg then -n else n)
  }

  /** The value of the longest run of leading digits, `None` when there is none. */
  function LeadingDigits(body: string): (r: Option<nat>)
  {
    var k := DigitPrefixLength(body);
    if k == 0 then None else Some(DigitsValue(body[..k]))
  }

  /** Rendering an integer and parsing it back gives the integer. */
  lemma {:induction false} ParseIntOfIntToString(i: int)
    ensures ParseInt(IntToString(i)) == Some(i)
  {
    if i < 0 {
      var digits := NatToString(-i);
      assert IntToString(i) == "-" + digits;
      ParseNegativeDigits(digits);
      DigitsValueOfNatToString(-i);
      assert DigitsValue(digits) == -i;
    } else {
      var digits := NatToString(i);
      assert IntToString(i) == digits;
      ParseDigits(digits);
      DigitsValueOfNatToString(i);
      assert DigitsValue(digits) == i;
    }
  }

  /** Digits parse as their value. */
  lemma {:induction false} ParseDigits(digits: string)
    requires digits != [] && AllDigits(digits)
    ensures ParseInt(digits) == Some(DigitsValue(digits) as int)
  {
    assert TrimStart(digits) == digits by {
      assert !IsSpace(digits[0]);
    }
    AllDigitsLead(digits);
    assert ParseSigned(digits) == Some(DigitsValue(digits) as int);
  }

  /** A minus sign and digits parse as the negated value of the digits. */
  lemma {:induction false} ParseNegativeDigits(digits: string)
    requires digits != [] && AllDigits(digits)
    ensures ParseInt("-" + digits) == Some(-(DigitsValue(digits) as int))
  {
    var s := "-" + digits;
    assert s[0] == '-' && s[1..] == digits;
    assert TrimStart(s) == s by {
      assert !IsSpace(s[0]);
    }
    AllDigitsLead(digits);
    assert ParseSigned(s) == Some(-(DigitsValue(digits) as int));
  }

  /** A run of digits is read whole. */
  lemma AllDigitsLead(digits: string)
    requires digits != [] && AllDigits(digits)
    ensures LeadingDigits(digits) == Some(DigitsValue(digits))
  {
    DigitPrefixAll(digits);
    assert digits[..|digits|] == digits;
  }

  lemma {:induction false} DigitPrefixAll(s: string)
    requires AllDigits(s)
    ensures DigitPrefixLength(s) == |s|
  {
    if s != [] {
      DigitPrefixAll(s[1..]);
    }
  }

  // ---- searching and splitting ------------------------------------------

  /** First position at which `sub` occurs in `s`. */
  function IndexOf(s: string, sub: string): (r: Option<nat>)
    ensures r.Some? ==> OccursAt(s, sub, r.value)
    ensures r.Some? ==> forall j :: 0 <= j < r.value ==> !OccursAt(s, sub, j)
    ensures r.None? ==> forall j :: !OccursAt(s, sub, j)
    decreases |s|
  {
    OccursAtZero(s, sub);
    if StartsWith(s, sub) then
      Some(0)
    else if s == [] then
      None
    else
      var r := IndexOf(s[1..], sub);
      assert forall j :: 1 <= j ==> (OccursAt(s[1..], sub, j - 1) <==> OccursAt(s, sub, j)) by {
        forall j | 1 <= j ensures OccursAt(s[1..], sub, j - 1) <==> OccursAt(s, sub, j) {
          OccursAtTail(s, sub, j - 1);
        }
      }
      if r.None? then None else Some(r.value + 1)
  }

  /** JavaScript `s.split(sep)` for a non-empty separator string. */
  function SplitOn(s: string, sep: string): (parts: seq<string>)
    requires sep != []
    ensures |parts| >= 1
    decreases |s|
  {
    match IndexOf(s, sep)
    case None => [s]
    case Some(i) => [s[..i]] + SplitOn(s[i + |sep|..], sep)
  }

  /** Splitting and joining with the same separator gives the input back. */
  lemma {:induction false} JoinSplitOn(s: string, sep: string)
    requires sep != []
    ensures Join(SplitOn(s, sep), sep) == s
    decreases |s|
  {
    var r := IndexOf(s, sep);
    if r.Some? {
      var i := r.value;
      var rest := s[i + |sep|..];
      JoinSplitOn(rest, sep);
      var tail := SplitOn(rest, sep);
      var parts := [s[..i]] + tail;
      assert SplitOn(s, sep) == parts;
      assert parts[1..] == tail;
      assert Join(parts, sep) == s[..i] + sep + Join(tail, sep);
      assert s == s[..i] + s[i..i + |sep|] + rest;
    }
  }

  /** The leading run of non-whitespace characters. */
  function TakeWord(s: string): (w: string)
    ensures |w| <= |s| && w == s[..|w|]
    ensures s != [] && !IsSpace(s[0]) ==> |w| >= 1
    ensures forall i :: 0 <= i < |w| ==> !IsSpace(w[i])
    ensures |w| < |s| ==> IsSpace(s[|w|])
  {
    if s != [] && !IsSpace(s[0]) then [s[0]] + TakeWord(s[1..]) else ""
  }

  /** Python `s.split()`: the maximal runs of non-whitespace characters, in order. */
  function Words(s: string): seq<string>
    decreases |s|
  {
    if s == [] then []
    else if IsSpace(s[0]) then Words(s[1..])
    else
      var w := TakeWord(s);
      [w] + Words(s[|w|..])
  }

  /** A text without the separator's first character holds no occurrence of the separator. */
  lemma NoOccurrence(s: string, sep: string)
    requires sep != [] && sep[0] !in s
    ensures forall j :: !OccursAt(s, sep, j)
  {
    forall j ensures !OccursAt(s, sep, j) {
      if 0 <= j && j + |sep| <= |s| {
        assert s[j..j + |sep|][0] == s[j];
      }
    }
  }

  /** Joining and then splitting gives the parts back when none holds the separator's first character. */
  lemma {:induction false} SplitOnJoin(parts: seq<string>, sep: string)
    requires sep != [] && parts != []
    requires forall i :: 0 <= i < |parts| ==> sep[0] !in parts[i]
    ensures SplitOn(Join(parts, sep), sep) == parts
    decreases |parts|
  {
    var p0 := parts[0];
    NoOccurrence(p0, sep);
    if |parts| == 1 {
      assert Join(parts, sep) == p0;
    } else {
      var rest := Join(parts[1..], sep);
      var s := Join(parts, sep);
      assert s == p0 + sep + rest;
      assert OccursAt(s, sep, |p0|) by {
        assert s[|p0|..|p0| + |sep|] == sep;
      }
      forall j | 0 <= j < |p0| ensures !OccursAt(s, sep, j) {
        assert s[j] == p0[j];
        if j + |sep| <= |s| {
          assert s[j..j + |sep|][0] == s[j];
        }
      }
      assert IndexOf(s, sep) == Some(|p0|);
      assert s[..|p0|] == p0;
      assert s[|p0| + |sep|..] == rest;
      SplitOnJoin(parts[1..], sep);
    }
  }
}
