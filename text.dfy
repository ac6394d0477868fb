/** ASCII models of the Python string operations the fixture extender relies on:
    str.strip(), str.rstrip(ch), str.lower(), sep.join(parts), and the integer
    format specification "0<width>d" together with int() to read it back. */
module Text {

  datatype Option<T> = None | Some(value: T)

  // ---------------------------------------------------------------------------
  // Whitespace and str.strip()

  /** str.isspace() on a single ASCII character: space, \t \n \v \f \r and the
      separator controls \x1c-\x1f. Non-ASCII characters count as non-space. */
  predicate IsSpace(c: char) {
    c == ' ' || ('\t' <= c <= '\r') || ('\U{1C}' <= c <= '\U{1F}')
  }

  predicate AllSpace(s: string) {
    forall i :: 0 <= i < |s| ==> IsSpace(s[i])
  }

  /** Neither end of s is whitespace. */
  predicate Trimmed(s: string) {
    s == [] || (!IsSpace(s[0]) && !IsSpace(s[|s| - 1]))
  }

  /** s[i..i + n] is bordered by whitespace only, and when non-empty it
      starts and ends on a non-space character. */
  predicate Stretch(s: string, i: nat, n: nat) {
    && i + n <= |s|
    && (forall k :: 0 <= k < i ==> IsSpace(s[k]))
    && (forall k :: i + n <= k < |s| ==> IsSpace(s[k]))
    && (n > 0 ==> !IsSpace(s[i]) && !IsSpace(s[i + n - 1]))
  }

  /** r is what remains of s once its leading and its trailing whitespace are
      cut off: a slice of s that starts and ends on a non-space character,
      with only whitespace on either side. */
  ghost predicate IsStripOf(r: string, s: string) {
    exists i: nat :: Stretch(s, i, |r|) && s[i..i + |r|] == r
  }

  /** str.lstrip() */
  function LStrip(s: string): (r: string)
    ensures |r| <= |s|
    ensures r == [] || !IsSpace(r[0])
  {
    if |s| > 0 && IsSpace(s[0]) then LStrip(s[1..]) else s
  }

  /** LStrip cuts a run of whitespace off the front of s and nothing else. */
  lemma {:induction false} LStripShape(s: string)
    ensures var r := LStrip(s); r == s[|s| - |r|..] && AllSpace(s[..|s| - |r|])
  {
    if |s| > 0 && IsSpace(s[0]) {
      LStripShape(s[1..]);
      var r := LStrip(s);
      assert s[1..][|s| - 1 - |r|..] == s[|s| - |r|..];
      assert forall k :: 1 <= k < |s| - |r| ==> s[k] == s[1..][..|s| - 1 - |r|][k - 1];
    }
  }

  /** str.rstrip() */
  function RStrip(s: string): (r: string)
    ensures |r| <= |s|
    ensures r == [] || !IsSpace(r[|r| - 1])
    ensures r != [] ==> r[0] == s[0]
  {
    if |s| > 0 && IsSpace(s[|s| - 1]) then RStrip(s[..|s| - 1]) else s
  }

  /** RStrip cuts a run of whitespace off the end of s and nothing else. */
  lemma {:induction false} RStripShape(s: string)
    ensures var r := RStrip(s); r == s[..|r|] && AllSpace(s[|r|..])
  {
    if |s| > 0 && IsSpace(s[|s| - 1]) {
      RStripShape(s[..|s| - 1]);
      var r := RStrip(s);
      assert s[..|s| - 1][..|r|] == s[..|r|];
      assert forall k :: |r| <= k < |s| - 1 ==> s[k] == s[..|s| - 1][|r|..][k - |r|];
    }
  }

  /** str.strip() */
  function Strip(s: string): (r: string)
    ensures |r| <= |s|
    ensures Trimmed(r)
  {
    RStrip(LStrip(s))
  }

  /** Strip meets the characterisation IsStripOf. */
  lemma StripIsStripOf(s: string)
    ensures IsStripOf(Strip(s), s)
  {
    var l := LStrip(s);
    var r := RStrip(l);
    var i := |s| - |l|;
    assert |r| <= |l| <= |s|;
    assert forall k :: 0 <= k < i ==> IsSpace(s[k]) by {
      LStripShape(s);
      forall k | 0 <= k < i ensures IsSpace(s[k]) {
        assert s[..i][k] == s[k];
      }
    }
    assert forall k :: i + |r| <= k < |s| ==> IsSpace(s[k]) by {
      LStripShape(s);
      RStripShape(l);
      forall k | i + |r| <= k < |s| ensures IsSpace(s[k]) {
        assert l[|r|..][k - i - |r|] == s[k];
      }
    }
    assert s[i..i + |r|] == r by {
      LStripShape(s);
      RStripShape(l);
    }
    assert Stretch(s, i, |r|);
  }

  /** The characterisation IsStripOf admits one result only, so Strip is the
      unique function meeting it. */
  lemma StripOfUnique(r1: string, r2: string, s: string)
    requires IsStripOf(r1, s) && IsStripOf(r2, s)
    ensures r1 == r2
  {
    var i1: nat :| Stretch(s, i1, |r1|) && s[i1..i1 + |r1|] == r1;
    var i2: nat :| Stretch(s, i2, |r2|) && s[i2..i2 + |r2|] == r2;
    SameStretch(s, i1, |r1|, i2, |r2|);
  }

  /** A string has one such stretch: the two are the same slice. */
  lemma SameStretch(s: string, i1: nat, n1: nat, i2: nat, n2: nat)
    requires Stretch(s, i1, n1) && Stretch(s, i2, n2)
    ensures s[i1..i1 + n1] == s[i2..i2 + n2]
  {
    assert n1 > 0 <==> n2 > 0;
    if n1 > 0 {
      assert i1 == i2;
      assert n1 == n2;
    }
  }

  lemma StripIdempotent(s: string)
    ensures Strip(Strip(s)) == Strip(s)
  {
    var r := Strip(s);
    StripIsStripOf(s);
    StripIsStripOf(r);
    assert IsStripOf(r, r) by {
      assert Stretch(r, 0, |r|) && r[0..0 + |r|] == r;
    }
    StripOfUnique(Strip(r), r, r);
  }

  // ---------------------------------------------------------------------------
  // str.rstrip(ch) and str.lower()

  /** str.rstrip(ch) for a single character ch. */
  function RStripChar(s: string, ch: char): (r: string)
    ensures |r| <= |s|
  {
    if |s| > 0 && s[|s| - 1] == ch then RStripChar(s[..|s| - 1], ch) else s
  }

  /** RStripChar cuts a run of ch off the end of s and nothing else. */
  lemma {:induction false} RStripCharShape(s: string, ch: char)
    ensures var r := RStripChar(s, ch);
      && r == s[..|r|]
      && (forall i :: |r| <= i < |s| ==> s[i] == ch)
      && (r == [] || r[|r| - 1] != ch)
  {
    if |s| > 0 && s[|s| - 1] == ch {
      RStripCharShape(s[..|s| - 1], ch);
      var r := RStripChar(s, ch);
      assert s[..|s| - 1][..|r|] == s[..|r|];
      assert forall i :: |r| <= i < |s| - 1 ==> s[..|s| - 1][i] == s[i];
    }
  }

  predicate IsUpper(c: char) {
    'A' <= c <= 'Z'
  }

  function LowerChar(c: char): char {
    if IsUpper(c) then (c as int + 32) as char else c
  }

  /** str.lower() on ASCII: each capital letter becomes its small letter,
      every other character stays. */
  function Lower(s: string): (r: string)
    ensures |r| == |s|
  {
    if s == [] then [] else [LowerChar(s[0])] + Lower(s[1..])
  }

  /** What Lower does to each character, and that no capital letter is left. */
  lemma {:induction false} LowerAt(s: string)
    ensures forall i :: 0 <= i < |s| && IsUpper(s[i]) ==> Lower(s)[i] as int == s[i] as int + 32
    ensures forall i :: 0 <= i < |s| && !IsUpper(s[i]) ==> Lower(s)[i] == s[i]
    ensures forall i :: 0 <= i < |s| ==> !IsUpper(Lower(s)[i])
  {
    if s != [] {
      LowerAt(s[1..]);
      assert forall i :: 1 <= i < |s| ==> Lower(s)[i] == Lower(s[1..])[i - 1];
    }
  }

  /** Lower-casing twice changes nothing more. */
  lemma LowerIdempotent(s: string)
    ensures Lower(Lower(s)) == Lower(s)
  {
    var l := Lower(s);
    LowerAt(s);
    LowerAt(l);
    assert forall i :: 0 <= i < |l| ==> Lower(l)[i] == l[i];
  }

  // ---------------------------------------------------------------------------
  // sep.join(parts)

  function TotalLength(parts: seq<string>): nat {
    if parts == [] then 0 else |parts[0]| + TotalLength(parts[1..])
  }

  /** sep.join(parts): the parts in order, one separator between neighbours. */
  function Join(sep: string, parts: seq<string>): (r: string)
    ensures parts == [] ==> r == ""
    ensures |parts| == 1 ==> r == parts[0]
  {
    if parts == [] then ""
    else if |parts| == 1 then parts[0]
    else parts[0] + sep + Join(sep, parts[1..])
  }

  /** sep.join(parts) starts with the first part, then (if there are more
      parts) the separator, and ends with the last part. */
  lemma {:induction false} JoinEnds(sep: string, parts: seq<string>)
    requires parts != []
    ensures var r := Join(sep, parts); var first, last := parts[0], parts[|parts| - 1];
      && |first| <= |r| && r[..|first|] == first
      && (|parts| > 1 ==> |first + sep| <= |r| && r[..|first + sep|] == first + sep)
      && |last| <= |r| && r[|r| - |last|..] == last
  {
    if |parts| > 1 {
      JoinEnds(sep, parts[1..]);
      var rest := Join(sep, parts[1..]);
      var r := parts[0] + sep + rest;
      var last := parts[|parts| - 1];
      assert r == Join(sep, parts);
      assert r[..|parts[0]|] == parts[0];
      assert r[..|parts[0] + sep|] == parts[0] + sep;
      assert r[|r| - |last|..] == rest[|rest| - |last|..] by {
        assert last == parts[1..][|parts[1..]| - 1];
      }
    }
  }

  /** The joined string holds every part and one separator per seam. */
  lemma {:induction false} JoinLength(sep: string, parts: seq<string>)
    requires parts != []
    ensures |Join(sep, parts)| == TotalLength(parts) + (|parts| - 1) * |sep|
  {
    if |parts| > 1 {
      JoinLength(sep, parts[1..]);
    }
  }

  /** What sep.join(parts) looks like at the seams: the first part, then the
      first separator character when more parts follow, and the last
      character of the last part at the very end. */
  lemma JoinShape(sep: string, parts: seq<string>)
    requires parts != [] && sep != [] && parts[|parts| - 1] != []
    ensures var r := Join(sep, parts); var first, last := parts[0], parts[|parts| - 1];
      && |first| <= |r| && r[..|first|] == first
      && (|parts| == 1 <==> r == first)
      && (|parts| > 1 ==> |first| < |r| && r[|first|] == sep[0])
      && r[|r| - 1] == last[|last| - 1]
  {
    JoinEnds(sep, parts);
    var r := Join(sep, parts);
    var first, last := parts[0], parts[|parts| - 1];
    assert r[|r| - |last|..][|last| - 1] == r[|r| - 1];
    if |parts| > 1 {
      assert r[..|first + sep|][|first|] == (first + sep)[|first|];
      assert |r| > |first|;
    }
  }

  // ---------------------------------------------------------------------------
  // Decimal numerals: format(n, "0<width>d") and int(s)

  predicate IsDigit(c: char) {
    '0' <= c <= '9'
  }

  predicate AllDigits(s: string) {
    forall i :: 0 <= i < |s| ==> IsDigit(s[i])
  }

  function DigitChar(d: nat): (c: char)
    requires d < 10
    ensures IsDigit(c) && c as int - '0' as int == d
  {
    ('0' as int + d) as char
  }

  function DigitValue(c: char): nat
    requires IsDigit(c)
  {
    c as int - '0' as int
  }

  function Pow10(k: nat): (p: nat)
    ensures p >= 1
  {
    if k == 0 then 1 else 10 * Pow10(k - 1)
  }

  /** str(n) for n >= 0: the decimal numeral of n without leading zeros. */
  function Decimal(n: nat): (r: string)
    ensures 1 <= |r|
    decreases n
  {
    if n < 10 then [DigitChar(n)] else Decimal(n / 10) + [DigitChar(n % 10)]
  }

  /** Decimal writes digits only, and a leading '0' only for zero. */
  lemma {:induction false} DecimalDigits(n: nat)
    ensures AllDigits(Decimal(n))
    ensures Decimal(n)[0] == '0' ==> n == 0
    decreases n
  {
    if n >= 10 {
      DecimalDigits(n / 10);
      var r := Decimal(n);
      assert forall i :: 0 <= i < |r| - 1 ==> r[i] == Decimal(n / 10)[i];
    }
  }

  /** The number a string of digits denotes, leading zeros allowed; a
      character that is not a digit counts as zero (ParseInt rules such
      strings out before reading them). */
  function DecimalValue(s: string): nat
  {
    if s == [] then 0
    else
      var c := s[|s| - 1];
      10 * DecimalValue(s[..|s| - 1]) + (if IsDigit(c) then DigitValue(c) else 0)
  }

  lemma {:induction false} DecimalRoundTrip(n: nat)
    ensures DecimalValue(Decimal(n)) == n
    decreases n
  {
    if n >= 10 {
      DecimalRoundTrip(n / 10);
      var r := Decimal(n);
      assert r[..|r| - 1] == Decimal(n / 10);
    }
  }

  lemma {:induction false} DecimalLength(n: nat, k: nat)
    requires 1 <= k && n < Pow10(k)
    ensures |Decimal(n)| <= k
    decreases n
  {
    if n >= 10 {
      DecimalLength(n / 10, k - 1);
    }
  }

  function Zeros(k: nat): (r: string)
    ensures |r| == k
  {
    if k == 0 then "" else Zeros(k - 1) + "0"
  }

  lemma {:induction false} ZerosAt(k: nat)
    ensures forall i :: 0 <= i < k ==> Zeros(k)[i] == '0'
  {
    if k > 0 {
      ZerosAt(k - 1);
      assert forall i :: 0 <= i < k - 1 ==> Zeros(k)[i] == Zeros(k - 1)[i];
    }
  }

  /** Left-fill s with '0' up to width characters; a longer s is kept whole. */
  function ZeroPad(s: string, width: nat): (r: string)
    ensures |r| == if |s| < width then width else |s|
  {
    Zeros(if |s| < width then width - |s| else 0) + s
  }

  /** ZeroPad puts zeros in front of s and changes nothing else. */
  lemma ZeroPadShape(s: string, width: nat)
    ensures var r := ZeroPad(s, width);
      && r[|r| - |s|..] == s
      && forall i :: 0 <= i < |r| - |s| ==> r[i] == '0'
  {
    var k := if |s| < width then width - |s| else 0;
    ZerosAt(k);
    var r := ZeroPad(s, width);
    assert r[|r| - |s|..] == s;
    assert forall i :: 0 <= i < k ==> r[i] == Zeros(k)[i];
  }

  lemma {:induction false} LeadingZerosValue(k: nat, s: string)
    requires AllDigits(s)
    ensures AllDigits(Zeros(k) + s) && DecimalValue(Zeros(k) + s) == DecimalValue(s)
    decreases |s|, k
  {
    ZerosAt(k);
    var z := Zeros(k) + s;
    if s == [] {
      if k > 0 {
        assert z[..|z| - 1] == Zeros(k - 1) + s;
        LeadingZerosValue(k - 1, s);
      }
    } else {
      assert z[..|z| - 1] == Zeros(k) + s[..|s| - 1];
      LeadingZerosValue(k, s[..|s| - 1]);
    }
  }

  /** format(n, "0<width>d"): the decimal numeral of n with '0' filled in after
      the sign until it is width characters long. */
  function FormatZeroFilled(n: int, width: nat): (r: string)
  {
    if n >= 0 then ZeroPad(Decimal(n), width)
    else "-" + ZeroPad(Decimal(-n), if width > 0 then width - 1 else 0)
  }

  /** int(s) for an optionally negative decimal numeral; anything else is None. */
  function ParseInt(s: string): (r: Option<int>)
  {
    if |s| > 1 && s[0] == '-' && AllDigits(s[1..]) then Some(-(DecimalValue(s[1..]) as int))
    else if |s| > 0 && AllDigits(s) then Some(DecimalValue(s))
    else None
  }

  /** A zero-filled numeral is all digits and denotes the number itself. */
  lemma ZeroPadValue(m: nat, width: nat)
    ensures var p := ZeroPad(Decimal(m), width);
      |p| >= 1 && AllDigits(p) && DecimalValue(p) == m
  {
    var d := Decimal(m);
    var p := ZeroPad(d, width);
    var k := |p| - |d|;
    assert p == Zeros(k) + d;
    DecimalDigits(m);
    LeadingZerosValue(k, d);
    DecimalRoundTrip(m);
  }

  /** int(format(n, "0<width>d")) == n: the zero filling loses nothing. */
  lemma FormatZeroFilledRoundTrip(n: int, width: nat)
    ensures ParseInt(FormatZeroFilled(n, width)) == Some(n)
  {
    var f := FormatZeroFilled(n, width);
    if n >= 0 {
      var p := ZeroPad(Decimal(n), width);
      assert |p| >= 1 && AllDigits(p) && DecimalValue(p) == n by {
        ZeroPadValue(n, width);
      }
      assert f == p;
      assert IsDigit(f[0]);
    } else {
      var w := if width > 0 then width - 1 else 0;
      var p := ZeroPad(Decimal(-n), w);
      assert |p| >= 1 && AllDigits(p) && DecimalValue(p) == -n by {
        ZeroPadValue(-n, w);
      }
      assert f == "-" + p;
      assert f[1..] == p;
    }
  }

  /** A non-negative value with at most width digits fills exactly width characters. */
  lemma FormatZeroFilledLength(n: int, width: nat)
    requires 1 <= width && 0 <= n < Pow10(width)
    ensures |FormatZeroFilled(n, width)| == width
  {
    DecimalLength(n, width);
  }
}
