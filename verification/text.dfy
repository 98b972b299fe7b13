/** The string primitives of Rust's standard library that the parsers rely on:
    `contains`, `trim`, `split_once`, `split`, `lines`, `trim_end_matches`,
    `usize::from_str` and `usize`'s decimal `Display`.  Each is given a
    contract that characterises it independently of how it is computed.
 */
module Text {
  import opened Outcomes

  // ---------------------------------------------------------------------------
  // Substring search (`str::contains` with a string pattern)

  /** `p` occurs in `s` starting at index `i`. */
  predicate OccursAt(s: string, p: string, i: int) {
    0 <= i && i + |p| <= |s| && s[i..i + |p|] == p
  }

  function Contains(s: string, p: string): (b: bool)
    ensures b <==> exists i :: OccursAt(s, p, i)
    decreases |s|
  {
    if |s| < |p| then
      false
    else if s[..|p|] == p then
      assert OccursAt(s, p, 0);
      true
    else
      var b := Contains(s[1..], p);
      OccursLater(s, p);
      b
  }

  /** When `p` is not at the front of `s`, it occurs in `s` exactly when it
      occurs in `s[1..]`. */
  lemma OccursLater(s: string, p: string)
    requires |p| <= |s| && s[..|p|] != p
    ensures (exists i :: OccursAt(s, p, i)) <==> exists i :: OccursAt(s[1..], p, i)
  {
    if exists i :: OccursAt(s, p, i) {
      var i :| OccursAt(s, p, i);
      assert i > 0;
      assert s[1..][i - 1..i - 1 + |p|] == s[i..i + |p|];
      assert OccursAt(s[1..], p, i - 1);
    }
    if exists i :: OccursAt(s[1..], p, i) {
      var i :| OccursAt(s[1..], p, i);
      assert s[1..][i..i + |p|] == s[i + 1..i + 1 + |p|];
      assert OccursAt(s, p, i + 1);
    }
  }

  // ---------------------------------------------------------------------------
  // Whitespace and trimming (`str::trim`)

  /** Rust's `char::is_whitespace`: the Unicode White_Space property. */
  predicate IsWhitespace(c: char) {
    var n := c as int;
    || 0x09 <= n <= 0x0D
    || n == 0x20
    || n == 0x85
    || n == 0xA0
    || n == 0x1680
    || 0x2000 <= n <= 0x200A
    || n == 0x2028
    || n == 0x2029
    || n == 0x202F
    || n == 0x205F
    || n == 0x3000
  }

  predicate AllWhitespace(s: string) {
    forall i :: 0 <= i < |s| ==> IsWhitespace(s[i])
  }

  /** A non-empty string none of whose characters is whitespace. */
  predicate IsToken(s: string) {
    |s| > 0 && forall i :: 0 <= i < |s| ==> !IsWhitespace(s[i])
  }

  /** A token holds no field or line separator and does not end a CRLF line. */
  lemma NoSpaceInToken(s: string)
    requires IsToken(s)
    ensures ' ' !in s && '\n' !in s && s[|s| - 1] != '\r'
  {
    assert !IsWhitespace(s[|s| - 1]);
    forall i | 0 <= i < |s| ensures s[i] != ' ' && s[i] != '\n' {
      assert !IsWhitespace(s[i]);
    }
  }

  function TrimStart(s: string): (r: string)
    ensures |r| <= |s| && r == s[|s| - |r|..]
    ensures r == [] || !IsWhitespace(r[0])
    ensures AllWhitespace(s[..|s| - |r|])
  {
    if |s| == 0 || !IsWhitespace(s[0]) then
      assert s[..0] == [];
      s
    else
      var r := TrimStart(s[1..]);
      assert r == s[|s| - |r|..];
      WhitespaceBefore(s, |s| - |r|);
      r
  }

  function TrimEnd(s: string): (r: string)
    ensures |r| <= |s| && r == s[..|r|]
    ensures r == [] || !IsWhitespace(r[|r| - 1])
    ensures AllWhitespace(s[|r|..])
  {
    if |s| == 0 || !IsWhitespace(s[|s| - 1]) then
      assert s[|s|..] == [];
      s
    else
      var r := TrimEnd(s[..|s| - 1]);
      WhitespaceAfter(s, |r|);
      r
  }

  lemma WhitespaceBefore(s: string, k: nat)
    requires 0 < k <= |s| && IsWhitespace(s[0]) && AllWhitespace(s[1..][..k - 1])
    ensures AllWhitespace(s[..k])
  {
    assert forall i :: 1 <= i < k ==> s[..k][i] == s[1..][..k - 1][i - 1];
  }

  lemma WhitespaceAfter(s: string, k: nat)
    requires k < |s| && IsWhitespace(s[|s| - 1]) && AllWhitespace(s[..|s| - 1][k..])
    ensures AllWhitespace(s[k..])
  {
    assert forall i :: 0 <= i < |s| - 1 - k ==> s[k..][i] == s[..|s| - 1][k..][i];
  }

  /** `r` is a slice of `s` between two all-whitespace margins. */
  predicate WhitespaceMargins(s: string, r: string) {
    exists i :: 0 <= i <= |s| - |r| && r == s[i..i + |r|] && AllWhitespace(s[..i]) && AllWhitespace(s[i + |r|..])
  }

  /** `str::trim`: `r` is `s` less a whitespace margin on each side, and
      neither end of `r` is whitespace. */
  function Trim(s: string): (r: string)
    ensures |r| <= |s|
    ensures r == [] || (!IsWhitespace(r[0]) && !IsWhitespace(r[|r| - 1]))
    ensures WhitespaceMargins(s, r)
  {
    var t := TrimStart(s);
    var r := TrimEnd(t);
    TrimMargins(s, t, r);
    r
  }

  lemma TrimMargins(s: string, t: string, r: string)
    requires |t| <= |s| && t == s[|s| - |t|..] && AllWhitespace(s[..|s| - |t|])
    requires |r| <= |t| && r == t[..|r|] && AllWhitespace(t[|r|..])
    requires r == [] || r[0] == t[0]
    ensures WhitespaceMargins(s, r)
  {
    var i := |s| - |t|;
    assert s[i + |r|..] == t[|r|..];
    assert r == s[i..i + |r|];
  }

  /** Trimming removes a whitespace-only margin and nothing else. */
  lemma TrimPadded(pad: string, body: string)
    requires AllWhitespace(pad)
    requires body == [] || (!IsWhitespace(body[0]) && !IsWhitespace(body[|body| - 1]))
    ensures Trim(pad + body) == body
  {
    TrimStartPadded(pad, body);
    TrimEndClean(body);
  }

  lemma {:induction false} TrimStartPadded(pad: string, body: string)
    requires AllWhitespace(pad)
    requires body == [] || !IsWhitespace(body[0])
    ensures TrimStart(pad + body) == body
    decreases |pad|
  {
    if pad == [] {
      assert pad + body == body;
    } else {
      assert (pad + body)[1..] == pad[1..] + body;
      TrimStartPadded(pad[1..], body);
    }
  }

  lemma TrimEndClean(s: string)
    requires s == [] || !IsWhitespace(s[|s| - 1])
    ensures TrimEnd(s) == s
  {
  }

  // ---------------------------------------------------------------------------
  // Splitting at one character (`str::split_once`, `str::split`)

  /** Splits at the FIRST occurrence of `c`. */
  function SplitOnce(s: string, c: char): (r: Option<(string, string)>)
    ensures r.None? <==> c !in s
    ensures r.Some? ==> s == r.value.0 + [c] + r.value.1 && c !in r.value.0
  {
    if |s| == 0 then
      None
    else if s[0] == c then
      assert s == [] + [c] + s[1..];
      Some(([], s[1..]))
    else
      assert s == [s[0]] + s[1..];
      match SplitOnce(s[1..], c)
      case None => None
      case Some((a, b)) =>
        assert s == ([s[0]] + a) + [c] + b;
        Some(([s[0]] + a, b))
  }

  /** The first occurrence of `c` determines the split. */
  lemma {:induction false} SplitOnceAt(s: string, c: char, i: int)
    requires 0 <= i < |s| && s[i] == c && c !in s[..i]
    ensures SplitOnce(s, c) == Some((s[..i], s[i + 1..]))
    decreases i
  {
    if i > 0 {
      assert s[0] == s[..i][0];
      assert s[1..][..i - 1] == s[1..i];
      SplitOnceAt(s[1..], c, i - 1);
      assert [s[0]] + s[1..i] == s[..i];
    }
  }

  lemma SplitOnceConcat(a: string, c: char, b: string)
    requires c !in a
    ensures SplitOnce(a + [c] + b, c) == Some((a, b))
  {
    var s := a + [c] + b;
    assert s[..|a|] == a;
    assert s[|a| + 1..] == b;
    SplitOnceAt(s, c, |a|);
  }

  /** `fs[0] + [c] + fs[1] + [c] + ... + fs[|fs|-1]`; `[].join` is empty. */
  function Join(fs: seq<string>, c: char): string
  {
    if |fs| == 0 then []
    else if |fs| == 1 then fs[0]
    else fs[0] + [c] + Join(fs[1..], c)
  }

  /** `s.split(c)`: the fields between occurrences of `c`, including empty ones. */
  function Split(s: string, c: char): (r: seq<string>)
    ensures |r| >= 1
    ensures forall i :: 0 <= i < |r| ==> c !in r[i]
    ensures Join(r, c) == s
    ensures |r| == 1 <==> c !in s
    decreases |s|
  {
    match SplitOnce(s, c)
    case None => [s]
    case Some((a, b)) => [a] + Split(b, c)
  }

  /** Splitting distributes over a separator occurrence. */
  lemma {:induction false} SplitConcat(p: string, c: char, q: string)
    ensures Split(p + [c] + q, c) == Split(p, c) + Split(q, c)
    decreases |p|
  {
    match SplitOnce(p, c)
    case None =>
      SplitOnceConcat(p, c, q);
    case Some((a, b)) =>
      assert p + [c] + q == a + [c] + (b + [c] + q);
      SplitOnceConcat(a, c, b + [c] + q);
      SplitConcat(b, c, q);
  }

  // ---------------------------------------------------------------------------
  // Line splitting (`str::lines`)

  /** Removes one trailing carriage return. */
  function StripCR(l: string): (r: string)
    ensures r == l || (l == r + ['\r'])
  {
    if |l| > 0 && l[|l| - 1] == '\r' then l[..|l| - 1] else l
  }

  /** Rust's `str::lines`: lines end at "\n" or "\r\n"; the final terminator is
      optional and an empty string has no lines. */
  function Lines(s: string): (r: seq<string>)
    ensures forall i :: 0 <= i < |r| ==> '\n' !in r[i]
    ensures |r| == 0 <==> s == []
    decreases |s|
  {
    if |s| == 0 then
      []
    else
      match SplitOnce(s, '\n')
      case None => [s]
      case Some((a, b)) => [StripCR(a)] + Lines(b)
  }

  /** A line that `lines` gives back unchanged inside a joined text. */
  predicate IsPlainLine(l: string) {
    '\n' !in l && (l == [] || l[|l| - 1] != '\r')
  }

  /** `lines` undoes joining with "\n" when no line can be mistaken for a
      terminator and the last line is not empty. */
  lemma {:induction false} LinesOfJoin(ls: seq<string>)
    requires |ls| > 0 && ls[|ls| - 1] != []
    requires forall i :: 0 <= i < |ls| ==> IsPlainLine(ls[i])
    ensures Lines(Join(ls, '\n')) == ls
    decreases |ls|
  {
    if |ls| == 1 {
    } else {
      var rest := Join(ls[1..], '\n');
      SplitOnceConcat(ls[0], '\n', rest);
      LinesOfJoin(ls[1..]);
      assert [ls[0]] + ls[1..] == ls;
    }
  }

  // ---------------------------------------------------------------------------
  // Suffix stripping (`str::trim_end_matches` with a string pattern)

  function Repeat(p: string, k: nat): string {
    if k == 0 then [] else Repeat(p, k - 1) + p
  }

  predicate EndsWith(s: string, p: string) {
    |p| <= |s| && s[|s| - |p|..] == p
  }

  /** Strips `p` from the end of `s` as often as it is there. */
  function TrimEndMatches(s: string, p: string): (r: string)
    requires |p| > 0
    ensures !EndsWith(r, p)
    ensures exists k :: s == r + Repeat(p, k)
    decreases |s|
  {
    if EndsWith(s, p) then
      var t := s[..|s| - |p|];
      var r := TrimEndMatches(t, p);
      var k: nat :| t == r + Repeat(p, k);
      RepeatOnceMore(s, p, r, k);
      r
    else
      assert s == s + Repeat(p, 0);
      s
  }

  lemma RepeatOnceMore(s: string, p: string, r: string, k: nat)
    requires EndsWith(s, p) && s[..|s| - |p|] == r + Repeat(p, k)
    ensures s == r + Repeat(p, k + 1)
  {
    assert s == s[..|s| - |p|] + p;
  }

  // ---------------------------------------------------------------------------
  // Decimal numbers (`usize::from_str`, `usize`'s `Display`)

  /** The largest `usize` on a 64-bit target. */
  const UsizeMax: nat := 0xFFFF_FFFF_FFFF_FFFF

  predicate IsDigit(c: char) {
    '0' <= c <= '9'
  }

  predicate AllDigits(s: string) {
    forall i :: 0 <= i < |s| ==> IsDigit(s[i])
  }

  function DigitValue(c: char): nat
    requires IsDigit(c)
  {
    (c as int) - ('0' as int)
  }

  function DigitChar(d: nat): (c: char)
    requires d < 10
    ensures IsDigit(c) && DigitValue(c) == d
  {
    (('0' as int) + d) as char
  }

  /** The value of a string of decimal digits, most significant first. */
  function DigitsValue(ds: string): nat
    requires AllDigits(ds)
  {
    if |ds| == 0 then 0
    else 10 * DigitsValue(ds[..|ds| - 1]) + DigitValue(ds[|ds| - 1])
  }

  /** `s.parse::<usize>()`: one optional leading '+', then at least one
      decimal digit, and a value that fits in a `usize`. */
  function ParseUsize(s: string): (r: Option<nat>)
    ensures r.Some? ==> r.value <= UsizeMax
    ensures r.Some? ==> |s| > 0 && forall i :: 0 <= i < |s| ==> IsDigit(s[i]) || (i == 0 && s[i] == '+')
  {
    var ds := if |s| > 0 && s[0] == '+' then s[1..] else s;
    if |ds| > 0 && AllDigits(ds) && DigitsValue(ds) <= UsizeMax then Some(DigitsValue(ds)) else None
  }

  /** `format!("{}", n)`: decimal digits without leading zeros. */
  function NatToString(n: nat): (r: string)
    ensures |r| > 0 && AllDigits(r)
    ensures r[0] != '0' || n == 0
  {
    if n < 10 then [DigitChar(n)] else NatToString(n / 10) + [DigitChar(n % 10)]
  }

  lemma {:induction false} DigitsValueOfNatToString(n: nat)
    ensures DigitsValue(NatToString(n)) == n
    decreases n
  {
    if n >= 10 {
      var s := NatToString(n);
      assert s[..|s| - 1] == NatToString(n / 10);
      DigitsValueOfNatToString(n / 10);
    }
  }

  predicate AllZeros(z: string) {
    forall i :: 0 <= i < |z| ==> z[i] == '0'
  }

  /** `usize::from_str` accepts an optional '+', any number of leading
      zeros and then a number up to `UsizeMax` in its printed form, and
      yields that number. */
  lemma ParseUsizeOfDecimal(sign: string, zeros: string, n: nat)
    requires sign == "" || sign == "+"
    requires AllZeros(zeros) && n <= UsizeMax
    ensures ParseUsize(sign + zeros + NatToString(n)) == Some(n)
  {
    var ds := zeros + NatToString(n);
    DigitsValueOfNatToString(n);
    LeadingZeros(zeros, NatToString(n));
    assert sign + zeros + NatToString(n) == sign + ds;
    ParseUsizeOfDigits(sign, ds);
  }

  lemma ParseUsizeOfDigits(sign: string, ds: string)
    requires sign == "" || sign == "+"
    requires |ds| > 0 && AllDigits(ds) && DigitsValue(ds) <= UsizeMax
    ensures ParseUsize(sign + ds) == Some(DigitsValue(ds))
  {
    if sign == "+" {
      assert (sign + ds)[1..] == ds;
    } else {
      assert sign + ds == ds;
      assert IsDigit(ds[0]);
    }
  }

  /** Conversely, every string `usize::from_str` accepts has that form: an
      optional '+', leading zeros, and the printed form of the value. */
  lemma ParseUsizeForm(s: string) returns (sign: string, zeros: string)
    requires ParseUsize(s).Some?
    ensures sign == "" || sign == "+"
    ensures AllZeros(zeros) && s == sign + zeros + NatToString(ParseUsize(s).value)
  {
    var ds;
    sign, ds := UsizeParts(s);
    zeros := CanonicalDigits(ds);
  }

  /** An accepted string is its sign followed by the digits of its value. */
  lemma UsizeParts(s: string) returns (sign: string, ds: string)
    requires ParseUsize(s).Some?
    ensures sign == "" || sign == "+"
    ensures s == sign + ds && |ds| > 0 && AllDigits(ds) && ParseUsize(s).value == DigitsValue(ds)
  {
    sign := if |s| > 0 && s[0] == '+' then "+" else "";
    ds := s[|sign|..];
    assert s == sign + ds;
  }

  /** A non-empty digit string is some zeros followed by the printed form
      of its value. */
  lemma {:induction false} CanonicalDigits(ds: string) returns (zeros: string)
    requires |ds| > 0 && AllDigits(ds)
    ensures AllZeros(zeros) && ds == zeros + NatToString(DigitsValue(ds))
    decreases |ds|
  {
    if |ds| > 1 && ds[0] == '0' {
      var more := CanonicalDigits(ds[1..]);
      LeadingZeros(['0'], ds[1..]);
      assert ds == ['0'] + ds[1..];
      zeros := ['0'] + more;
      assert ds == zeros + NatToString(DigitsValue(ds[1..]));
    } else {
      zeros := [];
      NoLeadingZero(ds);
    }
  }

  lemma {:induction false} ZerosValue(z: string)
    requires AllZeros(z)
    ensures AllDigits(z) && DigitsValue(z) == 0
    decreases |z|
  {
    if z != [] {
      ZerosValue(z[..|z| - 1]);
    }
  }

  /** Leading zeros do not change the value of a digit string. */
  lemma {:induction false} LeadingZeros(z: string, ds: string)
    requires AllZeros(z) && AllDigits(ds)
    ensures AllDigits(z + ds) && DigitsValue(z + ds) == DigitsValue(ds)
    decreases |ds|
  {
    ZerosValue(z);
    if ds == [] {
      assert z + ds == z;
    } else {
      var s := z + ds;
      assert s[..|s| - 1] == z + ds[..|ds| - 1];
      assert s[|s| - 1] == ds[|ds| - 1];
      LeadingZeros(z, ds[..|ds| - 1]);
    }
  }

  lemma {:induction false} PositiveValue(t: string)
    requires |t| > 0 && AllDigits(t) && t[0] != '0'
    ensures DigitsValue(t) >= 1
    decreases |t|
  {
    if |t| > 1 {
      PositiveValue(t[..|t| - 1]);
    }
  }

  /** A digit string without a leading zero (or "0" itself) is the printed
      form of its value. */
  lemma {:induction false} NoLeadingZero(t: string)
    requires |t| > 0 && AllDigits(t) && (t[0] != '0' || |t| == 1)
    ensures NatToString(DigitsValue(t)) == t
    decreases |t|
  {
    var c := t[|t| - 1];
    var d := DigitValue(c);
    assert DigitChar(d) == c;
    if |t| == 1 {
      assert t[..0] == [];
    } else {
      var u := t[..|t| - 1];
      PositiveValue(u);
      NoLeadingZero(u);
      var v := DigitsValue(t);
      assert v == 10 * DigitsValue(u) + d;
      assert v / 10 == DigitsValue(u) && v % 10 == d;
      assert t == u + [c];
    }
  }

  /** Printing a `usize` and parsing it back gives the same number. */
  lemma ParseUsizeOfNatToString(n: nat)
    requires n <= UsizeMax
    ensures ParseUsize(NatToString(n)) == Some(n)
  {
    DigitsValueOfNatToString(n);
  }
}
