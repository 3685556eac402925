/** The few Python `str` and `int` built-ins the contact book relies on,
    restricted to ASCII: `lower`, `capitalize`, `strip`, `split`, `join`,
    `str(int)`, zero-padded formatting and `int(text)`. */
module PyStr {
  import opened Base

  /** Python's `str.isspace` on ASCII, which `strip` and `split` use: space,
      \t \n \v \f \r and \x1c-\x1f. */
  predicate IsSpace(c: char) {
    c == ' ' || ('\t' <= c <= '\r') || ('\U{1C}' <= c <= '\U{1F}')
  }

  predicate IsDigit(c: char) { '0' <= c <= '9' }

  function DigitValue(c: char): nat
    requires IsDigit(c)
  {
    (c as int) - ('0' as int)
  }

  function DigitChar(d: nat): char
    requires d < 10
  {
    (('0' as int) + d) as char
  }

  function LowerChar(c: char): char {
    if 'A' <= c <= 'Z' then ((c as int) + 32) as char else c
  }

  function UpperChar(c: char): char {
    if 'a' <= c <= 'z' then ((c as int) - 32) as char else c
  }

  /** `s.lower()` */
  function Lower(s: string): string {
    seq(|s|, i requires 0 <= i < |s| => LowerChar(s[i]))
  }

  /** `s.capitalize()`: first character upper case, the rest lower case. */
  function Capitalize(s: string): string {
    if s == [] then [] else [UpperChar(s[0])] + Lower(s[1..])
  }

  predicate AllSpace(u: string) {
    forall i :: 0 <= i < |u| ==> IsSpace(u[i])
  }

  /** `s.lstrip()`: drops the leading run of white space and nothing else. */
  function LStrip(s: string): (r: string)
    ensures |r| <= |s|
  {
    if s != [] && IsSpace(s[0]) then LStrip(s[1..]) else s
  }

  /** `lstrip` keeps a suffix of its input that does not start with white space. */
  lemma {:induction false} LStripSuffix(s: string)
    ensures LStrip(s) == s[|s| - |LStrip(s)|..]
    ensures LStrip(s) == [] || !IsSpace(LStrip(s)[0])
  {
    if s != [] && IsSpace(s[0]) {
      LStripSuffix(s[1..]);
    }
  }

  /** Everything `lstrip` drops is white space. */
  lemma {:induction false} LStripDropsSpace(s: string)
    ensures AllSpace(s[..|s| - |LStrip(s)|])
  {
    if s != [] && IsSpace(s[0]) {
      LStripDropsSpace(s[1..]);
      assert s[..|s| - |LStrip(s)|] == [s[0]] + s[1..][..|s| - 1 - |LStrip(s[1..])|];
    }
  }

  /** `s.rstrip()`: drops the trailing run of white space and nothing else. */
  function RStrip(s: string): (r: string)
    ensures |r| <= |s|
  {
    if s != [] && IsSpace(s[|s| - 1]) then RStrip(s[..|s| - 1]) else s
  }

  /** `rstrip` keeps a prefix of its input that does not end with white space. */
  lemma {:induction false} RStripPrefix(s: string)
    ensures RStrip(s) == s[..|RStrip(s)|]
    ensures RStrip(s) == [] || !IsSpace(RStrip(s)[|RStrip(s)| - 1])
  {
    if s != [] && IsSpace(s[|s| - 1]) {
      RStripPrefix(s[..|s| - 1]);
    }
  }

  /** Everything `rstrip` drops is white space. */
  lemma {:induction false} RStripDropsSpace(s: string)
    ensures AllSpace(s[|RStrip(s)|..])
  {
    if s != [] && IsSpace(s[|s| - 1]) {
      var p := s[..|s| - 1];
      RStripDropsSpace(p);
      assert s[|RStrip(s)|..] == p[|RStrip(p)|..] + [s[|s| - 1]];
    }
  }

  /** `s.strip()` */
  function Strip(s: string): string {
    RStrip(LStrip(s))
  }

  /** Length of the leading run of non-space characters. */
  function TokenLength(s: string): (n: nat)
    ensures n <= |s|
    ensures forall i :: 0 <= i < n ==> !IsSpace(s[i])
    ensures n == |s| || IsSpace(s[n])
  {
    if s == [] || IsSpace(s[0]) then 0 else 1 + TokenLength(s[1..])
  }

  /** `s.split()` with no separator: the maximal runs of non-space characters. */
  function Words(s: string): (ws: seq<string>)
    ensures forall i :: 0 <= i < |ws| ==> ws[i] != []
    ensures forall i, j :: 0 <= i < |ws| && 0 <= j < |ws[i]| ==> !IsSpace(ws[i][j])
    decreases |s|
  {
    LStripSuffix(s);
    var t := LStrip(s);
    if t == [] then []
    else
      var n := TokenLength(t);
      [t[..n]] + Words(t[n..])
  }

  /** A text that does not start with white space splits into its leading
      token and the words of what follows it. */
  lemma WordsHead(s: string)
    requires s != [] && !IsSpace(s[0])
    ensures Words(s) == [s[..TokenLength(s)]] + Words(s[TokenLength(s)..])
    ensures TokenLength(s) > 0
  {
    assert LStrip(s) == s;
  }

  /** `s.startswith(p)` */
  predicate StartsWith(s: string, p: string) {
    |p| <= |s| && s[..|p|] == p
  }

  lemma LStripAppend(s: string, u: string)
    requires LStrip(s) != []
    ensures LStrip(s + u) == LStrip(s) + u
  {
    if IsSpace(s[0]) {
      assert (s + u)[1..] == s[1..] + u;
      LStripAppend(s[1..], u);
    }
  }

  lemma LStripAllSpace(s: string, u: string)
    requires LStrip(s) == [] && AllSpace(u)
    ensures LStrip(s + u) == []
  {
    if s == [] {
      assert s + u == u;
      LStripSpaces(u);
    } else {
      assert (s + u)[1..] == s[1..] + u;
      LStripAllSpace(s[1..], u);
    }
  }

  lemma LStripSpaces(u: string)
    requires AllSpace(u)
    ensures LStrip(u) == []
  {
    if u != [] { LStripSpaces(u[1..]); }
  }

  lemma TokenLengthAppend(t: string, u: string)
    requires AllSpace(u)
    ensures TokenLength(t + u) == TokenLength(t)
  {
    if t == [] {
      assert t + u == u;
    } else if !IsSpace(t[0]) {
      assert (t + u)[1..] == t[1..] + u;
      TokenLengthAppend(t[1..], u);
    }
  }

  /** Trailing white space never changes `split()`. */
  lemma {:induction false} WordsTrailingSpace(s: string, u: string)
    requires AllSpace(u)
    ensures Words(s + u) == Words(s)
    decreases |s|
  {
    var t := LStrip(s);
    if t == [] {
      LStripAllSpace(s, u);
    } else {
      LStripAppend(s, u);
      TokenLengthAppend(t, u);
      var n := TokenLength(t);
      assert (t + u)[..n] == t[..n];
      assert (t + u)[n..] == t[n..] + u;
      WordsTrailingSpace(t[n..], u);
    }
  }

  /** `s.rstrip().split() == s.split()` */
  lemma WordsRStrip(s: string)
    ensures Words(RStrip(s)) == Words(s)
  {
    var r := RStrip(s);
    var u := s[|r|..];
    RStripPrefix(s);
    assert s == r + u;
    RStripDropsSpace(s);
    WordsTrailingSpace(r, u);
  }

  /** `s.strip().split() == s.split()` */
  lemma WordsStrip(s: string)
    ensures Words(Strip(s)) == Words(s)
  {
    var l := LStrip(s);
    WordsRStrip(l);
    LStripSuffix(s);
    assert LStrip(l) == l;
  }

  /** `sep.join(xs)` */
  function Join(xs: seq<string>, sep: string): string {
    if xs == [] then []
    else if |xs| == 1 then xs[0]
    else xs[0] + sep + Join(xs[1..], sep)
  }

  /** A character that is neither in the separator nor in any piece is not in the joined text. */
  lemma {:induction false} JoinAvoids(xs: seq<string>, sep: string, c: char)
    requires c !in sep && forall i :: 0 <= i < |xs| ==> c !in xs[i]
    ensures c !in Join(xs, sep)
  {
    if |xs| > 1 {
      JoinAvoids(xs[1..], sep, c);
    }
  }

  /** Index of the first occurrence of `c` in `s`, if any. */
  function Find(s: string, c: char): (r: Option<nat>)
    ensures r.Some? ==> r.value < |s| && s[r.value] == c && c !in s[..r.value]
    ensures r.None? ==> c !in s
  {
    if s == [] then None
    else if s[0] == c then Some(0)
    else match Find(s[1..], c)
      case None => None
      case Some(i) => Some(i + 1)
  }

  /** `s.split(c)` for a one-character separator `c`. */
  function SplitOn(s: string, c: char): (parts: seq<string>)
    ensures |parts| >= 1
    decreases |s|
  {
    match Find(s, c)
    case None => [s]
    case Some(i) => [s[..i]] + SplitOn(s[i + 1..], c)
  }

  /** Splitting a joined sequence on the separator gives the pieces back,
      provided no piece contains the separator. */
  lemma {:induction false} SplitJoin(xs: seq<string>, c: char)
    requires |xs| >= 1
    requires forall i :: 0 <= i < |xs| ==> c !in xs[i]
    ensures SplitOn(Join(xs, [c]), c) == xs
  {
    if |xs| > 1 {
      var s := Join(xs, [c]);
      var rest := Join(xs[1..], [c]);
      assert s == xs[0] + [c] + rest;
      assert s[..|xs[0]|] == xs[0];
      assert s[|xs[0]|] == c;
      assert Find(s, c) == Some(|xs[0]|);
      assert s[|xs[0]| + 1..] == rest;
      SplitJoin(xs[1..], c);
    } else {
      assert Join(xs, [c]) == xs[0];
    }
  }

  /** `str(n)` for a non-negative integer. */
  function NatToString(n: nat): (s: string)
    ensures s != [] && forall i :: 0 <= i < |s| ==> IsDigit(s[i])
  {
    if n < 10 then [DigitChar(n)] else NatToString(n / 10) + [DigitChar(n % 10)]
  }

  /** `'%0*d' % (width, n)`: `str(n)` left-padded with zeros to `width`. */
  function ZeroPad(n: nat, width: nat): (s: string)
    ensures forall i :: 0 <= i < |s| ==> IsDigit(s[i])
  {
    var d := NatToString(n);
    if |d| >= width then d else seq(width - |d|, _ => '0') + d
  }

  predicate IsDecimalText(s: string) {
    forall i :: 0 <= i < |s| ==> IsDigit(s[i]) || s[i] == '_'
  }

  /** The number a run of digits denotes; underscores are skipped, as `int()` does. */
  function DecimalValue(s: string): nat
    requires IsDecimalText(s)
  {
    if s == [] then 0
    else if s[|s| - 1] == '_' then DecimalValue(s[..|s| - 1])
    else DecimalValue(s[..|s| - 1]) * 10 + DigitValue(s[|s| - 1])
  }

  /** The digits `int()` accepts after the optional sign, `digit (["_"] digit)*`:
      at least one digit, underscores only singly and only between two digits. */
  predicate IsDigitGroup(s: string)
    decreases |s|
  {
    |s| > 0 && IsDigit(s[0]) && (|s| == 1 || IsDigitGroup(if s[1] == '_' then s[2..] else s[1..]))
  }

  lemma {:induction false} DigitGroupIsDecimal(s: string)
    requires IsDigitGroup(s)
    ensures IsDecimalText(s)
    decreases |s|
  {
    if |s| > 1 {
      var k := if s[1] == '_' then 2 else 1;
      DigitGroupIsDecimal(s[k..]);
      forall i | 0 <= i < |s| ensures IsDigit(s[i]) || s[i] == '_' {
        if i >= k { assert s[i] == s[k..][i - k]; }
      }
    }
  }

  /** A non-empty run of plain digits is a digit group. */
  lemma {:induction false} DigitsAreGroup(s: string)
    requires |s| > 0 && forall i :: 0 <= i < |s| ==> IsDigit(s[i])
    ensures IsDigitGroup(s)
    decreases |s|
  {
    if |s| > 1 {
      DigitsAreGroup(s[1..]);
    }
  }

  /** The white space `int()` skips around a number: space and \t \n \v \f \r.
      Unlike `str.isspace`, it does not include \x1c-\x1f. */
  predicate IsIntSpace(c: char) {
    c == ' ' || ('\t' <= c <= '\r')
  }

  /** What `int()` keeps of its argument: the text without its leading and
      trailing runs of `IsIntSpace`. */
  function IntStrip(s: string): (t: string)
    ensures |t| <= |s|
    ensures t == [] || (!IsIntSpace(t[0]) && !IsIntSpace(t[|t| - 1]))
  {
    if s != [] && IsIntSpace(s[0]) then IntStrip(s[1..])
    else if s != [] && IsIntSpace(s[|s| - 1]) then IntStrip(s[..|s| - 1])
    else s
  }

  /** `IntStrip` drops only `int()` white space: any other character survives it. */
  lemma {:induction false} IntStripKeeps(s: string, k: nat)
    requires k < |s| && !IsIntSpace(s[k])
    ensures s[k] in IntStrip(s)
  {
    if IsIntSpace(s[0]) {
      assert s[k] == s[1..][k - 1];
      IntStripKeeps(s[1..], k - 1);
    } else if IsIntSpace(s[|s| - 1]) {
      assert s[k] == s[..|s| - 1][k];
      IntStripKeeps(s[..|s| - 1], k);
    }
  }

  /** `int(s)` in base 10: `None` where Python raises `ValueError`. */
  function ParseInt(s: string): Option<int> {
    ParseSigned(IntStrip(s))
  }

  /** `int()` on text that has already been stripped: an optional sign, then a digit group. */
  function ParseSigned(t: string): Option<int> {
    var signed := t != [] && (t[0] == '+' || t[0] == '-');
    var digits := if signed then t[1..] else t;
    if IsDigitGroup(digits) then
      DigitGroupIsDecimal(digits);
      var v: int := DecimalValue(digits);
      Some(if signed && t[0] == '-' then -v else v)
    else None
  }

  /** `int()` of a non-empty run of plain digits is the number they denote. */
  lemma ParseDigits(s: string)
    requires |s| > 0 && forall i :: 0 <= i < |s| ==> IsDigit(s[i])
    ensures IsDecimalText(s) && ParseInt(s) == Some(DecimalValue(s))
  {
    assert IntStrip(s) == s;
    DigitsAreGroup(s);
    DigitGroupIsDecimal(s);
    assert ParseSigned(s) == Some(DecimalValue(s));
  }

  /** A run of digits denotes zero exactly when every digit in it is '0'. */
  lemma {:induction false} DecimalValueZero(s: string)
    requires IsDecimalText(s)
    ensures DecimalValue(s) == 0 <==> forall i :: 0 <= i < |s| ==> s[i] == '0' || s[i] == '_'
  {
    if s != [] {
      var p := s[..|s| - 1];
      DecimalValueZero(p);
      assert forall i :: 0 <= i < |p| ==> p[i] == s[i];
    }
  }

  lemma {:induction false} DecimalValueAppend(s: string, d: nat)
    requires IsDecimalText(s) && d < 10
    ensures IsDecimalText(s + [DigitChar(d)])
    ensures DecimalValue(s + [DigitChar(d)]) == DecimalValue(s) * 10 + d
  {
    var t := s + [DigitChar(d)];
    assert t[..|t| - 1] == s;
  }

  /** `int(str(n)) == n`: the decimal rendering reads back as the same number. */
  lemma {:induction false} NatToStringValue(n: nat)
    ensures IsDecimalText(NatToString(n)) && DecimalValue(NatToString(n)) == n
  {
    if n < 10 {
      DecimalValueAppend([], n);
      assert [] + [DigitChar(n)] == NatToString(n);
    } else {
      NatToStringValue(n / 10);
      DecimalValueAppend(NatToString(n / 10), n % 10);
    }
  }

  lemma {:induction false} DecimalValueLeadingZeros(z: nat, s: string)
    requires IsDecimalText(s)
    ensures IsDecimalText(seq(z, _ => '0') + s)
    ensures DecimalValue(seq(z, _ => '0') + s) == DecimalValue(s)
    decreases |s|
  {
    var zs: string := seq(z, _ => '0');
    var t := zs + s;
    assert IsDecimalText(t) by {
      forall i | 0 <= i < |t| ensures IsDigit(t[i]) || t[i] == '_' {
        if i < z { assert t[i] == zs[i]; } else { assert t[i] == s[i - z]; }
      }
    }
    if s == [] {
      assert t == zs;
      ZerosValue(z);
    } else {
      assert t[..|t| - 1] == zs + s[..|s| - 1];
      DecimalValueLeadingZeros(z, s[..|s| - 1]);
    }
  }

  lemma {:induction false} ZerosValue(z: nat)
    ensures IsDecimalText(seq(z, _ => '0'))
    ensures DecimalValue(seq(z, _ => '0')) == 0
  {
    var zs: string := seq(z, _ => '0');
    if z > 0 {
      assert zs[..z - 1] == seq(z - 1, _ => '0');
      ZerosValue(z - 1);
    }
  }

  /** A zero-padded rendering reads back as the same number. */
  lemma ZeroPadValue(n: nat, width: nat)
    ensures IsDecimalText(ZeroPad(n, width)) && DecimalValue(ZeroPad(n, width)) == n
  {
    NatToStringValue(n);
    var d := NatToString(n);
    if |d| < width {
      DecimalValueLeadingZeros(width - |d|, d);
    }
  }

  function Pow10(k: nat): nat {
    if k == 0 then 1 else 10 * Pow10(k - 1)
  }

  lemma {:induction false} NatToStringLength(n: nat, k: nat)
    requires 1 <= k && n < Pow10(k)
    ensures |NatToString(n)| <= k
  {
    if n >= 10 {
      assert k > 1;
      assert n / 10 < Pow10(k - 1);
      NatToStringLength(n / 10, k - 1);
    }
  }

  /** A zero-padded number below 10^width takes exactly `width` characters, all digits. */
  lemma ZeroPadLength(n: nat, width: nat)
    requires 1 <= width && n < Pow10(width)
    ensures |ZeroPad(n, width)| == width
    ensures forall i :: 0 <= i < width ==> IsDigit(ZeroPad(n, width)[i])
  {
    NatToStringLength(n, width);
    var d := NatToString(n);
    var p := ZeroPad(n, width);
    forall i | 0 <= i < width ensures IsDigit(p[i]) {
      if |d| < width && i >= width - |d| { assert p[i] == d[i - (width - |d|)]; }
    }
  }
}
