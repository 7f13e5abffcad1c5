/**
 * Strings and numbers with the semantics of the JavaScript built-ins the
 * controllers call: `String(n)`, `parseInt`, `padStart`, `slice(-n)`,
 * `split(" ")` / `join(" ")`, and the byte-wise ordering the store uses to
 * sort employee numbers.
 */
module Text {
  import opened Outcomes

  predicate IsDigit(c: char) { '0' <= c <= '9' }

  predicate AllDigits(s: string) { forall i :: 0 <= i < |s| ==> IsDigit(s[i]) }

  function DigitChar(d: nat): (c: char)
    requires d < 10
    ensures IsDigit(c)
  {
    (48 + d) as char
  }

  function DigitValue(c: char): (d: nat)
    requires IsDigit(c)
    ensures d < 10 && DigitChar(d) == c
  {
    c as int - 48
  }

  function Pow10(k: nat): (p: nat)
    ensures p >= 1
  {
    if k == 0 then 1 else 10 * Pow10(k - 1)
  }

  // ---------------------------------------------------------------------------
  // Digits and their values

  /** The value of `c` as a digit in base 10 or 16, or None if it is not one. */
  function RadixDigit(c: char, radix: nat): (d: Option<nat>)
    ensures d.Some? ==> d.value < radix || radix < 10
    ensures radix == 10 ==> (d.Some? <==> IsDigit(c))
    ensures IsDigit(c) ==> d == Some(DigitValue(c))
  {
    if '0' <= c <= '9' then Some(c as int - 48)
    else if radix == 16 && 'a' <= c <= 'f' then Some(c as int - 87)
    else if radix == 16 && 'A' <= c <= 'F' then Some(c as int - 55)
    else None
  }

  predicate AllRadixDigits(s: string, radix: nat) {
    forall i :: 0 <= i < |s| ==> RadixDigit(s[i], radix).Some?
  }

  /** The number a string of digits denotes, read most significant digit first. */
  function RadixValue(s: string, radix: nat): nat
    requires AllRadixDigits(s, radix)
  {
    if s == [] then 0
    else RadixValue(s[..|s| - 1], radix) * radix + RadixDigit(s[|s| - 1], radix).value
  }

  /** The longest prefix of `s` made of digits of `radix`, as parseInt scans it. */
  function LeadingDigits(s: string, radix: nat): (z: string)
    ensures z <= s
    ensures AllRadixDigits(z, radix)
    ensures |z| < |s| ==> RadixDigit(s[|z|], radix).None?
  {
    if s == [] || RadixDigit(s[0], radix).None? then []
    else [s[0]] + LeadingDigits(s[1..], radix)
  }

  // ---------------------------------------------------------------------------
  // String(n)

  /** The decimal representation of a natural number, as `String(n)` prints it. */
  function NatToString(n: nat): (s: string)
    ensures |s| >= 1 && AllDigits(s) && AllRadixDigits(s, 10)
    ensures RadixValue(s, 10) == n
    ensures |s| > 1 ==> s[0] != '0'
    decreases n
  {
    if n < 10 then [DigitChar(n)]
    else
      var prefix := NatToString(n / 10);
      var s := prefix + [DigitChar(n % 10)];
      assert s[..|s| - 1] == prefix;
      s
  }

  /** `String(i)` for an integer in the range where it prints no exponent. */
  function IntToString(i: int): string
  {
    if i < 0 then "-" + NatToString(-i) else NatToString(i)
  }

  lemma {:induction false} NatToStringLength(n: nat, k: nat)
    requires k >= 1 && n < Pow10(k)
    ensures |NatToString(n)| <= k
  {
    assert Pow10(1) == 10;
    if n >= 10 {
      assert k >= 2;
      assert n / 10 < Pow10(k - 1);
      NatToStringLength(n / 10, k - 1);
    }
  }

  // ---------------------------------------------------------------------------
  // padStart and slice(-n)

  /** `s.padStart(width, pad)` for a one-character pad string. */
  function PadStart(s: string, width: nat, pad: char): (r: string)
    ensures |r| == if |s| >= width then |s| else width
    ensures r[|r| - |s|..] == s
    ensures forall i :: 0 <= i < |r| - |s| ==> r[i] == pad
  {
    if |s| >= width then s else Repeat(pad, width - |s|) + s
  }

  /** `n` copies of `c`. */
  function Repeat(c: char, n: nat): (r: string)
    ensures |r| == n && forall i :: 0 <= i < n ==> r[i] == c
  {
    if n == 0 then [] else [c] + Repeat(c, n - 1)
  }

  /** `s.slice(-n)`: the last `n` characters, or all of `s` when it is shorter. */
  function TakeLast(s: string, n: nat): (r: string)
    ensures |r| == if |s| <= n then |s| else n
    ensures r == s[|s| - |r|..]
  {
    if |s| <= n then s else s[|s| - n..]
  }

  // ---------------------------------------------------------------------------
  // parseInt

  /** The characters parseInt skips before a number (StrWhiteSpaceChar). */
  predicate IsJsSpace(c: char) {
    c == '\t' || c == '\n' || c == '\U{000B}' || c == '\U{000C}' || c == '\r' || c == ' '
    || c == '\U{00A0}' || c == '\U{1680}' || ('\U{2000}' <= c <= '\U{200A}')
    || c == '\U{2028}' || c == '\U{2029}' || c == '\U{202F}' || c == '\U{205F}'
    || c == '\U{3000}' || c == '\U{FEFF}'
  }

  function TrimStart(s: string): (t: string)
    ensures |t| <= |s|
    ensures t != [] ==> !IsJsSpace(t[0])
  {
    if s != [] && IsJsSpace(s[0]) then TrimStart(s[1..]) else s
  }

  /**
   * `parseInt(s)` (when `radixTen` is false) or `parseInt(s, 10)`; None is NaN.
   * Leading white space is skipped, then one sign, then (without a radix) a
   * `0x` / `0X` prefix switches to base 16; the longest run of digits that
   * follows is the value, and everything after it is ignored. A negative zero
   * is returned as 0: both are falsy and add like 0.
   */
  function ParseInt(s: string, radixTen: bool): Option<int>
  {
    var t := TrimStart(s);
    var u := Unsigned(t);
    var negative := |t| > 0 && t[0] == '-';
    var radix := RadixOf(u, radixTen);
    var z := LeadingDigits(Body(u, radixTen), radix);
    if z == [] then None
    else
      var v: int := RadixValue(z, radix);
      Some(if negative then -v else v)
  }

  function Unsigned(t: string): string {
    if |t| > 0 && (t[0] == '-' || t[0] == '+') then t[1..] else t
  }

  predicate HexPrefixed(u: string, radixTen: bool) {
    !radixTen && |u| >= 2 && u[0] == '0' && (u[1] == 'x' || u[1] == 'X')
  }

  function RadixOf(u: string, radixTen: bool): nat {
    if HexPrefixed(u, radixTen) then 16 else 10
  }

  function Body(u: string, radixTen: bool): string {
    if HexPrefixed(u, radixTen) then u[2..] else u
  }

  /** A non-empty run of decimal digits parses to the number it denotes, in either mode. */
  lemma ParseIntDigits(s: string, radixTen: bool)
    requires s != [] && AllDigits(s)
    ensures AllRadixDigits(s, 10)
    ensures ParseInt(s, radixTen) == Some(RadixValue(s, 10))
  {
    assert TrimStart(s) == s;
    assert Unsigned(s) == s;
    assert !HexPrefixed(s, radixTen) by {
      if |s| >= 2 { assert IsDigit(s[1]); }
    }
    LeadingDigitsOfDigits(s);
  }

  lemma {:induction false} LeadingDigitsOfDigits(s: string)
    requires AllDigits(s)
    ensures LeadingDigits(s, 10) == s
  {
    if s != [] {
      LeadingDigitsOfDigits(s[1..]);
    }
  }

  /** parseInt reads back what String prints. */
  lemma ParseIntRoundTrip(i: int, radixTen: bool)
    ensures ParseInt(IntToString(i), radixTen) == Some(i)
  {
    if i >= 0 {
      ParseIntDigits(NatToString(i), radixTen);
    } else {
      var d := NatToString(-i);
      var s := "-" + d;
      assert s[0] == '-' && s[1..] == d;
      assert TrimStart(s) == s;
      assert Unsigned(s) == d;
      assert !HexPrefixed(d, radixTen) by {
        if |d| >= 2 { assert IsDigit(d[1]); }
      }
      assert RadixOf(d, radixTen) == 10 && Body(d, radixTen) == d;
      LeadingDigitsOfDigits(d);
      assert RadixValue(d, 10) == -i;
    }
  }

  // ---------------------------------------------------------------------------
  // Decimal values read from the front

  lemma {:induction false} ValueFromFront(s: string)
    requires |s| >= 1 && AllDigits(s)
    ensures AllRadixDigits(s, 10)
    ensures RadixValue(s, 10) == DigitValue(s[0]) * Pow10(|s| - 1) + RadixValue(s[1..], 10)
  {
    var n := |s|;
    if n > 1 {
      var init := s[..n - 1];
      ValueFromFront(init);
      LastAndMiddle(s);
      ShiftDigit(DigitValue(s[0]), Pow10(n - 2), RadixValue(s[1..n - 1], 10), DigitValue(s[n - 1]));
    }
  }

  /** For two or more digits, the value without the last digit and the value without the first share the middle. */
  lemma LastAndMiddle(s: string)
    requires |s| >= 2 && AllDigits(s)
    ensures AllRadixDigits(s, 10) && AllRadixDigits(s[1..|s| - 1], 10)
    ensures var n := |s|;
      && s[..n - 1][0] == s[0] && s[..n - 1][1..] == s[1..n - 1] && |s[..n - 1]| - 1 == n - 2
      && RadixValue(s, 10) == RadixValue(s[..n - 1], 10) * 10 + DigitValue(s[n - 1])
      && RadixValue(s[1..], 10) == RadixValue(s[1..n - 1], 10) * 10 + DigitValue(s[n - 1])
      && Pow10(n - 1) == 10 * Pow10(n - 2)
  {
    var n := |s|;
    var tail := s[1..];
    assert tail[..|tail| - 1] == s[1..n - 1];
    assert tail[|tail| - 1] == s[n - 1];
  }

  /** Appending a digit to `d0 * p + a` shifts both terms by one place. */
  lemma ShiftDigit(d0: int, p: int, a: int, last: int)
    ensures (d0 * p + a) * 10 + last == d0 * (10 * p) + (a * 10 + last)
  {
    assert (d0 * p + a) * 10 == d0 * p * 10 + a * 10;
    assert d0 * p * 10 == d0 * (10 * p);
  }

  lemma {:induction false} ValueBound(s: string)
    requires AllDigits(s)
    ensures AllRadixDigits(s, 10)
    ensures RadixValue(s, 10) < Pow10(|s|)
  {
    if s != [] {
      var init := s[..|s| - 1];
      ValueBound(init);
      assert RadixValue(init, 10) + 1 <= Pow10(|s| - 1);
      assert RadixValue(init, 10) * 10 + 10 <= Pow10(|s| - 1) * 10;
    }
  }

  /** Zeros in front of a number do not change its value. */
  lemma {:induction false} LeadingZeros(zs: string, s: string)
    requires forall i :: 0 <= i < |zs| ==> zs[i] == '0'
    requires AllDigits(s)
    ensures AllDigits(zs + s)
    ensures RadixValue(zs + s, 10) == RadixValue(s, 10)
  {
    var z := zs + s;
    assert forall i :: 0 <= i < |z| ==> z[i] == (if i < |zs| then '0' else s[i - |zs|]);
    if zs != [] {
      LeadingZeros(zs[1..], s);
      assert z[1..] == zs[1..] + s;
      ValueFromFront(z);
      assert DigitValue(z[0]) == 0;
    } else {
      assert z == s;
    }
  }

  // ---------------------------------------------------------------------------
  // Byte-wise string order (ORDER BY on a column of digits)

  predicate LexLess(a: string, b: string)
    decreases |a|
  {
    if a == [] then b != []
    else if b == [] then false
    else if a[0] != b[0] then a[0] < b[0]
    else LexLess(a[1..], b[1..])
  }

  predicate LexLe(a: string, b: string) { a == b || LexLess(a, b) }

  lemma {:induction false} LexIrreflexive(a: string)
    ensures !LexLess(a, a)
  {
    if a != [] { LexIrreflexive(a[1..]); }
  }

  lemma {:induction false} LexTransitive(a: string, b: string, c: string)
    requires LexLess(a, b) && LexLess(b, c)
    ensures LexLess(a, c)
    decreases |a|
  {
    if a != [] && b != [] && c != [] && a[0] == b[0] && b[0] == c[0] {
      LexTransitive(a[1..], b[1..], c[1..]);
    }
  }

  lemma {:induction false} LexTotal(a: string, b: string)
    ensures a == b || LexLess(a, b) || LexLess(b, a)
    decreases |a|
  {
    if a != [] && b != [] && a[0] == b[0] {
      LexTotal(a[1..], b[1..]);
      if a[1..] == b[1..] {
        assert a == [a[0]] + a[1..] && b == [b[0]] + b[1..];
      }
    }
  }

  lemma LexAsymmetric(a: string, b: string)
    requires LexLess(a, b)
    ensures !LexLess(b, a)
  {
    if LexLess(b, a) {
      LexTransitive(a, b, a);
      LexIrreflexive(a);
    }
  }

  lemma {:induction false} LexCommonPrefix(p: string, a: string, b: string)
    ensures LexLess(p + a, p + b) == LexLess(a, b)
  {
    if p != [] {
      var pa, pb := p + a, p + b;
      assert pa != [] && pb != [] && pa[0] == pb[0];
      assert pa[1..] == p[1..] + a && pb[1..] == p[1..] + b;
      assert LexLess(pa, pb) == LexLess(pa[1..], pb[1..]);
      LexCommonPrefix(p[1..], a, b);
    } else {
      assert p + a == a && p + b == b;
    }
  }

  /** For digit strings of one length, the string order is the numeric order. */
  lemma {:induction false} LexDigits(s: string, t: string)
    requires |s| == |t| && AllDigits(s) && AllDigits(t)
    ensures AllRadixDigits(s, 10) && AllRadixDigits(t, 10)
    ensures LexLess(s, t) <==> RadixValue(s, 10) < RadixValue(t, 10)
  {
    if s != [] {
      ValueFromFront(s);
      ValueFromFront(t);
      var p := Pow10(|s| - 1);
      var a, b := DigitValue(s[0]), DigitValue(t[0]);
      var x, y := RadixValue(s[1..], 10), RadixValue(t[1..], 10);
      if a == b {
        LexDigits(s[1..], t[1..]);
      } else {
        ValueBound(s[1..]);
        ValueBound(t[1..]);
        if a < b {
          DigitDominates(a, b, p, x, y);
        } else {
          DigitDominates(b, a, p, y, x);
        }
      }
    }
  }

  lemma DigitDominates(a: nat, b: nat, p: nat, x: nat, y: nat)
    requires a < b && x < p
    ensures a * p + x < b * p + y
  {
    assert b * p == (b - a - 1) * p + a * p + p;
  }

  // ---------------------------------------------------------------------------
  // split(sep) and join(sep)

  /** `s.split(sep)` for a one-character separator: never empty, no piece holds `sep`. */
  function Split(s: string, sep: char): (ws: seq<string>)
    ensures |ws| >= 1
    ensures forall i :: 0 <= i < |ws| ==> sep !in ws[i]
    decreases |s|
  {
    if s == [] then [[]]
    else
      var rest := Split(s[1..], sep);
      if s[0] == sep then [[]] + rest
      else [[s[0]] + rest[0]] + rest[1..]
  }

  /** The first piece of a split is the text before the first separator. */
  lemma {:induction false} SplitHead(s: string, sep: char)
    ensures Split(s, sep)[0] <= s
    ensures |Split(s, sep)[0]| < |s| ==> s[|Split(s, sep)[0]|] == sep
    decreases |s|
  {
    if s != [] && s[0] != sep {
      SplitHead(s[1..], sep);
    }
  }

  /** `ws.join(sep)`. */
  function Join(ws: seq<string>, sep: char): string
  {
    if |ws| == 0 then []
    else if |ws| == 1 then ws[0]
    else ws[0] + [sep] + Join(ws[1..], sep)
  }

  lemma JoinCons(c: char, w: string, ws: seq<string>, sep: char)
    ensures Join([[c] + w] + ws, sep) == [c] + Join([w] + ws, sep)
  {
    assert ([[c] + w] + ws)[1..] == ws == ([w] + ws)[1..];
  }

  /** Joining the pieces of a split gives the string back. */
  lemma {:induction false} JoinSplit(s: string, sep: char)
    ensures Join(Split(s, sep), sep) == s
    decreases |s|
  {
    if s != [] {
      var rest := Split(s[1..], sep);
      JoinSplit(s[1..], sep);
      if s[0] == sep {
        assert ([[]] + rest)[1..] == rest;
      } else {
        JoinCons(s[0], rest[0], rest[1..], sep);
        assert [rest[0]] + rest[1..] == rest;
      }
    }
  }

  lemma {:induction false} SplitWord(w: string, sep: char)
    requires sep !in w
    ensures Split(w, sep) == [w]
  {
    if w != [] {
      SplitWord(w[1..], sep);
      assert [w[0]] + w[1..] == w;
    }
  }

  lemma {:induction false} SplitWordThenSep(w: string, rest: string, sep: char)
    requires sep !in w
    ensures Split(w + [sep] + rest, sep) == [w] + Split(rest, sep)
  {
    var s := w + [sep] + rest;
    if w == [] {
      assert s[0] == sep && s[1..] == rest;
    } else {
      assert s[1..] == w[1..] + [sep] + rest;
      SplitWordThenSep(w[1..], rest, sep);
      assert [w[0]] + w[1..] == w;
    }
  }

  /** Splitting a join of separator-free pieces gives the pieces back. */
  lemma {:induction false} SplitJoin(ws: seq<string>, sep: char)
    requires |ws| >= 1
    requires forall i :: 0 <= i < |ws| ==> sep !in ws[i]
    ensures Split(Join(ws, sep), sep) == ws
  {
    if |ws| == 1 {
      SplitWord(ws[0], sep);
    } else {
      SplitJoin(ws[1..], sep);
      SplitWordThenSep(ws[0], Join(ws[1..], sep), sep);
      assert [ws[0]] + ws[1..] == ws;
    }
  }

  /** Pieces of the same lengths join to strings of the same length. */
  lemma {:induction false} JoinSameShape(ws: seq<string>, vs: seq<string>, sep: char)
    requires |ws| == |vs|
    requires forall i :: 0 <= i < |ws| ==> |ws[i]| == |vs[i]|
    ensures |Join(ws, sep)| == |Join(vs, sep)|
  {
    if |ws| > 1 {
      JoinSameShape(ws[1..], vs[1..], sep);
    }
  }

  // ---------------------------------------------------------------------------
  // Substrings

  /** `sub` occurs somewhere in `s` (a `LIKE '%sub%'` match under a byte-wise collation). */
  predicate Contains(s: string, sub: string) {
    exists i :: 0 <= i <= |s| - |sub| && sub <= s[i..]
  }
}
