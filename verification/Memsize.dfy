/** Sizes with k, m and g suffixes as common/cmd_jffs2.c reads and writes them, in 32 bits. */
module Memsize {
  import opened DivMod

  const W := 0x1_0000_0000
  const SIZE_GB := 1024 * 1024 * 1024
  const SIZE_MB := 1024 * 1024
  const SIZE_KB := 1024

  // ---------------------------------------------------------------- numbers

  predicate IsDigit(c: char) { '0' <= c <= '9' }

  predicate IsXDigit(c: char) { IsDigit(c) || 'a' <= c <= 'f' || 'A' <= c <= 'F' }

  function DigitValue(c: char): nat
    requires IsXDigit(c)
  {
    if IsDigit(c) then (c - '0') as int
    else if 'a' <= c then (c - 'a') as int + 10
    else (c - 'A') as int + 10
  }

  /** The digit loop of simple_strtoul, in 32 bits. */
  function Scan(s: string, base: nat, acc: nat): (r: (nat, string))
    ensures |r.1| <= |s| && (|r.1| == |s| ==> r.0 == acc)
    decreases |s|
  {
    if s != "" && IsXDigit(s[0]) && DigitValue(s[0]) < base then
      Scan(s[1..], base, (acc * base + DigitValue(s[0])) % W)
    else (acc, s)
  }

  /** simple_strtoul with base 0. */
  function Strtoul(s: string): (r: (nat, string))
    ensures |r.1| <= |s| && (|r.1| == |s| ==> r.0 == 0)
  {
    if s != "" && s[0] == '0' then
      if |s| > 2 && s[1] == 'x' && IsXDigit(s[2]) then Scan(s[2..], 16, 0) else Scan(s[1..], 8, 0)
    else Scan(s, 10, 0)
  }

  predicate StartsWith(s: string, c: char) { s != "" && s[0] == c }

  /** memsize_parse: a number with an optional suffix, and what follows it. */
  function MemsizeParse(s: string): (r: (nat, string))
    ensures |r.1| <= |s| && (r.0 != 0 ==> |r.1| < |s|)
  {
    var (v, t) := Strtoul(s);
    if StartsWith(t, 'G') || StartsWith(t, 'g') then (v * SIZE_GB % W, t[1..])
    else if StartsWith(t, 'M') || StartsWith(t, 'm') then (v * SIZE_MB % W, t[1..])
    else if StartsWith(t, 'K') || StartsWith(t, 'k') then (v * SIZE_KB % W, t[1..])
    else (v, t)
  }

  function Digit(d: nat): char
    requires d < 10
  {
    '0' + d as char
  }

  /** The %lu conversion. */
  function Dec(n: nat): (s: string)
    ensures s != ""
  {
    if n < 10 then [Digit(n)] else Dec(n / 10) + [Digit(n % 10)]
  }

  function MemsizeFormat(size: nat): string {
    if size % SIZE_GB == 0 then Dec(size / SIZE_GB) + "g"
    else if size % SIZE_MB == 0 then Dec(size / SIZE_MB) + "m"
    else if size % SIZE_KB == 0 then Dec(size / SIZE_KB) + "k"
    else Dec(size)
  }

  lemma DigitLaws(d: nat)
    requires d < 10
    ensures IsDigit(Digit(d)) && DigitValue(Digit(d)) == d
    ensures Digit(d) == '0' <==> d == 0
  {}

  lemma ScanStep(d: nat, rest: string, acc: nat)
    requires d < 10 && acc * 10 + d < W
    ensures Scan([Digit(d)] + rest, 10, acc) == Scan(rest, 10, acc * 10 + d)
  {
    DigitLaws(d);
    assert ([Digit(d)] + rest)[1..] == rest;
  }

  lemma {:induction false} ScanDec(n: nat, rest: string)
    requires n < W
    ensures Scan(Dec(n) + rest, 10, 0) == Scan(rest, 10, n)
    decreases n
  {
    if n < 10 {
      ScanStep(n, rest, 0);
    } else {
      ScanDec(n / 10, [Digit(n % 10)] + rest);
      ScanStep(n % 10, rest, n / 10);
      assert Dec(n) + rest == Dec(n / 10) + ([Digit(n % 10)] + rest);
    }
  }

  lemma {:induction false} DecHead(n: nat)
    ensures Dec(n)[0] == '0' <==> n == 0
    decreases n
  {
    DigitLaws(n % 10);
    if n >= 10 {
      DecHead(n / 10);
    }
  }

  /** Decimal output is read back, with everything behind it that is not a digit. */
  lemma {:induction false} StrtoulDec(n: nat, rest: string)
    requires n < W && (rest == "" || (!IsXDigit(rest[0]) && rest[0] != 'x'))
    ensures Strtoul(Dec(n) + rest) == (n, rest)
  {
    DecHead(n);
    var s := Dec(n) + rest;
    assert s[0] == Dec(n)[0];
    if n == 0 {
      assert s[1..] == rest;
    } else {
      ScanDec(n, rest);
    }
  }

  /** A character that may follow a size or an offset in an mtdparts string. */
  predicate Separator(c: char) { c == '@' || c == '(' || c == 'r' || c == ',' || c == ';' }

  predicate Ends(rest: string) { rest == "" || Separator(rest[0]) }

  function Unit(c: char): nat { if c == 'g' then SIZE_GB else if c == 'm' then SIZE_MB else SIZE_KB }

  lemma {:induction false} SuffixRoundTrip(n: nat, c: char, rest: string)
    requires n < W && c in "gmk"
    ensures MemsizeParse(Dec(n) + [c] + rest) == (n * Unit(c) % W, rest)
  {
    var t := [c] + rest;
    StrtoulDec(n, t);
    assert Dec(n) + [c] + rest == Dec(n) + t;
    assert t[1..] == rest;
  }

  /** memsize_parse undoes memsize_format. */
  lemma {:induction false} MemsizeRoundTrip(size: nat, rest: string)
    requires size < W && Ends(rest)
    ensures MemsizeParse(MemsizeFormat(size) + rest) == (size, rest)
  {
    if size % SIZE_GB == 0 {
      UnitRoundTrip(size, size / SIZE_GB, 'g', rest);
    } else if size % SIZE_MB == 0 {
      UnitRoundTrip(size, size / SIZE_MB, 'm', rest);
    } else if size % SIZE_KB == 0 {
      UnitRoundTrip(size, size / SIZE_KB, 'k', rest);
    } else {
      StrtoulDec(size, rest);
    }
  }

  lemma {:induction false} UnitRoundTrip(size: nat, n: nat, c: char, rest: string)
    requires c in "gmk" && n * Unit(c) == size < W && n <= size
    ensures MemsizeParse(Dec(n) + [c] + rest) == (size, rest)
  {
    SuffixRoundTrip(n, c, rest);
  }

  // ---------------------------------------------------------------- other ways to write a size

  function DigitText(d: nat, upper: bool): char
    requires d < 16
  {
    if upper then "0123456789ABCDEF"[d] else "0123456789abcdef"[d]
  }

  /** A number in another base, with letters in either case. */
  function Based(n: nat, base: nat, upper: bool): (s: string)
    requires 2 <= base <= 16
    ensures s != ""
    decreases n
  {
    if n < base then [DigitText(n, upper)] else Based(n / base, base, upper) + [DigitText(n % base, upper)]
  }

  /** The value of every digit, in either case, and that nothing else is one. */
  lemma DigitTextLaws(d: nat, upper: bool, c: char)
    requires d < 16
    ensures IsXDigit(DigitText(d, upper)) && DigitValue(DigitText(d, upper)) == d
    ensures IsXDigit(c) <==> c in "0123456789abcdefABCDEF"
  {}

  lemma BasedStep(d: nat, base: nat, upper: bool, rest: string, acc: nat)
    requires (base == 8 || base == 16) && d < base && acc * base + d < W
    ensures Scan([DigitText(d, upper)] + rest, base, acc) == Scan(rest, base, acc * base + d)
  {
    DigitTextLaws(d, upper, ' ');
    ScanDigit(DigitText(d, upper), base, rest, acc, acc * base + d);
  }

  lemma ScanDigit(c: char, base: nat, rest: string, acc: nat, next: nat)
    requires IsXDigit(c) && DigitValue(c) < base && next == acc * base + DigitValue(c) < W
    ensures Scan([c] + rest, base, acc) == Scan(rest, base, next)
  {
    assert ([c] + rest)[1..] == rest;
  }

  lemma {:induction false} ScanBased(n: nat, base: nat, upper: bool, rest: string)
    requires n < W && (base == 8 || base == 16)
    ensures Scan(Based(n, base, upper) + rest, base, 0) == Scan(rest, base, n)
    decreases n
  {
    if n < base {
      BasedStep(n, base, upper, rest, 0);
    } else {
      var h, d := n / base, n % base;
      Quotient(n, base);
      ScanBased(h, base, upper, [DigitText(d, upper)] + rest);
      BasedStep(d, base, upper, rest, h);
      BasedText(n, base, upper, rest);
    }
  }

  lemma Quotient(n: nat, base: nat)
    requires base == 8 || base == 16
    ensures n / base * base + n % base == n && n / base <= n
  {}

  lemma BasedText(n: nat, base: nat, upper: bool, rest: string)
    requires 2 <= base <= 16 && n >= base
    ensures Based(n, base, upper) + rest == Based(n / base, base, upper) + ([DigitText(n % base, upper)] + rest)
  {}

  lemma {:induction false} BasedHead(n: nat, base: nat, upper: bool)
    requires 2 <= base <= 16
    ensures IsXDigit(Based(n, base, upper)[0]) && DigitValue(Based(n, base, upper)[0]) < base
    decreases n
  {
    if n < base {
      DigitTextLaws(n, upper, ' ');
    } else {
      BasedHead(n / base, base, upper);
    }
  }

  /** `0x` makes a number hexadecimal, with digits in either case. */
  lemma {:induction false} StrtoulHex(n: nat, upper: bool, rest: string)
    requires n < W && (rest == "" || !IsXDigit(rest[0]))
    ensures Strtoul("0x" + Based(n, 16, upper) + rest) == (n, rest)
  {
    BasedHead(n, 16, upper);
    ScanBased(n, 16, upper, rest);
    var t := Based(n, 16, upper) + rest;
    assert "0x" + Based(n, 16, upper) + rest == "0x" + t && ("0x" + t)[2..] == t && t[0] == Based(n, 16, upper)[0];
  }

  /** A leading zero alone makes it octal. */
  lemma {:induction false} StrtoulOctal(n: nat, rest: string)
    requires n < W && (rest == "" || !IsXDigit(rest[0]))
    ensures Strtoul("0" + Based(n, 8, false) + rest) == (n, rest)
  {
    BasedHead(n, 8, false);
    ScanBased(n, 8, false, rest);
    var t := Based(n, 8, false) + rest;
    assert "0" + Based(n, 8, false) + rest == "0" + t && ("0" + t)[1..] == t && t[0] == Based(n, 8, false)[0];
  }

  /** The texts that stand for a number: decimal, hexadecimal in either case, octal. */
  predicate NumberText(t: string, n: nat) {
    t == Dec(n) || t == "0x" + Based(n, 16, false) || t == "0x" + Based(n, 16, true) || t == "0" + Based(n, 8, false)
  }

  lemma {:induction false} NumberRead(t: string, n: nat, rest: string)
    requires n < W && NumberText(t, n) && (rest == "" || (!IsXDigit(rest[0]) && rest[0] != 'x'))
    ensures Strtoul(t + rest) == (n, rest)
  {
    if t == Dec(n) {
      StrtoulDec(n, rest);
    } else if t == "0" + Based(n, 8, false) {
      StrtoulOctal(n, rest);
    } else if t == "0x" + Based(n, 16, false) {
      StrtoulHex(n, false, rest);
    } else {
      StrtoulHex(n, true, rest);
    }
  }

  /** A size or offset, however it is written: the suffixes stand for 1024, 1024^2 and 1024^3
      bytes in either case, modulo 2^32. */
  lemma {:induction false} SizeText(t: string, n: nat, c: char, rest: string)
    requires n < W && NumberText(t, n)
    ensures (c == 'k' || c == 'K') ==> MemsizeParse(t + ([c] + rest)) == (n * 1024 % 0x1_0000_0000, rest)
    ensures (c == 'm' || c == 'M') ==> MemsizeParse(t + ([c] + rest)) == (n * 1048576 % 0x1_0000_0000, rest)
    ensures (c == 'g' || c == 'G') ==> MemsizeParse(t + ([c] + rest)) == (n * 1073741824 % 0x1_0000_0000, rest)
    ensures (rest == "" || rest[0] !in "0123456789abcdefABCDEFxkKmMgG") ==> MemsizeParse(t + rest) == (n, rest)
  {
    if c in "kKmMgG" {
      NumberRead(t, n, [c] + rest);
      assert ([c] + rest)[1..] == rest;
    }
    if rest == "" || rest[0] !in "0123456789abcdefABCDEFxkKmMgG" {
      NumberRead(t, n, rest);
    }
  }

  /** Sizes are printed with the largest suffix that divides them. */
  lemma FormatSuffix(n: nat)
    ensures MemsizeFormat(1073741824 * n) == Dec(n) + "g"
    ensures n % 1024 != 0 ==> MemsizeFormat(1048576 * n) == Dec(n) + "m" && MemsizeFormat(1024 * n) == Dec(n) + "k"
    ensures n % 1024 != 0 ==> MemsizeFormat(n) == Dec(n)
  {
    FormatWhole(n);
    if n % 1024 != 0 {
      FormatMega(n, n / 1024, n % 1024);
      FormatKilo(n, n / 1024, n % 1024);
      FormatBytes(n, n / 1024, n % 1024);
    }
  }

  lemma FormatWhole(n: nat)
    ensures MemsizeFormat(1073741824 * n) == Dec(n) + "g"
  {
    QuotientUnique(1073741824 * n, 1073741824, n, 0);
  }

  lemma FormatMega(n: nat, q: nat, r: nat)
    requires n == 1024 * q + r && 0 < r < 1024
    ensures MemsizeFormat(1048576 * n) == Dec(n) + "m"
  {
    QuotientUnique(1048576 * n, 1048576, n, 0);
    QuotientUnique(1048576 * n, 1073741824, q, 1048576 * r);
  }

  lemma FormatKilo(n: nat, q: nat, r: nat)
    requires n == 1024 * q + r && 0 < r < 1024
    ensures MemsizeFormat(1024 * n) == Dec(n) + "k"
  {
    QuotientUnique(1024 * n, 1024, n, 0);
    QuotientUnique(1024 * n, 1048576, q, 1024 * r);
    NotWhole(1024 * n, 1048576);
  }

  lemma FormatBytes(n: nat, q: nat, r: nat)
    requires n == 1024 * q + r && 0 < r < 1024
    ensures MemsizeFormat(n) == Dec(n)
  {
    QuotientUnique(n, 1024, q, r);
    NotMega(n);
    NotWhole(n, 1024);
  }

  lemma NotMega(x: nat)
    requires x % 1024 != 0
    ensures x % 1048576 != 0
  {
    assert x == 1024 * (1024 * (x / 1048576)) + x % 1048576;
  }

  lemma NotWhole(x: nat, unit: nat)
    requires unit in {1024, 1048576} && x % unit != 0
    ensures x % 1073741824 != 0
  {}
}
