/** Strings: case, whitespace, decimal numerals and hex. */
module Text {
  import opened Prelude

  // ---- case ----

  function LowerChar(c: char): char {
    if 'A' <= c <= 'Z' then (c as int + 32) as char else c
  }

  function UpperChar(c: char): char {
    if 'a' <= c <= 'z' then (c as int - 32) as char else c
  }

  function Lower(s: string): (l: string)
    ensures |l| == |s| && forall i :: 0 <= i < |s| ==> l[i] == LowerChar(s[i])
  {
    seq(|s|, i requires 0 <= i < |s| => LowerChar(s[i]))
  }

  function Upper(s: string): (u: string)
    ensures |u| == |s| && forall i :: 0 <= i < |s| ==> u[i] == UpperChar(s[i])
  {
    seq(|s|, i requires 0 <= i < |s| => UpperChar(s[i]))
  }

  /** Upper case has no small letter in it, and differs from the text in case only. */
  lemma UpperExactly(s: string)
    ensures forall i :: 0 <= i < |s| ==> !('a' <= Upper(s)[i] <= 'z')
    ensures Lower(Upper(s)) == Lower(s) && Upper(Lower(s)) == Upper(s)
  {
  }

  lemma LowerIdempotent(s: string)
    ensures Lower(Lower(s)) == Lower(s) && Lower(Upper(Lower(s))) == Lower(s)
  {
  }

  lemma LowerAppend(s: string, t: string)
    ensures Lower(s + t) == Lower(s) + Lower(t)
  {
  }

  // ---- whitespace ----

  /** What Python's `str.isspace` accepts. */
  predicate IsSpace(c: char) {
    var n := c as int;
    0x09 <= n <= 0x0D || 0x1C <= n <= 0x20 || n == 0x85 || n == 0xA0 || n == 0x1680 || 0x2000 <= n <= 0x200A ||
    n == 0x2028 || n == 0x2029 || n == 0x202F || n == 0x205F || n == 0x3000
  }

  /** All the whitespace Python knows: Unicode's, and the four ASCII separators. */
  lemma SpacesAre(c: char)
    ensures IsSpace(c) <==> c as int in {9, 10, 11, 12, 13, 28, 29, 30, 31, 32, 133, 160, 5760, 8192, 8193, 8194, 8195,
                                         8196, 8197, 8198, 8199, 8200, 8201, 8202, 8232, 8233, 8239, 8287, 12288}
  {
  }

  function StripLeft(s: string): (t: string)
    ensures |t| <= |s| && t == s[|s| - |t|..]
    ensures t != [] ==> !IsSpace(t[0])
  {
    if s != [] && IsSpace(s[0]) then StripLeft(s[1..]) else s
  }

  function StripRight(s: string): (t: string)
    ensures |t| <= |s| && t == s[..|t|]
    ensures t != [] ==> !IsSpace(t[|t| - 1])
  {
    if s != [] && IsSpace(s[|s| - 1]) then StripRight(s[..|s| - 1]) else s
  }

  function Strip(s: string): (t: string)
    ensures t != [] ==> !IsSpace(t[0]) && !IsSpace(t[|t| - 1])
  {
    StripLeft(StripRight(s))
  }

  lemma {:induction false} StripLeftOf(spaces: string, text: string)
    requires AllSpace(spaces) && (text == [] || !IsSpace(text[0]))
    ensures StripLeft(spaces + text) == text
  {
    if spaces == [] {
      assert spaces + text == text;
    } else {
      StripLeftOf(spaces[1..], text);
      StripsOne(spaces[0], spaces[1..] + text);
      FirstApart(spaces, text);
    }
  }

  lemma FirstApart(s: string, t: string)
    requires s != []
    ensures s + t == [s[0]] + (s[1..] + t)
  {
  }

  lemma StripsOne(space: char, text: string)
    requires IsSpace(space)
    ensures StripLeft([space] + text) == StripLeft(text)
  {
    assert ([space] + text)[1..] == text;
  }

  predicate AllSpace(s: string) {
    forall i :: 0 <= i < |s| ==> IsSpace(s[i])
  }

  lemma LowerKeepsSpace(s: string)
    requires AllSpace(s)
    ensures Lower(s) == s
  {
  }

  lemma {:induction false} StripRightOf(text: string, spaces: string)
    requires AllSpace(spaces) && (text == [] || !IsSpace(text[|text| - 1]))
    ensures StripRight(text + spaces) == text
  {
    if spaces == [] {
      assert text + spaces == text;
    } else {
      var n := |spaces| - 1;
      assert (text + spaces)[..|text + spaces| - 1] == text + spaces[..n];
      StripRightOf(text, spaces[..n]);
    }
  }

  /** Whitespace around a text that has none at its ends is all that stripping takes. */
  lemma StripAround(before: string, core: string, after: string)
    requires AllSpace(before) && AllSpace(after)
    requires core != [] && !IsSpace(core[0]) && !IsSpace(core[|core| - 1])
    ensures Strip(before + core + after) == core
  {
    StripRightOf(before + core, after);
    StripLeftOf(before, core);
  }

  lemma StripTrimmed(s: string)
    requires s == [] || (!IsSpace(s[0]) && !IsSpace(s[|s| - 1]))
    ensures Strip(s) == s
  {
  }

  lemma StripIdempotent(s: string)
    ensures Strip(Strip(s)) == Strip(s)
  {
    StripTrimmed(Strip(s));
  }

  // ---- searching ----

  predicate OccursAt(text: string, pattern: string, at: nat) {
    at + |pattern| <= |text| && text[at..at + |pattern|] == pattern
  }

  /** `text.find(pattern, from)`, `None` for -1. */
  function Find(text: string, pattern: string, from: nat): (r: Option<nat>)
    ensures r.Some? ==> r.value >= from && OccursAt(text, pattern, r.value)
    ensures forall i :: from <= i && (r.None? || i < r.value) ==> !OccursAt(text, pattern, i)
    decreases |text| - from
  {
    if from + |pattern| > |text| then None
    else if OccursAt(text, pattern, from) then Some(from)
    else Find(text, pattern, from + 1)
  }

  /** `pattern in text`. */
  predicate Contains(text: string, pattern: string) {
    exists at :: 0 <= at <= |text| && OccursAt(text, pattern, at)
  }

  lemma ContainsAt(text: string, pattern: string, at: nat)
    requires OccursAt(text, pattern, at)
    ensures Contains(text, pattern)
  {
  }

  /** `text.strip() == core`, for a core with no whitespace around it: see `StripsToExactly`. */
  predicate StripsTo(text: string, core: string) {
    exists at :: 0 <= at <= |text| && OccursAt(text, core, at) && AllSpace(text[..at]) &&
                 AllSpace(text[at + |core|..])
  }

  lemma StripsToAround(before: string, core: string, after: string)
    requires AllSpace(before) && AllSpace(after)
    ensures StripsTo(before + core + after, core)
  {
    var text := before + core + after;
    assert text[..|before|] == before && text[|before| + |core|..] == after;
    assert OccursAt(text, core, |before|);
  }

  lemma StripsToExactly(text: string, core: string)
    requires core != [] && !IsSpace(core[0]) && !IsSpace(core[|core| - 1])
    ensures StripsTo(text, core) <==> Strip(text) == core
  {
    if StripsTo(text, core) {
      var at :| 0 <= at <= |text| && OccursAt(text, core, at) && AllSpace(text[..at]) && AllSpace(text[at + |core|..]);
      StripAround(text[..at], core, text[at + |core|..]);
      CutAround(text, core, at);
    } else {
      StrippedParts(text);
      StripsToItself(text, Strip(text));
    }
  }

  lemma CutAround(text: string, core: string, at: nat)
    requires OccursAt(text, core, at)
    ensures text == text[..at] + core + text[at + |core|..]
  {
  }

  lemma StripsToItself(text: string, core: string)
    requires exists before, after :: AllSpace(before) && AllSpace(after) && text == before + core + after
    ensures StripsTo(text, core)
  {
    var before, after :| AllSpace(before) && AllSpace(after) && text == before + core + after;
    StripsToAround(before, core, after);
  }

  lemma StrippedParts(text: string)
    ensures exists before, after :: AllSpace(before) && AllSpace(after) && text == before + Strip(text) + after
  {
    var head := StripRight(text);
    StripsRightSpace(text);
    StripsLeftSpace(head);
    var before, after := head[..|head| - |StripLeft(head)|], text[|head|..];
    assert text == before + Strip(text) + after;
  }

  lemma {:induction false} StripsRightSpace(s: string)
    ensures AllSpace(s[|StripRight(s)|..])
  {
    if s != [] && IsSpace(s[|s| - 1]) {
      var front := s[..|s| - 1];
      StripsRightSpace(front);
      assert s[|StripRight(s)|..] == front[|StripRight(s)|..] + [s[|s| - 1]];
    }
  }

  lemma {:induction false} StripsLeftSpace(s: string)
    ensures AllSpace(s[..|s| - |StripLeft(s)|])
  {
    if s != [] && IsSpace(s[0]) {
      StripsLeftSpace(s[1..]);
      assert s[..|s| - |StripLeft(s)|] == [s[0]] + s[1..][..|s| - 1 - |StripLeft(s)|];
    }
  }

  /** A text holds the first letter of whatever it contains. */
  lemma ContainsFirst(text: string, pattern: string)
    requires pattern != []
    ensures Contains(text, pattern) ==> pattern[0] in text
  {
    if Contains(text, pattern) {
      var at :| 0 <= at <= |text| && OccursAt(text, pattern, at);
      assert text[at..at + |pattern|][0] == text[at];
    }
  }

  /** And the last. */
  lemma ContainsLast(text: string, pattern: string)
    requires pattern != []
    ensures Contains(text, pattern) ==> pattern[|pattern| - 1] in text && |pattern| <= |text|
  {
    if Contains(text, pattern) {
      var at :| 0 <= at <= |text| && OccursAt(text, pattern, at);
      assert text[at..at + |pattern|][|pattern| - 1] == text[at + |pattern| - 1];
    }
  }

  /** Where a pattern occurs first is where it is found. */
  lemma FirstIsFound(text: string, pattern: string, from: nat, at: nat)
    requires from <= at && OccursAt(text, pattern, at) && forall i :: from <= i < at ==> !OccursAt(text, pattern, i)
    ensures Find(text, pattern, from) == Some(at)
  {
    var r := Find(text, pattern, from);
    assert r.Some? ==> OccursAt(text, pattern, r.value);
  }

  /** What comes after the first occurrence does not move it. */
  lemma FindLocal(text: string, more: string, pattern: string, from: nat)
    requires Find(text, pattern, from).Some?
    ensures Find(text + more, pattern, from) == Find(text, pattern, from)
  {
    var at := Find(text, pattern, from).value;
    forall i | from <= i <= at
      ensures OccursAt(text + more, pattern, i) <==> OccursAt(text, pattern, i)
    {
      assert (text + more)[i..i + |pattern|] == text[i..i + |pattern|];
    }
    assert OccursAt(text + more, pattern, at);
    FirstIsFound(text + more, pattern, from, at);
  }

  // ---- colons ----

  lemma ColonInside(a: string, m: string, b: string, n: string)
    requires a + ":" + m == b + ":" + n && |a| < |b|
    ensures ':' in m
  {
    var s := a + ":" + m;
    assert s[|b|] == ':' && s[|b|] == m[|b| - |a| - 1];
  }

  /** The last colon splits a text one way only, whatever colons come before it. */
  lemma LastColonSplits(a: string, m: string, b: string, n: string)
    requires a + ":" + m == b + ":" + n && ':' !in m && ':' !in n
    ensures a == b && m == n
  {
    if |a| < |b| {
      ColonInside(a, m, b, n);
    } else if |b| < |a| {
      ColonInside(b, n, a, m);
    }
    SplitsAlike(a + ":", m, b + ":", n);
    SplitsAlike(a, ":", b, ":");
  }

  /** And the first colon does, whatever colons come after it. */
  lemma FirstColonSplits(a: string, m: string, b: string, n: string)
    requires a + ":" + m == b + ":" + n && ':' !in a && ':' !in b
    ensures a == b && m == n
  {
    if |a| < |b| {
      ColonBefore(a, m, b, n);
    } else if |b| < |a| {
      ColonBefore(b, n, a, m);
    }
    Associates(a, ":", m);
    Associates(b, ":", n);
    SamePrefix(a, ":" + m, b, ":" + n);
    SplitsAfter(":", m, n);
  }

  lemma ColonBefore(a: string, m: string, b: string, n: string)
    requires a + ":" + m == b + ":" + n && |a| < |b|
    ensures ':' in b
  {
    var s := a + ":" + m;
    assert s[|a|] == ':' && s[|a|] == b[|a|];
  }

  lemma SamePrefix(a: string, m: string, b: string, n: string)
    requires a + m == b + n && |a| == |b|
    ensures a == b && m == n
  {
    SplitsAlike(a, m, b, n);
  }

  // ---- decimal numerals ----

  predicate IsDigit(c: char) {
    '0' <= c <= '9'
  }

  predicate AllDigits(s: string) {
    forall i :: 0 <= i < |s| ==> IsDigit(s[i])
  }

  function DigitChar(d: nat): (c: char)
    requires d < 10
    ensures IsDigit(c)
  {
    ('0' as int + d) as char
  }

  function DigitValue(c: char): (d: nat)
    requires IsDigit(c)
    ensures d < 10 && DigitChar(d) == c
  {
    c as int - '0' as int
  }

  /** `str(n)`. */
  function Decimal(n: nat): (s: string)
    ensures s != [] && AllDigits(s)
  {
    if n < 10 then [DigitChar(n)] else Decimal(n / 10) + [DigitChar(n % 10)]
  }

  /** `int(s)` of ASCII digits. */
  function ParseDecimal(s: string): nat
    requires AllDigits(s)
  {
    if s == [] then 0 else 10 * ParseDecimal(s[..|s| - 1]) + DigitValue(s[|s| - 1])
  }

  lemma {:induction false} ParseOfDecimal(n: nat)
    ensures ParseDecimal(Decimal(n)) == n
  {
    if n < 10 {
      assert Decimal(n)[..0] == [];
    } else {
      ParseOfDecimal(n / 10);
      var s := Decimal(n);
      assert s[..|s| - 1] == Decimal(n / 10) && s[|s| - 1] == DigitChar(n % 10);
    }
  }

  lemma {:induction false} DecimalMonotone(m: nat, n: nat)
    requires m <= n
    ensures |Decimal(m)| <= |Decimal(n)|
  {
    if m >= 10 {
      DecimalMonotone(m / 10, n / 10);
    }
  }

  /** No numeral of a number is shorter than the one written. */
  lemma {:induction false} DecimalShortest(s: string)
    requires s != [] && AllDigits(s)
    ensures |Decimal(ParseDecimal(s))| <= |s|
  {
    var n := |s| - 1;
    if n > 0 {
      DecimalShortest(s[..n]);
      DecimalGrows(ParseDecimal(s[..n]), DigitValue(s[n]));
    } else {
      assert ParseDecimal(s[..0]) == 0;
    }
  }

  lemma DecimalGrows(n: nat, d: nat)
    requires d < 10
    ensures |Decimal(10 * n + d)| <= |Decimal(n)| + 1
  {
    assert (10 * n + d) / 10 == n;
  }

  lemma DecimalInjective(m: nat, n: nat)
    requires Decimal(m) == Decimal(n)
    ensures m == n
  {
    ParseOfDecimal(m);
    ParseOfDecimal(n);
  }

  // ---- hex ----

  predicate IsHexDigit(c: char) {
    '0' <= c <= '9' || 'a' <= c <= 'f' || 'A' <= c <= 'F'
  }

  lemma HexDigitsAre(c: char)
    ensures IsHexDigit(c) <==>
            || c in {'0', '1', '2', '3', '4', '5', '6', '7', '8', '9'}
            || c in {'a', 'b', 'c', 'd', 'e', 'f', 'A', 'B', 'C', 'D', 'E', 'F'}
  {
  }

  predicate IsHex(s: string) {
    forall i :: 0 <= i < |s| ==> IsHexDigit(s[i])
  }

  function HexValue(c: char): (v: nat)
    requires IsHexDigit(c)
    ensures v < 16
  {
    if c <= '9' then c as int - '0' as int
    else if c <= 'F' then c as int - 'A' as int + 10
    else c as int - 'a' as int + 10
  }

  function HexDigit(v: nat): (c: char)
    requires v < 16
    ensures IsHexDigit(c) && HexValue(c) == v && LowerChar(c) == c
  {
    if v < 10 then ('0' as int + v) as char else ('a' as int + v - 10) as char
  }

  /** `bytes.hex()`. */
  function ToHex(b: Bytes): (s: string)
    ensures |s| == 2 * |b| && IsHex(s)
  {
    if b == [] then [] else [HexDigit(b[0] / 16), HexDigit(b[0] % 16)] + ToHex(b[1..])
  }

  /** `bytes.fromhex(s)`, for a string with no spaces in it. */
  function FromHex(s: string): (b: Bytes)
    requires IsHex(s) && |s| % 2 == 0
    ensures 2 * |b| == |s|
  {
    if s == [] then [] else [16 * HexValue(s[0]) + HexValue(s[1])] + FromHex(s[2..])
  }

  lemma {:induction false} FromToHex(b: Bytes)
    ensures FromHex(ToHex(b)) == b
  {
    if b != [] {
      FromToHex(b[1..]);
      assert ToHex(b)[2..] == ToHex(b[1..]);
    }
  }

  lemma {:induction false} ToFromHex(s: string)
    requires IsHex(s) && |s| % 2 == 0
    ensures ToHex(FromHex(s)) == Lower(s)
  {
    if s != [] {
      ToFromHex(s[2..]);
      HexNext(s, FromHex(s[2..]));
    }
  }

  /** Two more hex digits in front. */
  lemma HexNext(s: string, rest: Bytes)
    requires |s| >= 2 && IsHexDigit(s[0]) && IsHexDigit(s[1]) && ToHex(rest) == Lower(s[2..])
    ensures 16 * HexValue(s[0]) + HexValue(s[1]) < 256
    ensures ToHex([16 * HexValue(s[0]) + HexValue(s[1])] + rest) == Lower(s)
  {
    LowerFirstTwo(s);
    TwoDigits(s[0], s[1]);
    HexByte(16 * HexValue(s[0]) + HexValue(s[1]), LowerChar(s[0]), LowerChar(s[1]), rest);
  }

  lemma HexByte(b: byte, high: char, low: char, rest: Bytes)
    requires HexDigit(b / 16) == high && HexDigit(b % 16) == low
    ensures ToHex([b] + rest) == [high, low] + ToHex(rest)
  {
    DropsHead([b], rest);
  }

  lemma LowerFirstTwo(s: string)
    requires |s| >= 2
    ensures Lower(s) == [LowerChar(s[0]), LowerChar(s[1])] + Lower(s[2..])
  {
  }

  lemma TwoDigits(high: char, low: char)
    requires IsHexDigit(high) && IsHexDigit(low)
    ensures var b := 16 * HexValue(high) + HexValue(low);
      b < 256 && HexDigit(b / 16) == LowerChar(high) && HexDigit(b % 16) == LowerChar(low)
  {
    JoinNibbles(HexValue(high), HexValue(low));
    HexDigitLower(high);
    HexDigitLower(low);
  }

  lemma JoinNibbles(high: nat, low: nat)
    requires high < 16 && low < 16
    ensures (16 * high + low) / 16 == high && (16 * high + low) % 16 == low
  {
  }

  lemma HexDigitLower(c: char)
    requires IsHexDigit(c)
    ensures HexDigit(HexValue(c)) == LowerChar(c)
  {
  }
}
