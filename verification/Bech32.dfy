/** bech32 and bech32m strings, after BIP-173 and BIP-350 with LNURL's raised length limit. */
module Bech32 {
  import opened Prelude
  import opened Text
  import opened Checksum
  import opened Regroup

  const CHARSET: string := "qpzry9x8gf2tvdw0s3jn54khce6mua7l"

  const LIMIT: nat := 2048

  type Symbol = n: nat | n < 32

  function CharOf(d: Symbol): char {
    CHARSET[d]
  }

  /** `CHARSET.find(c)`, `None` for -1. */
  function SymbolOf(c: char): Option<Symbol> {
    match c
    case 'q' => Some(0) case 'p' => Some(1) case 'z' => Some(2) case 'r' => Some(3)
    case 'y' => Some(4) case '9' => Some(5) case 'x' => Some(6) case '8' => Some(7)
    case 'g' => Some(8) case 'f' => Some(9) case '2' => Some(10) case 't' => Some(11)
    case 'v' => Some(12) case 'd' => Some(13) case 'w' => Some(14) case '0' => Some(15)
    case 's' => Some(16) case '3' => Some(17) case 'j' => Some(18) case 'n' => Some(19)
    case '5' => Some(20) case '4' => Some(21) case 'k' => Some(22) case 'h' => Some(23)
    case 'c' => Some(24) case 'e' => Some(25) case '6' => Some(26) case 'm' => Some(27)
    case 'u' => Some(28) case 'a' => Some(29) case '7' => Some(30) case 'l' => Some(31)
    case _ => None
  }

  lemma SymbolOfChar(d: Symbol)
    ensures SymbolOf(CharOf(d)) == Some(d)
    ensures CharOf(d) != '1' && 33 <= CharOf(d) as int <= 126 && LowerChar(CharOf(d)) == CharOf(d)
  {
  }

  lemma CharOfSymbol(c: char)
    requires SymbolOf(c).Some?
    ensures CharOf(SymbolOf(c).value) == c
  {
  }

  function ToWord(d: Symbol): (w: Word)
    ensures w < 32
  {
    d as bv30
  }

  function FromWord(w: Word): (d: Symbol)
    requires w < 32
  {
    w as int
  }

  lemma FromToWord(d: Symbol)
    ensures FromWord(ToWord(d)) == d
  {
  }

  lemma ToFromWord(w: Word)
    requires w < 32
    ensures ToWord(FromWord(w)) == w
  {
  }

  function ToWords(d: seq<Symbol>): (w: seq<Word>)
    ensures |w| == |d| && Symbols(w)
    ensures forall i :: 0 <= i < |d| ==> w[i] == ToWord(d[i])
  {
    seq(|d|, i requires 0 <= i < |d| => ToWord(d[i]))
  }

  function FromWords(w: seq<Word>): (d: seq<Symbol>)
    requires forall i :: 0 <= i < |w| ==> w[i] < 32
    ensures |d| == |w|
    ensures forall i :: 0 <= i < |w| ==> d[i] == FromWord(w[i])
  {
    seq(|w|, i requires 0 <= i < |w| => FromWord(w[i]))
  }

  lemma ToFromWords(w: seq<Word>)
    requires Symbols(w)
    ensures ToWords(FromWords(w)) == w
  {
    forall i | 0 <= i < |w| ensures ToWords(FromWords(w))[i] == w[i] { ToFromWord(w[i]); }
  }

  lemma FromToWords(d: seq<Symbol>)
    ensures FromWords(ToWords(d)) == d
  {
    forall i | 0 <= i < |d| ensures FromWords(ToWords(d))[i] == d[i] { FromToWord(d[i]); }
  }

  function Chars(d: seq<Symbol>): (s: string)
    ensures |s| == |d|
    ensures forall i :: 0 <= i < |d| ==> s[i] == CharOf(d[i])
  {
    seq(|d|, i requires 0 <= i < |d| => CharOf(d[i]))
  }

  predicate InCharset(s: string) {
    forall i :: 0 <= i < |s| ==> SymbolOf(s[i]).Some?
  }

  function SymbolsOf(s: string): (d: seq<Symbol>)
    requires InCharset(s)
    ensures |d| == |s|
    ensures forall i :: 0 <= i < |s| ==> d[i] == SymbolOf(s[i]).value
  {
    seq(|s|, i requires 0 <= i < |s| => SymbolOf(s[i]).value)
  }

  lemma CharsOfSymbols(s: string)
    requires InCharset(s)
    ensures Chars(SymbolsOf(s)) == s
  {
    forall i | 0 <= i < |s| ensures Chars(SymbolsOf(s))[i] == s[i] { CharOfSymbol(s[i]); }
  }

  lemma SymbolsOfChars(d: seq<Symbol>)
    ensures InCharset(Chars(d)) && SymbolsOf(Chars(d)) == d
    ensures '1' !in Chars(d) && Lower(Chars(d)) == Chars(d) && Printable(Chars(d))
  {
    forall i | 0 <= i < |d|
      ensures SymbolOf(Chars(d)[i]) == Some(d[i]) && Chars(d)[i] != '1'
      ensures LowerChar(Chars(d)[i]) == Chars(d)[i] && 33 <= Chars(d)[i] as int <= 126
    {
      SymbolOfChar(d[i]);
    }
  }

  predicate Printable(s: string) {
    forall i :: 0 <= i < |s| ==> 33 <= s[i] as int <= 126
  }

  /** `bech32_hrp_expand`. */
  function HrpExpand(hrp: string): (w: seq<Word>)
    ensures |w| == 2 * |hrp| + 1
  {
    seq(|hrp|, i requires 0 <= i < |hrp| => (hrp[i] as int / 32) as bv30) + [0] +
    seq(|hrp|, i requires 0 <= i < |hrp| => (hrp[i] as int % 32) as bv30)
  }

  /**
   What the expansion is, of every prefix: each character's high bits in the prefix's order, a zero, and each one's low
   five bits in that order again.
   */
  lemma ExpandsExactly(hrp: string, i: nat, high: nat, low: nat)
    requires i < |hrp| && hrp[i] as int == 32 * high + low && low < 32
    ensures var w := HrpExpand(hrp);
      w[i] == high as bv30 && w[|hrp|] == 0 && w[|hrp| + 1 + i] == low as bv30
  {
    DivModUnique(hrp[i] as int, 32, high, low);
  }

  // ---- encoding ----

  datatype Decoded = Decoded(hrp: string, payload: Bytes)

  datatype EncodeError = TooLong

  /** The payload's five-bit groups. */
  function Groups(payload: Bytes): (d: seq<Symbol>) {
    PowSmall();
    var r := ConvertBits(payload, 8, 5, true);
    if r.Some? then r.value else []
  }

  lemma PowSmall()
    ensures Pow(2, 5) == 32 && Pow(2, 8) == 256
  {
    assert Pow(2, 4) == 16;
  }

  function ChecksumOf(hrp: string, groups: seq<Symbol>, constant: Word): (w: seq<Word>)
    ensures |w| == 6 && forall i :: 0 <= i < 6 ==> w[i] < 32
  {
    var values := HrpExpand(hrp) + ToWords(groups);
    ChecksumVerifies(values, constant);
    CreateChecksum(values, constant)
  }

  function DataPart(hrp: string, payload: Bytes, constant: Word): (d: seq<Symbol>)
    ensures |d| == |Groups(payload)| + 6
  {
    Groups(payload) + FromWords(ChecksumOf(hrp, Groups(payload), constant))
  }

  function EncodeString(hrp: string, payload: Bytes, constant: Word): string {
    hrp + "1" + Chars(DataPart(hrp, payload, constant))
  }

  function Encode(hrp: string, payload: Bytes, limit: nat, constant: Word): Result<string, EncodeError> {
    var result := EncodeString(hrp, payload, constant);
    if |result| > limit then Err(TooLong) else Ok(result)
  }

  // ---- decoding ----

  /** `s.rfind("1")`, `None` for -1. */
  function LastOne(s: string): (r: Option<nat>)
    ensures r.None? ==> '1' !in s
    ensures r.Some? ==> r.value < |s| && s[r.value] == '1' && '1' !in s[r.value + 1..]
  {
    if s == [] then None
    else if s[|s| - 1] == '1' then Some(|s| - 1)
    else
      var r := LastOne(s[..|s| - 1]);
      assert s == s[..|s| - 1] + [s[|s| - 1]];
      assert r.Some? ==> s[r.value + 1..] == s[..|s| - 1][r.value + 1..] + [s[|s| - 1]];
      r
  }

  datatype Parts = Parts(hrp: string, data: seq<Symbol>)

  /** The prefix and the symbols of a lowercase string, around its last `1`. */
  function Split(s: string, limit: nat): (r: Option<Parts>)
    ensures r.Some? ==> |r.value.data| >= 6
  {
    var pos := LastOne(s);
    if pos.None? || pos.value < 1 || pos.value + 7 > |s| || |s| > limit then None
    else if !InCharset(s[pos.value + 1..]) then None
    else Some(Parts(s[..pos.value], SymbolsOf(s[pos.value + 1..])))
  }

  /** The payload of a data part, once its checksum and its padding are in order. */
  function Open(hrp: string, data: seq<Symbol>, constant: Word): Option<Bytes>
    requires |data| >= 6
  {
    if !VerifyChecksum(HrpExpand(hrp) + ToWords(data), constant) then None
    else
      PowSmall();
      var decoded := ConvertBits(data[..|data| - 6], 5, 8, false);
      if decoded.None? then None else Some(decoded.value)
  }

  function Decode(bech: string, limit: nat, constant: Word): Option<Decoded> {
    if !Printable(bech) || (Lower(bech) != bech && Upper(bech) != bech) then None
    else
      match Split(Lower(bech), limit)
      case None => None
      case Some(parts) =>
        match Open(parts.hrp, parts.data, constant)
        case None => None
        case Some(payload) => Some(Decoded(parts.hrp, payload))
  }

  // ---- the two are inverse ----

  /** A prefix decoding can return: not empty, printable and lowercase. Digits are allowed, `1` among them. */
  predicate ProperHrp(hrp: string) {
    hrp != [] && Printable(hrp) && Lower(hrp) == hrp
  }

  /** Any characters from `!` to `~` but capitals. */
  lemma ProperExactly(hrp: string)
    ensures ProperHrp(hrp) <==>
            hrp != "" && forall i :: 0 <= i < |hrp| ==> '!' <= hrp[i] <= '~' && !('A' <= hrp[i] <= 'Z')
  {
    if ProperHrp(hrp) {
      forall i | 0 <= i < |hrp| ensures !('A' <= hrp[i] <= 'Z') { assert Lower(hrp)[i] == hrp[i]; }
    }
  }

  /** A string in capitals reads as it does in small letters. */
  lemma ReadsInCapitals(s: string, limit: nat, constant: Word)
    requires Lower(s) == s && Decode(s, limit, constant).Some?
    ensures Decode(Upper(s), limit, constant) == Decode(s, limit, constant)
  {
    UpperExactly(s);
    LowerPrintable(Upper(s), s);
    AsCapitals(s, Upper(s), limit, constant);
  }

  lemma AsCapitals(s: string, capitals: string, limit: nat, constant: Word)
    requires Lower(s) == s && Lower(capitals) == s && Upper(capitals) == capitals
    requires Printable(capitals) <==> Printable(s)
    ensures Decode(capitals, limit, constant) == Decode(s, limit, constant)
  {
  }

  predicate OneCase(s: string) {
    Lower(s) == s || Upper(s) == s
  }

  lemma GroupsBack(payload: Bytes)
    ensures ConvertBits(payload, 8, 5, true) == Some(Groups(payload))
    ensures ConvertBits(Groups(payload), 5, 8, false) == Some(payload)
  {
    PowSmall();
    NarrowAndBack(payload, 8, 5);
  }

  /** The groups hold the payload's bits and fewer than five more. */
  lemma GroupsBits(payload: Bytes)
    ensures 8 * |payload| <= 5 * |Groups(payload)| < 8 * |payload| + 5
  {
    PowSmall();
    PaddedKeepsBits(payload, 8, 5);
    BitStringLength(payload, 8);
    BitStringLength(Groups(payload), 5);
  }

  lemma EncodesWithin(hrp: string, payload: Bytes, limit: nat, constant: Word)
    ensures Encode(hrp, payload, limit, constant).Ok? <==> |hrp| + |Groups(payload)| + 7 <= limit
  {
  }

  /** LNURL's limit, where the standards have 90. */
  lemma WithinLimit(hrp: string, payload: Bytes, constant: Word)
    ensures Encode(hrp, payload, LIMIT, constant).Ok? <==> |hrp| + |Groups(payload)| + 7 <= 2048
  {
    EncodesWithin(hrp, payload, LIMIT, constant);
  }

  lemma GroupsOf(groups: seq<Symbol>, payload: Bytes)
    requires ConvertBits(groups, 5, 8, false) == Some(payload)
    ensures Groups(payload) == groups
  {
    WidenAndBack(groups, 5, 8);
  }

  lemma ToWordsAppend(a: seq<Symbol>, b: seq<Symbol>)
    ensures ToWords(a + b) == ToWords(a) + ToWords(b)
  {
  }

  lemma {:induction false} LastOneAt(head: string, tail: string)
    requires '1' !in tail
    ensures LastOne(head + "1" + tail) == Some(|head|)
  {
    var s := head + "1" + tail;
    if tail == "" {
      assert s[|s| - 1] == '1';
    } else {
      var n := |tail| - 1;
      assert s[|s| - 1] == tail[n];
      assert s[..|s| - 1] == head + "1" + tail[..n];
      LastOneAt(head, tail[..n]);
    }
  }

  lemma SplitJoins(s: string, limit: nat)
    requires Split(s, limit).Some?
    ensures var parts := Split(s, limit).value;
      parts.hrp != [] && |s| <= limit && s == parts.hrp + "1" + Chars(parts.data)
  {
    var pos := LastOne(s).value;
    CharsOfSymbols(s[pos + 1..]);
    assert s == s[..pos] + "1" + s[pos + 1..];
  }

  lemma JoinedSplits(hrp: string, data: seq<Symbol>, limit: nat)
    requires hrp != [] && |data| >= 6 && |hrp| + 1 + |data| <= limit
    ensures Split(hrp + "1" + Chars(data), limit) == Some(Parts(hrp, data))
  {
    SymbolsOfChars(data);
    LastOneAt(hrp, Chars(data));
    SplitAt(hrp + "1" + Chars(data), hrp, Chars(data), limit);
  }

  lemma SplitAt(s: string, hrp: string, tail: string, limit: nat)
    requires s == hrp + "1" + tail && LastOne(s) == Some(|hrp|) && InCharset(tail)
    requires hrp != [] && |tail| >= 6 && |s| <= limit
    ensures Split(s, limit) == Some(Parts(hrp, SymbolsOf(tail)))
  {
    assert s[..|hrp|] == hrp && s[|hrp| + 1..] == tail;
  }

  lemma SplitExact(s: string, limit: nat, hrp: string, data: seq<Symbol>)
    ensures Split(s, limit) == Some(Parts(hrp, data)) <==>
            hrp != [] && |data| >= 6 && |s| <= limit && s == hrp + "1" + Chars(data)
  {
    if Split(s, limit) == Some(Parts(hrp, data)) {
      SplitJoins(s, limit);
    }
    if hrp != [] && |data| >= 6 && |s| <= limit && s == hrp + "1" + Chars(data) {
      JoinedSplits(hrp, data, limit);
    }
  }

  lemma GroupsExact(groups: seq<Symbol>, payload: Bytes)
    ensures ConvertBits(groups, 5, 8, false) == Some(payload) <==> groups == Groups(payload)
  {
    GroupsBack(payload);
    if ConvertBits(groups, 5, 8, false) == Some(payload) {
      GroupsOf(groups, payload);
    }
  }

  lemma ChecksumExact(hrp: string, data: seq<Symbol>, constant: Word)
    requires |data| >= 6
    ensures VerifyChecksum(HrpExpand(hrp) + ToWords(data), constant) <==>
            data[|data| - 6..] == FromWords(ChecksumOf(hrp, data[..|data| - 6], constant))
  {
    var groups, last := data[..|data| - 6], data[|data| - 6..];
    ChecksumExactlyOne(HrpExpand(hrp) + ToWords(groups), ToWords(last), constant);
    WordsOfData(hrp, data);
    FromToWords(last);
    ToFromWords(ChecksumOf(hrp, groups, constant));
  }

  lemma OpensWhen(hrp: string, data: seq<Symbol>, payload: Bytes, constant: Word)
    requires |data| >= 6
    ensures Open(hrp, data, constant) == Some(payload) <==>
            VerifyChecksum(HrpExpand(hrp) + ToWords(data), constant) &&
              ConvertBits(data[..|data| - 6], 5, 8, false) == Some(payload)
  {
    PowSmall();
  }

  lemma DataPartIs(hrp: string, data: seq<Symbol>, payload: Bytes, constant: Word)
    requires |data| >= 6
    ensures data == DataPart(hrp, payload, constant) <==>
            data[..|data| - 6] == Groups(payload) &&
            data[|data| - 6..] == FromWords(ChecksumOf(hrp, data[..|data| - 6], constant))
  {
    var groups, last := data[..|data| - 6], data[|data| - 6..];
    assert data == groups + last;
    SplitsAlike(groups, last, Groups(payload), FromWords(ChecksumOf(hrp, Groups(payload), constant)));
  }

  /** A data part opens to a payload exactly when it is the one encoding makes. */
  lemma OpenExact(hrp: string, data: seq<Symbol>, payload: Bytes, constant: Word)
    requires |data| >= 6
    ensures Open(hrp, data, constant) == Some(payload) <==> data == DataPart(hrp, payload, constant)
  {
    OpensWhen(hrp, data, payload, constant);
    ChecksumExact(hrp, data, constant);
    GroupsExact(data[..|data| - 6], payload);
    DataPartIs(hrp, data, payload, constant);
  }

  lemma WordsOfData(hrp: string, data: seq<Symbol>)
    requires |data| >= 6
    ensures HrpExpand(hrp) + ToWords(data) ==
            HrpExpand(hrp) + ToWords(data[..|data| - 6]) + ToWords(data[|data| - 6..])
  {
    assert data == data[..|data| - 6] + data[|data| - 6..];
    ToWordsAppend(data[..|data| - 6], data[|data| - 6..]);
  }

  lemma PrintableLower(bech: string, hrp: string, data: seq<Symbol>)
    requires Lower(bech) == hrp + "1" + Chars(data)
    ensures Printable(bech) <==> Printable(hrp)
    ensures Lower(hrp) == hrp
  {
    SymbolsOfChars(data);
    assert Printable("1");
    LowerPrintable(bech, hrp + "1" + Chars(data));
    PrintableJoin(hrp + "1", Chars(data));
    PrintableJoin(hrp, "1");
    LowerHead(bech, hrp, "1", Chars(data));
  }

  lemma PrintableJoin(a: string, b: string)
    ensures Printable(a + b) <==> Printable(a) && Printable(b)
  {
    forall i | 0 <= i < |b| ensures (a + b)[|a| + i] == b[i] {}
    forall i | 0 <= i < |a| ensures (a + b)[i] == a[i] {}
    if Printable(a + b) {
      forall i | 0 <= i < |b| ensures 33 <= b[i] as int <= 126 { assert b[i] == (a + b)[|a| + i]; }
    }
  }

  lemma LowerHead(s: string, a: string, one: string, b: string)
    requires Lower(s) == a + one + b
    ensures Lower(a) == a
  {
    forall i | 0 <= i < |a| ensures LowerChar(a[i]) == a[i] {
      assert a[i] == Lower(s)[i] == LowerChar(s[i]);
    }
  }

  lemma LowerPrintable(s: string, l: string)
    requires Lower(s) == l
    ensures Printable(s) <==> Printable(l)
  {
    forall i | 0 <= i < |s| ensures 33 <= s[i] as int <= 126 <==> 33 <= l[i] as int <= 126 {}
  }

  lemma EncodeIs(hrp: string, data: seq<Symbol>, payload: Bytes, limit: nat, constant: Word, s: string)
    requires data == DataPart(hrp, payload, constant)
    ensures Encode(hrp, payload, limit, constant) == Ok(s) <==> s == hrp + "1" + Chars(data) && |s| <= limit
  {
  }

  lemma DecodeIs(bech: string, hrp: string, data: seq<Symbol>, payload: Bytes, limit: nat, constant: Word)
    requires Printable(bech) && OneCase(bech)
    requires Split(Lower(bech), limit) == Some(Parts(hrp, data)) && Open(hrp, data, constant) == Some(payload)
    ensures Decode(bech, limit, constant) == Some(Decoded(hrp, payload))
  {
  }

  lemma DecodedEncodes(bech: string, limit: nat, constant: Word)
    requires Decode(bech, limit, constant).Some?
    ensures var d := Decode(bech, limit, constant).value;
      ProperHrp(d.hrp) && OneCase(bech) && Encode(d.hrp, d.payload, limit, constant) == Ok(Lower(bech))
  {
    var s, d := Lower(bech), Decode(bech, limit, constant).value;
    var data := Split(s, limit).value.data;
    SplitExact(s, limit, d.hrp, data);
    OpenExact(d.hrp, data, d.payload, constant);
    PrintableLower(bech, d.hrp, data);
    EncodeIs(d.hrp, data, d.payload, limit, constant, s);
  }

  lemma EncodedDecodes(bech: string, hrp: string, payload: Bytes, limit: nat, constant: Word)
    requires ProperHrp(hrp) && OneCase(bech) && Encode(hrp, payload, limit, constant) == Ok(Lower(bech))
    ensures Decode(bech, limit, constant) == Some(Decoded(hrp, payload))
  {
    var data := DataPart(hrp, payload, constant);
    EncodeIs(hrp, data, payload, limit, constant, Lower(bech));
    SplitExact(Lower(bech), limit, hrp, data);
    OpenExact(hrp, data, payload, constant);
    PrintableLower(bech, hrp, data);
    DecodeIs(bech, hrp, data, payload, limit, constant);
  }

  /**
   Decoding is exactly the inverse of encoding. A string decodes to a prefix and payload if and only if, in one case
   throughout, it is the encoding of that prefix and payload within the limit; so each payload has one lowercase string.
   */
  lemma DecodeExact(bech: string, hrp: string, payload: Bytes, limit: nat, constant: Word)
    ensures Decode(bech, limit, constant) == Some(Decoded(hrp, payload)) <==>
            ProperHrp(hrp) && OneCase(bech) && Encode(hrp, payload, limit, constant) == Ok(Lower(bech))
  {
    if Decode(bech, limit, constant) == Some(Decoded(hrp, payload)) {
      DecodedEncodes(bech, limit, constant);
    }
    if ProperHrp(hrp) && OneCase(bech) && Encode(hrp, payload, limit, constant) == Ok(Lower(bech)) {
      EncodedDecodes(bech, hrp, payload, limit, constant);
    }
  }

  lemma EncodingIsLower(hrp: string, payload: Bytes, constant: Word)
    requires ProperHrp(hrp)
    ensures Lower(EncodeString(hrp, payload, constant)) == EncodeString(hrp, payload, constant)
  {
    var data := DataPart(hrp, payload, constant);
    SymbolsOfChars(data);
    LowerAppend(hrp + "1", Chars(data));
    LowerAppend(hrp, "1");
    assert Lower("1") == "1";
  }

  lemma NotSpace(c: char)
    requires 33 <= c as int <= 126
    ensures !IsSpace(c)
  {
  }

  lemma EncodingIsTrimmed(hrp: string, payload: Bytes, constant: Word)
    requires ProperHrp(hrp)
    ensures Strip(EncodeString(hrp, payload, constant)) == EncodeString(hrp, payload, constant)
  {
    var data := DataPart(hrp, payload, constant);
    SymbolsOfChars(data);
    var s := EncodeString(hrp, payload, constant);
    assert s[0] == hrp[0] && s[|s| - 1] == Chars(data)[|data| - 1];
    NotSpace(s[0]);
    NotSpace(s[|s| - 1]);
    StripTrimmed(s);
  }

  /** For every payload within the limit and every proper prefix, decoding returns what was encoded. */
  lemma RoundTrip(hrp: string, payload: Bytes, limit: nat, constant: Word)
    requires ProperHrp(hrp) && Encode(hrp, payload, limit, constant).Ok?
    ensures Decode(Encode(hrp, payload, limit, constant).value, limit, constant) == Some(Decoded(hrp, payload))
  {
    EncodingIsLower(hrp, payload, constant);
    EncodedDecodes(EncodeString(hrp, payload, constant), hrp, payload, limit, constant);
  }

  /** The same of an encoding read back as text, whitespace stripped. */
  lemma TextRoundTrip(hrp: string, payload: Bytes, limit: nat, constant: Word, s: string)
    requires ProperHrp(hrp) && Encode(hrp, payload, limit, constant) == Ok(s)
    ensures Decode(Strip(s), limit, constant) == Some(Decoded(hrp, payload))
  {
    EncodingIsTrimmed(hrp, payload, constant);
    RoundTrip(hrp, payload, limit, constant);
  }

  /** No string decodes under both constants, BIP-173's and BIP-350's, so neither kind of value is read as the other. */
  lemma NeverBoth(bech: string, limit: nat)
    ensures Decode(bech, limit, BECH32).None? || Decode(bech, limit, BECH32M).None?
  {
    if Split(Lower(bech), limit).Some? {
      var parts := Split(Lower(bech), limit).value;
      OneConstant(HrpExpand(parts.hrp) + ToWords(parts.data));
    }
  }

  lemma OneConstant(values: seq<Word>)
    ensures !VerifyChecksum(values, BECH32) || !VerifyChecksum(values, BECH32M)
  {
  }

  /** The part of a text a burst at a position can touch. */
  function Window(s: string, at: nat): string
    requires at <= |s|
  {
    s[at..if at + 6 <= |s| then at + 6 else |s|]
  }

  /**
   A decodable string, changed only inside six consecutive positions of its data part, to anything but the separator, no
   longer decodes. A change of case alone is no change.
   */
  lemma BurstNeverDecodes(bech: string, changed: string, at: nat, limit: nat, constant: Word)
    requires |changed| == |bech| && Lower(changed) != Lower(bech)
    requires Decode(bech, limit, constant).Some? && |Decode(bech, limit, constant).value.hrp| < at <= |bech|
    requires forall i :: 0 <= i < |bech| && !(at <= i < at + 6) ==> LowerChar(changed[i]) == LowerChar(bech[i])
    requires '1' !in Window(changed, at)
    ensures Decode(changed, limit, constant).None?
  {
    DecodesLowered(bech, limit, constant);
    DecodesLowered(changed, limit, constant);
    WindowLowered(changed, at);
    LowerIdempotent(bech);
    LowerIdempotent(changed);
    var low, lowChanged := Lower(bech), Lower(changed);
    LoweredBurst(low, lowChanged, at, limit, constant, Decode(bech, limit, constant), Decode(changed, limit, constant));
  }

  lemma LoweredBurst(bech: string, changed: string, at: nat, limit: nat, constant: Word, was: Option<Decoded>,
                     now: Option<Decoded>)
    requires Lower(bech) == bech && Lower(changed) == changed && |changed| == |bech| && changed != bech
    requires was.Some? && |was.value.hrp| < at <= |bech| && Decode(bech, limit, constant) == was
    requires forall i :: 0 <= i < |bech| && !(at <= i < at + 6) ==> changed[i] == bech[i]
    requires '1' !in Window(changed, at)
    requires now.Some? ==> Decode(changed, limit, constant) == now
    ensures now.None?
  {
    LowercaseBurst(bech, changed, at, limit, constant);
  }

  /** What decodes decodes in lower case too. */
  lemma DecodesLowered(bech: string, limit: nat, constant: Word)
    ensures Decode(bech, limit, constant).Some? ==>
              Decode(Lower(bech), limit, constant) == Decode(bech, limit, constant)
  {
    LowerIdempotent(bech);
    LowerPrintable(bech, Lower(bech));
    DecodesAsLower(bech, Lower(bech), limit, constant);
  }

  lemma DecodesAsLower(bech: string, low: string, limit: nat, constant: Word)
    requires low == Lower(bech) && Lower(low) == low && (Printable(bech) <==> Printable(low))
    ensures Decode(bech, limit, constant).Some? ==> Decode(low, limit, constant) == Decode(bech, limit, constant)
  {
  }

  lemma WindowLowered(s: string, at: nat)
    requires at <= |s| && '1' !in Window(s, at)
    ensures '1' !in Window(Lower(s), at)
  {
    forall c | c in Window(Lower(s), at) ensures c != '1' {
      var i :| 0 <= i < |Window(Lower(s), at)| && Window(Lower(s), at)[i] == c;
      assert Window(s, at)[i] in Window(s, at);
    }
  }

  lemma LowercaseBurst(bech: string, changed: string, at: nat, limit: nat, constant: Word)
    requires Lower(bech) == bech && Lower(changed) == changed && |changed| == |bech| && changed != bech
    requires Decode(bech, limit, constant).Some? && |Decode(bech, limit, constant).value.hrp| < at <= |bech|
    requires forall i :: 0 <= i < |bech| && !(at <= i < at + 6) ==> changed[i] == bech[i]
    requires '1' !in Window(changed, at)
    ensures Decode(changed, limit, constant).None?
  {
    var parts := Split(bech, limit).value;
    DecodesThrough(bech, limit, constant, parts);
    if Split(changed, limit).Some? {
      WindowInCharset(bech, changed, at, limit);
      var changedData := ChangedSplits(bech, changed, parts, at, limit);
      DataBurst(parts.hrp, parts.data, changedData, at - |parts.hrp| - 1, constant);
      DecodesThrough(changed, limit, constant, Parts(parts.hrp, changedData));
    }
  }

  /** A character outside the charset never splits: the separator stays where it was. */
  lemma WindowInCharset(bech: string, changed: string, at: nat, limit: nat)
    requires Split(bech, limit).Some? && Split(changed, limit).Some?
    requires |changed| == |bech| && |Split(bech, limit).value.hrp| < at <= |bech|
    requires forall i :: 0 <= i < |bech| && !(at <= i < at + 6) ==> changed[i] == bech[i]
    requires '1' !in Window(changed, at)
    ensures InCharset(Window(changed, at))
  {
    var p, q := LastOne(bech).value, LastOne(changed).value;
    LastOneStays(bech, changed, at, p, q);
    forall i | 0 <= i < |Window(changed, at)| ensures SymbolOf(Window(changed, at)[i]).Some? {
      assert Window(changed, at)[i] == changed[q + 1..][at + i - q - 1];
    }
  }

  lemma LastOneStays(bech: string, changed: string, at: nat, p: nat, q: nat)
    requires |changed| == |bech| && p < at <= |bech| && q < |bech|
    requires forall i :: 0 <= i < |bech| && !(at <= i < at + 6) ==> changed[i] == bech[i]
    requires '1' !in Window(changed, at)
    requires bech[p] == '1' && '1' !in bech[p + 1..] && changed[q] == '1' && '1' !in changed[q + 1..]
    ensures p == q
  {
    if q < p {
      NoneAfter(changed, q, p);
    } else if p < q {
      if at <= q < at + 6 { NoneWithin(changed, at, q); } else { NoneAfter(bech, p, q); }
    }
  }

  lemma NoneAfter(s: string, p: nat, i: nat)
    requires p < i < |s| && '1' !in s[p + 1..]
    ensures s[i] != '1'
  {
    assert s[i] == s[p + 1..][i - p - 1];
  }

  lemma NoneWithin(s: string, at: nat, i: nat)
    requires at <= i < |s| && i < at + 6 && '1' !in Window(s, at)
    ensures s[i] != '1'
  {
    assert s[i] == Window(s, at)[i - at];
  }

  lemma ChangedSplits(bech: string, changed: string, parts: Parts, at: nat, limit: nat) returns (data: seq<Symbol>)
    requires Split(bech, limit) == Some(parts)
    requires |changed| == |bech| && changed != bech && |parts.hrp| < at <= |bech|
    requires forall i :: 0 <= i < |bech| && !(at <= i < at + 6) ==> changed[i] == bech[i]
    requires InCharset(Window(changed, at))
    ensures Split(changed, limit) == Some(Parts(parts.hrp, data)) && |data| == |parts.data| >= 6 && data != parts.data
    ensures at <= |parts.hrp| + 1 + |data|
    ensures var from := |parts.hrp| + 1;
      forall i :: 0 <= i < |data| && !(at - from <= i < at - from + 6) ==> data[i] == parts.data[i]
  {
    SplitJoins(bech, limit);
    data := ChangedData(bech, changed, parts, at);
    JoinedSplits(parts.hrp, data, limit);
  }

  /** A lowercase string decodes only through its parts. */
  lemma DecodesThrough(s: string, limit: nat, constant: Word, parts: Parts)
    requires Lower(s) == s && Split(s, limit) == Some(parts)
    ensures Decode(s, limit, constant).Some? ==>
              Open(parts.hrp, parts.data, constant).Some? && Decode(s, limit, constant).value.hrp == parts.hrp
  {
  }

  lemma ChangedData(bech: string, changed: string, parts: Parts, at: nat) returns (data: seq<Symbol>)
    requires bech == parts.hrp + "1" + Chars(parts.data) && |changed| == |bech| && changed != bech
    requires |parts.hrp| < at <= |bech|
    requires forall i :: 0 <= i < |bech| && !(at <= i < at + 6) ==> changed[i] == bech[i]
    requires InCharset(Window(changed, at))
    ensures changed == parts.hrp + "1" + Chars(data) && |data| == |parts.data| && data != parts.data
    ensures var from := |parts.hrp| + 1;
      forall i :: 0 <= i < |data| && !(at - from <= i < at - from + 6) ==> data[i] == parts.data[i]
  {
    var from := |parts.hrp| + 1;
    var tail, tail' := bech[from..], changed[from..];
    assert tail == Chars(parts.data);
    SymbolsOfChars(parts.data);
    ChangedCharset(bech, changed, from, at);
    data := SymbolsOf(tail');
    CharsOfSymbols(tail');
    assert bech[..from] == parts.hrp + "1";
    assert changed[..from] == bech[..from];
    assert changed == changed[..from] + tail';
    forall i | 0 <= i < |data| && !(at - from <= i < at - from + 6) ensures data[i] == parts.data[i] {
      DropAt(changed, from, i);
      DropAt(bech, from, i);
    }
  }

  lemma DropAt<T>(s: seq<T>, from: nat, i: nat)
    requires from + i < |s|
    ensures s[from..][i] == s[from + i]
  {
  }

  lemma DataBurst(hrp: string, data: seq<Symbol>, changed: seq<Symbol>, at: nat, constant: Word)
    requires |data| == |changed| >= 6 && at <= |data| && data != changed
    requires forall i :: 0 <= i < |data| && !(at <= i < at + 6) ==> changed[i] == data[i]
    requires Open(hrp, data, constant).Some?
    ensures Open(hrp, changed, constant).None?
  {
    WordsDiffer(data, changed, at);
    TailBurst(HrpExpand(hrp), ToWords(data), ToWords(changed), at, constant);
  }

  lemma WordsDiffer(data: seq<Symbol>, changed: seq<Symbol>, at: nat)
    requires |data| == |changed| && data != changed
    requires forall i :: 0 <= i < |data| && !(at <= i < at + 6) ==> changed[i] == data[i]
    ensures ToWords(data) != ToWords(changed)
    ensures forall i :: 0 <= i < |data| && !(at <= i < at + 6) ==> ToWords(changed)[i] == ToWords(data)[i]
  {
    FromToWords(data);
    FromToWords(changed);
  }

  lemma TailBurst(x: seq<Word>, v: seq<Word>, w: seq<Word>, at: nat, constant: Word)
    requires |v| == |w| && at <= |v| && v != w && Symbols(v) && Symbols(w)
    requires forall i :: 0 <= i < |v| && !(at <= i < at + 6) ==> w[i] == v[i]
    requires VerifyChecksum(x + v, constant)
    ensures !VerifyChecksum(x + w, constant)
  {
    assert (x + v)[|x|..] == v && (x + w)[|x|..] == w;
    BurstDetected(x + v, x + w, |x|, |x| + at, constant);
  }

  lemma ChangedCharset(bech: string, changed: string, from: nat, at: nat)
    requires |changed| == |bech| && from <= at <= |bech| && InCharset(bech[from..])
    requires forall i :: 0 <= i < |bech| && !(at <= i < at + 6) ==> changed[i] == bech[i]
    requires InCharset(Window(changed, at))
    ensures InCharset(changed[from..])
  {
    forall i | from <= i < |changed|
      ensures SymbolOf(changed[i]).Some?
    {
      if at <= i < at + 6 {
        assert changed[i] == Window(changed, at)[i - at];
      } else {
        assert changed[i] == bech[from..][i - from];
      }
    }
  }

  // ---- the standards' own strings ----

  /** BIP-173's shortest valid string: the prefix `a` and no payload. */
  lemma KnownBech32String()
    ensures Encode("a", [], LIMIT, BECH32) == Ok("a12uel5l")
    ensures Decode("a12uel5l", LIMIT, BECH32) == Some(Decoded("a", []))
  {
    var data := [10, 28, 25, 31, 20, 31];
    VerifiesBech32(data);
    WritesBech32(data);
    KnownString("a", data, "a12uel5l", BECH32);
  }

  lemma VerifiesBech32(data: seq<Symbol>)
    requires data == [10, 28, 25, 31, 20, 31]
    ensures ProperHrp("a") && VerifyChecksum(HrpExpand("a") + ToWords(data), BECH32)
  {
    ExpandsA();
    KnownBech32(HrpExpand("a") + ToWords(data));
  }

  /** And BIP-350's. */
  lemma KnownBech32mString()
    ensures Encode("a", [], LIMIT, BECH32M) == Ok("a1lqfn3a")
    ensures Decode("a1lqfn3a", LIMIT, BECH32M) == Some(Decoded("a", []))
  {
    var data := [31, 0, 9, 19, 17, 29];
    VerifiesBech32m(data);
    WritesBech32m(data);
    KnownString("a", data, "a1lqfn3a", BECH32M);
  }

  lemma VerifiesBech32m(data: seq<Symbol>)
    requires data == [31, 0, 9, 19, 17, 29]
    ensures ProperHrp("a") && VerifyChecksum(HrpExpand("a") + ToWords(data), BECH32M)
  {
    ExpandsA();
    KnownBech32m(HrpExpand("a") + ToWords(data));
  }

  lemma ExpandsA()
    ensures HrpExpand("a") == [3, 0, 1] && ProperHrp("a")
  {
  }

  lemma WritesBech32(data: seq<Symbol>)
    requires data == [10, 28, 25, 31, 20, 31]
    ensures "a" + "1" + Chars(data) == "a12uel5l"
  {
  }

  lemma WritesBech32m(data: seq<Symbol>)
    requires data == [31, 0, 9, 19, 17, 29]
    ensures "a" + "1" + Chars(data) == "a1lqfn3a"
  {
  }

  lemma KnownString(hrp: string, data: seq<Symbol>, s: string, constant: Word)
    requires ProperHrp(hrp) && |data| == 6 && VerifyChecksum(HrpExpand(hrp) + ToWords(data), constant)
    requires s == hrp + "1" + Chars(data) && |s| <= LIMIT
    ensures Encode(hrp, [], LIMIT, constant) == Ok(s) && Decode(s, LIMIT, constant) == Some(Decoded(hrp, []))
  {
    assert data[..0] == [];
    NothingRegroups();
    KnownPayload(hrp, data, [], s, constant);
  }

  lemma KnownPayload(hrp: string, data: seq<Symbol>, payload: Bytes, s: string, constant: Word)
    requires ProperHrp(hrp) && |data| >= 6 && VerifyChecksum(HrpExpand(hrp) + ToWords(data), constant)
    requires ConvertBits(data[..|data| - 6], 5, 8, false) == Some(payload)
    requires s == hrp + "1" + Chars(data) && |s| <= LIMIT
    ensures Encode(hrp, payload, LIMIT, constant) == Ok(s)
    ensures Decode(s, LIMIT, constant) == Some(Decoded(hrp, payload))
  {
    OpensWhen(hrp, data, payload, constant);
    OpenExact(hrp, data, payload, constant);
    EncodeIs(hrp, data, payload, LIMIT, constant, s);
    RoundTrip(hrp, payload, LIMIT, constant);
  }

  lemma NothingRegroups()
    ensures ConvertBits([], 5, 8, false) == Some([])
  {
  }

  // BIP-173's string with a long prefix and every symbol in it.

  /** Every symbol in order, and the checksum. */
  function Alphabet(): (data: seq<Symbol>)
    ensures |data| == 38
  {
    seq(32, i requires 0 <= i < 32 => i) + [27, 0, 0, 0, 6, 14]
  }

  const ALPHABET_PAYLOAD: Bytes :=
    [0x00, 0x44, 0x32, 0x14, 0xC7] +
    [0x42, 0x54, 0xB6, 0x35, 0xCF] +
    [0x84, 0x65, 0x3A, 0x56, 0xD7] +
    [0xC6, 0x75, 0xBE, 0x77, 0xDF]

  /**
   It decodes to the standard's payload: prefix expansion, charset, regrouping and checksum are all the standard's.
   */
  lemma KnownAlphabetString()
    ensures var s := "abcdef" + "1" + ("qpzry9x8gf2tvdw0s3jn54khce6mua7l" + "mqqqxw");
      && Encode("abcdef", ALPHABET_PAYLOAD, LIMIT, BECH32) == Ok(s)
      && Decode(s, LIMIT, BECH32) == Some(Decoded("abcdef", ALPHABET_PAYLOAD))
  {
    AbcdefIsProper("abcdef");
    AlphabetVerifies("abcdef");
    AlphabetRegroups();
    AlphabetWrites();
    KnownPayload("abcdef", Alphabet(), ALPHABET_PAYLOAD, "abcdef" + "1" + Chars(Alphabet()), BECH32);
  }

  lemma AbcdefIsProper(hrp: string)
    requires hrp == "abcdef"
    ensures ProperHrp(hrp)
  {
  }

  lemma AlphabetWrites()
    ensures Chars(Alphabet()) == "qpzry9x8gf2tvdw0s3jn54khce6mua7l" + "mqqqxw"
  {
    assert Chars(Alphabet())[..32] == CHARSET;
    LastSix(Alphabet()[32..]);
    assert Chars(Alphabet())[32..] == Chars(Alphabet()[32..]);
    assert Chars(Alphabet()) == Chars(Alphabet())[..32] + Chars(Alphabet())[32..];
  }

  lemma LastSix(data: seq<Symbol>)
    requires data == [27, 0, 0, 0, 6, 14]
    ensures Chars(data) == "mqqqxw"
  {
  }

  /** `abcdef` by its letters, and the data part by its numbers. */
  ghost predicate IsAbcdef(hrp: string) {
    |hrp| == 6 && forall i :: 0 <= i < 6 ==> hrp[i] as int == 97 + i
  }

  ghost predicate IsAlphabet(data: seq<Symbol>) {
    && |data| == 38 && (forall i :: 0 <= i < 32 ==> data[i] == i)
    && data[32] == 27 && data[33] == 0 && data[34] == 0 && data[35] == 0 && data[36] == 6 && data[37] == 14
  }

  lemma AlphabetVerifies(hrp: string)
    requires hrp == "abcdef"
    ensures VerifyChecksum(HrpExpand(hrp) + ToWords(Alphabet()), BECH32)
  {
    assert IsAbcdef(hrp) && IsAlphabet(Alphabet());
    ExpandedVerifies(hrp, Alphabet(), HrpExpand(hrp) + ToWords(Alphabet()));
  }

  lemma ExpandedVerifies(hrp: string, data: seq<Symbol>, values: seq<Word>)
    requires IsAbcdef(hrp) && IsAlphabet(data) && values == HrpExpand(hrp) + ToWords(data)
    ensures VerifyChecksum(values, BECH32)
  {
    AlphabetPrefix(hrp, HrpExpand(hrp));
    SymbolsTo7(HrpExpand(hrp), data, values);
    SymbolsTo12(HrpExpand(hrp), data, values);
    FirstHalf(values);
    SymbolsTo22(HrpExpand(hrp), data, values);
    SymbolsTo32(HrpExpand(hrp), data, values);
    SymbolsTo38(HrpExpand(hrp), data, values);
    SecondHalf(values);
  }

  lemma FirstHalf(values: seq<Word>)
    requires |values| == 51
    requires values[0] == 3 && values[1] == 3 && values[2] == 3 && values[3] == 3 && values[4] == 3
    requires values[5] == 3 && values[6] == 0 && values[7] == 1 && values[8] == 2 && values[9] == 3
    requires values[10] == 4 && values[11] == 5 && values[12] == 6 && values[13] == 0 && values[14] == 1
    requires values[15] == 2 && values[16] == 3 && values[17] == 4 && values[18] == 5 && values[19] == 6
    requires values[20] == 7 && values[21] == 8 && values[22] == 9 && values[23] == 10 && values[24] == 11
    ensures PolymodOf(values[..25]) == 0x2f8ccedd
  {
    assert values[..0] == [];
    AlphabetTo5(values);
    AlphabetTo10(values);
    AlphabetTo15(values);
    AlphabetTo20(values);
    AlphabetTo25(values);
  }

  lemma SecondHalf(values: seq<Word>)
    requires |values| == 51 && PolymodOf(values[..25]) == 0x2f8ccedd
    requires values[25] == 12 && values[26] == 13 && values[27] == 14 && values[28] == 15 && values[29] == 16
    requires values[30] == 17 && values[31] == 18 && values[32] == 19 && values[33] == 20 && values[34] == 21
    requires values[35] == 22 && values[36] == 23 && values[37] == 24 && values[38] == 25 && values[39] == 26
    requires values[40] == 27 && values[41] == 28 && values[42] == 29 && values[43] == 30 && values[44] == 31
    requires values[45] == 27 && values[46] == 0 && values[47] == 0 && values[48] == 0 && values[49] == 6
    requires values[50] == 14
    ensures VerifyChecksum(values, BECH32)
  {
    AlphabetTo30(values);
    AlphabetTo35(values);
    AlphabetTo40(values);
    AlphabetTo45(values);
    AlphabetTo50(values);
    Steps(values, 50, 0x12314323, 0x1);
    assert values[..51] == values;
  }

  lemma AlphabetPrefix(hrp: string, w: seq<Word>)
    requires IsAbcdef(hrp) && w == HrpExpand(hrp)
    ensures |w| == 13 && w[0] == 3 && w[1] == 3 && w[2] == 3 && w[3] == 3 && w[4] == 3 && w[5] == 3
    ensures w[6] == 0 && w[7] == 1 && w[8] == 2 && w[9] == 3 && w[10] == 4 && w[11] == 5 && w[12] == 6
  {
    FirstLetters(hrp, w);
    LastLetters(hrp, w);
  }

  lemma FirstLetters(hrp: string, w: seq<Word>)
    requires IsAbcdef(hrp) && w == HrpExpand(hrp)
    ensures |w| == 13 && w[0] == 3 && w[1] == 3 && w[2] == 3 && w[6] == 0 && w[7] == 1 && w[8] == 2 && w[9] == 3
  {
    Letter(hrp, w, 0, 1);
    Letter(hrp, w, 1, 2);
    Letter(hrp, w, 2, 3);
  }

  lemma LastLetters(hrp: string, w: seq<Word>)
    requires IsAbcdef(hrp) && w == HrpExpand(hrp)
    ensures |w| == 13 && w[3] == 3 && w[4] == 3 && w[5] == 3 && w[10] == 4 && w[11] == 5 && w[12] == 6
  {
    Letter(hrp, w, 3, 4);
    Letter(hrp, w, 4, 5);
    Letter(hrp, w, 5, 6);
  }

  lemma Letter(hrp: string, w: seq<Word>, i: nat, place: nat)
    requires IsAbcdef(hrp) && w == HrpExpand(hrp) && i < 6 && place == i + 1
    ensures |w| == 13 && w[i] == 3 && w[6] == 0 && w[7 + i] == place as bv30
  {
    ExpandsExactly(hrp, i, 3, place);
  }

  /** After the prefix come the symbols. */
  lemma SymbolAt(w: seq<Word>, data: seq<Symbol>, values: seq<Word>, i: nat, symbol: Symbol)
    requires values == w + ToWords(data) && |w| == 13 && i < |data| && data[i] == symbol
    ensures |values| == 13 + |data| && values[13 + i] == symbol as bv30
  {
  }

  lemma SymbolsTo7(w: seq<Word>, data: seq<Symbol>, values: seq<Word>)
    requires IsAlphabet(data) && |w| == 13 && values == w + ToWords(data)
    ensures |values| == 51 && values[13] == 0 && values[14] == 1 && values[15] == 2
    ensures values[16] == 3 && values[17] == 4 && values[18] == 5 && values[19] == 6
  {
    SymbolAt(w, data, values, 0, 0);
    SymbolAt(w, data, values, 1, 1);
    SymbolAt(w, data, values, 2, 2);
    SymbolAt(w, data, values, 3, 3);
    SymbolAt(w, data, values, 4, 4);
    SymbolAt(w, data, values, 5, 5);
    SymbolAt(w, data, values, 6, 6);
  }

  lemma SymbolsTo12(w: seq<Word>, data: seq<Symbol>, values: seq<Word>)
    requires IsAlphabet(data) && |w| == 13 && values == w + ToWords(data)
    ensures |values| == 51 && values[20] == 7 && values[21] == 8
    ensures values[22] == 9 && values[23] == 10 && values[24] == 11
  {
    SymbolAt(w, data, values, 7, 7);
    SymbolAt(w, data, values, 8, 8);
    SymbolAt(w, data, values, 9, 9);
    SymbolAt(w, data, values, 10, 10);
    SymbolAt(w, data, values, 11, 11);
  }

  lemma SymbolsTo22(w: seq<Word>, data: seq<Symbol>, values: seq<Word>)
    requires IsAlphabet(data) && |w| == 13 && values == w + ToWords(data)
    ensures |values| == 51 && values[25] == 12 && values[26] == 13 && values[27] == 14 && values[28] == 15
    ensures values[29] == 16
    ensures values[30] == 17 && values[31] == 18 && values[32] == 19 && values[33] == 20 && values[34] == 21
  {
    SymbolAt(w, data, values, 12, 12);
    SymbolAt(w, data, values, 13, 13);
    SymbolAt(w, data, values, 14, 14);
    SymbolAt(w, data, values, 15, 15);
    SymbolAt(w, data, values, 16, 16);
    SymbolAt(w, data, values, 17, 17);
    SymbolAt(w, data, values, 18, 18);
    SymbolAt(w, data, values, 19, 19);
    SymbolAt(w, data, values, 20, 20);
    SymbolAt(w, data, values, 21, 21);
  }

  lemma SymbolsTo32(w: seq<Word>, data: seq<Symbol>, values: seq<Word>)
    requires IsAlphabet(data) && |w| == 13 && values == w + ToWords(data)
    ensures |values| == 51 && values[35] == 22 && values[36] == 23 && values[37] == 24 && values[38] == 25
    ensures values[39] == 26
    ensures values[40] == 27 && values[41] == 28 && values[42] == 29 && values[43] == 30 && values[44] == 31
  {
    SymbolAt(w, data, values, 22, 22);
    SymbolAt(w, data, values, 23, 23);
    SymbolAt(w, data, values, 24, 24);
    SymbolAt(w, data, values, 25, 25);
    SymbolAt(w, data, values, 26, 26);
    SymbolAt(w, data, values, 27, 27);
    SymbolAt(w, data, values, 28, 28);
    SymbolAt(w, data, values, 29, 29);
    SymbolAt(w, data, values, 30, 30);
    SymbolAt(w, data, values, 31, 31);
  }

  lemma SymbolsTo38(w: seq<Word>, data: seq<Symbol>, values: seq<Word>)
    requires IsAlphabet(data) && |w| == 13 && values == w + ToWords(data)
    ensures |values| == 51 && values[45] == 27 && values[46] == 0 && values[47] == 0
    ensures values[48] == 0 && values[49] == 6 && values[50] == 14
  {
    SymbolAt(w, data, values, 32, 27);
    SymbolAt(w, data, values, 33, 0);
    SymbolAt(w, data, values, 34, 0);
    SymbolAt(w, data, values, 35, 0);
    SymbolAt(w, data, values, 36, 6);
    SymbolAt(w, data, values, 37, 14);
  }

  /** Eight symbols and five bytes of one number have the same bits. */
  lemma BlockRegroups(s: seq<nat>, b: seq<nat>)
    requires |s| == 8 && |b| == 5 && InRange(s, 5) && InRange(b, 8)
    requires 32 * (32 * (32 * (32 * (32 * (32 * (32 * s[0] + s[1]) + s[2]) + s[3]) + s[4]) + s[5]) + s[6]) + s[7] ==
             256 * (256 * (256 * (256 * b[0] + b[1]) + b[2]) + b[3]) + b[4]
    ensures BitString(s, 5) == BitString(b, 8)
  {
    PowSmall();
    ValueOfEight(s);
    ValueOfFive(b);
    SameNumberSameBits(s, 5, b, 8);
  }

  lemma ValueOfFour(s: seq<nat>, base: nat)
    requires |s| == 4
    ensures ValueOf(s, base) == base * (base * (base * s[0] + s[1]) + s[2]) + s[3]
  {
    assert s[..0] == [] && s[..1] == s[..0] + [s[0]] && s[..2] == s[..1] + [s[1]];
    assert s[..3] == s[..2] + [s[2]] && s == s[..3] + [s[3]];
    ValueNext(s[..0], s[0], base);
    ValueNext(s[..1], s[1], base);
    ValueNext(s[..2], s[2], base);
    ValueNext(s[..3], s[3], base);
  }

  lemma ValueOfFive(b: seq<nat>)
    requires |b| == 5
    ensures ValueOf(b, 256) == 256 * (256 * (256 * (256 * b[0] + b[1]) + b[2]) + b[3]) + b[4]
  {
    ValueOfFour(b[..4], 256);
    ValueNext(b[..4], b[4], 256);
    assert b == b[..4] + [b[4]];
  }

  lemma ValueOfEight(s: seq<nat>)
    requires |s| == 8
    ensures ValueOf(s, 32) ==
            32 * (32 * (32 * (32 * (32 * (32 * (32 * s[0] + s[1]) + s[2]) + s[3]) + s[4]) + s[5]) + s[6]) + s[7]
  {
    ValueOfFour(s[..4], 32);
    ValueNext(s[..4], s[4], 32);
    ValueNext(s[..5], s[5], 32);
    ValueNext(s[..6], s[6], 32);
    ValueNext(s[..7], s[7], 32);
    assert s[..5] == s[..4] + [s[4]] && s[..6] == s[..5] + [s[5]];
    assert s[..7] == s[..6] + [s[6]] && s == s[..7] + [s[7]];
  }

  lemma AlphabetRegroups()
    ensures ConvertBits(Alphabet()[..32], 5, 8, false) == Some(ALPHABET_PAYLOAD)
  {
    PowSmall();
    var data := Alphabet()[..32];
    AlphabetBits(data, ALPHABET_PAYLOAD);
    RegroupsWhole(data, 5, 8, ALPHABET_PAYLOAD);
  }

  /** Eight symbols in order. */
  ghost predicate IsRun(s: seq<nat>, from: nat) {
    |s| == 8 && forall i :: 0 <= i < 8 ==> s[i] == from + i
  }

  lemma RunOf(data: seq<nat>, from: nat)
    requires |data| == 32 && from <= 24 && forall i :: 0 <= i < 32 ==> data[i] == i
    ensures IsRun(data[from..from + 8], from)
  {
  }

  lemma FirstBlock(s: seq<nat>, b: seq<nat>)
    requires IsRun(s, 0)
    requires b == [0x00, 0x44, 0x32, 0x14, 0xC7]
    ensures BitString(s, 5) == BitString(b, 8)
  {
    PowSmall();
    BlockRegroups(s, b);
  }

  lemma SecondBlock(s: seq<nat>, b: seq<nat>)
    requires IsRun(s, 8)
    requires b == [0x42, 0x54, 0xB6, 0x35, 0xCF]
    ensures BitString(s, 5) == BitString(b, 8)
  {
    PowSmall();
    BlockRegroups(s, b);
  }

  lemma ThirdBlock(s: seq<nat>, b: seq<nat>)
    requires IsRun(s, 16)
    requires b == [0x84, 0x65, 0x3A, 0x56, 0xD7]
    ensures BitString(s, 5) == BitString(b, 8)
  {
    PowSmall();
    BlockRegroups(s, b);
  }

  lemma LastBlock(s: seq<nat>, b: seq<nat>)
    requires IsRun(s, 24)
    requires b == [0xC6, 0x75, 0xBE, 0x77, 0xDF]
    ensures BitString(s, 5) == BitString(b, 8)
  {
    PowSmall();
    BlockRegroups(s, b);
  }

  lemma AlphabetBits(data: seq<nat>, payload: seq<nat>)
    requires data == Alphabet()[..32] && payload == ALPHABET_PAYLOAD
    ensures BitString(data, 5) == BitString(payload, 8)
  {
    BlocksAre(data, [0x00, 0x44, 0x32, 0x14, 0xC7], [0x42, 0x54, 0xB6, 0x35, 0xCF],
              [0x84, 0x65, 0x3A, 0x56, 0xD7], [0xC6, 0x75, 0xBE, 0x77, 0xDF]);
  }

  lemma BlocksAre(data: seq<nat>, p: seq<nat>, q: seq<nat>, r: seq<nat>, t: seq<nat>)
    requires |data| == 32 && forall i :: 0 <= i < 32 ==> data[i] == i
    requires p == [0x00, 0x44, 0x32, 0x14, 0xC7] && q == [0x42, 0x54, 0xB6, 0x35, 0xCF]
    requires r == [0x84, 0x65, 0x3A, 0x56, 0xD7] && t == [0xC6, 0x75, 0xBE, 0x77, 0xDF]
    ensures BitString(data, 5) == BitString(p + q + r + t, 8)
  {
    CutInFour(data);
    RunOf(data, 0);
    RunOf(data, 8);
    RunOf(data, 16);
    RunOf(data, 24);
    FirstBlock(data[0..8], p);
    SecondBlock(data[8..16], q);
    ThirdBlock(data[16..24], r);
    LastBlock(data[24..32], t);
    FourBlocks(data[0..8], data[8..16], data[16..24], data[24..32], 5);
    FourBlocks(p, q, r, t, 8);
  }

  lemma CutInFour(data: seq<nat>)
    requires |data| == 32
    ensures data == data[0..8] + data[8..16] + data[16..24] + data[24..32]
  {
  }

  lemma FourBlocks(a: seq<nat>, b: seq<nat>, c: seq<nat>, d: seq<nat>, width: nat)
    ensures BitString(a + b + c + d, width) ==
            BitString(a, width) + BitString(b, width) + BitString(c, width) + BitString(d, width)
  {
    BitStringJoin(a, b, width);
    BitStringJoin(a + b, c, width);
    BitStringJoin(a + b + c, d, width);
  }
}
