/** `cw1`: a script-path spend as a bech32m string. */
module Cw1Frame {
  import opened Prelude
  import opened Text
  import Bech32
  import Checksum

  const MAX_CW1_CHARS: nat := 8192
  const MAX_CW1_ITEM: nat := 0xFFFF
  const HRP: string := "cw"

  /** The claimed time, the leaf, its control block, and the witness it consumes. */
  datatype Cw1 = Cw1(locktime: int, sequence: int, script: Bytes, controlBlock: Bytes, stack: seq<Bytes>)

  datatype Cw1Error = NotU32 | ItemTooLong | StringTooLong

  predicate ItemsFit(items: seq<Bytes>) {
    forall i :: 0 <= i < |items| ==> |items[i]| <= MAX_CW1_ITEM
  }

  function Items(spend: Cw1): seq<Bytes> {
    [spend.script, spend.controlBlock] + spend.stack
  }

  /** Each item behind its length in two bytes. */
  function Frame(items: seq<Bytes>): Bytes
    requires ItemsFit(items)
  {
    if items == [] then [] else BE16(|items[0]|) + items[0] + Frame(items[1..])
  }

  function Header(locktime: u32, sequence: u32): (b: Bytes)
    ensures |b| == 8
  {
    BE32(locktime) + BE32(sequence)
  }

  /**
   The payload of a spend byte by byte: the two times, most significant byte first, then the leaf and the control block
   behind their lengths, then the witness items alike.
   */
  lemma PayloadLayout(spend: Cw1)
    requires IsU32(spend.locktime) && IsU32(spend.sequence) && ItemsFit(Items(spend))
    ensures ItemsFit(spend.stack)
    ensures var p, n, m := Header(spend.locktime, spend.sequence) + Frame(Items(spend)), |spend.script|,
              |spend.controlBlock|;
      && |p| >= 12 + n + m && FromBE(p[..4]) == spend.locktime && FromBE(p[4..8]) == spend.sequence
      && FromBE(p[8..10]) == n && p[10..10 + n] == spend.script
      && FromBE(p[10 + n..12 + n]) == m && p[12 + n..12 + n + m] == spend.controlBlock
      && p[12 + n + m..] == Frame(spend.stack)
  {
    StackFits(spend);
    var head, items := Header(spend.locktime, spend.sequence), Items(spend);
    var n, m := |spend.script|, |spend.controlBlock|;
    HeaderReads(spend.locktime, spend.sequence);
    FrameParts(spend);
    var last := BE16(m) + spend.controlBlock + Frame(spend.stack);
    PieceReads(head, spend.script, last);
    PieceReads(head + (BE16(n) + spend.script), spend.controlBlock, Frame(spend.stack));
    Associates(head, BE16(n) + spend.script, last);
    var p := head + Frame(items);
    assert p[..4] == head[..4] && p[4..8] == head[4..];
  }

  lemma StackFits(spend: Cw1)
    requires ItemsFit(Items(spend))
    ensures ItemsFit(spend.stack) && |spend.script| <= MAX_CW1_ITEM && |spend.controlBlock| <= MAX_CW1_ITEM
  {
    var items := Items(spend);
    assert |items[0]| <= MAX_CW1_ITEM && |items[1]| <= MAX_CW1_ITEM;
    forall i | 0 <= i < |spend.stack| ensures |spend.stack[i]| <= MAX_CW1_ITEM {
      assert spend.stack[i] == items[i + 2];
    }
  }

  lemma FrameParts(spend: Cw1)
    requires ItemsFit(Items(spend)) && ItemsFit(spend.stack)
    requires |spend.script| <= MAX_CW1_ITEM && |spend.controlBlock| <= MAX_CW1_ITEM
    ensures Frame(Items(spend)) ==
            BE16(|spend.script|) + spend.script + (BE16(|spend.controlBlock|) + spend.controlBlock + Frame(spend.stack))
  {
    var rest := [spend.controlBlock] + spend.stack;
    assert Items(spend)[1..] == rest && rest[1..] == spend.stack;
  }

  lemma HeaderReads(locktime: u32, sequence: u32)
    ensures FromBE(Header(locktime, sequence)[..4]) == locktime && FromBE(Header(locktime, sequence)[4..]) == sequence
  {
    PowBytes();
    FromToBE(locktime, 4);
    FromToBE(sequence, 4);
    assert Header(locktime, sequence)[..4] == BE32(locktime) && Header(locktime, sequence)[4..] == BE32(sequence);
  }

  lemma PieceReads(head: Bytes, item: Bytes, tail: Bytes)
    requires |item| <= MAX_CW1_ITEM
    ensures var p, at := head + (BE16(|item|) + item + tail), |head|;
      && |p| >= at + 2 + |item| && FromBE(p[at..at + 2]) == |item|
      && p[at + 2..at + 2 + |item|] == item && p[at + 2 + |item|..] == tail
  {
    PowBytes();
    FromToBE(|item|, 2);
    PieceAt(head, BE16(|item|), item, tail);
  }

  lemma PieceAt(head: Bytes, length: Bytes, item: Bytes, tail: Bytes)
    requires |length| == 2
    ensures var p, at := head + (length + item + tail), |head|;
      && |p| >= at + 2 + |item| && p[at..at + 2] == length
      && p[at + 2..at + 2 + |item|] == item && p[at + 2 + |item|..] == tail
  {
  }

  /** What fits: items of at most 65535 bytes, and a string of at most 8192 characters. */
  lemma EncodesExactly(spend: Cw1)
    ensures EncodeCw1(spend) == Err(NotU32) <==> !IsU32(spend.locktime) || !IsU32(spend.sequence)
    ensures EncodeCw1(spend) == Err(ItemTooLong) <==>
            && IsU32(spend.locktime) && IsU32(spend.sequence)
            && exists i :: 0 <= i < |Items(spend)| && |Items(spend)[i]| > 65535
    ensures EncodeCw1(spend).Ok? ==> |EncodeCw1(spend).value| <= 8192
  {
  }

  function EncodeCw1(spend: Cw1): Result<string, Cw1Error> {
    if !IsU32(spend.locktime) || !IsU32(spend.sequence) then Err(NotU32)
    else if !ItemsFit(Items(spend)) then Err(ItemTooLong)
    else
      var payload := Header(spend.locktime, spend.sequence) + Frame(Items(spend));
      match Bech32.Encode(HRP, payload, MAX_CW1_CHARS, Checksum.BECH32M)
      case Ok(s) => Ok(s)
      case Err(_) => Err(StringTooLong)
  }

  /** The checks and the loop that build a payload item by item. */
  method BuildFrame(spend: Cw1) returns (r: Result<Bytes, Cw1Error>)
    ensures r == Err(NotU32) <==> !IsU32(spend.locktime) || !IsU32(spend.sequence)
    ensures IsU32(spend.locktime) && IsU32(spend.sequence) ==>
              r == if ItemsFit(Items(spend)) then Ok(Header(spend.locktime, spend.sequence) + Frame(Items(spend)))
                   else Err(ItemTooLong)
  {
    if !(0 <= spend.locktime <= 0xFFFF_FFFF && 0 <= spend.sequence <= 0xFFFF_FFFF) {
      return Err(NotU32);
    }
    var payload := Header(spend.locktime, spend.sequence);
    ghost var header := payload;
    var items := Items(spend);
    for k := 0 to |items|
      invariant ItemsFit(items[..k]) && payload == header + Frame(items[..k])
    {
      if |items[k]| > MAX_CW1_ITEM {
        return Err(ItemTooLong);
      }
      FrameAppend(items[..k], items[k]);
      assert items[..k + 1] == items[..k] + [items[k]];
      payload := payload + (BE16(|items[k]|) + items[k]);
    }
    assert items[..|items|] == items;
    return Ok(payload);
  }

  lemma {:induction false} FrameAppend(items: seq<Bytes>, item: Bytes)
    requires ItemsFit(items) && |item| <= MAX_CW1_ITEM
    ensures ItemsFit(items + [item]) && Frame(items + [item]) == Frame(items) + (BE16(|item|) + item)
  {
    if items == [] {
      assert Frame([item][1..]) == [];
      assert items + [item] == [item];
    } else {
      FrameAppend(items[1..], item);
      assert (items + [item])[1..] == items[1..] + [item];
      Associates(BE16(|items[0]|) + items[0], Frame(items[1..]), BE16(|item|) + item);
    }
  }

  /** The items of a frame that its length prefixes consume exactly. */
  function ParseItems(b: Bytes): (r: Option<seq<Bytes>>)
    ensures r.Some? ==> ItemsFit(r.value)
  {
    if b == [] then Some([])
    else if |b| < 2 then None
    else
      PowBytes();
      var length := FromBE(b[..2]);
      if 2 + length > |b| then None
      else
        Prepended([b[2..2 + length]], ParseItems(b[2 + length..]))
  }

  function ParsePayload(payload: Bytes): (r: Option<Cw1>)
    ensures r.Some? ==> |r.value.script| <= MAX_CW1_ITEM
  {
    if |payload| < 8 then None
    else
      match ParseItems(payload[8..])
      case None => None
      case Some(items) =>
        if |items| < 2 then None
        else Some(Cw1(FromBE(payload[..4]), FromBE(payload[4..8]), items[0], items[1], items[2..]))
  }

  function DecodeCw1(value: string): (r: Option<Cw1>)
    ensures r.Some? ==> |r.value.script| <= MAX_CW1_ITEM
  {
    match Bech32.Decode(Strip(value), MAX_CW1_CHARS, Checksum.BECH32M)
    case None => None
    case Some(decoded) => if decoded.hrp != HRP then None else ParsePayload(decoded.payload)
  }

  /** The loop that reads a payload's items with an index. */
  method ReadItems(payload: Bytes) returns (r: Option<seq<Bytes>>)
    requires |payload| >= 8
    ensures r == ParseItems(payload[8..])
  {
    var items: seq<Bytes> := [];
    var i := 8;
    while i < |payload|
      invariant 8 <= i <= |payload|
      invariant Prepended([], ParseItems(payload[8..])) == Prepended(items, ParseItems(payload[i..]))
    {
      ghost var rest := payload[i..];
      if i + 2 > |payload| {
        return None;
      }
      assert payload[i..i + 2] == rest[..2];
      var length := FromBE(payload[i..i + 2]);
      i := i + 2;
      if i + length > |payload| {
        return None;
      }
      assert payload[i..i + length] == rest[2..2 + length] && payload[i + length..] == rest[2 + length..];
      PrependedOne(items, payload[i..i + length], ParseItems(payload[i + length..]));
      items := items + [payload[i..i + length]];
      i := i + length;
    }
    assert payload[i..] == [] && items + [] == items;
    PrependedNone(ParseItems(payload[8..]));
    return Some(items);
  }

  lemma PrependedNone(rest: Option<seq<Bytes>>)
    ensures Prepended([], rest) == rest
  {
    if rest.Some? {
      assert [] + rest.value == rest.value;
    }
  }

  lemma PrependedOne(items: seq<Bytes>, item: Bytes, rest: Option<seq<Bytes>>)
    ensures Prepended(items, Prepended([item], rest)) == Prepended(items + [item], rest)
  {
    if rest.Some? {
      assert items + ([item] + rest.value) == items + [item] + rest.value;
    }
  }

  function Prepended(items: seq<Bytes>, rest: Option<seq<Bytes>>): Option<seq<Bytes>> {
    if rest.None? then None else Some(items + rest.value)
  }

  // ---- the two are inverse ----

  lemma {:induction false} ParseOfFrame(items: seq<Bytes>)
    requires ItemsFit(items)
    ensures ParseItems(Frame(items)) == Some(items)
  {
    if items != [] {
      var b, length := Frame(items), |items[0]|;
      PowBytes();
      FromToBE(length, 2);
      assert b[..2] == BE16(length);
      assert b[2..2 + length] == items[0];
      assert b[2 + length..] == Frame(items[1..]);
      ParseOfFrame(items[1..]);
      assert items == [items[0]] + items[1..];
    }
  }

  lemma {:induction false} FrameOfParse(b: Bytes)
    requires ParseItems(b).Some?
    ensures ItemsFit(ParseItems(b).value) && Frame(ParseItems(b).value) == b
    decreases |b|
  {
    if b != [] {
      FrameHead(b);
      var length := FromBE(b[..2]);
      var rest := b[2 + length..];
      FrameOfParse(rest);
      var items := ParseItems(b).value;
      assert items[0] == b[2..2 + length] && items[1..] == ParseItems(rest).value;
    }
  }

  lemma FrameHead(b: Bytes)
    requires |b| >= 2 && 2 + FromBE(b[..2]) <= |b|
    ensures FromBE(b[..2]) <= MAX_CW1_ITEM
    ensures var length := FromBE(b[..2]);
      BE16(length) + b[2..2 + length] + b[2 + length..] == b
  {
    PowBytes();
    var length := FromBE(b[..2]);
    ToFromBE(b[..2]);
    assert BE16(length) == b[..2];
  }

  lemma PayloadOfSpend(spend: Cw1)
    requires IsU32(spend.locktime) && IsU32(spend.sequence) && ItemsFit(Items(spend))
    ensures ParsePayload(Header(spend.locktime, spend.sequence) + Frame(Items(spend))) == Some(spend)
  {
    var payload := Header(spend.locktime, spend.sequence) + Frame(Items(spend));
    PowBytes();
    FromToBE(spend.locktime, 4);
    FromToBE(spend.sequence, 4);
    assert payload[..4] == BE32(spend.locktime) && payload[4..8] == BE32(spend.sequence);
    assert payload[8..] == Frame(Items(spend));
    ParseOfFrame(Items(spend));
    assert Items(spend)[2..] == spend.stack;
  }

  lemma SpendOfPayload(payload: Bytes, spend: Cw1)
    requires ParsePayload(payload) == Some(spend)
    ensures IsU32(spend.locktime) && IsU32(spend.sequence) && ItemsFit(Items(spend))
    ensures Header(spend.locktime, spend.sequence) + Frame(Items(spend)) == payload
  {
    PowBytes();
    FrameOfParse(payload[8..]);
    var items := ParseItems(payload[8..]).value;
    assert items == [items[0], items[1]] + items[2..];
    ToFromBE(payload[..4]);
    ToFromBE(payload[4..8]);
    assert payload == payload[..4] + payload[4..8] + payload[8..];
  }

  lemma DecodedEncodes(value: string, spend: Cw1)
    requires DecodeCw1(value) == Some(spend)
    ensures Bech32.OneCase(Strip(value)) && EncodeCw1(spend) == Ok(Lower(Strip(value)))
  {
    var s := Strip(value);
    var payload := Bech32.Decode(s, MAX_CW1_CHARS, Checksum.BECH32M).value.payload;
    Bech32.DecodeExact(s, HRP, payload, MAX_CW1_CHARS, Checksum.BECH32M);
    SpendOfPayload(payload, spend);
  }

  lemma HrpIsProper()
    ensures Bech32.ProperHrp(HRP)
  {
    assert Lower(HRP) == HRP;
  }

  lemma EncodingIsBech32(spend: Cw1, s: string)
    requires EncodeCw1(spend) == Ok(s)
    ensures IsU32(spend.locktime) && IsU32(spend.sequence) && ItemsFit(Items(spend))
    ensures var payload := Header(spend.locktime, spend.sequence) + Frame(Items(spend));
      Bech32.Encode(HRP, payload, MAX_CW1_CHARS, Checksum.BECH32M) == Ok(s)
  {
  }

  lemma DecodesFrom(s: string, payload: Bytes)
    requires Bech32.OneCase(s) && Bech32.Encode(HRP, payload, MAX_CW1_CHARS, Checksum.BECH32M) == Ok(Lower(s))
    ensures Bech32.Decode(s, MAX_CW1_CHARS, Checksum.BECH32M) == Some(Bech32.Decoded(HRP, payload))
  {
    HrpIsProper();
    Bech32.EncodedDecodes(s, HRP, payload, MAX_CW1_CHARS, Checksum.BECH32M);
  }

  lemma DecodingIsBech32(value: string, payload: Bytes)
    requires Bech32.Decode(Strip(value), MAX_CW1_CHARS, Checksum.BECH32M) == Some(Bech32.Decoded(HRP, payload))
    ensures DecodeCw1(value) == ParsePayload(payload)
  {
  }

  lemma EncodedDecodes(value: string, spend: Cw1)
    requires Bech32.OneCase(Strip(value)) && EncodeCw1(spend) == Ok(Lower(Strip(value)))
    ensures DecodeCw1(value) == Some(spend)
  {
    EncodingIsBech32(spend, Lower(Strip(value)));
    var payload := Header(spend.locktime, spend.sequence) + Frame(Items(spend));
    DecodesFrom(Strip(value), payload);
    DecodingIsBech32(value, payload);
    PayloadOfSpend(spend);
  }

  /**
   Decoding a `cw1` is exactly the inverse of encoding one: a string decodes to a spend if and only if, stripped and in
   one case, it is that spend's encoding.
   */
  lemma Cw1Exact(value: string, spend: Cw1)
    ensures DecodeCw1(value) == Some(spend) <==>
            Bech32.OneCase(Strip(value)) && EncodeCw1(spend) == Ok(Lower(Strip(value)))
  {
    if DecodeCw1(value) == Some(spend) {
      DecodedEncodes(value, spend);
    }
    if Bech32.OneCase(Strip(value)) && EncodeCw1(spend) == Ok(Lower(Strip(value))) {
      EncodedDecodes(value, spend);
    }
  }

  /** Every spend that encodes decodes back to itself. */
  lemma Cw1RoundTrip(spend: Cw1)
    requires EncodeCw1(spend).Ok?
    ensures DecodeCw1(EncodeCw1(spend).value) == Some(spend)
  {
    HrpIsProper();
    var payload := Header(spend.locktime, spend.sequence) + Frame(Items(spend));
    Bech32.EncodingIsLower(HRP, payload, Checksum.BECH32M);
    Bech32.EncodingIsTrimmed(HRP, payload, Checksum.BECH32M);
    Cw1Exact(EncodeCw1(spend).value, spend);
  }
}
