/** Reading and checking what a redeemer puts in `k1`: a ck1, a cw1, or a bearer note's hex preimage. */
module Spends {
  import opened Prelude
  import opened Text
  import opened Primitives
  import opened Taproot
  import opened Certificates
  import opened Cw1Frame
  import Bech32
  import Checksum
  import LeafPolicy
  import Sighash

  /** The hash, the curve, and the two signature schemes built on them. */
  datatype Crypto = Crypto(
    sha256: Hash,
    curve: Curve,
    schnorr: (Bytes32, Bytes, Bytes) -> bool,
    recover: (Bytes, Bytes32) -> Option<Bytes>)

  const MAX_STACK_ELEMENT: nat := 520

  /** A value, `None`, or the one exception these functions let through: a bearer note whose tweak is out of range. */
  datatype Outcome<+T> = Returned(value: Option<T>) | Raised

  datatype SpendKind = KeyPath | ScriptPath | RecoveredKey

  datatype Spend = Spend(kind: SpendKind, outputKey: Bytes32, signature: Option<Bytes>, scriptPath: Option<Cw1>)

  datatype VerifiedSpend = VerifiedSpend(outputKey: Bytes32, legacy: bool, unevaluated: bool)

  /** `is_preimage`: 32 bytes of hex, whitespace around it allowed. */
  predicate IsPreimage(value: string) {
    |Strip(value)| == 64 && IsHex(Strip(value))
  }

  function SecretOf(value: string): (b: Bytes32)
    requires IsPreimage(value)
  {
    FromHex(Strip(value))
  }

  /** `decode_ck1`: the current 96-byte form, or the 65-byte one it replaced. */
  function DecodeCk1(value: string): (r: Option<Bytes>)
    ensures r.Some? ==> |r.value| == 96 || |r.value| == 65
  {
    var current := DecodeFixed("ck", value, 96);
    if current.Some? then current else DecodeFixed("ck", value, 65)
  }

  /** `encode_ck1`. */
  function EncodeCk1(payload: Bytes): Result<string, EncodeError> {
    EncodeFixed("ck", payload, 96)
  }

  // The fixed messages older ck1s were signed over.

  const OWNERSHIP: Bytes := Ascii("LNURLcash")

  function LegacyOwnershipDigest(H: Hash): Bytes32 {
    H(H(Ascii("Lightning Signed Message:") + OWNERSHIP))
  }

  /** The x-only key a 65-byte ck1 recovers to. */
  function RecoverLegacyCk1(w: Crypto, payload: Bytes): Option<Bytes32> {
    match w.recover(payload, LegacyOwnershipDigest(w.sha256))
    case None => None
    case Some(key) => if |key| == 33 then Some(key[1..]) else None
  }

  /** The script-path spend a bearer preimage is short for. */
  function BearerSpend(note: BearerNote, secret: Bytes32): Cw1 {
    Cw1(Sighash.KEY_PATH_LOCKTIME, Sighash.KEY_PATH_SEQUENCE, note.leaf, note.controlBlock, [secret])
  }

  /** What a bearer note's preimage decodes to. */
  function BearerRead(note: BearerNote, secret: Bytes32): Spend {
    Spend(ScriptPath, note.outputKey, None, Some(BearerSpend(note, secret)))
  }

  /** `decode_spend`. */
  ghost function DecodeSpend(w: Crypto, k1: string): Outcome<Spend> {
    var value := Strip(k1);
    if IsPreimage(value) then DecodePreimage(w, SecretOf(value)) else DecodeLongForm(w, value)
  }

  ghost function DecodePreimage(w: Crypto, secret: Bytes32): Outcome<Spend> {
    match BearerNoteOf(w.sha256, w.curve, w.sha256(secret))
    case None => Raised
    case Some(note) => Returned(Some(BearerRead(note, secret)))
  }

  ghost function DecodeLongForm(w: Crypto, value: string): Outcome<Spend> {
    match DecodeCk1(value)
    case Some(payload) => Returned(DecodeKeySpend(w, payload))
    case None =>
      match DecodeCw1(value)
      case Some(script) => Returned(DecodeScriptSpend(w, script))
      case None => Returned(None)
  }

  function DecodeKeySpend(w: Crypto, payload: Bytes): Option<Spend>
    requires |payload| == 96 || |payload| == 65
  {
    if |payload| == 65 then
      match RecoverLegacyCk1(w, payload)
      case Some(key) => Some(Spend(RecoveredKey, key, None, None))
      case None => None
    else Some(Spend(KeyPath, payload[..32], Some(payload[32..]), None))
  }

  ghost function DecodeScriptSpend(w: Crypto, script: Cw1): Option<Spend>
    requires |script.script| <= MAX_CW1_ITEM
  {
    match OutputKeyOf(w.sha256, w.curve, script.script, script.controlBlock)
    case Some(q) => Some(Spend(ScriptPath, q, None, Some(script)))
    case None => None
  }

  /**
   Whether a 96-byte ck1's signature verifies, and over which message. `domain` is `None` where none could be read.
   */
  ghost function VerifyKeySpend(w: Crypto, q: Bytes32, signature: Bytes, domain: Option<Bytes>): Option<VerifiedSpend> {
    if LiftX(w.curve, q).None? then None
    else if domain.Some? && w.schnorr(q, signature, Sighash.KeyPathSighash(w.sha256, q, domain.value)) then
      Some(VerifiedSpend(q, false, false))
    else if w.schnorr(q, signature, w.sha256(OWNERSHIP)) || w.schnorr(q, signature, OWNERSHIP) then
      Some(VerifiedSpend(q, true, false))
    else None
  }

  /** The leaf rules, then the one leaf that is evaluated here: a bearer hashlock. */
  function VerifyScriptSpend(w: Crypto, q: Bytes32, script: Cw1): Option<VerifiedSpend>
    requires script.controlBlock != []
  {
    var version := script.controlBlock[0] - script.controlBlock[0] % 2;
    if LeafPolicy.PolicyOf(version, script.script) != LeafPolicy.Allowed then None
    else
      match BearerHashOfLeaf(script.script)
      case None => Some(VerifiedSpend(q, false, true))
      case Some(h) =>
        if |script.stack| != 1 || |script.stack[0]| > MAX_STACK_ELEMENT then None
        else if w.sha256(script.stack[0]) != h then None
        else Some(VerifiedSpend(q, false, false))
  }

  /** `verify_spend`. */
  ghost function VerifySpend(w: Crypto, k1: string, domain: Option<Bytes>): Outcome<VerifiedSpend> {
    VerifyRead(w, DecodeSpend(w, k1), domain)
  }

  ghost function VerifyRead(w: Crypto, decoded: Outcome<Spend>, domain: Option<Bytes>): Outcome<VerifiedSpend> {
    match decoded
    case Raised => Raised
    case Returned(None) => Returned(None)
    case Returned(Some(spend)) => Returned(VerifyDecoded(w, spend, domain))
  }

  ghost function VerifyDecoded(w: Crypto, spend: Spend, domain: Option<Bytes>): Option<VerifiedSpend> {
    match spend.kind
    case RecoveredKey => Some(VerifiedSpend(spend.outputKey, true, false))
    case KeyPath =>
      VerifyKeySpend(w, spend.outputKey, if spend.signature.Some? then spend.signature.value else [], domain)
    case ScriptPath =>
      if spend.scriptPath.None? || spend.scriptPath.value.controlBlock == [] then None
      else VerifyScriptSpend(w, spend.outputKey, spend.scriptPath.value)
  }

  datatype LongFormError = NotAPreimage | TweakOutOfRange | DoesNotEncode

  /** `bearer_cw1`. */
  ghost function BearerCw1(w: Crypto, preimage: string): Result<string, LongFormError> {
    if !IsPreimage(preimage) then Err(NotAPreimage)
    else
      var secret := SecretOf(preimage);
      match BearerNoteOf(w.sha256, w.curve, w.sha256(secret))
      case None => Err(TweakOutOfRange)
      case Some(note) =>
        match EncodeCw1(BearerSpend(note, secret))
        case Ok(s) => Ok(s)
        case Err(_) => Err(DoesNotEncode)
  }

  // ---- the shapes never overlap ----

  /** What decodes under a two-letter prefix starts with those letters. */
  lemma PrefixShows(value: string, hrp: string, payload: Bytes, limit: nat)
    requires Bech32.Decode(value, limit, Checksum.BECH32M) == Some(Bech32.Decoded(hrp, payload)) && |hrp| == 2
    ensures |value| >= 2 && LowerChar(value[1]) == hrp[1]
  {
    Bech32.DecodedEncodes(value, limit, Checksum.BECH32M);
    var s := Bech32.EncodeString(hrp, payload, Checksum.BECH32M);
    assert Lower(value) == s && s[1] == hrp[1];
  }

  /** The second letter of a value, whitespace stripped, in lower case: enough to tell the shapes apart. */
  function SecondLetter(value: string): Option<char> {
    if |Strip(value)| >= 2 then Some(LowerChar(Strip(value)[1])) else None
  }

  lemma DecodedShows(value: string, hrp: string, letter: char, limit: nat)
    requires |hrp| == 2 && hrp[1] == letter
    requires Bech32.Decode(Strip(value), limit, Checksum.BECH32M).Some?
    requires Bech32.Decode(Strip(value), limit, Checksum.BECH32M).value.hrp == hrp
    ensures SecondLetter(value) == Some(letter)
  {
    PrefixShows(Strip(value), hrp, Bech32.Decode(Strip(value), limit, Checksum.BECH32M).value.payload, limit);
  }

  lemma Ck1Shows(value: string)
    requires DecodeCk1(value).Some?
    ensures SecondLetter(value) == Some('k')
  {
    DecodedShows(value, "ck", 'k', Bech32.LIMIT);
  }

  lemma Cw1Shows(value: string)
    requires DecodeCw1(value).Some?
    ensures SecondLetter(value) == Some('w')
  {
    DecodedShows(value, "cw", 'w', MAX_CW1_CHARS);
  }

  lemma PreimageShows(value: string)
    requires IsPreimage(value)
    ensures SecondLetter(value) != Some('k') && SecondLetter(value) != Some('w')
  {
    assert IsHexDigit(Strip(value)[1]);
  }

  /** No value is read as more than one kind of spend, so the order they are tried in decides nothing. */
  lemma ShapesDisjoint(value: string)
    ensures !(IsPreimage(value) && DecodeCk1(value).Some?)
    ensures !(IsPreimage(value) && DecodeCw1(value).Some?)
    ensures !(DecodeCk1(value).Some? && DecodeCw1(value).Some?)
  {
    if DecodeCk1(value).Some? {
      Ck1Shows(value);
    }
    if DecodeCw1(value).Some? {
      Cw1Shows(value);
    }
    if IsPreimage(value) {
      PreimageShows(value);
    }
  }

  // ---- the short form is the long form ----

  /** A payload of n bytes takes no more five-bit groups than hold its bits. */
  lemma GroupsLength(payload: Bytes)
    ensures 5 * |Bech32.Groups(payload)| < 8 * |payload| + 5
  {
    Bech32.GroupsBack(payload);
    Bech32.GroupsBits(payload);
  }

  lemma BearerFrameLength(note: BearerNote, secret: Bytes32)
    requires |note.leaf| == 35 && |note.controlBlock| == 33
    ensures ItemsFit(Items(BearerSpend(note, secret))) && |Frame(Items(BearerSpend(note, secret)))| == 106
  {
    var items := Items(BearerSpend(note, secret));
    var witnessItem: Bytes := secret;
    var last: seq<Bytes> := [witnessItem];
    assert items[1..][1..] == last && last[1..] == [];
    assert |Frame(last)| == 34;
    assert |Frame(items[1..])| == 69;
  }

  /**
   The long form of a bearer note's spend claims no time, is its leaf opened by the preimage alone, and always fits.
   */
  lemma BearerSpendEncodes(note: BearerNote, secret: Bytes32)
    requires |note.leaf| == 35 && |note.controlBlock| == 33
    ensures BearerSpend(note, secret) == Cw1(0, 0xFFFF_FFFF, note.leaf, note.controlBlock, [secret])
    ensures EncodeCw1(BearerSpend(note, secret)).Ok?
  {
    var spend := BearerSpend(note, secret);
    BearerFrameLength(note, secret);
    var payload := Header(spend.locktime, spend.sequence) + Frame(Items(spend));
    GroupsLength(payload);
    Bech32.EncodesWithin(HRP, payload, MAX_CW1_CHARS, Checksum.BECH32M);
  }

  /** A string that reads as a `cw1` decodes as the script-path spend it frames. */
  lemma DecodesAsScript(w: Crypto, s: string, spend: Cw1)
    requires Strip(s) == s && DecodeCw1(s) == Some(spend)
    ensures |spend.script| <= MAX_CW1_ITEM && DecodeSpend(w, s) == Returned(DecodeScriptSpend(w, spend))
  {
    ShapesDisjoint(s);
  }

  lemma EncodedCw1IsTrimmed(spend: Cw1, s: string)
    requires EncodeCw1(spend) == Ok(s)
    ensures Strip(s) == s
  {
    Cw1Frame.EncodingIsBech32(spend, s);
    HrpIsProper();
    Bech32.EncodingIsTrimmed(HRP, Header(spend.locktime, spend.sequence) + Frame(Items(spend)), Checksum.BECH32M);
  }

  lemma DecodesItsPreimage(w: Crypto, p: string)
    requires IsPreimage(p)
    ensures DecodeSpend(w, p) == DecodePreimage(w, SecretOf(p))
  {
    StripIdempotent(p);
  }

  lemma DecodesItsLongForm(w: Crypto, note: BearerNote, secret: Bytes32, s: string)
    requires BearerNoteOf(w.sha256, w.curve, w.sha256(secret)) == Some(note)
    requires EncodeCw1(BearerSpend(note, secret)) == Ok(s)
    ensures DecodeSpend(w, s) == DecodePreimage(w, secret)
  {
    var spend := BearerSpend(note, secret);
    Cw1RoundTrip(spend);
    EncodedCw1IsTrimmed(spend, s);
    DecodesAsScript(w, s, spend);
    BearerNoteOpens(w.sha256, w.curve, w.sha256(secret));
  }

  lemma LongFormOf(w: Crypto, p: string, note: BearerNote)
    requires IsPreimage(p) && BearerNoteOf(w.sha256, w.curve, w.sha256(SecretOf(p))) == Some(note)
    ensures EncodeCw1(BearerSpend(note, SecretOf(p))).Ok?
    ensures BearerCw1(w, p) == Ok(EncodeCw1(BearerSpend(note, SecretOf(p))).value)
  {
    BearerSpendEncodes(note, SecretOf(p));
  }

  lemma LongFormDecodesAlike(w: Crypto, p: string, note: BearerNote)
    requires IsPreimage(p) && BearerNoteOf(w.sha256, w.curve, w.sha256(SecretOf(p))) == Some(note)
    ensures BearerCw1(w, p).Ok? && DecodeSpend(w, BearerCw1(w, p).value) == DecodeSpend(w, p)
  {
    LongFormOf(w, p, note);
    DecodesItsLongForm(w, note, SecretOf(p), BearerCw1(w, p).value);
    DecodesItsPreimage(w, p);
  }

  lemma PreimageVerifies(w: Crypto, p: string, note: BearerNote, domain: Option<Bytes>)
    requires IsPreimage(p) && BearerNoteOf(w.sha256, w.curve, w.sha256(SecretOf(p))) == Some(note)
    ensures VerifySpend(w, p, domain) == Returned(Some(VerifiedSpend(note.outputKey, false, false)))
  {
    DecodesItsPreimage(w, p);
    BearerVerified(w, note, SecretOf(p), domain);
    VerifiesAsDecoded(w, p, domain, BearerRead(note, SecretOf(p)));
  }

  lemma BearerVerified(w: Crypto, note: BearerNote, secret: Bytes32, domain: Option<Bytes>)
    requires BearerNoteOf(w.sha256, w.curve, w.sha256(secret)) == Some(note)
    ensures DecodePreimage(w, secret) == Returned(Some(BearerRead(note, secret)))
    ensures VerifyDecoded(w, BearerRead(note, secret), domain) == Some(VerifiedSpend(note.outputKey, false, false))
  {
    BearerSpendVerifies(w, note, secret);
  }

  lemma VerifiesAsDecoded(w: Crypto, k1: string, domain: Option<Bytes>, spend: Spend)
    requires DecodeSpend(w, k1) == Returned(Some(spend))
    ensures VerifySpend(w, k1, domain) == Returned(VerifyDecoded(w, spend, domain))
  {
  }

  /** Two spellings that decode alike verify alike. */
  lemma VerifiesAlike(w: Crypto, a: string, b: string, domain: Option<Bytes>)
    requires DecodeSpend(w, a) == DecodeSpend(w, b)
    ensures VerifySpend(w, a, domain) == VerifySpend(w, b, domain)
  {
  }

  /**
   The short form and the long form are one spend: a bearer preimage and the `cw1` it is short for decode alike, and
   where the note exists at all both open its key at every domain, neither legacy nor unevaluated.
   */
  lemma ShortFormIsLongForm(w: Crypto, p: string, domain: Option<Bytes>)
    requires IsPreimage(p)
    ensures match BearerNoteOf(w.sha256, w.curve, w.sha256(SecretOf(p)))
      case None => BearerCw1(w, p) == Err(TweakOutOfRange) && DecodeSpend(w, p) == Raised
      case Some(note) =>
        && BearerCw1(w, p).Ok?
        && DecodeSpend(w, BearerCw1(w, p).value) == DecodeSpend(w, p)
        && VerifySpend(w, BearerCw1(w, p).value, domain) == VerifySpend(w, p, domain)
        && VerifySpend(w, p, domain) == Returned(Some(VerifiedSpend(note.outputKey, false, false)))
  {
    match BearerNoteOf(w.sha256, w.curve, w.sha256(SecretOf(p)))
    case None => DecodesItsPreimage(w, p);
    case Some(note) =>
      LongFormDecodesAlike(w, p, note);
      VerifiesAlike(w, BearerCw1(w, p).value, p, domain);
      PreimageVerifies(w, p, note, domain);
  }

  lemma BearerSpendVerifies(w: Crypto, note: BearerNote, secret: Bytes32)
    requires BearerNoteOf(w.sha256, w.curve, w.sha256(secret)) == Some(note)
    ensures VerifyScriptSpend(w, note.outputKey, BearerSpend(note, secret)) ==
            Some(VerifiedSpend(note.outputKey, false, false))
  {
    var h := w.sha256(secret);
    BearerLeafAllowed(h);
    BearerHashExact(note.leaf, h);
  }

  lemma BearerLeafAllowed(h: Bytes32)
    ensures LeafPolicy.PolicyOf(TAPLEAF_VERSION, BearerLeaf(h)) == LeafPolicy.Allowed
  {
    var push := LeafPolicy.Push(0x20, h);
    assert LeafPolicy.Render(push) == [0x20] + h;
    OpAllowed(0x87, []);
    LeafPolicy.JudgeNext(push, [0x87]);
    OpAllowed(0xA8, [0x20] + h + [0x87]);
    assert [0xA8] + ([0x20] + h + [0x87]) == BearerLeaf(h);
  }

  /** A bearer leaf is three operations: hash the witness item, push the hash, compare. */
  lemma BearerLeafIs(h: Bytes32)
    ensures var os := [LeafPolicy.Single(168), LeafPolicy.Push(32, h), LeafPolicy.Single(135)];
      LeafPolicy.ValidOperations(os) && LeafPolicy.RenderAll(os) == BearerLeaf(h)
  {
    var os := [LeafPolicy.Single(168), LeafPolicy.Push(32, h), LeafPolicy.Single(135)];
    assert os[1..][1..] == [os[2]] && os[1..][1..][1..] == [];
    assert LeafPolicy.RenderAll(os[1..][1..]) == [135];
    assert LeafPolicy.RenderAll(os[1..]) == [32] + h + [135];
  }

  lemma OpAllowed(op: byte, rest: Bytes)
    requires op == 0x87 || op == 0xA8
    ensures LeafPolicy.Judge([op] + rest) == LeafPolicy.Judge(rest)
  {
    LeafPolicy.JudgeNext(LeafPolicy.Single(op), rest);
  }

  /** A script path's leaf and control block commit to a key. */
  ghost predicate OpensKey(w: Crypto, script: Cw1, q: Bytes32) {
    && |script.script| <= MAX_CW1_ITEM
    && OutputKeyOf(w.sha256, w.curve, script.script, script.controlBlock) == Some(q)
  }

  /** The leaf rules let a script path's leaf through. */
  predicate LeafAllowed(script: Cw1) {
    && script.controlBlock != []
    && LeafPolicy.PolicyOf(script.controlBlock[0] - script.controlBlock[0] % 2, script.script) == LeafPolicy.Allowed
  }

  /** A script-path spend that decodes opens the key it names. */
  lemma DecodedScriptOpens(w: Crypto, k1: string, spend: Spend)
    requires DecodeSpend(w, k1) == Returned(Some(spend)) && spend.kind == ScriptPath
    ensures spend.scriptPath.Some? && OpensKey(w, spend.scriptPath.value, spend.outputKey)
  {
    var value := Strip(k1);
    if IsPreimage(value) {
      PreimageOpens(w, SecretOf(value), spend);
    } else {
      LongFormOpens(w, value, spend);
    }
  }

  lemma PreimageOpens(w: Crypto, secret: Bytes32, spend: Spend)
    requires DecodePreimage(w, secret) == Returned(Some(spend))
    ensures spend.scriptPath.Some? && OpensKey(w, spend.scriptPath.value, spend.outputKey)
  {
    BearerNoteOpens(w.sha256, w.curve, w.sha256(secret));
  }

  lemma LongFormOpens(w: Crypto, value: string, spend: Spend)
    requires DecodeLongForm(w, value) == Returned(Some(spend)) && spend.kind == ScriptPath
    ensures spend.scriptPath.Some? && OpensKey(w, spend.scriptPath.value, spend.outputKey)
  {
    match DecodeCk1(value)
    case Some(payload) => KeySpendIsNoScript(w, payload);
    case None => LongFormIsScript(w, value, spend);
  }

  lemma KeySpendIsNoScript(w: Crypto, payload: Bytes)
    requires |payload| == 96 || |payload| == 65
    ensures DecodeKeySpend(w, payload).Some? ==> DecodeKeySpend(w, payload).value.kind != ScriptPath
  {
  }

  lemma LongFormIsScript(w: Crypto, value: string, spend: Spend)
    requires DecodeCk1(value).None? && DecodeLongForm(w, value) == Returned(Some(spend))
    ensures spend.kind == ScriptPath && spend.scriptPath.Some? && OpensKey(w, spend.scriptPath.value, spend.outputKey)
  {
    ScriptSpendIsScript(w, DecodeCw1(value).value);
  }

  lemma ScriptSpendIsScript(w: Crypto, script: Cw1)
    requires |script.script| <= MAX_CW1_ITEM
    ensures DecodeScriptSpend(w, script).Some? ==>
              var spend := DecodeScriptSpend(w, script).value;
              spend.kind == ScriptPath && spend.scriptPath == Some(script) && OpensKey(w, script, spend.outputKey)
  {
  }

  /**
   What a verified script-path spend proves: its leaf passed the leaf rules and opens the reported key, and unless it is
   reported unevaluated the leaf is a bearer hashlock and the lone witness item hashes to it.
   */
  lemma VerifiedScriptOpens(w: Crypto, k1: string, domain: Option<Bytes>, spend: Spend, script: Cw1, v: VerifiedSpend)
    requires DecodeSpend(w, k1) == Returned(Some(spend)) && spend.kind == ScriptPath && spend.scriptPath == Some(script)
    requires VerifySpend(w, k1, domain) == Returned(Some(v))
    ensures OpensKey(w, script, v.outputKey) && LeafAllowed(script)
    ensures !v.legacy && (!v.unevaluated <==> exists h :: script.script == BearerLeaf(h))
    ensures !v.unevaluated ==> |script.stack| == 1 && script.script == BearerLeaf(w.sha256(script.stack[0]))
  {
    DecodedScriptOpens(w, k1, spend);
    VerifiedScript(w, spend.outputKey, script, v);
  }

  lemma VerifiedScript(w: Crypto, q: Bytes32, script: Cw1, v: VerifiedSpend)
    requires script.controlBlock != [] && VerifyScriptSpend(w, q, script) == Some(v)
    ensures v.outputKey == q && LeafAllowed(script)
    ensures !v.legacy && (!v.unevaluated <==> exists h :: script.script == BearerLeaf(h))
    ensures !v.unevaluated ==> |script.stack| == 1 && script.script == BearerLeaf(w.sha256(script.stack[0]))
  {
    match BearerHashOfLeaf(script.script)
    case None =>
      forall h ensures script.script != BearerLeaf(h) { BearerHashExact(script.script, h); }
    case Some(h) =>
      BearerHashExact(script.script, h);
  }

  // ---- exactly what verifies, of every shape ----

  /** A signature over the sighash of a spend of this key at this domain, the only kind made now. */
  ghost predicate SignsFor(w: Crypto, q: Bytes32, signature: Bytes, domain: Option<Bytes>) {
    domain.Some? && w.schnorr(q, signature, Sighash.KeyPathSighash(w.sha256, q, domain.value))
  }

  /** A signature over one of the two fixed messages of before, which name no domain. */
  ghost predicate SignsOldMessage(w: Crypto, q: Bytes32, signature: Bytes) {
    w.schnorr(q, signature, w.sha256(Ascii("LNURLcash"))) || w.schnorr(q, signature, Ascii("LNURLcash"))
  }

  /**
   A ck1 opens a key: a 96-byte one names it and bears its signature, current if that is for this domain and legacy if
   it is not but is over an old message; a 65-byte one is a signature the key is recovered from.
   */
  ghost predicate OpensByKey(w: Crypto, payload: Bytes, domain: Option<Bytes>, v: VerifiedSpend)
    requires |payload| == 96 || |payload| == 65
  {
    && !v.unevaluated
    && if |payload| == 65 then
         && v.legacy
         && var key := w.recover(payload, w.sha256(w.sha256(Ascii("Lightning Signed Message:" + "LNURLcash"))));
           key.Some? && |key.value| == 33 && key.value[1..] == v.outputKey
       else
         var q, signature := payload[..32], payload[32..];
         && v.outputKey == q && LiftX(w.curve, q).Some?
         && (!v.legacy <==> SignsFor(w, q, signature, domain))
         && (v.legacy ==> SignsOldMessage(w, q, signature))
  }

  /** The lone item of a witness, no longer than a stack element may be, hashes to what a bearer leaf locks to. */
  predicate LonePreimage(w: Crypto, script: Cw1) {
    && |script.stack| == 1 && |script.stack[0]| <= 520
    && script.script == BearerLeaf(w.sha256(script.stack[0]))
  }

  predicate IsBearerLeaf(script: Cw1) {
    |script.script| == 35 && script.script == BearerLeaf(script.script[2..34])
  }

  /**
   A script path opens a key: its leaf is allowed and committed to, and either is no bearer leaf, which is left to the
   mint, or the witness is its lone preimage.
   */
  ghost predicate OpensByScript(w: Crypto, script: Cw1, v: VerifiedSpend) {
    && OpensKey(w, script, v.outputKey) && LeafAllowed(script) && !v.legacy
    && if v.unevaluated then !IsBearerLeaf(script) else LonePreimage(w, script)
  }

  /** A bearer note's preimage opens the note of its hash. */
  ghost predicate OpensByShortForm(w: Crypto, secret: Bytes32, v: VerifiedSpend) {
    var note := BearerNoteOf(w.sha256, w.curve, w.sha256(secret));
    note.Some? && v == VerifiedSpend(note.value.outputKey, false, false)
  }

  /** However a k1 is spelled, that it opens the key reported for it. */
  ghost predicate Opens(w: Crypto, k1: string, domain: Option<Bytes>, v: VerifiedSpend) {
    if IsPreimage(k1) then OpensByShortForm(w, SecretOf(k1), v)
    else
      match DecodeCk1(Strip(k1))
      case Some(payload) => OpensByKey(w, payload, domain, v)
      case None =>
        match DecodeCw1(Strip(k1))
        case Some(script) => OpensByScript(w, script, v)
        case None => false
  }

  lemma KeyVerifiesExactly(w: Crypto, payload: Bytes, domain: Option<Bytes>, v: VerifiedSpend)
    requires |payload| == 96 || |payload| == 65
    ensures VerifyRead(w, Returned(DecodeKeySpend(w, payload)), domain) == Returned(Some(v)) <==>
            OpensByKey(w, payload, domain, v)
  {
    AsciiJoins("Lightning Signed Message:", "LNURLcash");
  }

  lemma BearerLeafExactly(script: Cw1, h: Bytes32)
    ensures script.script == BearerLeaf(h) <==> IsBearerLeaf(script) && script.script[2..34] == h
  {
    assert BearerLeaf(h)[2..34] == h;
  }

  lemma LeafVerifiesExactly(w: Crypto, q: Bytes32, script: Cw1, v: VerifiedSpend)
    requires script.controlBlock != []
    ensures VerifyScriptSpend(w, q, script) == Some(v) <==>
            && v.outputKey == q && LeafAllowed(script) && !v.legacy
            && if v.unevaluated then !IsBearerLeaf(script) else LonePreimage(w, script)
  {
    var lock := BearerHashOfLeaf(script.script);
    LockExactly(script);
    if lock.Some? && |script.stack| == 1 {
      BearerHashExact(script.script, w.sha256(script.stack[0]));
    }
    if lock.None? && |script.stack| == 1 {
      BearerHashExact(script.script, w.sha256(script.stack[0]));
    }
  }

  lemma LockExactly(script: Cw1)
    ensures BearerHashOfLeaf(script.script).Some? <==> IsBearerLeaf(script)
  {
    if IsBearerLeaf(script) {
      BearerHashExact(script.script, script.script[2..34]);
    }
    if BearerHashOfLeaf(script.script).Some? {
      var h := BearerHashOfLeaf(script.script).value;
      BearerHashExact(script.script, h);
      BearerLeafExactly(script, h);
    }
  }

  lemma ScriptVerifiesExactly(w: Crypto, script: Cw1, domain: Option<Bytes>, v: VerifiedSpend)
    requires |script.script| <= MAX_CW1_ITEM
    ensures VerifyRead(w, Returned(DecodeScriptSpend(w, script)), domain) == Returned(Some(v)) <==>
            OpensByScript(w, script, v)
  {
    if DecodeScriptSpend(w, script).Some? {
      LeafVerifiesExactly(w, DecodeScriptSpend(w, script).value.outputKey, script, v);
    }
  }

  lemma DecodesAsKey(w: Crypto, k1: string, payload: Bytes)
    requires DecodeCk1(Strip(k1)) == Some(payload)
    ensures DecodeSpend(w, k1) == Returned(DecodeKeySpend(w, payload))
  {
    ShapesDisjoint(Strip(k1));
  }

  lemma DecodesByShape(w: Crypto, k1: string)
    ensures DecodeSpend(w, k1) ==
            if IsPreimage(k1) then DecodePreimage(w, SecretOf(k1)) else DecodeLongForm(w, Strip(k1))
  {
    StripIdempotent(k1);
  }

  /**
   Exactly what verifies, and as what: a preimage of a note's hash; a signature for this very domain, or a legacy one; a
   leaf and its witness.
   */
  lemma VerifiedOpens(w: Crypto, k1: string, domain: Option<Bytes>, v: VerifiedSpend)
    ensures VerifySpend(w, k1, domain) == Returned(Some(v)) <==> Opens(w, k1, domain, v)
  {
    if IsPreimage(k1) {
      ShortFormVerifiesExactly(w, k1, domain, v);
    } else {
      DecodesByShape(w, k1);
      LongFormVerifiesExactly(w, Strip(k1), domain, v);
    }
  }

  lemma ShortFormVerifiesExactly(w: Crypto, k1: string, domain: Option<Bytes>, v: VerifiedSpend)
    requires IsPreimage(k1)
    ensures VerifySpend(w, k1, domain) == Returned(Some(v)) <==> OpensByShortForm(w, SecretOf(k1), v)
  {
    ShortFormVerifiesSo(w, k1, SecretOf(k1), domain, v);
  }

  lemma ShortFormVerifiesSo(w: Crypto, k1: string, secret: Bytes32, domain: Option<Bytes>, v: VerifiedSpend)
    requires IsPreimage(k1) && secret == SecretOf(k1)
    ensures VerifySpend(w, k1, domain) == Returned(Some(v)) <==> OpensByShortForm(w, secret, v)
  {
    var made := BearerNoteOf(w.sha256, w.curve, w.sha256(secret));
    if made.None? {
      RaisesWithoutNote(w, k1, domain);
    } else {
      PreimageVerifies(w, k1, made.value, domain);
    }
  }

  lemma RaisesWithoutNote(w: Crypto, k1: string, domain: Option<Bytes>)
    requires IsPreimage(k1) && BearerNoteOf(w.sha256, w.curve, w.sha256(SecretOf(k1))).None?
    ensures VerifySpend(w, k1, domain) == Raised
  {
    DecodesItsPreimage(w, k1);
  }

  lemma LongFormVerifiesExactly(w: Crypto, value: string, domain: Option<Bytes>, v: VerifiedSpend)
    ensures VerifyRead(w, DecodeLongForm(w, value), domain) == Returned(Some(v)) <==>
            match DecodeCk1(value)
            case Some(payload) => OpensByKey(w, payload, domain, v)
            case None =>
              match DecodeCw1(value)
              case Some(script) => OpensByScript(w, script, v)
              case None => false
  {
    match DecodeCk1(value)
    case Some(payload) => KeyVerifiesExactly(w, payload, domain, v);
    case None =>
      match DecodeCw1(value)
      case Some(script) => ScriptVerifiesExactly(w, script, domain, v);
      case None =>
  }

  /**
   A current ck1 is for one mint: if it verifies at two domains, its one signature verifies over two different messages,
   or the domains are one, or a pair of inputs hashed along the way collides.
   */
  lemma Ck1IsForOneDomain(w: Crypto, k1: string, payload: Bytes, a: Bytes, b: Bytes, v: VerifiedSpend, u: VerifiedSpend)
    requires DecodeCk1(Strip(k1)) == Some(payload)
    requires VerifySpend(w, k1, Some(a)) == Returned(Some(v)) && !v.legacy
    requires VerifySpend(w, k1, Some(b)) == Returned(Some(u)) && !u.legacy
    ensures |payload| == 96 && v == u
    ensures var q, signature := v.outputKey, payload[32..];
      var m, n := Sighash.KeyPathSighash(w.sha256, q, a), Sighash.KeyPathSighash(w.sha256, q, b);
      && w.schnorr(q, signature, m) && w.schnorr(q, signature, n)
      && (a == b || m != n ||
          Sighash.SomeCollision(w.sha256,
                                Sighash.HashedPairs(w.sha256, Sighash.KeyPathClaim(q, a), Sighash.KeyPathClaim(q, b))))
  {
    CurrentSigns(w, k1, payload, a, v);
    CurrentSigns(w, k1, payload, b, u);
    var claimA, claimB := Sighash.KeyPathClaim(v.outputKey, a), Sighash.KeyPathClaim(v.outputKey, b);
    if Sighash.SighashOf(w.sha256, claimA) == Sighash.SighashOf(w.sha256, claimB) {
      Sighash.SighashBinds(w.sha256, claimA, claimB);
    }
  }

  lemma CurrentSigns(w: Crypto, k1: string, payload: Bytes, domain: Bytes, v: VerifiedSpend)
    requires DecodeCk1(Strip(k1)) == Some(payload)
    requires VerifySpend(w, k1, Some(domain)) == Returned(Some(v)) && !v.legacy
    ensures |payload| == 96 && v == VerifiedSpend(payload[..32], false, false)
    ensures w.schnorr(v.outputKey, payload[32..], Sighash.KeyPathSighash(w.sha256, v.outputKey, domain))
  {
    DecodesAsKey(w, k1, payload);
    KeyVerifiesExactly(w, payload, Some(domain), v);
  }

  /** A key-path spend as it is made: the key and a signature for one domain. It reads back, and verifies there. */
  lemma MadeCk1Verifies(w: Crypto, q: Bytes32, signature: Bytes64, domain: Bytes, k1: string)
    requires LiftX(w.curve, q).Some? && EncodeCk1(q + signature) == Ok(k1)
    requires w.schnorr(q, signature, Sighash.KeyPathSighash(w.sha256, q, domain))
    ensures Lower(k1) == k1 && k1 != ""
    ensures VerifySpend(w, k1, Some(domain)) == Returned(Some(VerifiedSpend(q, false, false)))
  {
    var payload := q + signature;
    Ck1ReadsBack(payload, k1);
    assert payload[..32] == q && payload[32..] == signature;
    DecodesAsKey(w, k1, payload);
    KeyVerifiesExactly(w, payload, Some(domain), VerifiedSpend(q, false, false));
  }

  lemma Ck1ReadsBack(payload: Bytes, k1: string)
    requires EncodeCk1(payload) == Ok(k1)
    ensures Strip(k1) == k1 && Lower(k1) == k1 && k1 != "" && DecodeCk1(k1) == Some(payload)
  {
    MadeUnder("ck", payload, k1);
  }

  lemma MadeUnder(hrp: string, payload: Bytes, k1: string)
    requires hrp == "ck" && EncodeFixed(hrp, payload, 96) == Ok(k1)
    ensures Strip(k1) == k1 && Lower(k1) == k1 && k1 != "" && DecodeCk1(k1) == Some(payload)
  {
    CkIsProper(hrp);
    FixedReadsBack(hrp, payload, 96, k1);
    ReadsUnder(hrp, payload, k1);
    StartsUnder(hrp, payload, k1);
  }

  lemma ReadsUnder(hrp: string, payload: Bytes, k1: string)
    requires hrp == "ck" && DecodeFixed(hrp, k1, 96) == Some(payload)
    ensures DecodeCk1(k1) == Some(payload)
  {
  }

  lemma StartsUnder(hrp: string, payload: Bytes, k1: string)
    requires hrp != "" && EncodeFixed(hrp, payload, 96) == Ok(k1)
    ensures k1 != ""
  {
  }

  lemma CkIsProper(hrp: string)
    requires hrp == "ck"
    ensures Bech32.ProperHrp(hrp)
  {
  }

  /** And making one never fails. */
  lemma Ck1AlwaysEncodes(payload: Bytes)
    requires |payload| == 96
    ensures EncodeCk1(payload).Ok?
  {
    GroupsLength(payload);
    Bech32.EncodesWithin("ck", payload, Bech32.LIMIT, Checksum.BECH32M);
  }

  // ---- the one exception ----

  /** Verifying raises in exactly one case: a bearer preimage whose note's tweak is out of range. */
  lemma RaisesExactly(w: Crypto, k1: string, domain: Option<Bytes>)
    ensures DecodeSpend(w, k1) == Raised <==>
            IsPreimage(k1) && TweakRefused(w.sha256, w.curve, w.sha256(SecretOf(k1)))
    ensures VerifySpend(w, k1, domain) == Raised <==> DecodeSpend(w, k1) == Raised
  {
    DecodesByShape(w, k1);
    if IsPreimage(k1) {
      BearerNoteExactly(w.sha256, w.curve, w.sha256(SecretOf(k1)));
    }
    LongFormNeverRaises(w, Strip(k1));
    ReadingNeverRaises(w, DecodeSpend(w, k1), domain);
  }

  lemma LongFormNeverRaises(w: Crypto, value: string)
    ensures DecodeLongForm(w, value) != Raised
  {
  }

  lemma ReadingNeverRaises(w: Crypto, decoded: Outcome<Spend>, domain: Option<Bytes>)
    ensures VerifyRead(w, decoded, domain) == Raised <==> decoded == Raised
  {
  }

  /** A hash whose every value is 32 bytes of ones, under which every tweak is out of range. */
  function AllOnes(w: Crypto): Crypto {
    w.(sha256 := (_: Bytes) => Repeat<byte>(0xFF, 32))
  }

  /** Documented never to raise, both do: with such a hash, on every bearer preimage, at every domain. */
  lemma EveryPreimageRaises(w: Crypto, p: string, domain: Option<Bytes>)
    requires IsPreimage(p)
    ensures DecodeSpend(AllOnes(w), p) == Raised && VerifySpend(AllOnes(w), p, domain) == Raised
  {
    var ones := AllOnes(w);
    OnesRefuse(w, ones.sha256(SecretOf(p)));
    RaisesExactly(ones, p, domain);
  }

  lemma OnesRefuse(w: Crypto, h: Bytes32)
    ensures TweakRefused(AllOnes(w).sha256, AllOnes(w).curve, h)
  {
    OnesOutOfRange();
  }

  lemma OnesOutOfRange()
    ensures FromBE(Repeat<byte>(0xFF, 32)) >= N
  {
    OnesAre(32);
    Pow256();
  }

  lemma {:induction false} OnesAre(n: nat)
    ensures FromBE(Repeat<byte>(0xFF, n)) == Pow(256, n) - 1
  {
    if n > 0 {
      assert Repeat<byte>(0xFF, n)[..n - 1] == Repeat<byte>(0xFF, n - 1);
      OnesAre(n - 1);
    }
  }
}
