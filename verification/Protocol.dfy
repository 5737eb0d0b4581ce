/** Mutation requests, the answers a SERVICE gives them, and the error taxonomy those answers are read into. */
module Protocol {
  import opened Prelude
  import opened Text
  import opened Certificates
  import Bech32

  // ---- errors ----

  /** The exception classes. `AmbiguousMutation` is an `AmbiguousMint` that carries secrets. */
  datatype ErrorKind =
    | RequestRefused
    | ProtocolError
    | ServiceRejected
    | NotePending
    | NoteSpent
    | NoteUnknown
    | OutputInUse
    | AmbiguousMint
    | AmbiguousMutation
    | UnverifiableNote

  datatype Error = Error(kind: ErrorKind, newSecrets: seq<string>)

  predicate IsAmbiguous(k: ErrorKind) {
    k.AmbiguousMint? || k.AmbiguousMutation?
  }

  /** The classes below `ServiceRejected`, itself included. */
  predicate IsRejection(k: ErrorKind) {
    k.ServiceRejected? || k.NotePending? || k.NoteSpent? || k.NoteUnknown? || k.OutputInUse?
  }

  /** `new_secrets_of`. */
  function NewSecretsOf(e: Error): seq<string> {
    if e.kind.AmbiguousMutation? || e.kind.UnverifiableNote? || IsRejection(e.kind) then e.newSecrets else []
  }

  /** `classify_note_error`, from the reason exactly as the SERVICE sent it. */
  function Classify(reason: string): (k: ErrorKind)
    ensures IsRejection(k)
  {
    var lowered := Lower(reason);
    if StripsTo(lowered, "already in use") then NoteSpent
    else if Contains(lowered, "already in use") then OutputInUse
    else if Contains(lowered, "spent") then NoteSpent
    else if Contains(lowered, "unknown") || Contains(lowered, "not found") then NoteUnknown
    else ServiceRejected
  }

  // ---- answers ----

  /** A field of an answer: missing or null, text, or anything else. */
  datatype Field = Absent | Text(text: string) | NotText

  /** An answer's JSON: an ERROR and its reason if that is text, an OK and its certificates, or anything else. */
  datatype Body =
    | ErrorBody(reason: Field)
    | OkBody(c: Field, sig: Field, c2: Field, sig2: Field)
    | OtherBody

  /** What a GET comes back with: nothing, something unreadable, or a body. */
  datatype Answer = NoAnswer | Garbled | Readable(body: Body)

  // ---- requests ----

  /** The parameters of a callback: the notes to operate on, the outputs to mint, or the invoice to melt into. */
  datatype Call =
    | Mutation(k1s: seq<string>, amount: Option<int>, outputs: seq<string>)
    | Melt(k1: string, pr: string)

  /** What a request's parser returns on success. */
  datatype Shape =
    | Rotated(secret: string)
    | Divided(secret: string, change: string)
    | Merged(secret: string)
    | Bare
    | Melting

  /**
   One GET and everything needed to read its outcome. `cp1s` says which outputs were named by a `cp1`, and
   `requireSignatures` is the policy's.
   */
  datatype Request = Request(
    call: Call, shape: Shape, cp1s: seq<bool>, requireSignatures: bool, newSecrets: seq<string>, replayable: bool)

  datatype Value =
    | RotateResult(k1: string, signature: Option<string>)
    | SplitResult(k1: string, change: string, signature: Option<string>, changeSignature: Option<string>)
    | MutationResult(signature: Option<string>, changeSignature: Option<string>)
    | MeltResult

  /** The secrets a result hands its caller, in order. */
  function SecretsNamed(v: Value): seq<string> {
    match v
    case RotateResult(k1, _) => [k1]
    case SplitResult(k1, change, _, _) => [k1, change]
    case MutationResult(_, _) => []
    case MeltResult => []
  }

  /** What the wallet is configured with: the hash behind `hash_k1`, the curve's x coordinates, and the policy. */
  datatype Wallet = Wallet(hashK1: string -> string, isPoint: Bytes -> bool, requireSignatures: bool)

  /** `_names_cp1`: a well-formed cp1 whose key is a point. */
  predicate NamesCp1(w: Wallet, output: string) {
    var key := DecodeFixed("cp", Lower(Strip(output)), 32);
    key.Some? && w.isPoint(key.value)
  }

  function CallbackRequest(w: Wallet, allowed: bool, call: Call): Result<Request, Error>
    requires call.Mutation?
  {
    if !allowed || call.k1s == [] then Err(Error(RequestRefused, []))
    else
      Ok(Request(call, Bare, seq(|call.outputs|, i requires 0 <= i < |call.outputs| => NamesCp1(w, call.outputs[i])),
                 w.requireSignatures, [], true))
  }

  // `allowed` says whether the callback URL passes the library's admission rule.

  function RotateRequestWithHash(w: Wallet, allowed: bool, k1: string, h: string): Result<Request, Error> {
    CallbackRequest(w, allowed, Mutation([k1], None, [h]))
  }

  function SplitRequestWithHash(w: Wallet, allowed: bool, k1s: seq<string>, amount: int, h: string,
                                h2: string): Result<Request, Error> {
    CallbackRequest(w, allowed, Mutation(k1s, Some(amount), [h, h2]))
  }

  function MergeRequestWithHash(w: Wallet, allowed: bool, k1s: seq<string>, h: string): Result<Request, Error> {
    CallbackRequest(w, allowed, Mutation(k1s, None, [h]))
  }

  /** A request over an output named for the caller: its parser hands back the secrets behind the names. */
  function Generating(inner: Result<Request, Error>, shape: Shape, newSecrets: seq<string>): Result<Request, Error> {
    match inner
    case Ok(r) => Ok(r.(shape := shape, newSecrets := newSecrets))
    case Err(e) => Err(e)
  }

  function RotateRequest(w: Wallet, allowed: bool, k1: string, secret: string): Result<Request, Error> {
    Generating(RotateRequestWithHash(w, allowed, k1, w.hashK1(secret)), Rotated(secret), [secret])
  }

  function SplitRequest(w: Wallet, allowed: bool, k1s: seq<string>, amount: int, secret: string,
                        change: string): Result<Request, Error> {
    Generating(SplitRequestWithHash(w, allowed, k1s, amount, w.hashK1(secret), w.hashK1(change)),
               Divided(secret, change), [secret, change])
  }

  function MergeRequest(w: Wallet, allowed: bool, k1s: seq<string>, secret: string): Result<Request, Error> {
    Generating(MergeRequestWithHash(w, allowed, k1s, w.hashK1(secret)), Merged(secret), [secret])
  }

  function MeltRequest(allowed: bool, k1: string, pr: string): Result<Request, Error> {
    if !allowed then Err(Error(RequestRefused, []))
    else Ok(Request(Call.Melt(k1, Strip(pr)), Melting, [], false, [], false))
  }

  // ---- reading an answer ----

  function CertificateField(current: Field, legacy: Field): Field {
    if current.Absent? then legacy else current
  }

  /** `_require_signature`: what a mutation owes for an output, by how the output was named. */
  function RequireSignature(value: Field, r: Request, output: nat): Result<Option<string>, Error> {
    if value.Text? && value.text != "" then Ok(Some(value.text))
    else if output < |r.cp1s| && r.cp1s[output] then Err(Error(UnverifiableNote, []))
    else if !r.requireSignatures then Ok(None)
    else Err(Error(UnverifiableNote, []))
  }

  function ParseOk(r: Request, b: Body): Result<Value, Error>
    requires b.OkBody?
  {
    if r.shape.Melting? then Ok(MeltResult)
    else
      match RequireSignature(CertificateField(b.c, b.sig), r, 0)
      case Err(e) => Err(e)
      case Ok(signature) =>
        if r.call.Mutation? && |r.call.outputs| == 2 then
          match RequireSignature(CertificateField(b.c2, b.sig2), r, 1)
          case Err(e) => Err(e)
          case Ok(changeSignature) => Ok(Shaped(r.shape, signature, changeSignature))
        else Ok(Shaped(r.shape, signature, None))
  }

  function Shaped(shape: Shape, signature: Option<string>, changeSignature: Option<string>): Value {
    match shape
    case Rotated(secret) => RotateResult(secret, signature)
    case Divided(secret, change) => SplitResult(secret, change, signature, changeSignature)
    case Merged(secret) => RotateResult(secret, signature)
    case Bare => MutationResult(signature, changeSignature)
    case Melting => MeltResult
  }

  function ReasonOf(f: Field): string {
    if f.Text? then f.text else ""
  }

  /** The class an ERROR answer is raised as. */
  function RefusalOf(reason: Field): (k: ErrorKind)
    ensures IsRejection(k)
  {
    if ReasonOf(reason) == "pending" then NotePending else Classify(ReasonOf(reason))
  }

  /** `_parse_success` and the operation's own parser after it. */
  function Parse(r: Request, b: Body): Result<Value, Error> {
    match b
    case ErrorBody(reason) => Err(Error(RefusalOf(reason), []))
    case OtherBody => Err(Error(AmbiguousMint, []))
    case OkBody(_, _, _, _) => ParseOk(r, b)
  }

  /** `_preserve`: a mutation's fresh secrets, attached to what it failed with. */
  function Preserve(r: Request, e: Error): Error {
    if r.newSecrets == [] then e
    else if IsAmbiguous(e.kind) then Error(AmbiguousMutation, r.newSecrets)
    else if e.kind.UnverifiableNote? || e.kind.NoteSpent? || e.kind.NoteUnknown? then e.(newSecrets := r.newSecrets)
    else e
  }

  datatype Outcome = Returned(value: Value) | Raised(error: Error)

  /** What one attempt comes to. */
  function AttemptOf(r: Request, a: Answer): Outcome {
    match a
    case NoAnswer => Raised(Preserve(r, Error(AmbiguousMint, [])))
    case Garbled => Raised(Preserve(r, Error(AmbiguousMint, [])))
    case Readable(body) =>
      match Parse(r, body)
      case Ok(v) => Returned(v)
      case Err(e) => Raised(Preserve(r, e))
  }

  // ---- secrets survive ----

  /** A request built to mint to secrets of the wallet's own: its parser hands them all back, in order. */
  ghost predicate Generated(r: Request) {
    r.newSecrets != [] && forall s, c :: SecretsNamed(Shaped(r.shape, s, c)) == r.newSecrets
  }

  /** A request a builder makes: it spends these notes, and mints to the hashes of these secrets, in result order. */
  ghost predicate Built(w: Wallet, r: Request, k1s: seq<string>, amount: Option<int>, secrets: seq<string>) {
    && Generated(r) && r.newSecrets == secrets && r.replayable && r.requireSignatures == w.requireSignatures
    && r.call.Mutation? && r.call.k1s == k1s && r.call.amount == amount && |r.call.outputs| == |secrets| == |r.cp1s|
    && forall i :: 0 <= i < |secrets| ==>
         r.call.outputs[i] == w.hashK1(secrets[i]) && r.cp1s[i] == NamesCp1(w, r.call.outputs[i])
  }

  /** The builders refuse exactly a callback that may not be fetched or no notes at all. */
  lemma BuildersGenerate(w: Wallet, allowed: bool, k1: string, k1s: seq<string>, amount: int, secret: string,
                         change: string)
    ensures match RotateRequest(w, allowed, k1, secret)
      case Ok(r) => allowed && Built(w, r, [k1], None, [secret])
      case Err(e) => !allowed && e == Error(RequestRefused, [])
    ensures match SplitRequest(w, allowed, k1s, amount, secret, change)
      case Ok(r) => allowed && k1s != [] && Built(w, r, k1s, Some(amount), [secret, change])
      case Err(e) => (!allowed || k1s == []) && e == Error(RequestRefused, [])
    ensures match MergeRequest(w, allowed, k1s, secret)
      case Ok(r) => allowed && k1s != [] && Built(w, r, k1s, None, [secret])
      case Err(e) => (!allowed || k1s == []) && e == Error(RequestRefused, [])
  {
  }

  lemma RotateIsBuilt(w: Wallet, k1: string, secret: string, r: Request)
    requires RotateRequest(w, true, k1, secret) == Ok(r)
    ensures Generated(r) && r.newSecrets == [secret] && r.shape == Rotated(secret) && r.replayable && r.call.Mutation?
  {
    BuildersGenerate(w, true, k1, [], 0, secret, secret);
  }

  /** The certificate an answer gives for an output: under its name now, or, where that is missing, its name before. */
  predicate Gives(current: Field, legacy: Field, certificate: Option<string>) {
    if current.Text? && current.text != "" then certificate == Some(current.text)
    else if current.Absent? && legacy.Text? && legacy.text != "" then certificate == Some(legacy.text)
    else certificate.None?
  }

  /**
   What a successful answer hands back: each secret of the request under its own name, and for each output the
   certificate the answer gives for that output.
   */
  lemma ResultsNameTheirOwn(r: Request, b: Body)
    requires b.OkBody? && r.call.Mutation? && AttemptOf(r, Readable(b)).Returned?
    ensures match AttemptOf(r, Readable(b)).value
      case RotateResult(k1, certificate) =>
        (r.shape == Rotated(k1) || r.shape == Merged(k1)) && Gives(b.c, b.sig, certificate)
      case SplitResult(k1, change, certificate, changeCertificate) =>
        && r.shape == Divided(k1, change) && Gives(b.c, b.sig, certificate)
        && (|r.call.outputs| == 2 ==> Gives(b.c2, b.sig2, changeCertificate))
      case MutationResult(certificate, changeCertificate) =>
        && r.shape == Bare && Gives(b.c, b.sig, certificate)
        && (|r.call.outputs| == 2 ==> Gives(b.c2, b.sig2, changeCertificate))
      case MeltResult => r.shape == Melting
  {
    if !r.shape.Melting? {
      CertificateGiven(r, b.c, b.sig, 0);
      CertificateGiven(r, b.c2, b.sig2, 1);
    }
  }

  lemma CertificateGiven(r: Request, current: Field, legacy: Field, output: nat)
    ensures var given := RequireSignature(CertificateField(current, legacy), r, output);
      given.Ok? ==> Gives(current, legacy, given.value)
  {
  }

  /**
   What an attempt that is not refused comes to: anything unreadable is ambiguous, an OK that withholds a certificate it
   owes is unverifiable, and both carry every fresh secret; a request without secrets carries none.
   */
  lemma UnrefusedExactly(r: Request, a: Answer)
    requires a.NoAnswer? || a.Garbled? || a.body.OtherBody? || a.body.OkBody?
    ensures match AttemptOf(r, a)
      case Returned(v) => a.Readable? && a.body.OkBody?
      case Raised(e) =>
        && NewSecretsOf(e) == r.newSecrets
        && if a.Readable? && a.body.OkBody? then e.kind == UnverifiableNote
           else e.kind == if r.newSecrets == [] then AmbiguousMint else AmbiguousMutation
  {
    if a.Readable? && a.body.OkBody? && Parse(r, a.body).Err? {
      ParseFails(r, a.body);
    }
  }

  /** A melt is sent as it is asked for, named by its trimmed invoice, and never twice. */
  lemma MeltIsBuilt(allowed: bool, k1: string, pr: string)
    ensures match MeltRequest(allowed, k1, pr)
      case Ok(r) =>
        allowed && r.call == Call.Melt(k1, Strip(pr)) && !r.replayable && r.newSecrets == [] && r.shape == Melting
      case Err(e) => !allowed && e == Error(RequestRefused, [])
  {
  }

  /** An outcome that leaves the caller holding exactly these secrets, in order. */
  predicate Carries(o: Outcome, secrets: seq<string>) {
    match o
    case Returned(v) => SecretsNamed(v) == secrets
    case Raised(e) => NewSecretsOf(e) == secrets
  }

  /**
   A definitive refusal on grounds other than a dead input: the one answer that ends an attempt without the secrets.
   */
  predicate Discards(a: Answer) {
    a.Readable? && a.body.ErrorBody? && !RefusalOf(a.body.reason).NoteSpent? && !RefusalOf(a.body.reason).NoteUnknown?
  }

  /** Exactly which answers leave a mutation's secrets behind. */
  lemma AttemptCarriesExactly(r: Request, a: Answer)
    requires Generated(r)
    ensures Carries(AttemptOf(r, a), r.newSecrets) <==> !Discards(a)
    ensures Discards(a) ==> AttemptOf(r, a).Raised? && NewSecretsOf(AttemptOf(r, a).error) == []
  {
    match a
    case NoAnswer =>
    case Garbled =>
    case Readable(body) =>
      match body
      case ErrorBody(reason) => RefusalCarries(r, RefusalOf(reason));
      case OtherBody =>
      case OkBody(_, _, _, _) => OkCarries(r, body);
  }

  lemma RefusalCarries(r: Request, kind: ErrorKind)
    requires r.newSecrets != [] && IsRejection(kind)
    ensures NewSecretsOf(Preserve(r, Error(kind, []))) ==
            if kind.NoteSpent? || kind.NoteUnknown? then r.newSecrets else []
  {
  }

  lemma OkCarries(r: Request, b: Body)
    requires Generated(r) && b.OkBody?
    ensures match ParseOk(r, b)
      case Ok(v) => SecretsNamed(v) == r.newSecrets
      case Err(e) => e.kind == UnverifiableNote
  {
    GeneratedNamesSecrets(r);
  }

  lemma GeneratedNamesSecrets(r: Request)
    requires Generated(r)
    ensures !r.shape.Melting? && !r.shape.Bare?
  {
    assert SecretsNamed(Shaped(r.shape, None, None)) == r.newSecrets;
  }

  /** What an output of a mutation is owed: its certificate, unless it was named by a hash and the policy lets it go. */
  predicate Owed(r: Request, current: Field, legacy: Field, output: nat)
    requires output < |r.cp1s|
  {
    !Gives(current, legacy, None) || (!r.cp1s[output] && !r.requireSignatures)
  }

  /** An OK is taken as a success exactly when every output got what it is owed, whatever the operation. */
  lemma CertificatesOwedExactly(r: Request, b: Body)
    requires r.call.Mutation? && 1 <= |r.call.outputs| <= 2 && |r.cp1s| == |r.call.outputs| && !r.shape.Melting?
    requires b.OkBody?
    ensures AttemptOf(r, Readable(b)).Returned? <==>
            && Owed(r, b.c, b.sig, 0)
            && (|r.call.outputs| == 2 ==> Owed(r, b.c2, b.sig2, 1))
  {
    OneOwed(r, b.c, b.sig, 0);
    if |r.call.outputs| == 2 {
      OneOwed(r, b.c2, b.sig2, 1);
    }
  }

  lemma OneOwed(r: Request, current: Field, legacy: Field, output: nat)
    requires output < |r.cp1s|
    ensures RequireSignature(CertificateField(current, legacy), r, output).Ok? <==> Owed(r, current, legacy, output)
  {
  }

  // ---- wordings ----

  const BURNED := "already in use"
  const TAKEN := "Output " + BURNED + "."
  const UNKNOWN := "Unknown" + " note."

  /** A reason that has these words in it, in any case. */
  predicate Says(reason: string, words: string) {
    Contains(Lower(reason), words)
  }

  /** Wherever a reason's words stand, and however they are cased. */
  lemma WordsSay(before: string, words: string, after: string)
    ensures Says(before + words + after, Lower(words))
  {
    LowerAppend(before + words, after);
    LowerAppend(before, words);
    var lowered := Lower(before) + Lower(words) + Lower(after);
    assert lowered[|before|..|before| + |words|] == Lower(words);
    ContainsAt(lowered, Lower(words), |before|);
  }

  /** Words that say the k1 itself is dead: `already in use` and nothing else, or another word for it without that. */
  predicate SaysSpent(reason: string) {
    StripsTo(Lower(reason), "already in use") || (!Says(reason, "already in use") && Says(reason, "spent"))
  }

  predicate SaysUnknown(reason: string) {
    && !Says(reason, "already in use") && !Says(reason, "spent")
    && (Says(reason, "unknown") || Says(reason, "not found"))
  }

  /** Which class every ERROR is raised as, by the words in its reason; one whose reason is not text says none. */
  lemma RefusedExactly(reason: string)
    ensures var kind := RefusalOf(Field.Text(reason));
      && (kind == NotePending <==> reason == "pending")
      && (kind == NoteSpent <==> SaysSpent(reason))
      && (kind == OutputInUse <==> Says(reason, "already in use") && !SaysSpent(reason))
      && (kind == NoteUnknown <==> SaysUnknown(reason))
  {
    InUseIsSaid(reason);
    PendingSaysNothing(reason);
  }

  /** And so of an informational GET's refusal, which has no `pending` of its own. */
  lemma ClassifiedExactly(reason: string)
    ensures (Classify(reason) == NoteSpent <==> SaysSpent(reason))
    ensures (Classify(reason) == NoteUnknown <==> SaysUnknown(reason))
  {
    InUseIsSaid(reason);
  }

  lemma InUseIsSaid(reason: string)
    ensures StripsTo(Lower(reason), "already in use") ==> Says(reason, "already in use")
  {
  }

  lemma PendingSaysNothing(reason: string)
    ensures reason == "pending" ==> !Says(reason, "already in use") && !SaysSpent(reason) && !SaysUnknown(reason)
  {
    if reason == "pending" {
      var lowered := Lower(reason);
      assert lowered == "pending";
      ContainsFirst(lowered, "already in use");
      ContainsFirst(lowered, "spent");
      ContainsFirst(lowered, "unknown");
      ContainsLast(lowered, "not found");
    }
  }

  lemma NoTextSaysNothing()
    ensures RefusalOf(Absent) == RefusalOf(NotText) == ServiceRejected
  {
    var lowered := Lower("");
    assert lowered == "";
    ContainsFirst(lowered, "already in use");
    ContainsFirst(lowered, "spent");
    ContainsFirst(lowered, "unknown");
    ContainsFirst(lowered, "not found");
    assert !StripsTo(lowered, "already in use");
  }

  /**
   Exactly which ERRORs leave a generated request's secrets with its caller: those whose reason says the k1 is spent or
   not known. Any other may be discarded on.
   */
  lemma ErrorCarriesExactly(r: Request, reason: string)
    requires Generated(r)
    ensures Carries(AttemptOf(r, Readable(ErrorBody(Field.Text(reason)))), r.newSecrets) <==>
            SaysSpent(reason) || SaysUnknown(reason)
  {
    AttemptCarriesExactly(r, Readable(ErrorBody(Field.Text(reason))));
    RefusedExactly(reason);
  }

  /** The wording the callback is documented with, which cannot say which k1 it means, keeps the secrets. */
  lemma SpentCallbackCarries(r: Request, before: string, after: string)
    requires Generated(r) && !Says(before + "spent" + after, "already in use")
    ensures var o := AttemptOf(r, Readable(ErrorBody(Field.Text(before + "spent" + after))));
      o == Raised(Error(NoteSpent, r.newSecrets))
  {
    var reason := before + "spent" + after;
    WordsSay(before, "spent", after);
    SpentLowered();
    RefusedExactly(reason);
    RefusedAs(r, Field.Text(reason), NoteSpent);
  }

  lemma SpentLowered()
    ensures Lower("spent") == "spent"
  {
  }

  /** LUD-25's one wording for a burned note reads as spent in any case and with any whitespace around it. */
  lemma BurnedReads(before: string, core: string, after: string)
    requires Lower(core) == BURNED
    requires AllSpace(before) && AllSpace(after)
    ensures Classify(before + core + after) == NoteSpent
    ensures RefusalOf(Field.Text(before + core + after)) == NoteSpent
  {
    var reason := before + core + after;
    LowerAppend(before + core, after);
    LowerAppend(before, core);
    LowerKeepsSpace(before);
    LowerKeepsSpace(after);
    StripsToAround(before, BURNED, after);
    ReadsAsBurned(reason);
  }

  lemma ReadsAsBurned(reason: string)
    requires StripsTo(Lower(reason), BURNED) && |reason| > |"pending"|
    ensures Classify(reason) == NoteSpent && RefusalOf(Field.Text(reason)) == NoteSpent
  {
  }

  lemma BurnedIsSpent()
    ensures Classify(BURNED) == NoteSpent
  {
    assert Lower(BURNED) == BURNED;
    StripsToExactly(BURNED, BURNED);
    StripTrimmed(BURNED);
    ReadsAsBurned(BURNED);
  }

  /** The same words about an output are about the output. */
  lemma TakenReads()
    ensures RefusalOf(Field.Text(TAKEN)) == OutputInUse
  {
    TakenLowered();
    TakenHolds("output " + BURNED + ".");
    NotSpent(TAKEN, "output " + BURNED + ".");
  }

  lemma TakenLowered()
    ensures Lower(TAKEN) == "output " + BURNED + "."
  {
    LowerAppend("Output " + BURNED, ".");
    LowerAppend("Output ", BURNED);
    assert Lower("Output ") == "output " && Lower(BURNED) == BURNED && Lower(".") == ".";
  }

  lemma TakenHolds(lowered: string)
    requires lowered == "output " + BURNED + "."
    ensures Contains(lowered, BURNED) && !StripsTo(lowered, BURNED)
  {
    StripTrimmed(lowered);
    StripsToExactly(lowered, BURNED);
    assert lowered[7..7 + |BURNED|] == BURNED;
    ContainsAt(lowered, BURNED, 7);
  }

  lemma NotSpent(reason: string, lowered: string)
    requires Lower(reason) == lowered && !StripsTo(lowered, BURNED) && Contains(lowered, BURNED)
    requires reason != "pending"
    ensures RefusalOf(Field.Text(reason)) == OutputInUse
  {
  }

  lemma UnknownReads()
    ensures Classify(UNKNOWN) == NoteUnknown
  {
    LowerAppend("Unknown", " note.");
    assert Lower("Unknown") == "unknown" && Lower(" note.") == " note.";
    var lowered := "unknown" + " note.";
    StripTrimmed(lowered);
    StripsToExactly(lowered, BURNED);
    ContainsFirst(lowered, BURNED);
    ContainsFirst(lowered, "spent");
    assert BURNED[0] == 'a' && "spent"[0] == 's' && 'a' !in lowered && 's' !in lowered;
    assert lowered[0..7] == "unknown";
    ContainsAt(lowered, "unknown", 0);
    ReadsAsUnknown(UNKNOWN, lowered);
  }

  lemma ReadsAsUnknown(reason: string, lowered: string)
    requires Lower(reason) == lowered && !StripsTo(lowered, BURNED)
    requires !Contains(lowered, BURNED) && !Contains(lowered, "spent") && Contains(lowered, "unknown")
    ensures Classify(reason) == NoteUnknown
  {
  }

  /** The output a generated request names is hex, so it is never taken for a `cp1`. */
  lemma HexIsNoCp1(w: Wallet, output: string)
    requires |Strip(output)| == 64 && IsHex(Strip(output))
    ensures !NamesCp1(w, output)
  {
    var hex := Strip(output);
    var s := Lower(hex);
    LoweredHex(hex, s);
    NoCp1(w, output, s);
  }

  lemma LoweredHex(hex: string, s: string)
    requires |hex| == 64 && IsHex(hex) && s == Lower(hex)
    ensures |s| == 64 && Strip(s) == s && LowerChar(s[1]) != 'p'
  {
    assert s[0] == LowerChar(hex[0]) && s[63] == LowerChar(hex[63]);
    StripTrimmed(s);
    HexStaysHex(hex[1]);
  }

  lemma NoCp1(w: Wallet, output: string, s: string)
    requires s == Lower(Strip(output)) && |s| == 64 && Strip(s) == s && LowerChar(s[1]) != 'p'
    ensures !NamesCp1(w, output)
  {
    Cp1Prefix(s);
  }

  lemma HexStaysHex(c: char)
    requires IsHexDigit(c)
    ensures LowerChar(LowerChar(c)) != 'p'
  {
  }

  lemma Cp1Prefix(s: string)
    requires |s| == 64 && Strip(s) == s
    ensures DecodeFixed("cp", s, 32).Some? ==> LowerChar(s[1]) == 'p'
  {
    if DecodeFixed("cp", s, 32).Some? {
      Bech32.DecodedEncodes(s, Bech32.LIMIT, Bech32.Checksum.BECH32M);
      assert Lower(s)[1] == "cp"[1];
    }
  }

  // ---- the kinds of failure ----

  lemma PreserveKeepsKind(r: Request, e: Error)
    requires !IsAmbiguous(e.kind)
    ensures Preserve(r, e).kind == e.kind
  {
  }

  lemma ParseFails(r: Request, b: Body)
    requires !b.OtherBody? && Parse(r, b).Err?
    ensures b.ErrorBody? ==> Parse(r, b).error.kind == RefusalOf(b.reason)
    ensures b.OkBody? ==> Parse(r, b).error.kind == UnverifiableNote
  {
  }

  lemma RefusedAs(r: Request, reason: Field, kind: ErrorKind)
    requires RefusalOf(reason) == kind
    ensures AttemptOf(r, Readable(ErrorBody(reason))) == Raised(Preserve(r, Error(kind, [])))
  {
  }

  lemma PlainRefusalIsKept(r: Request, e: Error)
    requires IsRejection(e.kind) && !e.kind.NoteSpent? && !e.kind.NoteUnknown?
    ensures Preserve(r, e) == e
  {
  }
}
