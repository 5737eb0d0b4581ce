/**
 Note URLs, as the pair lists their queries parse to: what a note claims, and the rewrite that swaps its secret after a
 rotate, split or merge.
 */
module Note {
  import opened Prelude
  import opened Text
  import opened Certificates

  type Pair = (string, string)

  // ---- reading ----

  /** `_first`: the first value under a key. */
  function First(pairs: seq<Pair>, key: string): Option<string> {
    if pairs == [] then None
    else if pairs[0].0 == key then Some(pairs[0].1)
    else First(pairs[1..], key)
  }

  function NoteK1(pairs: seq<Pair>): Option<string> {
    match First(pairs, "k1")
    case Some(value) => Some(Lower(value))
    case None => None
  }

  /** `c`, or the legacy `sig` where `c` is missing or empty. */
  function NoteSignature(pairs: seq<Pair>): Option<string> {
    var c := First(pairs, "c");
    if c.Some? && c.value != "" then c else First(pairs, "sig")
  }

  predicate NoneUnder(pairs: seq<Pair>, key: string) {
    forall i :: 0 <= i < |pairs| ==> pairs[i].0 != key
  }

  /** The first value under a key, and where it stands. */
  predicate FirstAt(pairs: seq<Pair>, key: string, at: nat) {
    at < |pairs| && pairs[at].0 == key && NoneUnder(pairs[..at], key)
  }

  lemma {:induction false} FirstExactly(pairs: seq<Pair>, key: string)
    ensures First(pairs, key).None? <==> NoneUnder(pairs, key)
    ensures forall at: nat :: FirstAt(pairs, key, at) ==> First(pairs, key) == Some(pairs[at].1)
  {
    if pairs != [] {
      FirstExactly(pairs[1..], key);
      forall at: nat | FirstAt(pairs, key, at) ensures First(pairs, key) == Some(pairs[at].1) {
        if at > 0 {
          FirstShifts(pairs, key, at);
        }
      }
      NoneUnderRest(pairs, key);
    }
  }

  lemma NoneUnderRest(pairs: seq<Pair>, key: string)
    requires pairs != []
    ensures NoneUnder(pairs, key) <==> pairs[0].0 != key && NoneUnder(pairs[1..], key)
  {
    assert pairs == [pairs[0]] + pairs[1..];
  }

  lemma FirstShifts(pairs: seq<Pair>, key: string, at: nat)
    requires FirstAt(pairs, key, at) && at > 0
    ensures pairs[0].0 != key && FirstAt(pairs[1..], key, at - 1)
  {
    NoneUnderRest(pairs[..at], key);
    assert pairs[..at][0] == pairs[0] && pairs[..at][1..] == pairs[1..][..at - 1];
  }

  /**
   A note's certificate on any pair list: its first `c`, unless that is missing or empty, and then its first `sig`.
   */
  lemma SignatureExactly(pairs: seq<Pair>)
    ensures forall at: nat :: FirstAt(pairs, "c", at) && pairs[at].1 != "" ==> NoteSignature(pairs) == Some(pairs[at].1)
    ensures (NoneUnder(pairs, "c") || exists at: nat :: FirstAt(pairs, "c", at) && pairs[at].1 == "") ==>
              && (NoneUnder(pairs, "sig") ==> NoteSignature(pairs).None?)
              && forall at: nat :: FirstAt(pairs, "sig", at) ==> NoteSignature(pairs) == Some(pairs[at].1)
  {
    FirstExactly(pairs, "c");
    FirstExactly(pairs, "sig");
  }

  /** Its secret is the first `k1`, in lower case. */
  lemma K1Exactly(pairs: seq<Pair>)
    ensures NoneUnder(pairs, "k1") <==> NoteK1(pairs).None?
    ensures forall at: nat :: FirstAt(pairs, "k1", at) ==> NoteK1(pairs) == Some(Lower(pairs[at].1))
  {
    FirstExactly(pairs, "k1");
  }

  /** The amount a certificate states, where it states one. */
  function CertifiedAmount(signature: Option<string>): Option<nat> {
    if signature.None? || signature.value == "" then None
    else
      match DecodeCs1WithAmount(signature.value)
      case Some(certificate) => Some(certificate.amountMsat)
      case None => None
  }

  /** `note_declared_amount`. `numeral` is what `int`, then `float`, make of a value: `None` where neither is whole. */
  function NoteDeclaredAmount(numeral: string -> Option<int>, pairs: seq<Pair>): Option<int> {
    match First(pairs, "amount")
    case Some(raw) => numeral(raw)
    case None =>
      match CertifiedAmount(NoteSignature(pairs))
      case Some(amount) => Some(amount)
      case None => None
  }

  /** `str(n)`. */
  function Numeral(n: int): string {
    if n >= 0 then Decimal(n) else "-" + Decimal(-n)
  }

  /** All that is taken of `int`: it reads what `str` writes. */
  ghost predicate ReadsNumerals(numeral: string -> Option<int>) {
    forall n: int :: numeral(Numeral(n)) == Some(n)
  }

  // ---- the rewrite ----

  /**
   What a rewrite puts in: a secret or none, an amount unless the certificate implies it, and a certificate if any.
   */
  datatype Rewrite = Rewrite(k1: Option<string>, amount: string, implied: bool, certificate: Option<string>)

  /** The three kinds of pair a rewrite touches. */
  datatype Kind = K1 | Amount | Certificate | Unrelated

  function KindOf(key: string): Kind {
    if key == "k1" then K1
    else if key == "amount" then Amount
    else if key == "c" || key == "sig" then Certificate
    else Unrelated
  }

  predicate Has(pairs: seq<Pair>, kind: Kind) {
    exists i :: 0 <= i < |pairs| && KindOf(pairs[i].0) == kind
  }

  function OptionalPair(key: string, value: Option<string>): seq<Pair> {
    if value.Some? then [(key, value.value)] else []
  }

  /** What one pair becomes, given whether a certificate came before it. */
  function One(o: Rewrite, pair: Pair, certified: bool): (r: seq<Pair>)
    ensures |r| <= 1
  {
    match KindOf(pair.0)
    case K1 => OptionalPair("k1", o.k1)
    case Amount => if o.implied then [] else [("amount", o.amount)]
    case Certificate => if certified then [] else OptionalPair("c", o.certificate)
    case Unrelated => [pair]
  }

  /** What the pairs already there become, in their places. */
  function InPlace(o: Rewrite, pairs: seq<Pair>): seq<Pair> {
    if pairs == [] then []
    else
      var front := pairs[..|pairs| - 1];
      InPlace(o, front) + One(o, pairs[|pairs| - 1], Has(front, Certificate))
  }

  function MissingK1(o: Rewrite, pairs: seq<Pair>): (r: seq<Pair>)
    ensures |r| <= 1 && (r != [] ==> KindOf(r[0].0) == K1)
  {
    if Has(pairs, K1) then [] else OptionalPair("k1", o.k1)
  }

  function MissingAmount(o: Rewrite, pairs: seq<Pair>): (r: seq<Pair>)
    ensures |r| <= 1 && (r != [] ==> KindOf(r[0].0) == Amount)
  {
    if Has(pairs, Amount) || o.implied then [] else [("amount", o.amount)]
  }

  function MissingCert(o: Rewrite, pairs: seq<Pair>): (r: seq<Pair>)
    ensures |r| <= 1 && (r != [] ==> KindOf(r[0].0) == Certificate)
  {
    if Has(pairs, Certificate) then [] else OptionalPair("c", o.certificate)
  }

  /** The pairs rewritten: in place where they stand, and appended where they are missing. */
  function Rewritten(o: Rewrite, pairs: seq<Pair>): seq<Pair> {
    InPlace(o, pairs) + MissingK1(o, pairs) + MissingAmount(o, pairs) + MissingCert(o, pairs)
  }

  function RewriteOf(k1: Option<string>, amount: int, signature: Option<string>): Rewrite {
    Rewrite(k1, Numeral(amount), CertifiedAmount(signature).Some?,
            if signature.Some? && signature.value != "" then signature else None)
  }

  /** `with_new_k1`. */
  method WithNewK1(query: seq<Pair>, k1: string, amount: int, signature: Option<string>) returns (pairs: seq<Pair>)
    ensures pairs == Rewritten(RewriteOf(Some(Lower(k1)), amount, signature), query)
  {
    var amountIsImplied := CertifiedAmount(signature).Some?;
    var certificate := if signature.Some? && signature.value != "" then signature else None;
    pairs := ReplaceK1(query, Lower(k1), Numeral(amount), amountIsImplied, certificate);
  }

  method ReplaceK1(query: seq<Pair>, k1: string, amount: string, amountIsImplied: bool, certificate: Option<string>)
    returns (pairs: seq<Pair>)
    ensures pairs == Rewritten(Rewrite(Some(k1), amount, amountIsImplied, certificate), query)
  {
    ghost var o := Rewrite(Some(k1), amount, amountIsImplied, certificate);
    pairs := [];
    var replacedK1, replacedAmount, replacedSig := false, false, false;
    for i := 0 to |query|
      invariant pairs == InPlace(o, query[..i])
      invariant replacedK1 == Has(query[..i], K1)
      invariant replacedAmount == (Has(query[..i], Amount) && !amountIsImplied)
      invariant replacedSig == (Has(query[..i], Certificate) && certificate.Some?)
    {
      InPlaceNext(o, query, i);
      var (key, value) := query[i];
      match KindOf(key) {
        case K1 =>
          pairs := pairs + [("k1", k1)];
          replacedK1 := true;
        case Amount =>
          if !amountIsImplied {
            pairs := pairs + [("amount", amount)];
            replacedAmount := true;
          }
        case Certificate =>
          if certificate.Some? && !replacedSig {
            pairs := pairs + [("c", certificate.value)];
            replacedSig := true;
          }
        case Unrelated =>
          pairs := pairs + [(key, value)];
      }
    }
    assert query[..|query|] == query;
    assert pairs == InPlace(o, query);
    if !replacedK1 {
      pairs := pairs + [("k1", k1)];
    }
    assert pairs == InPlace(o, query) + MissingK1(o, query);
    if !replacedAmount && !amountIsImplied {
      pairs := pairs + [("amount", amount)];
    }
    if certificate.Some? && !replacedSig {
      pairs := pairs + [("c", certificate.value)];
    }
  }

  /** `without_k1`. */
  method WithoutK1(query: seq<Pair>, amount: int, signature: Option<string>) returns (pairs: seq<Pair>)
    ensures pairs == Rewritten(RewriteOf(None, amount, signature), query)
  {
    var amountIsImplied := CertifiedAmount(signature).Some?;
    var certificate := if signature.Some? && signature.value != "" then signature else None;
    pairs := RemoveK1(query, Numeral(amount), amountIsImplied, certificate);
  }

  method RemoveK1(query: seq<Pair>, amount: string, amountIsImplied: bool, certificate: Option<string>)
    returns (pairs: seq<Pair>)
    ensures pairs == Rewritten(Rewrite(None, amount, amountIsImplied, certificate), query)
  {
    ghost var o := Rewrite(None, amount, amountIsImplied, certificate);
    pairs := [];
    var seenAmount, seenSig := false, false;
    for i := 0 to |query|
      invariant pairs == InPlace(o, query[..i])
      invariant seenAmount == (Has(query[..i], Amount) && !amountIsImplied)
      invariant seenSig == (Has(query[..i], Certificate) && certificate.Some?)
    {
      InPlaceNext(o, query, i);
      var (key, value) := query[i];
      match KindOf(key) {
        case K1 =>
          continue;
        case Amount =>
          if !amountIsImplied {
            pairs := pairs + [("amount", amount)];
            seenAmount := true;
          }
        case Certificate =>
          if certificate.Some? && !seenSig {
            pairs := pairs + [("c", certificate.value)];
            seenSig := true;
          }
        case Unrelated =>
          pairs := pairs + [(key, value)];
      }
    }
    assert query[..|query|] == query;
    assert pairs == InPlace(o, query);
    if !seenAmount && !amountIsImplied {
      pairs := pairs + [("amount", amount)];
    }
    if certificate.Some? && !seenSig {
      pairs := pairs + [("c", certificate.value)];
    }
  }

  lemma InPlaceNext(o: Rewrite, query: seq<Pair>, i: nat)
    requires i < |query|
    ensures InPlace(o, query[..i + 1]) == InPlace(o, query[..i]) + One(o, query[i], Has(query[..i], Certificate))
    ensures Has(query[..i + 1], K1) <==> Has(query[..i], K1) || KindOf(query[i].0) == K1
    ensures Has(query[..i + 1], Amount) <==> Has(query[..i], Amount) || KindOf(query[i].0) == Amount
    ensures Has(query[..i + 1], Certificate) <==> Has(query[..i], Certificate) || KindOf(query[i].0) == Certificate
  {
    assert query[..i + 1][..i] == query[..i];
    HasSnoc(query[..i], query[i]);
    assert query[..i] + [query[i]] == query[..i + 1];
  }

  lemma HasSnoc(pairs: seq<Pair>, last: Pair)
    ensures forall kind :: Has(pairs + [last], kind) <==> Has(pairs, kind) || KindOf(last.0) == kind
  {
    var all := pairs + [last];
    assert forall i :: 0 <= i < |pairs| ==> all[i] == pairs[i];
    assert all[|pairs|] == last;
  }

  // ---- what it keeps ----

  lemma HasMore(pairs: seq<Pair>, more: seq<Pair>)
    requires |more| <= 1
    ensures forall kind :: Has(pairs + more, kind) <==> Has(pairs, kind) || (more != [] && KindOf(more[0].0) == kind)
  {
    if more == [] {
      assert pairs + more == pairs;
    } else {
      assert more == [more[0]];
      HasSnoc(pairs, more[0]);
    }
  }

  lemma InPlaceMore(o: Rewrite, pairs: seq<Pair>, more: seq<Pair>)
    requires |more| <= 1
    ensures InPlace(o, pairs + more) ==
            InPlace(o, pairs) + (if more == [] then [] else One(o, more[0], Has(pairs, Certificate)))
  {
    if more == [] {
      assert pairs + more == pairs;
    } else {
      assert (pairs + more)[..|pairs|] == pairs;
    }
  }

  /** Which of the rewritten keys are there afterwards. */
  lemma {:induction false} InPlaceKeys(o: Rewrite, pairs: seq<Pair>)
    ensures Has(InPlace(o, pairs), K1) <==> Has(pairs, K1) && o.k1.Some?
    ensures Has(InPlace(o, pairs), Amount) <==> Has(pairs, Amount) && !o.implied
    ensures Has(InPlace(o, pairs), Certificate) <==> Has(pairs, Certificate) && o.certificate.Some?
  {
    if pairs != [] {
      var n := |pairs| - 1;
      var front, last := pairs[..n], pairs[n];
      assert pairs == front + [last];
      InPlaceKeys(o, front);
      HasSnoc(front, last);
      HasMore(InPlace(o, front), One(o, last, Has(front, Certificate)));
    }
  }

  /** Two rewrites that put in, and leave out, the same things, though not with the same values. */
  predicate SameShape(a: Rewrite, b: Rewrite) {
    a.implied == b.implied && a.certificate.Some? == b.certificate.Some? && (b.k1.Some? ==> a.k1.Some?)
  }

  lemma {:induction false} InPlaceTwice(a: Rewrite, b: Rewrite, pairs: seq<Pair>)
    requires SameShape(a, b)
    ensures InPlace(b, InPlace(a, pairs)) == InPlace(b, pairs)
  {
    if pairs != [] {
      var n := |pairs| - 1;
      var front, last := pairs[..n], pairs[n];
      InPlaceTwice(a, b, front);
      InPlaceKeys(a, front);
      InPlaceMore(b, InPlace(a, front), One(a, last, Has(front, Certificate)));
      OneTwice(a, b, last, Has(front, Certificate), Has(InPlace(a, front), Certificate));
    }
  }

  /** One pair rewritten twice is the pair rewritten the second way. */
  lemma OneTwice(a: Rewrite, b: Rewrite, pair: Pair, certified: bool, again: bool)
    requires SameShape(a, b) && again == (certified && a.certificate.Some?)
    ensures var once := One(a, pair, certified);
      (if once == [] then [] else One(b, once[0], again)) == One(b, pair, certified)
  {
  }

  /** What a first rewrite appends, a second rewrites to what it would itself have appended. */
  lemma MissingK1Twice(a: Rewrite, b: Rewrite, pairs: seq<Pair>, kept: seq<Pair>)
    requires SameShape(a, b)
    ensures InPlace(b, kept + MissingK1(a, pairs)) == InPlace(b, kept) + MissingK1(b, pairs)
  {
    InPlaceMore(b, kept, MissingK1(a, pairs));
  }

  lemma MissingAmountTwice(a: Rewrite, b: Rewrite, pairs: seq<Pair>, kept: seq<Pair>)
    requires SameShape(a, b)
    ensures InPlace(b, kept + MissingAmount(a, pairs)) == InPlace(b, kept) + MissingAmount(b, pairs)
  {
    InPlaceMore(b, kept, MissingAmount(a, pairs));
  }

  lemma MissingCertTwice(a: Rewrite, b: Rewrite, pairs: seq<Pair>, kept: seq<Pair>)
    requires SameShape(a, b) && (Has(kept, Certificate) ==> Has(pairs, Certificate))
    ensures InPlace(b, kept + MissingCert(a, pairs)) == InPlace(b, kept) + MissingCert(b, pairs)
  {
    if Has(pairs, Certificate) || a.certificate.None? {
      assert MissingCert(a, pairs) == [] && MissingCert(b, pairs) == [];
      assert kept + [] == kept;
    } else {
      InPlaceMore(b, kept, [("c", a.certificate.value)]);
    }
  }

  /** Nothing a second rewrite puts in is still missing after a first. */
  lemma NothingMissing(a: Rewrite, b: Rewrite, pairs: seq<Pair>)
    requires SameShape(a, b)
    ensures MissingK1(b, Rewritten(a, pairs)) == MissingAmount(b, Rewritten(a, pairs)) ==
            MissingCert(b, Rewritten(a, pairs)) == []
  {
    var k, m, c := MissingK1(a, pairs), MissingAmount(a, pairs), MissingCert(a, pairs);
    var kept := InPlace(a, pairs);
    InPlaceKeys(a, pairs);
    HasMore(kept, k);
    HasMore(kept + k, m);
    HasMore(kept + k + m, c);
  }

  lemma InPlaceLastWins(a: Rewrite, b: Rewrite, pairs: seq<Pair>)
    requires SameShape(a, b)
    ensures InPlace(b, Rewritten(a, pairs)) == Rewritten(b, pairs)
  {
    var kept := InPlace(a, pairs);
    var k, m := MissingK1(a, pairs), MissingAmount(a, pairs);
    InPlaceTwice(a, b, pairs);
    MissingK1Twice(a, b, pairs, kept);
    MissingAmountTwice(a, b, pairs, kept + k);
    CertStillMissing(a, pairs);
    MissingCertTwice(a, b, pairs, kept + k + m);
  }

  lemma CertStillMissing(a: Rewrite, pairs: seq<Pair>)
    ensures Has(InPlace(a, pairs) + MissingK1(a, pairs) + MissingAmount(a, pairs), Certificate) ==>
            Has(pairs, Certificate)
  {
    InPlaceKeys(a, pairs);
    HasMore(InPlace(a, pairs), MissingK1(a, pairs));
    HasMore(InPlace(a, pairs) + MissingK1(a, pairs), MissingAmount(a, pairs));
  }

  /** The last of two rewrites of the same shape wins outright, on any pair list, as if the first had never happened. */
  lemma LastRewriteWins(a: Rewrite, b: Rewrite, pairs: seq<Pair>)
    requires SameShape(a, b)
    ensures Rewritten(b, Rewritten(a, pairs)) == Rewritten(b, pairs)
  {
    InPlaceLastWins(a, b, pairs);
    NothingMissing(a, b, pairs);
  }

  /**
   What that says of the two operations, given the same amount and certificate: `with_new_k1` is idempotent and forgets
   an earlier secret, and `without_k1` undoes it.
   */
  lemma WithoutForgetsWith(pairs: seq<Pair>, first: string, second: string, amount: int, signature: Option<string>)
    ensures var with := RewriteOf(Some(first), amount, signature);
      var again, without := RewriteOf(Some(second), amount, signature), RewriteOf(None, amount, signature);
      && Rewritten(with, Rewritten(with, pairs)) == Rewritten(with, pairs)
      && Rewritten(again, Rewritten(with, pairs)) == Rewritten(again, pairs)
      && Rewritten(without, Rewritten(with, pairs)) == Rewritten(without, pairs)
  {
    var with := RewriteOf(Some(first), amount, signature);
    LastRewriteWins(with, with, pairs);
    LastRewriteWins(with, RewriteOf(Some(second), amount, signature), pairs);
    LastRewriteWins(with, RewriteOf(None, amount, signature), pairs);
  }

  // ---- pairs the rewrite has no business with ----

  function Others(pairs: seq<Pair>): seq<Pair> {
    if pairs == [] then []
    else
      var n := |pairs| - 1;
      Others(pairs[..n]) + if KindOf(pairs[n].0) == Unrelated then [pairs[n]] else []
  }

  lemma OthersMore(pairs: seq<Pair>, more: seq<Pair>)
    requires |more| <= 1
    ensures Others(pairs + more) == Others(pairs) + if more != [] && KindOf(more[0].0) == Unrelated then more else []
  {
    if more == [] {
      assert pairs + more == pairs;
    } else {
      assert (pairs + more)[..|pairs|] == pairs;
    }
  }

  lemma {:induction false} OthersInPlace(o: Rewrite, pairs: seq<Pair>)
    ensures Others(InPlace(o, pairs)) == Others(pairs)
  {
    if pairs != [] {
      var front, last := pairs[..|pairs| - 1], pairs[|pairs| - 1];
      OthersInPlace(o, front);
      OthersMore(InPlace(o, front), One(o, last, Has(front, Certificate)));
    }
  }

  /** Every unrelated pair is kept, repeats and all, in its order, and none is added. */
  lemma OthersKept(o: Rewrite, pairs: seq<Pair>)
    ensures Others(Rewritten(o, pairs)) == Others(pairs)
  {
    var k, m, c := MissingK1(o, pairs), MissingAmount(o, pairs), MissingCert(o, pairs);
    var kept := InPlace(o, pairs);
    OthersInPlace(o, pairs);
    OthersSkip(kept, k);
    OthersSkip(kept + k, m);
    OthersSkip(kept + k + m, c);
  }

  lemma OthersSkip(pairs: seq<Pair>, more: seq<Pair>)
    requires |more| <= 1 && (more != [] ==> KindOf(more[0].0) != Unrelated)
    ensures Others(pairs + more) == Others(pairs)
  {
    OthersMore(pairs, more);
  }

  // ---- reading back ----

  lemma {:induction false} FirstMore(pairs: seq<Pair>, more: seq<Pair>, key: string)
    requires |more| <= 1
    ensures First(pairs + more, key) ==
            if First(pairs, key).Some? then First(pairs, key)
            else if more != [] && more[0].0 == key then Some(more[0].1) else None
  {
    if pairs == [] {
      assert pairs + more == more;
    } else {
      assert (pairs + more)[1..] == pairs[1..] + more;
      FirstMore(pairs[1..], more, key);
    }
  }

  /** What a rewrite leaves under each of the keys. */
  ghost predicate Reads(pairs: seq<Pair>, k1: Option<string>, amount: Option<string>, certificate: Option<string>) {
    && First(pairs, "k1") == k1 && First(pairs, "amount") == amount
    && First(pairs, "c") == certificate && First(pairs, "sig") == None
  }

  function When<T>(b: bool, value: Option<T>): Option<T> {
    if b then value else None
  }

  lemma ReadsMore(pairs: seq<Pair>, more: seq<Pair>, k1: Option<string>, amount: Option<string>,
                  certificate: Option<string>)
    requires Reads(pairs, k1, amount, certificate) && |more| <= 1
    requires more != [] ==> more[0].0 != "sig"
    ensures Reads(pairs + more,
                  if k1.None? && more != [] && more[0].0 == "k1" then Some(more[0].1) else k1,
                  if amount.None? && more != [] && more[0].0 == "amount" then Some(more[0].1) else amount,
                  if certificate.None? && more != [] && more[0].0 == "c" then Some(more[0].1) else certificate)
  {
    FirstMore(pairs, more, "k1");
    FirstMore(pairs, more, "amount");
    FirstMore(pairs, more, "c");
    FirstMore(pairs, more, "sig");
  }

  lemma {:induction false} InPlaceReads(o: Rewrite, pairs: seq<Pair>)
    ensures Reads(InPlace(o, pairs), When(Has(pairs, K1), o.k1), When(Has(pairs, Amount) && !o.implied, Some(o.amount)),
                  When(Has(pairs, Certificate), o.certificate))
  {
    if pairs != [] {
      var n := |pairs| - 1;
      var front, last := pairs[..n], pairs[n];
      assert pairs == front + [last];
      InPlaceReads(o, front);
      HasSnoc(front, last);
      ReadsMore(InPlace(o, front), One(o, last, Has(front, Certificate)),
                When(Has(front, K1), o.k1), When(Has(front, Amount) && !o.implied, Some(o.amount)),
                When(Has(front, Certificate), o.certificate));
    }
  }

  /** On every pair list, repeats included, what was put in is what is read first, and the legacy key is gone. */
  lemma RewrittenReads(o: Rewrite, pairs: seq<Pair>)
    ensures Reads(Rewritten(o, pairs), o.k1, When(!o.implied, Some(o.amount)), o.certificate)
  {
    var k, m, c := MissingK1(o, pairs), MissingAmount(o, pairs), MissingCert(o, pairs);
    var kept := InPlace(o, pairs);
    InPlaceReads(o, pairs);
    var amount0 := When(Has(pairs, Amount) && !o.implied, Some(o.amount));
    var cert0 := When(Has(pairs, Certificate), o.certificate);
    ReadsMore(kept, k, When(Has(pairs, K1), o.k1), amount0, cert0);
    ReadsMore(kept + k, m, o.k1, amount0, cert0);
    ReadsMore(kept + k + m, c, o.k1, When(!o.implied, Some(o.amount)), cert0);
  }

  /**
   What `with_new_k1` was given is what the readers find: the secret in lower case, the certificate if it is not empty,
   and the amount the certificate states or, where it states none, the amount given.
   */
  lemma NoteReadsBack(numeral: string -> Option<int>, pairs: seq<Pair>, k1: string, amount: int,
                      signature: Option<string>)
    requires ReadsNumerals(numeral)
    ensures var note := Rewritten(RewriteOf(Some(Lower(k1)), amount, signature), pairs);
      && NoteK1(note) == Some(Lower(k1))
      && NoteSignature(note) == When(signature != Some(""), signature)
      && NoteDeclaredAmount(numeral, note) ==
         (match CertifiedAmount(signature) case Some(certified) => Some(certified) case None => Some(amount))
  {
    var o := RewriteOf(Some(Lower(k1)), amount, signature);
    RewrittenReads(o, pairs);
    LowerIdempotent(k1);
    assert numeral(Numeral(amount)) == Some(amount);
  }
}
