/** LUD-25's leaf rules: the tapscript scanner that refuses BIP-342's upgrade hooks. */
module LeafPolicy {
  import opened Prelude
  import Taproot

  datatype Verdict = Allowed | WrongVersion(version: byte) | PushPastEnd | UpgradeHook(op: byte)

  /** BIP-342's OP_SUCCESSx. */
  predicate IsOpSuccess(op: byte) {
    || op == 80 || op == 98 || 126 <= op <= 129 || 131 <= op <= 134 || 137 <= op <= 138 || 141 <= op <= 142
    || 149 <= op <= 153 || 187 <= op <= 254
  }

  predicate IsDirectPush(op: byte) {
    0x01 <= op <= 0x4B
  }

  predicate IsPushData(op: byte) {
    op == 0x4C || op == 0x4D || op == 0x4E
  }

  /** How many bytes a PUSHDATA opcode gives its length in. */
  function LengthWidth(op: byte): (w: nat)
    requires IsPushData(op)
    ensures w in {1, 2, 4}
  {
    if op == 0x4C then 1 else if op == 0x4D then 2 else 4
  }

  /** The first operation of a script: its header and the data it pushes, or why there is none. */
  datatype Layout = Complete(header: nat, data: nat) | CutShort(header: nat) | Hook

  function LayoutOf(script: Bytes): (l: Layout)
    requires script != []
    ensures l.Complete? ==> l.header > 0 && l.header + l.data <= |script|
    ensures l.CutShort? ==> 0 < l.header <= |script|
  {
    var op := script[0];
    if IsDirectPush(op) then
      if 1 + op <= |script| then Complete(1, op) else CutShort(1)
    else if IsPushData(op) then
      var width := LengthWidth(op);
      if 1 + width > |script| then CutShort(|script|)
      else
        var length := FromLE(script[1..1 + width]);
        if 1 + width + length <= |script| then Complete(1 + width, length) else CutShort(1 + width)
    else if IsOpSuccess(op) then Hook
    else Complete(1, 0)
  }

  /** The verdict on a tapscript: the first operation that is cut short or reserved decides. */
  function Judge(script: Bytes): Verdict {
    if script == [] then Allowed
    else
      match LayoutOf(script)
      case Complete(header, data) => Judge(script[header + data..])
      case CutShort(_) => PushPastEnd
      case Hook => UpgradeHook(script[0])
  }

  function PolicyOf(version: byte, script: Bytes): Verdict {
    if version != Taproot.TAPLEAF_VERSION then WrongVersion(version) else Judge(script)
  }

  /** Where the operation at an index leads: to a verdict, or to the index after it. */
  datatype Step = Stop(verdict: Verdict) | Next(at: nat)

  function StepAt(script: Bytes, at: nat): (s: Step)
    requires at < |script|
    ensures s.Next? ==> s.at <= |script|
  {
    var op := script[at];
    var width := if IsPushData(op) then LengthWidth(op) else 0;
    if at + 1 + width > |script| then Stop(PushPastEnd)
    else if IsOpSuccess(op) then Stop(UpgradeHook(op))
    else
      var length := if IsDirectPush(op) then op else FromLE(script[at + 1..at + 1 + width]);
      if at + 1 + width + length > |script| then Stop(PushPastEnd) else Next(at + 1 + width + length)
  }

  function VerdictOf(script: Bytes, s: Step): Verdict
    requires s.Next? ==> s.at <= |script|
  {
    if s.Stop? then s.verdict else Judge(script[s.at..])
  }

  /** `check_leaf_policy`: one pass with an index. */
  method CheckLeafPolicy(version: byte, script: Bytes) returns (verdict: Verdict)
    ensures verdict == PolicyOf(version, script)
  {
    if version != Taproot.TAPLEAF_VERSION {
      return WrongVersion(version);
    }
    var i := 0;
    assert script[0..] == script;
    while i < |script|
      invariant 0 <= i <= |script|
      invariant Judge(script[i..]) == Judge(script)
    {
      ghost var step := StepAt(script, i);
      AtIndex(script, i);
      var op := script[i];
      i := i + 1;
      var length := 0;
      if 0x01 <= op <= 0x4B {
        length := op;
      } else if op == 0x4C || op == 0x4D || op == 0x4E {
        var width := if op == 0x4C then 1 else if op == 0x4D then 2 else 4;
        if i + width > |script| {
          return PushPastEnd;
        }
        length := FromLE(script[i..i + width]);
        i := i + width;
      } else if IsOpSuccess(op) {
        return UpgradeHook(op);
      }
      if i + length > |script| {
        return PushPastEnd;
      }
      i := i + length;
      assert step == Next(i);
    }
    return Allowed;
  }

  /** The operation that starts at an index, read through the index. */
  lemma AtIndex(script: Bytes, at: nat)
    requires at < |script|
    ensures Judge(script[at..]) == VerdictOf(script, StepAt(script, at))
  {
    var rest := script[at..];
    var width := if IsPushData(script[at]) then LengthWidth(script[at]) else 0;
    if at + 1 + width <= |script| {
      SliceOfRest(script, at, 1, 1 + width);
      NothingIsZero(script[at + 1..at + 1]);
    }
    var l := LayoutOf(rest);
    if l.Complete? {
      assert rest[l.header + l.data..] == script[at + l.header + l.data..];
    }
  }

  lemma SliceOfRest(script: Bytes, at: nat, from: nat, to: nat)
    requires from <= to && at + to <= |script|
    ensures script[at..][from..to] == script[at + from..at + to]
  {
  }

  lemma NothingIsZero(b: Bytes)
    requires b == []
    ensures FromLE(b) == 0
  {
  }

  // ---- the grammar ----

  datatype Operation = Single(op: byte) | Push(op: byte, data: Bytes)

  predicate ValidOperation(o: Operation) {
    match o
    case Single(op) => !IsDirectPush(op) && !IsPushData(op) && !IsOpSuccess(op)
    case Push(op, data) =>
      if IsDirectPush(op) then |data| == op
      else IsPushData(op) && |data| < Pow(256, LengthWidth(op))
  }

  predicate ValidOperations(os: seq<Operation>) {
    forall i :: 0 <= i < |os| ==> ValidOperation(os[i])
  }

  function Render(o: Operation): (b: Bytes)
    requires ValidOperation(o)
    ensures b != []
  {
    match o
    case Single(op) => [op]
    case Push(op, data) =>
      if IsDirectPush(op) then [op] + data else [op] + ToLE(|data|, LengthWidth(op)) + data
  }

  function RenderAll(os: seq<Operation>): Bytes
    requires ValidOperations(os)
  {
    if os == [] then [] else Render(os[0]) + RenderAll(os[1..])
  }

  lemma RenderLayout(o: Operation, rest: Bytes)
    requires ValidOperation(o)
    ensures var l := LayoutOf(Render(o) + rest);
      l.Complete? && l.header + l.data == |Render(o)|
  {
    if o.Push? && IsPushData(o.op) {
      var width := LengthWidth(o.op);
      FromToLE(|o.data|, width);
      assert (Render(o) + rest)[1..1 + width] == ToLE(|o.data|, width);
    }
  }

  /** Judging reads well-formed operations one by one and goes on with what follows them. */
  lemma JudgeNext(o: Operation, rest: Bytes)
    requires ValidOperation(o)
    ensures Judge(Render(o) + rest) == Judge(rest)
  {
    RenderLayout(o, rest);
    assert (Render(o) + rest)[|Render(o)|..] == rest;
  }

  lemma {:induction false} JudgeRendered(os: seq<Operation>, rest: Bytes)
    requires ValidOperations(os)
    ensures Judge(RenderAll(os) + rest) == Judge(rest)
  {
    if os == [] {
      assert RenderAll(os) + rest == rest;
    } else {
      JudgeRendered(os[1..], rest);
      JudgeNext(os[0], RenderAll(os[1..]) + rest);
      Associates(Render(os[0]), RenderAll(os[1..]), rest);
    }
  }

  /** The operation at the head of a script that has a complete one. */
  function HeadOperation(script: Bytes): (o: Operation)
    requires script != [] && LayoutOf(script).Complete?
    ensures ValidOperation(o)
  {
    var l := LayoutOf(script);
    if IsDirectPush(script[0]) || IsPushData(script[0]) then
      Push(script[0], script[l.header..l.header + l.data])
    else Single(script[0])
  }

  lemma RenderHead(script: Bytes)
    requires script != [] && LayoutOf(script).Complete?
    ensures var l := LayoutOf(script);
      Render(HeadOperation(script)) == script[..l.header + l.data]
  {
    var l := LayoutOf(script);
    if IsPushData(script[0]) {
      var width := LengthWidth(script[0]);
      var length := script[1..1 + width];
      assert ToLE(FromLE(length), width) == length by {
        ToFromBE(Reversed(length));
        assert Reversed(Reversed(length)) == length;
      }
      assert script[..l.header + l.data] == [script[0]] + length + script[l.header..l.header + l.data];
    }
  }

  lemma {:induction false} Parse(script: Bytes) returns (os: seq<Operation>)
    requires Judge(script) == Allowed
    ensures ValidOperations(os) && RenderAll(os) == script
    decreases |script|
  {
    if script == [] {
      os := [];
    } else {
      var l := LayoutOf(script);
      var rest := Parse(script[l.header + l.data..]);
      os := [HeadOperation(script)] + rest;
      RenderHead(script);
      assert os[1..] == rest;
      assert script == script[..l.header + l.data] + script[l.header + l.data..];
    }
  }

  /** A leaf is allowed exactly when it is tapscript's version and a sequence of complete operations with no hook. */
  lemma AllowedIffWellFormed(version: byte, script: Bytes)
    ensures PolicyOf(version, script) == Allowed <==>
            version == Taproot.TAPLEAF_VERSION && exists os :: ValidOperations(os) && RenderAll(os) == script
  {
    if PolicyOf(version, script) == Allowed {
      var os := Parse(script);
    }
    if version == Taproot.TAPLEAF_VERSION && exists os :: ValidOperations(os) && RenderAll(os) == script {
      var os :| ValidOperations(os) && RenderAll(os) == script;
      JudgeRendered(os, []);
      assert script + [] == script;
    }
  }

  /**
   What becomes of a script of one byte: a push has nothing to push, BIP-342 reserves 87 opcodes, and the rest pass.
   */
  lemma OneByteScripts(op: byte)
    ensures PolicyOf(0xC0, [op]) ==
            if 1 <= op <= 78 then PushPastEnd
            else if op in {80, 98, 126, 127, 128, 129, 131, 132, 133, 134, 137, 138, 141, 142} then UpgradeHook(op)
            else if op in {149, 150, 151, 152, 153} || 187 <= op <= 254 then UpgradeHook(op)
            else Allowed
  {
    var l := LayoutOf([op]);
    if l.Complete? {
      assert l.header + l.data == 1 && [op][l.header + l.data..] == [] && Judge([]) == Allowed;
    }
  }

  /** Each way of pushing one byte or 75, and that a byte less is cut short. */
  lemma KnownPushes(b: byte, data: Bytes)
    requires |data| == 75
    ensures PolicyOf(0xC0, [0x01, b]) == PolicyOf(0xC0, [0x4C, 1, b]) == PolicyOf(0xC0, [0x4D, 1, 0, b]) == Allowed
    ensures PolicyOf(0xC0, [0x4E, 1, 0, 0, 0, b]) == PolicyOf(0xC0, [0x4B] + data) == Allowed
    ensures PolicyOf(0xC0, [0x4C, 1]) == PolicyOf(0xC0, [0x4D, 1, 0]) == PolicyOf(0xC0, [0x4E, 1, 0, 0, 0]) ==
            PushPastEnd
    ensures PolicyOf(0xC0, [0x4B] + data[1..]) == PushPastEnd
  {
    OneByteLengths();
    assert [0x4C, 1, b][1..2] == [0x4C, 1][1..2] && [0x4D, 1, 0, b][1..3] == [0x4D, 1, 0][1..3];
    assert [0x4E, 1, 0, 0, 0, b][1..5] == [0x4E, 1, 0, 0, 0][1..5];
    WholePush([0x01, b], 1, 1);
    WholePush([0x4C, 1, b], 2, 1);
    WholePush([0x4D, 1, 0, b], 3, 1);
    WholePush([0x4E, 1, 0, 0, 0, b], 5, 1);
    WholePush([0x4B] + data, 1, 75);
    CutPush([0x4C, 1]);
    CutPush([0x4D, 1, 0]);
    CutPush([0x4E, 1, 0, 0, 0]);
    CutPush([0x4B] + data[1..]);
  }

  lemma OneByteLengths()
    ensures FromLE([0x4C, 1][1..2]) == FromLE([0x4D, 1, 0][1..3]) == FromLE([0x4E, 1, 0, 0, 0][1..5]) == 1
  {
    OneIs([], [0x4C, 1][1..2]);
    OneIs([0], [0x4D, 1, 0][1..3]);
    OneIs([0, 0, 0], [0x4E, 1, 0, 0, 0][1..5]);
  }

  lemma OneIs(zeros: Bytes, length: Bytes)
    requires zeros == Zeros(|zeros|) && length == [1] + zeros
    ensures FromLE(length) == 1
  {
    ZerosAre(zeros);
    assert Reversed(length) == zeros + [1];
    assert (zeros + [1])[..|zeros|] == zeros;
  }

  lemma {:induction false} ZerosAre(zeros: Bytes)
    requires zeros == Zeros(|zeros|)
    ensures FromBE(zeros) == 0
  {
    if zeros != [] {
      assert zeros[..|zeros| - 1] == Zeros(|zeros| - 1);
      ZerosAre(zeros[..|zeros| - 1]);
    }
  }

  lemma WholePush(script: Bytes, header: nat, data: nat)
    requires script != [] && LayoutOf(script) == Complete(header, data) && header + data == |script|
    ensures PolicyOf(0xC0, script) == Allowed
  {
    assert script[header + data..] == [] && Judge([]) == Allowed;
  }

  lemma CutPush(script: Bytes)
    requires script != [] && LayoutOf(script).CutShort?
    ensures PolicyOf(0xC0, script) == PushPastEnd
  {
  }

  /** Appending to an allowed script leaves only the appended part to judge. */
  lemma AppendToAllowed(script: Bytes, more: Bytes)
    requires Judge(script) == Allowed
    ensures Judge(script + more) == Judge(more)
  {
    var os := Parse(script);
    JudgeRendered(os, more);
  }

  // ---- pushed bytes never matter ----

  /** Which positions of a script hold pushed data, as far as it can be read. */
  function Pushed(script: Bytes): (mask: seq<bool>)
    ensures |mask| == |script|
  {
    if script == [] then []
    else
      match LayoutOf(script)
      case Complete(header, data) => Repeat(false, header) + Repeat(true, data) + Pushed(script[header + data..])
      case CutShort(header) => Repeat(false, header) + Repeat(true, |script| - header)
      case Hook => Repeat(false, |script|)
  }

  /** Exactly which: of an operation the data it pushes and no other byte of it, and then those of the rest. */
  lemma PushedExactly(o: Operation, rest: Bytes)
    requires ValidOperation(o)
    ensures var data := if o.Push? then |o.data| else 0;
      && data <= |Render(o)| && (o.Push? ==> Render(o)[|Render(o)| - data..] == o.data)
      && Pushed(Render(o) + rest) == Repeat(false, |Render(o)| - data) + Repeat(true, data) + Pushed(rest)
  {
    RenderLayout(o, rest);
    PushedData(o, rest);
    assert (Render(o) + rest)[|Render(o)|..] == rest;
  }

  lemma PushedData(o: Operation, rest: Bytes)
    requires ValidOperation(o)
    ensures LayoutOf(Render(o) + rest).Complete?
    ensures LayoutOf(Render(o) + rest).data == if o.Push? then |o.data| else 0
  {
    RenderLayout(o, rest);
    if o.Push? && IsPushData(o.op) {
      var width := LengthWidth(o.op);
      FromToLE(|o.data|, width);
      assert (Render(o) + rest)[1..1 + width] == ToLE(|o.data|, width);
    }
  }

  /** Of an operation cut short, everything after its header. */
  lemma PushedOfCutShort(script: Bytes)
    requires script != [] && LayoutOf(script).CutShort?
    ensures forall i :: LayoutOf(script).header <= i < |script| ==> Pushed(script)[i]
  {
  }

  /** Two scripts that differ at most in bytes the first one pushes. */
  ghost predicate DifferInPushes(script: Bytes, other: Bytes) {
    |script| == |other| && forall i :: 0 <= i < |script| && !Pushed(script)[i] ==> other[i] == script[i]
  }

  lemma PushedRest(script: Bytes)
    requires script != [] && LayoutOf(script).Complete?
    ensures var next := LayoutOf(script).header + LayoutOf(script).data;
      Pushed(script)[next..] == Pushed(script[next..])
  {
    var l := LayoutOf(script);
    DropsHead(Repeat(false, l.header) + Repeat(true, l.data), Pushed(script[l.header + l.data..]));
  }

  lemma AgreeBeyond(a: Bytes, b: Bytes, mask: seq<bool>, next: nat)
    requires |a| == |b| == |mask| && next <= |a| && forall i :: 0 <= i < |a| && !mask[i] ==> b[i] == a[i]
    ensures forall i :: 0 <= i < |a| - next && !mask[next..][i] ==> b[next..][i] == a[next..][i]
  {
  }

  lemma RestDiffersInPushes(script: Bytes, other: Bytes)
    requires DifferInPushes(script, other) && script != [] && LayoutOf(script).Complete?
    ensures var next := LayoutOf(script).header + LayoutOf(script).data;
      Pushed(script)[next..] == Pushed(script[next..]) && DifferInPushes(script[next..], other[next..])
  {
    PushedRest(script);
    AgreeBeyond(script, other, Pushed(script), LayoutOf(script).header + LayoutOf(script).data);
  }

  /** The two get the same verdict and push at the same places. */
  lemma {:induction false} PushedBytesNeverMatter(script: Bytes, other: Bytes)
    requires DifferInPushes(script, other)
    ensures Judge(other) == Judge(script) && Pushed(other) == Pushed(script)
    decreases |script|
  {
    if script != [] {
      SameLayout(script, other);
      if LayoutOf(script).Complete? {
        var next := LayoutOf(script).header + LayoutOf(script).data;
        RestDiffersInPushes(script, other);
        PushedBytesNeverMatter(script[next..], other[next..]);
      }
    }
  }

  lemma SameLayout(script: Bytes, other: Bytes)
    requires DifferInPushes(script, other) && script != []
    ensures LayoutOf(other) == LayoutOf(script) && other[0] == script[0]
  {
    var l := LayoutOf(script);
    var header := if l.Hook? then 1 else l.header;
    forall i | 0 <= i < header ensures other[i] == script[i] {
      assert !Pushed(script)[i];
    }
    assert script[..header] == other[..header];
    if IsPushData(script[0]) && header > LengthWidth(script[0]) {
      SameLength(script, other, header, LengthWidth(script[0]));
    }
  }

  lemma SameLength(script: Bytes, other: Bytes, header: nat, width: nat)
    requires width < header <= |script| && header <= |other| && script[..header] == other[..header]
    ensures script[1..1 + width] == other[1..1 + width]
  {
    assert script[..header][1..1 + width] == script[1..1 + width];
    assert other[..header][1..1 + width] == other[1..1 + width];
  }
}
