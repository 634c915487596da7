/**
 * Bitcoin scripts as byte strings: the three standard locking-script
 * patterns the explorer recognises (P2PKH, P2SH of BIP 16, P2WSH of BIP 141)
 * and the instruction decoder behind `Script::instructions()`, which splits
 * a script into byte pushes and opcodes.
 */
module Script {
  import opened Wrappers
  import opened Bytes

  type Script = seq<byte>

  const OP_0: byte := 0x00
  const OP_PUSHBYTES_20: byte := 0x14
  const OP_PUSHBYTES_32: byte := 0x20
  const OP_PUSHBYTES_75: byte := 0x4b
  const OP_PUSHDATA1: byte := 0x4c
  const OP_PUSHDATA2: byte := 0x4d
  const OP_PUSHDATA4: byte := 0x4e
  const OP_DUP: byte := 0x76
  const OP_EQUAL: byte := 0x87
  const OP_EQUALVERIFY: byte := 0x88
  const OP_HASH160: byte := 0xa9
  const OP_CHECKSIG: byte := 0xac

  // ---------------------------------------------------------------------
  // Classifiers

  /** OP_DUP OP_HASH160 <20-byte push> OP_EQUALVERIFY OP_CHECKSIG. */
  predicate IsP2pkh(s: Script) {
    |s| == 25 && s[0] == OP_DUP && s[1] == OP_HASH160 && s[2] == OP_PUSHBYTES_20
    && s[23] == OP_EQUALVERIFY && s[24] == OP_CHECKSIG
  }

  /** OP_HASH160 <20-byte push> OP_EQUAL (BIP 16). */
  predicate IsP2sh(s: Script) {
    |s| == 23 && s[0] == OP_HASH160 && s[1] == OP_PUSHBYTES_20 && s[22] == OP_EQUAL
  }

  /** Witness version 0 followed by a 32-byte program (BIP 141). */
  predicate IsP2wsh(s: Script) {
    |s| == 34 && s[0] == OP_0 && s[1] == OP_PUSHBYTES_32
  }

  function P2pkhScript(hash: seq<byte>): Script
    requires |hash| == 20
  {
    [OP_DUP, OP_HASH160, OP_PUSHBYTES_20] + hash + [OP_EQUALVERIFY, OP_CHECKSIG]
  }

  function P2shScript(hash: seq<byte>): Script
    requires |hash| == 20
  {
    [OP_HASH160, OP_PUSHBYTES_20] + hash + [OP_EQUAL]
  }

  function P2wshScript(program: seq<byte>): Script
    requires |program| == 32
  {
    [OP_0, OP_PUSHBYTES_32] + program
  }

  /** The classifiers accept exactly the scripts built around a hash of the right size. */
  lemma PatternsCharacterised(s: Script)
    ensures IsP2pkh(s) <==> |s| == 25 && s == P2pkhScript(s[3..23])
    ensures IsP2sh(s) <==> |s| == 23 && s == P2shScript(s[2..22])
    ensures IsP2wsh(s) <==> |s| == 34 && s == P2wshScript(s[2..])
  {
    if |s| == 25 && s == P2pkhScript(s[3..23]) {
      assert s[0] == P2pkhScript(s[3..23])[0];
      assert s[23] == P2pkhScript(s[3..23])[23];
      assert s[24] == P2pkhScript(s[3..23])[24];
    }
    if IsP2pkh(s) {
      assert s == [s[0], s[1], s[2]] + s[3..23] + [s[23], s[24]];
    }
    if |s| == 23 && s == P2shScript(s[2..22]) {
      assert s[22] == P2shScript(s[2..22])[22];
    }
    if IsP2sh(s) {
      assert s == [s[0], s[1]] + s[2..22] + [s[22]];
    }
    if IsP2wsh(s) {
      assert s == [s[0], s[1]] + s[2..];
    }
  }

  /** No script has two of the three patterns: their lengths differ. */
  lemma PatternsExclusive(s: Script)
    ensures !(IsP2pkh(s) && IsP2sh(s))
    ensures !(IsP2pkh(s) && IsP2wsh(s))
    ensures !(IsP2sh(s) && IsP2wsh(s))
  {
  }

  // ---------------------------------------------------------------------
  // Instruction decoding

  datatype Instruction = PushBytes(data: seq<byte>) | Op(code: byte)

  datatype DecodeError = EarlyEndOfScript

  /** One element of `instructions()`: an instruction or a decode error. */
  type Item = Result<Instruction, DecodeError>

  /** Unsigned little-endian value of the length field of OP_PUSHDATA1/2/4. */
  function LittleEndian(s: seq<byte>): nat
  {
    if s == [] then 0 else s[0] + 256 * LittleEndian(s[1..])
  }

  /** Takes an n-byte payload from t; a script too short for it is truncated. */
  function TakePush(t: Script, n: nat): (Item, Script)
  {
    if n <= |t| then (Ok(PushBytes(t[..n])), t[n..]) else (Err(EarlyEndOfScript), [])
  }

  /** Reads a width-byte length field, then takes that many payload bytes. */
  function PushData(t: Script, width: nat): (Item, Script)
  {
    if |t| < width then (Err(EarlyEndOfScript), [])
    else TakePush(t[width..], LittleEndian(t[..width]))
  }

  /**
   * Decodes the instruction that starts s and returns it with the rest of
   * the script. After a decode error nothing is left: the iterator stops.
   */
  function Step(s: Script): (r: (Item, Script))
    requires s != []
    ensures |r.1| < |s| && r.1 == s[|s| - |r.1|..]
    ensures r.0.Err? ==> r.1 == []
  {
    var b, t := s[0], s[1..];
    if b <= OP_PUSHBYTES_75 then TakePush(t, b)
    else if b == OP_PUSHDATA1 then PushData(t, 1)
    else if b == OP_PUSHDATA2 then PushData(t, 2)
    else if b == OP_PUSHDATA4 then PushData(t, 4)
    else (Ok(Op(b)), t)
  }

  /**
   * The sequence `instructions()` yields: at most one item per byte, and
   * empty exactly for the empty script.
   */
  function Instructions(s: Script): (r: seq<Item>)
    ensures |r| <= |s|
    ensures r == [] <==> s == []
    decreases |s|
  {
    if s == [] then []
    else
      var (i, rest) := Step(s);
      [i] + Instructions(rest)
  }

  lemma InstructionsUnfold(s: Script)
    requires s != []
    ensures Instructions(s) == [Step(s).0] + Instructions(Step(s).1)
  {
  }

  /** A decode error can only be the last item: decoding stops there. */
  lemma {:induction false} ErrorOnlyLast(s: Script)
    ensures forall k :: 0 <= k < |Instructions(s)| - 1 ==> Instructions(s)[k].Ok?
    decreases |s|
  {
    if s != [] {
      var r := Step(s);
      InstructionsUnfold(s);
      ErrorOnlyLast(r.1);
      forall k | 0 <= k < |Instructions(s)| - 1
        ensures Instructions(s)[k].Ok?
      {
        if k > 0 {
          assert Instructions(s)[k] == Instructions(r.1)[k - 1];
        }
      }
    }
  }

  /** `instructions().last()`. */
  function LastInstruction(s: Script): Option<Item>
  {
    Last(Instructions(s))
  }

  /** A script that decodes completely without error. */
  predicate DecodesCleanly(s: Script)
    decreases |s|
  {
    s == [] || (Step(s).0.Ok? && DecodesCleanly(Step(s).1))
  }

  /** Decoding cleanly means that no item of `instructions()` is an error. */
  lemma {:induction false} DecodesCleanlyNoError(s: Script)
    ensures DecodesCleanly(s) <==> forall k :: 0 <= k < |Instructions(s)| ==> Instructions(s)[k].Ok?
    decreases |s|
  {
    if s != [] {
      var r := Step(s);
      InstructionsUnfold(s);
      DecodesCleanlyNoError(r.1);
      assert Instructions(s)[0] == r.0;
      forall k | 0 < k < |Instructions(s)|
        ensures Instructions(s)[k] == Instructions(r.1)[k - 1]
      {
      }
      if r.0.Ok? && !DecodesCleanly(r.1) {
        var k :| 0 <= k < |Instructions(r.1)| && !Instructions(r.1)[k].Ok?;
        assert Instructions(s)[k + 1] == Instructions(r.1)[k];
      }
    }
  }

  lemma TakePushAppend(t: Script, n: nat, s: Script)
    requires n <= |t|
    ensures TakePush(t + s, n) == (TakePush(t, n).0, TakePush(t, n).1 + s)
  {
    assert (t + s)[..n] == t[..n];
    assert (t + s)[n..] == t[n..] + s;
  }

  lemma PushDataAppend(t: Script, width: nat, s: Script)
    requires PushData(t, width).0.Ok?
    ensures PushData(t + s, width) == (PushData(t, width).0, PushData(t, width).1 + s)
  {
    assert (t + s)[..width] == t[..width];
    assert (t + s)[width..] == t[width..] + s;
    TakePushAppend(t[width..], LittleEndian(t[..width]), s);
  }

  lemma StepAppend(p: Script, s: Script)
    requires p != [] && Step(p).0.Ok?
    ensures Step(p + s) == (Step(p).0, Step(p).1 + s)
  {
    var b, t := p[0], p[1..];
    assert (p + s)[0] == b && (p + s)[1..] == t + s;
    if b <= OP_PUSHBYTES_75 {
      TakePushAppend(t, b, s);
    } else if b == OP_PUSHDATA1 {
      PushDataAppend(t, 1, s);
    } else if b == OP_PUSHDATA2 {
      PushDataAppend(t, 2, s);
    } else if b == OP_PUSHDATA4 {
      PushDataAppend(t, 4, s);
    }
  }

  /** A successful first step of p decodes the same when p is followed by s. */
  lemma InstructionsAppendStep(p: Script, s: Script)
    requires p != [] && Step(p).0.Ok?
    ensures Instructions(p + s) == [Step(p).0] + Instructions(Step(p).1 + s)
  {
    StepAppend(p, s);
    InstructionsUnfold(p + s);
  }

  lemma AppendAssociative(a: seq<Item>, b: seq<Item>, c: seq<Item>)
    ensures (a + b) + c == a + (b + c)
  {
  }

  /** Decoding a cleanly decoding prefix does not depend on what follows it. */
  lemma {:induction false} InstructionsAppend(p: Script, s: Script)
    requires DecodesCleanly(p)
    ensures Instructions(p + s) == Instructions(p) + Instructions(s)
    decreases |p|
  {
    if p == [] {
      assert p + s == s;
    } else {
      var r := Step(p);
      InstructionsAppend(r.1, s);
      InstructionsAppendStep(p, s);
      InstructionsUnfold(p);
      AppendAssociative([r.0], Instructions(r.1), Instructions(s));
    }
  }

  /**
   * The last instruction of a script is that of any non-empty suffix that
   * follows a cleanly decoding prefix: earlier instructions do not matter.
   */
  lemma LastInstructionOfSuffix(p: Script, s: Script)
    requires DecodesCleanly(p) && s != []
    ensures LastInstruction(p + s) == LastInstruction(s)
  {
    InstructionsAppend(p, s);
  }

  // ---------------------------------------------------------------------
  // Encoding instructions: the inverse of the decoder

  function Pow256(n: nat): nat
  {
    if n == 0 then 1 else 256 * Pow256(n - 1)
  }

  function ToLittleEndian(n: nat, width: nat): (r: seq<byte>)
    ensures |r| == width
  {
    if width == 0 then [] else [n % 256] + ToLittleEndian(n / 256, width - 1)
  }

  lemma {:induction false} LittleEndianRoundTrip(n: nat, width: nat)
    requires n < Pow256(width)
    ensures LittleEndian(ToLittleEndian(n, width)) == n
  {
    if width > 0 {
      var r := ToLittleEndian(n, width);
      assert r[1..] == ToLittleEndian(n / 256, width - 1);
      LittleEndianRoundTrip(n / 256, width - 1);
    }
  }

  /** Opcodes that are not push opcodes, and payloads a 4-byte length can describe. */
  predicate Encodable(i: Instruction) {
    match i
    case Op(c) => c > OP_PUSHDATA4
    case PushBytes(d) => |d| < 0x1_0000_0000
  }

  /** The shortest encoding of an instruction (direct push, then OP_PUSHDATA1/2/4). */
  function EncodeInstruction(i: Instruction): Script
    requires Encodable(i)
  {
    match i
    case Op(c) => [c]
    case PushBytes(d) =>
      if |d| <= 0x4b then [|d|] + d
      else if |d| <= 0xff then [OP_PUSHDATA1] + ToLittleEndian(|d|, 1) + d
      else if |d| <= 0xffff then [OP_PUSHDATA2] + ToLittleEndian(|d|, 2) + d
      else [OP_PUSHDATA4] + ToLittleEndian(|d|, 4) + d
  }

  predicate AllEncodable(ins: seq<Instruction>) {
    forall k :: 0 <= k < |ins| ==> Encodable(ins[k])
  }

  function Serialize(ins: seq<Instruction>): Script
    requires AllEncodable(ins)
  {
    if ins == [] then [] else EncodeInstruction(ins[0]) + Serialize(ins[1..])
  }

  lemma StepEncoded(i: Instruction)
    requires Encodable(i)
    ensures Step(EncodeInstruction(i)) == (Ok(i), [])
  {
    var e := EncodeInstruction(i);
    if i.PushBytes? {
      var d := i.data;
      if |d| <= 0x4b {
        assert e[0] == |d| && e[1..] == d;
        assert e[1..][..|d|] == d && e[1..][|d|..] == [];
      } else {
        var w := if |d| <= 0xff then 1 else if |d| <= 0xffff then 2 else 4;
        var len := ToLittleEndian(|d|, w);
        assert Pow256(1) == 256 && Pow256(2) == 0x1_0000 && Pow256(4) == 0x1_0000_0000;
        LittleEndianRoundTrip(|d|, w);
        assert e[0] == (if w == 1 then OP_PUSHDATA1 else if w == 2 then OP_PUSHDATA2 else OP_PUSHDATA4);
        assert e[1..] == len + d;
        assert (len + d)[..w] == len && (len + d)[w..] == d;
        assert d[..|d|] == d && d[|d|..] == [];
        assert PushData(e[1..], w) == (Ok(i), []);
      }
    }
  }

  /** Decoding a serialized instruction list gives back every instruction, none failing. */
  lemma {:induction false} InstructionsSerialize(ins: seq<Instruction>)
    requires AllEncodable(ins)
    ensures |Instructions(Serialize(ins))| == |ins|
    ensures forall k :: 0 <= k < |ins| ==> Instructions(Serialize(ins))[k] == Ok(ins[k])
  {
    if ins != [] {
      var e := EncodeInstruction(ins[0]);
      StepEncoded(ins[0]);
      assert DecodesCleanly(e);
      InstructionsAppend(e, Serialize(ins[1..]));
      assert AllEncodable(ins[1..]) by {
        forall k | 0 <= k < |ins[1..]| ensures Encodable(ins[1..][k]) {
          assert ins[1..][k] == ins[k + 1];
        }
      }
      InstructionsSerialize(ins[1..]);
    }
  }

  /** The last instruction of a serialized list is its last element. */
  lemma LastInstructionSerialize(ins: seq<Instruction>)
    requires AllEncodable(ins) && ins != []
    ensures LastInstruction(Serialize(ins)) == Some(Ok(ins[|ins| - 1]))
  {
    var items := Instructions(Serialize(ins));
    InstructionsSerialize(ins);
    assert items != [] && items[|items| - 1] == Ok(ins[|ins| - 1]);
  }

  /** The two closing opcodes of a P2PKH script decode as themselves. */
  lemma P2pkhTail(s: Script)
    requires IsP2pkh(s)
    ensures Instructions(s[23..]) == [Ok(Op(OP_EQUALVERIFY)), Ok(Op(OP_CHECKSIG))]
  {
    assert Step(s[23..]) == (Ok(Op(OP_EQUALVERIFY)), s[24..]);
    assert Step(s[24..]) == (Ok(Op(OP_CHECKSIG)), []);
    InstructionsUnfold(s[23..]);
    InstructionsUnfold(s[24..]);
  }

  /** A non-push opcode decodes as itself and consumes one byte. */
  lemma StepOpcode(s: Script)
    requires s != [] && s[0] > OP_PUSHDATA4
    ensures Instructions(s) == [Ok(Op(s[0]))] + Instructions(s[1..])
  {
    InstructionsUnfold(s);
  }

  /** The two opening opcodes of a P2PKH script decode as themselves. */
  lemma P2pkhHead(s: Script)
    requires IsP2pkh(s)
    ensures Instructions(s) == [Ok(Op(OP_DUP)), Ok(Op(OP_HASH160))] + Instructions(s[2..])
  {
    var t := s[1..];
    StepOpcode(s);
    StepOpcode(t);
    assert t[1..] == s[2..];
  }

  /** The 20-byte push of a P2PKH script decodes as that push. */
  lemma P2pkhPush(s: Script)
    requires IsP2pkh(s)
    ensures Instructions(s[2..]) == [Ok(PushBytes(s[3..23]))] + Instructions(s[23..])
  {
    assert s[2..][1..][..20] == s[3..23] && s[2..][1..][20..] == s[23..];
    assert Step(s[2..]) == (Ok(PushBytes(s[3..23])), s[23..]);
    InstructionsUnfold(s[2..]);
  }

  lemma JoinFive(x: seq<Item>, y: seq<Item>, z: seq<Item>, a: Item, b: Item, c: Item, d: Item, e: Item)
    requires x == [a, b] + y && y == [c] + z && z == [d, e]
    ensures x == [a, b, c, d, e]
  {
  }

  /** A P2PKH script decodes as OP_DUP OP_HASH160 <hash> OP_EQUALVERIFY OP_CHECKSIG. */
  lemma P2pkhInstructions(s: Script)
    requires IsP2pkh(s)
    ensures Instructions(s)
      == [Ok(Op(OP_DUP)), Ok(Op(OP_HASH160)), Ok(PushBytes(s[3..23])), Ok(Op(OP_EQUALVERIFY)), Ok(Op(OP_CHECKSIG))]
  {
    P2pkhHead(s);
    P2pkhPush(s);
    P2pkhTail(s);
    JoinFive(Instructions(s), Instructions(s[2..]), Instructions(s[23..]),
             Ok(Op(OP_DUP)), Ok(Op(OP_HASH160)), Ok(PushBytes(s[3..23])), Ok(Op(OP_EQUALVERIFY)), Ok(Op(OP_CHECKSIG)));
  }

  /** A P2SH script decodes as OP_HASH160 <hash> OP_EQUAL. */
  lemma P2shInstructions(s: Script)
    requires IsP2sh(s)
    ensures Instructions(s) == [Ok(Op(OP_HASH160)), Ok(PushBytes(s[2..22])), Ok(Op(OP_EQUAL))]
  {
    assert Step(s) == (Ok(Op(OP_HASH160)), s[1..]);
    assert s[1..][1..][..20] == s[2..22] && s[1..][1..][20..] == s[22..];
    assert Step(s[1..]) == (Ok(PushBytes(s[2..22])), s[22..]);
    assert Step(s[22..]) == (Ok(Op(OP_EQUAL)), []);
    assert Instructions(s[22..]) == [Ok(Op(OP_EQUAL))];
    assert Instructions(s[1..]) == [Ok(PushBytes(s[2..22]))] + Instructions(s[22..]);
  }

  /** A P2WSH script decodes as the version-0 push (empty) and the 32-byte program. */
  lemma P2wshInstructions(s: Script)
    requires IsP2wsh(s)
    ensures Instructions(s) == [Ok(PushBytes([])), Ok(PushBytes(s[2..]))]
  {
    assert s[1..][..0] == [] && s[1..][0..] == s[1..];
    assert Step(s) == (Ok(PushBytes([])), s[1..]);
    assert s[1..][1..][..32] == s[2..] && s[1..][1..][32..] == [];
    assert Step(s[1..]) == (Ok(PushBytes(s[2..])), []);
  }
}
