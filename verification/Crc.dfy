/** The checksum of 1-Wire messages: division by x^8 + x^5 + x^4 + 1, least significant bits first. */
module Crc {
  import opened Words

  /** One bit of the message enters the register. */
  function Step(crc: byte, bit: byte): byte {
    if (crc ^ bit) & 1 == 1 then (crc >> 1) ^ 0x8C else crc >> 1
  }

  type Bits = s: seq<byte> | forall i :: 0 <= i < |s| ==> s[i] <= 1 witness []

  function Feed(crc: byte, stream: Bits): byte
    decreases |stream|
  {
    if stream == [] then crc else Feed(Step(crc, stream[0]), stream[1..])
  }

  function BitsOf(b: byte): (s: Bits)
    ensures |s| == 8
  {
    [b & 1, (b >> 1) & 1, (b >> 2) & 1, (b >> 3) & 1, (b >> 4) & 1, (b >> 5) & 1, (b >> 6) & 1, (b >> 7) & 1]
  }

  /** The bits of a message in the order in which they are sent. */
  function Stream(message: seq<byte>): (s: Bits)
    ensures |s| == 8 * |message|
  {
    if message == [] then [] else BitsOf(message[0]) + Stream(message[1..])
  }

  /** What is left in the register after a message. */
  function Residue(crc: byte, message: seq<byte>): byte
    decreases |message|
  {
    if message == [] then crc else Residue(Feed(crc, BitsOf(message[0])), message[1..])
  }

  lemma {:induction false} FeedSplits(crc: byte, a: Bits, b: Bits)
    ensures Feed(crc, a + b) == Feed(Feed(crc, a), b)
    decreases |a|
  {
    if a == [] {
      assert a + b == b;
    } else {
      assert (a + b)[1..] == a[1..] + b;
      FeedSplits(Step(crc, a[0]), a[1..], b);
    }
  }

  lemma {:induction false} ResidueIsFeed(crc: byte, message: seq<byte>)
    ensures Residue(crc, message) == Feed(crc, Stream(message))
    decreases |message|
  {
    if message != [] {
      var next := Feed(crc, BitsOf(message[0]));
      FeedSplits(crc, BitsOf(message[0]), Stream(message[1..]));
      ResidueIsFeed(next, message[1..]);
    }
  }

  // The code

  method EnterBit(crc0: byte, inp0: byte) returns (crc: byte)
    ensures crc == Step(crc0, inp0 & 1)
  {
    var inp := inp0 ^ crc0;
    crc := crc0 >> 1;
    if inp & 1 != 0 {
      crc := crc ^ (0x18 >> 1);
      crc := crc | 0x80;
    }
  }

  function TurnedRight(b: byte): byte {
    (b >> 1) | (b << 7)
  }

  method TurnRight(inpZ0: byte) returns (inpZ: byte)
    ensures inpZ == TurnedRight(inpZ0)
  {
    var carry := inpZ0 & 1;
    inpZ := inpZ0 >> 1;
    if carry != 0 {
      inpZ := inpZ | 0x80;
    }
  }

  function Turned(b: byte, k: nat): byte
    decreases k
  {
    if k == 0 then b else Turned(TurnedRight(b), k - 1)
  }

  lemma {:induction false} TurnedNext(b: byte, k: nat)
    ensures Turned(b, k + 1) == TurnedRight(Turned(b, k))
    decreases k
  {
    hide TurnedRight;
    if k > 0 {
      TurnedNext(TurnedRight(b), k - 1);
    }
  }

  lemma FirstBitsTurned(b: byte)
    ensures BitsOf(TurnedRight(b))[0] == BitsOf(b)[1] && BitsOf(TurnedRight(b))[1] == BitsOf(b)[2]
  {
  }

  lemma LowBitsTurned(b: byte)
    ensures BitsOf(TurnedRight(b))[2] == BitsOf(b)[3] && BitsOf(TurnedRight(b))[3] == BitsOf(b)[4]
  {
  }

  lemma HighBitsTurned(b: byte)
    ensures BitsOf(TurnedRight(b))[4] == BitsOf(b)[5] && BitsOf(TurnedRight(b))[5] == BitsOf(b)[6]
  {
  }

  lemma LastBitsTurned(b: byte)
    ensures BitsOf(TurnedRight(b))[6] == BitsOf(b)[7] && BitsOf(TurnedRight(b))[7] == BitsOf(b)[0]
  {
  }

  lemma BitsTurned(b: byte)
    ensures BitsOf(TurnedRight(b)) == BitsOf(b)[1..] + [BitsOf(b)[0]]
  {
    hide BitsOf;
    hide TurnedRight;
    FirstBitsTurned(b);
    LowBitsTurned(b);
    HighBitsTurned(b);
    LastBitsTurned(b);
  }

  lemma {:induction false} FirstBitTurned(b: byte, k: nat)
    requires k < 8
    ensures Turned(b, k) & 1 == BitsOf(b)[k]
    decreases k
  {
    if k > 0 {
      FirstBitTurned(TurnedRight(b), k - 1);
      BitsTurned(b);
    }
  }

  /** buildCrc: one byte, bit by bit. */
  method BuildCrc(crc0: byte, inp0: byte) returns (crc: byte)
    ensures crc == Feed(crc0, BitsOf(inp0))
  {
    hide Step;
    hide TurnedRight;
    hide BitsOf;
    hide Turned;
    crc := crc0;
    var inpZ, i := inp0, 8;
    ghost var bits := BitsOf(inp0);
    assert bits[0..] == bits && Turned(inp0, 0) == inp0 by {
      TurnedZero(inp0);
    }
    while i > 0
      invariant 0 <= i <= 8 && inpZ == Turned(inp0, 8 - i)
      invariant Feed(crc0, bits) == Feed(crc, bits[8 - i..])
    {
      FirstBitTurned(inp0, 8 - i);
      TurnedNext(inp0, 8 - i);
      crc := EnterBit(crc, inpZ);
      inpZ := TurnRight(inpZ);
      assert bits[8 - i..][1..] == bits[8 - i + 1..];
      i := i - 1;
    }
  }

  lemma TurnedZero(b: byte)
    ensures Turned(b, 0) == b
  {
  }

  /** The part of readTemperature that checks the nine bytes of a scratch pad and puts the raw value together. */
  method CheckScratchPad(tempBuf: array<byte>) returns (temper: bv16)
    requires tempBuf.Length == 9
    ensures temper & 0x8000 == 0 <==> tempBuf[8] == Residue(0, tempBuf[..8])
    ensures temper & 0x0FFF == ((tempBuf[1] & 0x0F) as bv16 << 8) | tempBuf[0] as bv16
  {
    var crc: byte := 0;
    for cnt := 0 to 9
      invariant Residue(0, tempBuf[..cnt]) == crc
    {
      ResidueMore(0, tempBuf[..cnt], tempBuf[cnt]);
      assert tempBuf[..cnt + 1] == tempBuf[..cnt] + [tempBuf[cnt]];
      crc := BuildCrc(crc, tempBuf[cnt]);
    }
    assert tempBuf[..9] == tempBuf[..8] + [tempBuf[8]];
    OnlyTheChecksumFits(0, tempBuf[..8], tempBuf[8]);
    temper := Raw(tempBuf[1], tempBuf[0]);
    if crc != 0 {
      temper := temper | 0x8000;
    }
    RawFacts(tempBuf[1], tempBuf[0]);
  }

  function Raw(high: byte, low: byte): bv16 {
    ((high & 0x0F) as bv16 << 8) | low as bv16
  }

  lemma RawFacts(high: byte, low: byte)
    ensures Raw(high, low) & 0x8000 == 0 && (Raw(high, low) | 0x8000) & 0x8000 != 0
    ensures Raw(high, low) & 0x0FFF == Raw(high, low) && (Raw(high, low) | 0x8000) & 0x0FFF == Raw(high, low)
  {
  }

  lemma {:induction false} ResidueMore(crc: byte, message: seq<byte>, b: byte)
    ensures Residue(crc, message + [b]) == Feed(Residue(crc, message), BitsOf(b))
    decreases |message|
  {
    hide BitsOf;
    if message == [] {
      assert message + [b] == [b];
    } else {
      assert (message + [b])[1..] == message[1..] + [b];
      ResidueMore(Feed(crc, BitsOf(message[0])), message[1..], b);
    }
  }

  // What the checksum detects

  /** k zero bits. */
  function Zeros(crc: byte, k: nat): byte
    decreases k
  {
    if k == 0 then crc else Zeros(Step(crc, 0), k - 1)
  }

  function Raised(b: byte): byte {
    b << 1
  }

  /** The byte whose low bits are s. */
  function ByteFrom(s: Bits): byte
    requires |s| <= 8
    decreases |s|
  {
    if s == [] then 0 else Add(s[0], Raised(ByteFrom(s[1..])))
  }

  lemma {:induction false} ByteFromIsSmall(s: Bits)
    requires |s| <= 7
    ensures ByteFrom(s) < (1 << |s|)
    decreases |s|
  {
    if s != [] {
      ByteFromIsSmall(s[1..]);
      Doubled(s[0], ByteFrom(s[1..]), |s| - 1);
    }
  }

  lemma Doubled(bit: byte, n: byte, k: nat)
    requires k < 7 && bit <= 1 && n < (1 << k)
    ensures Add(bit, Raised(n)) < (1 << (k + 1))
  {
    assert k == 0 || k == 1 || k == 2 || k == 3 || k == 4 || k == 5 || k == 6;
  }

  lemma ShiftBack(bit1: byte, n1: byte, bit2: byte, n2: byte)
    requires bit1 <= 1 && bit2 <= 1 && n1 < 0x80 && n2 < 0x80 && Add(bit1, Raised(n1)) == Add(bit2, Raised(n2))
    ensures bit1 == bit2 && n1 == n2
  {
  }

  lemma BelowTop(k: nat)
    requires k <= 7
    ensures var one: byte := 1; one << k <= 0x80
  {
    assert k == 0 || k == 1 || k == 2 || k == 3 || k == 4 || k == 5 || k == 6 || k == 7;
  }

  lemma {:induction false} ByteFromInjective(s: Bits, t: Bits)
    requires |s| == |t| <= 8 && ByteFrom(s) == ByteFrom(t)
    ensures s == t
    decreases |s|
  {
    if s != [] {
      ByteFromIsSmall(s[1..]);
      ByteFromIsSmall(t[1..]);
      BelowTop(|s| - 1);
      ShiftBack(s[0], ByteFrom(s[1..]), t[0], ByteFrom(t[1..]));
      ByteFromInjective(s[1..], t[1..]);
      assert s == [s[0]] + s[1..] && t == [t[0]] + t[1..];
    }
  }

  lemma ByteFromBits(b: byte)
    ensures ByteFrom(BitsOf(b)) == b
  {
    hide Add;
    hide Raised;
    hide BitsOf;
    hide ByteFrom;
    var s := BitsOf(b);
    assert s[0..] == s;
    FourBits(s, 4);
    FourBits(s, 0);
    NothingLeft(s);
    Assembled(b);
  }

  lemma NothingLeft(s: Bits)
    requires |s| == 8
    ensures ByteFrom(s[8..]) == 0
  {
    assert s[8..] == [];
  }

  lemma FourBits(s: Bits, k: nat)
    requires |s| == 8 && k <= 4
    ensures ByteFrom(s[k..]) ==
      Add(s[k], Raised(Add(s[k + 1], Raised(Add(s[k + 2], Raised(Add(s[k + 3], Raised(ByteFrom(s[k + 4..])))))))))
  {
    hide Add;
    hide Raised;
    hide BitsOf;
    hide ByteFrom;
    ByteFromStep(s, k + 3);
    ByteFromStep(s, k + 2);
    ByteFromStep(s, k + 1);
    ByteFromStep(s, k);
  }

  lemma ByteFromStep(s: Bits, k: nat)
    requires |s| == 8 && k < 8
    ensures ByteFrom(s[k..]) == Add(s[k], Raised(ByteFrom(s[k + 1..])))
  {
    assert s[k..][1..] == s[k + 1..];
  }

  lemma Assembled(b: byte)
    ensures var s := BitsOf(b);
      Add(s[0], Raised(Add(s[1], Raised(Add(s[2], Raised(Add(s[3], Raised(Add(s[4], Raised(Add(s[5], Raised(
      Add(s[6], Raised(Add(s[7], Raised(0)))))))))))))))) == b
  {
  }

  lemma StepInjective(x: byte, y: byte, bit: byte)
    requires bit <= 1 && Step(x, bit) == Step(y, bit)
    ensures x == y
  {
  }

  lemma StepAsZero(c: byte, bit: byte, n: byte)
    requires bit <= 1 && n < 0x80
    ensures Add(Step(c, bit), n) == Step(Add(c, Add(bit, Raised(n))), 0)
  {
  }

  /** Feeding up to eight bits is adding them to the register and feeding zeros. */
  lemma {:induction false} FeedAsZeros(c: byte, s: Bits)
    requires |s| <= 8
    ensures Feed(c, s) == Zeros(Add(c, ByteFrom(s)), |s|)
    decreases |s|
  {
    hide Step;
    hide Add;
    hide Raised;
    if s == [] {
      AddZero(c);
    } else {
      ByteFromIsSmall(s[1..]);
      BelowTop(|s| - 1);
      StepAsZero(c, s[0], ByteFrom(s[1..]));
      FeedAsZeros(Step(c, s[0]), s[1..]);
    }
  }

  lemma {:induction false} ZerosInjective(x: byte, y: byte, k: nat)
    requires Zeros(x, k) == Zeros(y, k)
    ensures x == y
    decreases k
  {
    hide Step;
    if k > 0 {
      ZerosInjective(Step(x, 0), Step(y, 0), k - 1);
      StepInjective(x, y, 0);
    }
  }

  lemma {:induction false} FeedInjective(x: byte, y: byte, s: Bits)
    requires Feed(x, s) == Feed(y, s)
    ensures x == y
    decreases |s|
  {
    hide Step;
    if s != [] {
      FeedInjective(Step(x, s[0]), Step(y, s[0]), s[1..]);
      StepInjective(x, y, s[0]);
    }
  }

  lemma {:induction false} ZerosOfZero(k: nat)
    ensures Zeros(0, k) == 0
  {
    if k > 0 {
      ZerosOfZero(k - 1);
    }
  }

  /** Addition of polynomials. */
  function Add(x: byte, y: byte): byte {
    x ^ y
  }

  lemma AddZero(x: byte)
    ensures Add(x, 0) == x && Add(x, x) == 0
  {
  }

  lemma AddCancels(x: byte, y: byte, z: byte)
    requires Add(x, y) == Add(x, z)
    ensures y == z
  {
    assert x ^ (x ^ y) == y && x ^ (x ^ z) == z;
  }

  /** Of all bytes that could follow a message, exactly its checksum leaves no residue. */
  lemma OnlyTheChecksumFits(crc: byte, message: seq<byte>, b: byte)
    ensures Residue(crc, message + [b]) == 0 <==> b == Residue(crc, message)
  {
    hide BitsOf;
    hide Zeros;
    hide Add;
    var r := Residue(crc, message);
    ResidueMore(crc, message, b);
    FeedAsZeros(r, BitsOf(b));
    ByteFromBits(b);
    ZerosOfZero(8);
    AddZero(r);
    if Zeros(Add(r, b), 8) == 0 {
      ZerosInjective(Add(r, b), 0, 8);
      AddCancels(r, b, r);
    }
  }

  /** A register fed with two different streams of at most eight bits ends in two different values. */
  lemma ShortStreamsDiffer(d: byte, a: Bits, b: Bits)
    requires |a| == |b| <= 8 && a != b
    ensures Feed(d, a) != Feed(d, b)
  {
    hide Feed;
    hide Zeros;
    hide Add;
    hide Raised;
    hide BitsOf;
    hide ByteFrom;
    FeedAsZeros(d, a);
    FeedAsZeros(d, b);
    if Feed(d, a) == Feed(d, b) {
      ZerosInjective(Add(d, ByteFrom(a)), Add(d, ByteFrom(b)), |a|);
      AddCancels(d, ByteFrom(a), ByteFrom(b));
      ByteFromInjective(a, b);
    }
  }

  lemma PartsDiffer(c: byte, head: Bits, a: Bits, b: Bits, rest: Bits)
    requires |a| == |b| <= 8 && a != b
    ensures Feed(c, head + a + rest) != Feed(c, head + b + rest)
  {
    hide Feed;
    var d := Feed(c, head);
    FeedSplits(c, head + a, rest);
    FeedSplits(c, head + b, rest);
    FeedSplits(c, head, a);
    FeedSplits(c, head, b);
    ShortStreamsDiffer(d, a, b);
    if Feed(c, head + a + rest) == Feed(c, head + b + rest) {
      FeedInjective(Feed(d, a), Feed(d, b), rest);
    }
  }

  /** The bits from i on and in front of j. */
  function Part(m: Bits, i: nat, j: nat): Bits
    requires i <= j <= |m|
  {
    m[i..j]
  }

  lemma ThreeParts(m: Bits, i: nat, j: nat)
    requires i <= j <= |m|
    ensures m == Part(m, 0, i) + Part(m, i, j) + Part(m, j, |m|) && |Part(m, i, j)| == j - i
  {
  }

  lemma SameAround(m: Bits, m2: Bits, i: nat, j: nat)
    requires |m| == |m2| && i <= j <= |m| && forall k :: 0 <= k < |m| && !(i <= k < j) ==> m[k] == m2[k]
    ensures Part(m, 0, i) == Part(m2, 0, i) && Part(m, j, |m|) == Part(m2, j, |m2|)
  {
  }

  /** Streams that differ only within eight consecutive bits leave different residues. */
  lemma BurstChangesResidue(c: byte, m: Bits, m2: Bits, i: nat)
    requires |m| == |m2| && i <= |m| && m != m2
    requires forall k :: 0 <= k < |m| && !(i <= k < i + 8) ==> m[k] == m2[k]
    ensures Feed(c, m) != Feed(c, m2)
  {
    hide Feed;
    var j := if i + 8 <= |m| then i + 8 else |m|;
    SameAround(m, m2, i, j);
    ThreeParts(m, i, j);
    ThreeParts(m2, i, j);
    hide Part;
    PartsDiffer(c, Part(m, 0, i), Part(m, i, j), Part(m2, i, j), Part(m, j, |m|));
  }

  lemma {:induction false} StreamInjective(m: seq<byte>, m2: seq<byte>)
    requires |m| == |m2| && Stream(m) == Stream(m2)
    ensures m == m2
    decreases |m|
  {
    hide BitsOf;
    if m != [] {
      var s := Stream(m);
      assert BitsOf(m[0]) == s[..8] && Stream(m[1..]) == s[8..];
      assert BitsOf(m2[0]) == s[..8] && Stream(m2[1..]) == s[8..];
      ByteFromBits(m[0]);
      ByteFromBits(m2[0]);
      StreamInjective(m[1..], m2[1..]);
      assert m == [m[0]] + m[1..] && m2 == [m2[0]] + m2[1..];
    }
  }

  /** A message with a good checksum that is damaged within eight consecutive bits has a bad one. */
  lemma BurstIsDetected(m: seq<byte>, m2: seq<byte>, i: nat)
    requires Residue(0, m) == 0 && |m| == |m2| && i <= 8 * |m| && m != m2
    requires forall k :: 0 <= k < 8 * |m| && !(i <= k < i + 8) ==> Stream(m)[k] == Stream(m2)[k]
    ensures Residue(0, m2) != 0
  {
    hide Feed;
    hide Stream;
    hide Residue;
    if Stream(m) == Stream(m2) {
      StreamInjective(m, m2);
    }
    BurstChangesResidue(0, Stream(m), Stream(m2), i);
    ResidueIsFeed(0, m);
    ResidueIsFeed(0, m2);
  }

  function Xor(a: Bits, b: Bits): (s: Bits)
    requires |a| == |b|
    ensures |s| == |a|
    decreases |a|
  {
    if a == [] then []
    else
      XorBits(a[0], b[0]);
      [Add(a[0], b[0])] + Xor(a[1..], b[1..])
  }

  lemma XorBits(x: byte, y: byte)
    requires x <= 1 && y <= 1
    ensures Add(x, y) <= 1
  {
  }

  /** The register shifted, plus the polynomial if a one drops out. */
  lemma StepParts(c: byte, bit: byte)
    ensures Step(c, bit) == Add(c >> 1, Feedback(Add(c, bit)))
  {
  }

  function Feedback(b: byte): byte {
    if b & 1 == 1 then 0x8C else 0
  }

  lemma FeedbackLinear(a: byte, b: byte)
    ensures Feedback(Add(a, b)) == Add(Feedback(a), Feedback(b))
  {
  }

  lemma AddPairs(a: byte, b: byte, c: byte, d: byte)
    ensures Add(Add(a, b), Add(c, d)) == Add(Add(a, c), Add(b, d)) && Add(a, b) >> 1 == Add(a >> 1, b >> 1)
  {
  }

  lemma StepLinear(c: byte, d: byte, x: byte, y: byte)
    ensures Step(Add(c, d), Add(x, y)) == Add(Step(c, x), Step(d, y))
  {
    hide Step;
    hide Add;
    hide Feedback;
    StepParts(Add(c, d), Add(x, y));
    StepParts(c, x);
    StepParts(d, y);
    AddPairs(c, d, x, y);
    FeedbackLinear(Add(c, x), Add(d, y));
    AddPairs(c >> 1, Feedback(Add(c, x)), d >> 1, Feedback(Add(d, y)));
  }

  /** The checksum is linear: registers and streams can be added before or after. */
  lemma {:induction false} FeedIsLinear(c: byte, d: byte, a: Bits, b: Bits)
    requires |a| == |b|
    ensures Feed(Add(c, d), Xor(a, b)) == Add(Feed(c, a), Feed(d, b))
    decreases |a|
  {
    hide Step;
    hide Add;
    if a != [] {
      StepLinear(c, d, a[0], b[0]);
      assert Xor(a, b)[0] == Add(a[0], b[0]) && Xor(a, b)[1..] == Xor(a[1..], b[1..]);
      FeedIsLinear(Step(c, a[0]), Step(d, b[0]), a[1..], b[1..]);
    }
  }

  // Polynomials

  /** x^8 + x^5 + x^4 + 1, highest power first, as bits are sent. */
  const GENERATOR: Bits := [1, 0, 0, 1, 1, 0, 0, 0, 1]

  function NoBits(k: nat): (s: Bits)
    ensures |s| == k
  {
    seq(k, _ => 0)
  }

  /** The product of a polynomial and the generator, term by term. */
  function Product(q: Bits): (s: Bits)
    ensures |s| == |q| + 8
  {
    if q == [] then NoBits(8) else Xor(Term(q[0], |q|), [0] + Product(q[1..]))
  }

  /** The generator times bit * x^(n - 1), as a polynomial with n + 8 coefficients. */
  function Term(bit: byte, n: nat): (s: Bits)
    requires n > 0
    ensures |s| == n + 8
  {
    if bit == 1 then GENERATOR + NoBits(n - 1) else NoBits(n + 8)
  }

  lemma {:induction false} FeedNoBits(crc: byte, k: nat)
    ensures Feed(crc, NoBits(k)) == Zeros(crc, k)
    decreases k
  {
    hide Step;
    if k > 0 {
      assert NoBits(k)[1..] == NoBits(k - 1);
      FeedNoBits(Step(crc, 0), k - 1);
    }
  }

  lemma FeedFour(crc: byte, s: Bits)
    requires |s| == 4
    ensures Feed(crc, s) == Step(Step(Step(Step(crc, s[0]), s[1]), s[2]), s[3])
  {
    hide Step;
    assert s[1..][1..] == s[2..] && s[2..][1..] == s[3..] && s[3..][1..] == [];
    var c1 := Step(crc, s[0]);
    var c2 := Step(c1, s[1]);
    var c3 := Step(c2, s[2]);
    assert Feed(crc, s) == Feed(c1, s[1..]) == Feed(c2, s[2..]);
    assert Feed(c2, s[2..]) == Feed(c3, s[3..]) == Feed(Step(c3, s[3]), []);
  }

  lemma FirstFour()
    ensures Step(Step(Step(Step(0, 1), 0), 0), 1) == 0x11
  {
    assert Step(0, 1) == 0x8c && Step(0x8c, 0) == 0x46 && Step(0x46, 0) == 0x23;
  }

  lemma LastFive()
    ensures Step(Step(Step(Step(Step(0x11, 1), 0), 0), 0), 1) == 0
  {
    assert Step(0x11, 1) == 0x8 && Step(0x8, 0) == 0x4 && Step(0x4, 0) == 0x2 && Step(0x2, 0) == 0x1;
  }

  /** The generator itself leaves no residue. */
  lemma FeedGenerator()
    ensures Feed(0, GENERATOR) == 0
  {
    hide Step;
    assert GENERATOR == GENERATOR[..4] + GENERATOR[4..8] + GENERATOR[8..];
    FeedSplits(0, GENERATOR[..4] + GENERATOR[4..8], GENERATOR[8..]);
    FeedSplits(0, GENERATOR[..4], GENERATOR[4..8]);
    FeedFour(0, GENERATOR[..4]);
    FirstFour();
    FeedFour(0x11, GENERATOR[4..8]);
    LastFive();
  }

  lemma FeedTerm(bit: byte, n: nat)
    requires n > 0
    ensures Feed(0, Term(bit, n)) == 0
  {
    hide Feed;
    FeedGenerator();
    FeedSplits(0, GENERATOR, NoBits(n - 1));
    FeedNoBits(0, n - 1);
    FeedNoBits(0, n + 8);
    ZerosOfZero(n - 1);
    ZerosOfZero(n + 8);
  }

  lemma FeedZeroFirst(s: Bits)
    ensures Feed(0, [0] + s) == Feed(0, s)
  {
    assert ([0] + s)[1..] == s && Step(0, 0) == 0;
  }

  lemma {:induction false} ProductHasNoResidue(q: Bits)
    ensures Feed(0, Product(q)) == 0
    decreases |q|
  {
    hide Feed;
    if q == [] {
      FeedNoBits(0, 8);
      ZerosOfZero(8);
    } else {
      ProductHasNoResidue(q[1..]);
      FeedZeroFirst(Product(q[1..]));
      FeedTerm(q[0], |q|);
      FeedSum(Term(q[0], |q|), [0] + Product(q[1..]));
    }
  }

  /** Of two streams of equal length, one of which leaves no residue, the sum has the residue of the other. */
  lemma FeedSum(a: Bits, b: Bits)
    requires |a| == |b| && Feed(0, a) == 0
    ensures Feed(0, Xor(a, b)) == Feed(0, b)
  {
    FeedIsLinear(0, 0, a, b);
    assert Add(0, 0) == 0 && Add(0, Feed(0, b)) == Feed(0, b);
  }

  lemma AddTwice(x: byte, y: byte)
    ensures Add(x, Add(x, y)) == y
  {
  }

  lemma {:induction false} XorTwice(a: Bits, b: Bits)
    requires |a| == |b|
    ensures Xor(a, Xor(a, b)) == b
    decreases |a|
  {
    hide Add;
    if a != [] {
      AddTwice(a[0], b[0]);
      assert Xor(a, b)[1..] == Xor(a[1..], b[1..]);
      XorTwice(a[1..], b[1..]);
    }
  }

  lemma {:induction false} ByteFromNoBits(k: nat)
    requires k <= 8
    ensures ByteFrom(NoBits(k)) == 0
    decreases k
  {
    if k > 0 {
      assert NoBits(k)[1..] == NoBits(k - 1);
      ByteFromNoBits(k - 1);
    }
  }

  lemma EightBitsAreZero(m: Bits)
    requires |m| == 8 && Feed(0, m) == 0
    ensures m == NoBits(8)
  {
    hide Feed;
    hide Add;
    hide Zeros;
    FeedAsZeros(0, m);
    ZerosOfZero(8);
    ZerosInjective(Add(0, ByteFrom(m)), 0, 8);
    AddZero(ByteFrom(m));
    AddZero(0);
    AddCancels(0, ByteFrom(m), 0);
    ByteFromNoBits(8);
    ByteFromInjective(m, NoBits(8));
  }

  /** The first coefficient goes when the generator is taken away as often as it says. */
  lemma FirstGoes(m: Bits, n: nat)
    requires n > 0 && |m| == n + 8
    ensures Xor(Term(m[0], n), m)[0] == 0
  {
    assert m[0] == 0 || m[0] == 1;
    assert Term(m[0], n)[0] == m[0];
    assert Add(m[0], m[0]) == 0;
  }

  /** Long division: a stream without a residue is a multiple of the generator. */
  lemma {:induction false} Divide(m: Bits, n: nat) returns (q: Bits)
    requires |m| == n + 8 && Feed(0, m) == 0
    ensures |q| == n && Product(q) == m
    decreases n
  {
    hide Feed;
    hide Term;
    hide Xor;
    if n == 0 {
      EightBitsAreZero(m);
      q := [];
    } else {
      var term := Term(m[0], n);
      var rest := Xor(term, m);
      FirstGoes(m, n);
      FeedTerm(m[0], n);
      FeedSum(term, m);
      assert rest == [0] + rest[1..];
      FeedZeroFirst(rest[1..]);
      q := Divide(rest[1..], n - 1);
      XorTwice(term, m);
      q := [m[0]] + q;
      assert q[1..] == q[1..] && [0] + Product(q[1..]) == rest;
    }
  }

  /** The register divides: a stream leaves no residue iff it is a multiple of x^8 + x^5 + x^4 + 1. */
  lemma ResidueZeroIff(m: Bits)
    requires |m| >= 8
    ensures Feed(0, m) == 0 <==> exists q: Bits :: |q| == |m| - 8 && Product(q) == m
  {
    hide Feed;
    hide Product;
    if Feed(0, m) == 0 {
      var q := Divide(m, |m| - 8);
    }
    if q: Bits :| |q| == |m| - 8 && Product(q) == m {
      ProductHasNoResidue(q);
    }
  }

  /** The checksum of a message is the one byte that, sent behind it, makes the whole a multiple of the generator. */
  lemma ChecksumDivides(message: seq<byte>, b: byte)
    ensures b == Residue(0, message) <==>
      exists q: Bits :: |q| == 8 * |message| && Product(q) == Stream(message + [b])
  {
    hide Feed;
    hide Stream;
    hide Residue;
    hide Product;
    OnlyTheChecksumFits(0, message, b);
    ResidueIsFeed(0, message + [b]);
    ResidueZeroIff(Stream(message + [b]));
  }
}
