/** The 16-bit frame check sequence of PPP (Appendix C of RFC 1662), as the PPP
    driver computes it without a table. */
module Fcs {
  const INITIAL: bv16 := 0xFFFF
  const GOOD: bv16 := 0xF0B8

  // The three stages of the table-free step.

  function Low(crc: bv16, data: bv16): bv16 {
    (crc ^ data) & 0x00FF
  }

  function Mix(word: bv16): bv16 {
    word ^ ((word << 4) & 0x00FF)
  }

  function Spread(word: bv16): bv16 {
    (word << 8) ^ (word << 3) ^ (word >> 4)
  }

  function StepWord(crc: bv16, data: bv16): bv16 {
    (crc >> 8) ^ Spread(Mix(Low(crc, data)))
  }

  /** One octet, with shifts and exclusive-ors only (`ppp_fcs_char`). */
  function Step(crc: bv16, data: bv8): bv16 {
    StepWord(crc, data as bv16)
  }

  // ---------- The step refines the bitwise register and the nibble multiplier ----------

  /** One shift of the reflected polynomial register, the textbook definition. */
  function Shift(crc: bv16): bv16 {
    (crc >> 1) ^ ((crc & 1) * 0x8408)
  }

  function FourShifts(crc: bv16): bv16 {
    Shift(Shift(Shift(Shift(crc))))
  }

  /** One half of an iteration of the multiplying CRC (`calculate_crc16`). */
  function NibbleStep(crc: bv16, data: bv16): bv16 {
    (crc >> 4) ^ (((crc ^ data) & 0xF) * 0x1081)
  }

  /** The product by 0x1081, for an argument of four bits. */
  function Product(q: bv16): bv16 {
    q ^ (q << 7) ^ (q << 12)
  }

  lemma ProductIsMultiplication(x: bv16)
    ensures (x & 0xF) * 0x1081 == Product(x & 0xF)
  {
  }

  // The operations of the proofs below, each as one function.

  function Both(x: bv16, y: bv16): bv16 {
    x ^ y
  }

  function Onto(x: bv16, p: bv16): bv16 {
    (x >> 4) ^ p
  }

  function Folded(x: bv16, w: bv16): bv16 {
    (x >> 8) ^ w
  }

  function LowNibble(x: bv16): bv16 {
    x & 0xF
  }

  function SecondNibble(x: bv16): bv16 {
    ((x >> 4) ^ x) & 0xF
  }

  function LowEight(x: bv16): bv16 {
    x & 0xFF
  }

  lemma ProductLow(x: bv16)
    ensures LowNibble(Onto(x, Product(LowNibble(x)))) == SecondNibble(x)
  {
  }

  lemma OntoTwice(x: bv16, p: bv16, q: bv16)
    ensures Onto(Onto(x, p), q) == Folded(x, Onto(p, q))
  {
  }

  lemma StagesAreProducts(x: bv16)
    ensures Spread(Mix(LowEight(x))) == Onto(Product(LowNibble(x)), Product(SecondNibble(x)))
  {
  }

  lemma FourShiftsMultiply(x: bv16)
    ensures FourShifts(x) == (x >> 4) ^ ((x & 0xF) * 0x1081)
  {
  }

  lemma FourShiftsIsNibble(x: bv16)
    ensures FourShifts(x) == Onto(x, Product(LowNibble(x)))
  {
    FourShiftsMultiply(x);
    ProductIsMultiplication(x);
  }

  lemma EightShiftsIsStages(x: bv16)
    ensures FourShifts(FourShifts(x)) == Folded(x, Spread(Mix(LowEight(x))))
  {
    hide *;
    FourShiftsIsNibble(x);
    FourShiftsIsNibble(FourShifts(x));
    ProductLow(x);
    StagesAreProducts(x);
    OntoTwice(x, Product(LowNibble(x)), Product(SecondNibble(x)));
  }

  lemma HighOctetUntouched(crc: bv16, data: bv8, w: bv16)
    ensures Folded(Both(crc, data as bv16), w) == Folded(crc, w)
  {
  }

  lemma LowIsEight(crc: bv16, data: bv16)
    ensures Low(crc, data) == LowEight(Both(crc, data))
  {
  }

  lemma StepUnfolded(crc: bv16, data: bv16)
    ensures StepWord(crc, data) == Folded(crc, Spread(Mix(Low(crc, data))))
  {
    hide Low, Mix, Spread;
  }

  lemma StepFolded(crc: bv16, data: bv16)
    ensures StepWord(crc, data) == Folded(crc, Spread(Mix(LowEight(Both(crc, data)))))
  {
    hide *;
    StepUnfolded(crc, data);
    LowIsEight(crc, data);
  }

  lemma StepOfWord(crc: bv16, data: bv8)
    ensures Step(crc, data) == StepWord(crc, data as bv16)
  {
    hide StepWord;
  }

  /** The driver's step is eight shifts of the reflected 0x8408 register. */
  lemma StepIsEightShifts(crc: bv16, data: bv8)
    ensures Step(crc, data) == FourShifts(FourShifts(Both(crc, data as bv16)))
  {
    hide *;
    var word := Both(crc, data as bv16);
    StepOfWord(crc, data);
    StepFolded(crc, data as bv16);
    HighOctetUntouched(crc, data, Spread(Mix(LowEight(word))));
    EightShiftsIsStages(word);
  }

  lemma NibbleStepIsProduct(crc: bv16, data: bv16)
    ensures NibbleStep(crc, data) == Onto(crc, Product(LowNibble(Both(crc, data))))
  {
    ProductIsMultiplication(crc ^ data);
  }

  lemma SecondNibbleOf(crc: bv16, data: bv16)
    ensures LowNibble(Both(Onto(crc, Product(LowNibble(Both(crc, data)))), data >> 4)) == SecondNibble(Both(crc, data))
  {
  }

  lemma TwoNibbleStepsIsStepWord(crc: bv16, data: bv16)
    ensures NibbleStep(NibbleStep(crc, data), data >> 4) == StepWord(crc, data)
  {
    hide *;
    var x := Both(crc, data);
    NibbleStepIsProduct(crc, data);
    NibbleStepIsProduct(NibbleStep(crc, data), data >> 4);
    SecondNibbleOf(crc, data);
    StagesAreProducts(x);
    StepFolded(crc, data);
    OntoTwice(crc, Product(LowNibble(x)), Product(SecondNibble(x)));
  }

  lemma HighNibble(data: bv8)
    ensures (data >> 4) as bv16 == (data as bv16) >> 4
  {
  }

  /** It is also what the radio test driver computes with two multiplications. */
  lemma StepIsTwoNibbles(crc: bv16, data: bv8)
    ensures Step(crc, data) == NibbleStep(NibbleStep(crc, data as bv16), (data >> 4) as bv16)
  {
    HighNibble(data);
    TwoNibbleStepsIsStepWord(crc, data as bv16);
  }

  // ---------- Buffers ----------

  /** The register after all of `s`, starting from `crc`. */
  function Fold(crc: bv16, s: seq<bv8>): bv16 {
    if s == [] then crc else Step(Fold(crc, s[..|s| - 1]), s[|s| - 1])
  }

  lemma {:induction false} FoldConcat(crc: bv16, s: seq<bv8>, t: seq<bv8>)
    ensures Fold(crc, s + t) == Fold(Fold(crc, s), t)
  {
    if t == [] {
      assert s + t == s;
    } else {
      assert (s + t)[..|s + t| - 1] == s + t[..|t| - 1];
      FoldConcat(crc, s, t[..|t| - 1]);
    }
  }

  /** A buffer passes when the whole of it, trailer included, leaves the constant residue. */
  predicate Passes(s: seq<bv8>) {
    Fold(INITIAL, s) == GOOD
  }

  function Finish(crc: bv16): bv16 {
    crc ^ 0xFFFF
  }

  function LowOctet(fcs: bv16): bv8 {
    (fcs & 0x00FF) as bv8
  }

  function HighOctet(fcs: bv16): bv8 {
    ((fcs & 0xFF00) >> 8) as bv8
  }

  /** The two octets that follow a body: the complement, low octet first. */
  function Trailer(body: seq<bv8>): (t: seq<bv8>)
    ensures |t| == 2
  {
    var fcs := Finish(Fold(INITIAL, body));
    [LowOctet(fcs), HighOctet(fcs)]
  }

  lemma ResidueOfTwo(crc: bv16, lo: bv8, hi: bv8)
    ensures Step(Step(crc, lo), hi) == GOOD <==> lo == LowOctet(Finish(crc)) && hi == HighOctet(Finish(crc))
  {
  }

  lemma FoldTwo(crc: bv16, s: seq<bv8>)
    requires |s| == 2
    ensures Fold(crc, s) == Step(Step(crc, s[0]), s[1])
  {
    assert s[..1][..0] == [];
    assert Fold(crc, s[..1]) == Step(crc, s[0]);
  }

  /** Comparing the trailer (`ppp_fcs_verify`) and comparing the residue accept the same buffers. */
  lemma PassesIffTrailer(body: seq<bv8>, tail: seq<bv8>)
    requires |tail| == 2
    ensures Passes(body + tail) <==> tail == Trailer(body)
  {
    FoldConcat(INITIAL, body, tail);
    FoldTwo(Fold(INITIAL, body), tail);
    ResidueOfTwo(Fold(INITIAL, body), tail[0], tail[1]);
  }

  // ---------- The loops of the drivers ----------

  /** `ppp_fcs_continue` over the `len` octets at `start`. */
  method Continue(crc: bv16, buf: array<bv8>, start: nat, len: nat) returns (r: bv16)
    requires start + len <= buf.Length
    ensures r == Fold(crc, buf[start..start + len])
  {
    r := crc;
    var pos := start;
    while pos < start + len
      invariant start <= pos <= start + len
      invariant r == Fold(crc, buf[start..pos])
    {
      assert buf[start..pos + 1][..pos - start] == buf[start..pos];
      r := Step(r, buf[pos]);
      pos := pos + 1;
    }
  }

  /** `ppp_fcs_verify`: true where the source returns 0. */
  method Verify(buf: array<bv8>, len: nat) returns (ok: bool)
    requires 2 <= len <= buf.Length
    ensures ok <==> Passes(buf[..len])
  {
    hide Passes, Fold, HighOctet, LowOctet, Finish;
    ghost var body, tail := buf[..len - 2], buf[len - 2..len];
    assert buf[0..len - 2] == body;
    var fcs := Continue(INITIAL, buf, 0, len - 2);
    fcs := Finish(fcs);
    ok := !(HighOctet(fcs) != buf[len - 1] || LowOctet(fcs) != buf[len - 2]);
    PassesIffTrailer(body, tail);
    assert body + tail == buf[..len];
    assert tail == [buf[len - 2], buf[len - 1]];
  }

  /** `calculate_crc16`: the same register, started from zero and fed nibble by nibble. */
  method CalculateCrc16(buf: array<bv8>, len: nat) returns (crc: bv16)
    requires len <= buf.Length
    ensures crc == Fold(0, buf[..len])
  {
    crc := 0;
    for i := 0 to len
      invariant crc == Fold(0, buf[..i])
    {
      var c := buf[i];
      StepIsTwoNibbles(crc, c);
      assert buf[..i + 1][..i] == buf[..i];
      crc := NibbleStep(crc, c as bv16);
      crc := NibbleStep(crc, (c >> 4) as bv16);
    }
  }

  // ---------- Error detection: the step is linear ----------

  function Xor(x: bv16, y: bv16): bv16 {
    x ^ y
  }

  lemma XorCommutes(x: bv16, y: bv16)
    ensures Xor(x, y) == Xor(y, x)
  {
  }

  lemma XorAssociates(x: bv16, y: bv16, z: bv16)
    ensures Xor(Xor(x, y), z) == Xor(x, Xor(y, z))
  {
  }

  lemma XorPairs(w: bv16, x: bv16, y: bv16, z: bv16)
    ensures Xor(Xor(w, x), Xor(y, z)) == Xor(Xor(w, y), Xor(x, z))
  {
    hide *;
    XorAssociates(w, x, Xor(y, z));
    XorAssociates(x, y, z);
    XorCommutes(x, y);
    XorAssociates(y, x, z);
    XorAssociates(w, y, Xor(x, z));
  }

  lemma XorDetects(x: bv16, y: bv16)
    ensures Xor(x, y) == 0 <==> x == y
  {
  }

  lemma MixLinear(x: bv16, y: bv16)
    ensures Xor(Mix(x), Mix(y)) == Mix(Xor(x, y))
  {
  }

  lemma SpreadIsXor(x: bv16)
    ensures Spread(x) == Xor(Xor(x << 8, x << 3), x >> 4)
  {
  }

  lemma Left8Linear(x: bv16, y: bv16)
    ensures Xor(x << 8, y << 8) == Xor(x, y) << 8
  {
  }

  lemma Left3Linear(x: bv16, y: bv16)
    ensures Xor(x << 3, y << 3) == Xor(x, y) << 3
  {
  }

  lemma Right4Linear(x: bv16, y: bv16)
    ensures Xor(x >> 4, y >> 4) == Xor(x, y) >> 4
  {
  }

  lemma Right8Linear(x: bv16, y: bv16)
    ensures Xor(x >> 8, y >> 8) == Xor(x, y) >> 8
  {
  }

  lemma SpreadLinear(x: bv16, y: bv16)
    ensures Xor(Spread(x), Spread(y)) == Spread(Xor(x, y))
  {
    hide *;
    SpreadIsXor(x);
    SpreadIsXor(y);
    SpreadIsXor(Xor(x, y));
    XorPairs(Xor(x << 8, x << 3), x >> 4, Xor(y << 8, y << 3), y >> 4);
    XorPairs(x << 8, x << 3, y << 8, y << 3);
    Left8Linear(x, y);
    Left3Linear(x, y);
    Right4Linear(x, y);
  }

  lemma LowLinear(c: bv16, c': bv16, b: bv16, b': bv16)
    ensures Xor(Low(c, b), Low(c', b')) == Low(Xor(c, c'), Xor(b, b'))
  {
  }

  lemma StepWordIsXor(c: bv16, b: bv16)
    ensures StepWord(c, b) == Xor(c >> 8, Spread(Mix(Low(c, b))))
  {
  }

  lemma StepWordLinear(c: bv16, c': bv16, b: bv16, b': bv16)
    ensures Xor(StepWord(c, b), StepWord(c', b')) == StepWord(Xor(c, c'), Xor(b, b'))
  {
    hide *;
    StepWordIsXor(c, b);
    StepWordIsXor(c', b');
    StepWordIsXor(Xor(c, c'), Xor(b, b'));
    XorPairs(c >> 8, Spread(Mix(Low(c, b))), c' >> 8, Spread(Mix(Low(c', b'))));
    Right8Linear(c, c');
    SpreadLinear(Mix(Low(c, b)), Mix(Low(c', b')));
    MixLinear(Low(c, b), Low(c', b'));
    LowLinear(c, c', b, b');
  }

  lemma WidenLinear(b: bv8, b': bv8)
    ensures Xor(b as bv16, b' as bv16) == (b ^ b') as bv16
  {
  }

  lemma StepIsStepWord(c: bv16, b: bv8)
    ensures Step(c, b) == StepWord(c, b as bv16)
  {
  }

  lemma StepLinear(c: bv16, c': bv16, b: bv8, b': bv8)
    ensures Xor(Step(c, b), Step(c', b')) == Step(Xor(c, c'), b ^ b')
  {
    hide *;
    StepIsStepWord(c, b);
    StepIsStepWord(c', b');
    StepIsStepWord(Xor(c, c'), b ^ b');
    WidenLinear(b, b');
    StepWordLinear(c, c', b as bv16, b' as bv16);
  }

  lemma StepZeroOnly(c: bv16)
    ensures Step(c, 0) == 0 <==> c == 0
  {
  }

  lemma XorSelf(b: bv8)
    ensures b ^ b == 0
  {
  }

  /** The step loses nothing of the register it starts from. */
  lemma StepInjective(c: bv16, c': bv16, b: bv8)
    ensures Step(c, b) == Step(c', b) <==> c == c'
  {
    hide *;
    StepLinear(c, c', b, b);
    XorSelf(b);
    StepZeroOnly(Xor(c, c'));
    XorDetects(c, c');
    XorDetects(Step(c, b), Step(c', b));
  }

  lemma {:induction false} FoldInjective(c: bv16, c': bv16, s: seq<bv8>)
    ensures Fold(c, s) == Fold(c', s) <==> c == c'
  {
    if s != [] {
      FoldInjective(c, c', s[..|s| - 1]);
      StepInjective(Fold(c, s[..|s| - 1]), Fold(c', s[..|s| - 1]), s[|s| - 1]);
    }
  }

  // ---------- Error detection: bursts ----------

  /** Three steps at once. */
  function Step3(c: bv16, x: bv8, y: bv8, z: bv8): bv16 {
    Step(Step(Step(c, x), y), z)
  }

  lemma Step3IsSteps(c: bv16, x: bv8, y: bv8, z: bv8)
    ensures Step3(c, x, y, z) == Step(Step(Step(c, x), y), z)
  {
  }

  lemma Step3Linear(c: bv16, x: bv8, y: bv8, z: bv8, x': bv8, y': bv8, z': bv8)
    ensures Xor(Step3(c, x, y, z), Step3(c, x', y', z')) == Step3(0, x ^ x', y ^ y', z ^ z')
  {
    hide *;
    XorDetects(c, c);
    StepLinear(c, c, x, x');
    StepLinear(Step(c, x), Step(c, x'), y, y');
    StepLinear(Step(Step(c, x), y), Step(Step(c, x'), y'), z, z');
    Step3IsSteps(c, x, y, z);
    Step3IsSteps(c, x', y', z');
    Step3IsSteps(0, x ^ x', y ^ y', z ^ z');
  }

  function BitMask(q: nat): bv8
    requires q < 8
  {
    match q
    case 0 => 0x01
    case 1 => 0x02
    case 2 => 0x04
    case 3 => 0x08
    case 4 => 0x10
    case 5 => 0x20
    case 6 => 0x40
    case _ => 0x80
  }

  /** Bit `q` of an octet, least significant first: the order on the wire. */
  predicate Bit(b: bv8, q: nat)
    requires q < 8
  {
    b & BitMask(q) != 0
  }

  /** The `r` bits of an octet that go first on the wire. */
  function LowMask(r: nat): bv8
    requires r < 8
  {
    match r
    case 0 => 0x00
    case 1 => 0x01
    case 2 => 0x03
    case 3 => 0x07
    case 4 => 0x0F
    case 5 => 0x1F
    case 6 => 0x3F
    case _ => 0x7F
  }

  lemma BitOfXor(x: bv8, y: bv8, q: nat)
    requires q < 8
    ensures Bit(x, q) == Bit(y, q) <==> !Bit(x ^ y, q)
  {
  }

  lemma ClearLowBits(d: bv8, r: nat)
    requires r < 8
    requires forall q: nat | q < r :: !Bit(d, q)
    ensures d & LowMask(r) == 0
  {
    assert r > 0 ==> !Bit(d, 0);
    assert r > 1 ==> !Bit(d, 1);
    assert r > 2 ==> !Bit(d, 2);
    assert r > 3 ==> !Bit(d, 3);
    assert r > 4 ==> !Bit(d, 4);
    assert r > 5 ==> !Bit(d, 5);
    assert r > 6 ==> !Bit(d, 6);
  }

  lemma ClearHighBits(d: bv8, r: nat)
    requires r < 8
    requires forall q: nat | r <= q < 8 :: !Bit(d, q)
    ensures d & (0xFF ^ LowMask(r)) == 0
  {
    assert r <= 0 ==> !Bit(d, 0);
    assert r <= 1 ==> !Bit(d, 1);
    assert r <= 2 ==> !Bit(d, 2);
    assert r <= 3 ==> !Bit(d, 3);
    assert r <= 4 ==> !Bit(d, 4);
    assert r <= 5 ==> !Bit(d, 5);
    assert r <= 6 ==> !Bit(d, 6);
    assert r <= 7 ==> !Bit(d, 7);
  }

  lemma EqualLowBits(x: bv8, y: bv8, r: nat)
    requires r < 8
    requires forall q: nat | q < r :: Bit(x, q) == Bit(y, q)
    ensures (x ^ y) & LowMask(r) == 0
  {
    hide *;
    var d := x ^ y;
    forall q: nat | q < r
      ensures !Bit(d, q)
    {
      BitOfXor(x, y, q);
    }
    ClearLowBits(d, r);
  }

  lemma EqualHighBits(x: bv8, y: bv8, r: nat)
    requires r < 8
    requires forall q: nat | r <= q < 8 :: Bit(x, q) == Bit(y, q)
    ensures (x ^ y) & (0xFF ^ LowMask(r)) == 0
  {
    hide *;
    var d := x ^ y;
    forall q: nat | r <= q < 8
      ensures !Bit(d, q)
    {
      BitOfXor(x, y, q);
    }
    ClearHighBits(d, r);
  }

  /** An error pattern of at most 16 consecutive bits, over three octets, never leaves the
      register as it was. */
  lemma BurstNeverVanishes(x: bv8, y: bv8, z: bv8, r: nat)
    requires r < 8
    requires x & LowMask(r) == 0 && z & (0xFF ^ LowMask(r)) == 0
    requires Step3(0, x, y, z) == 0
    ensures x == 0 && y == 0 && z == 0
  {
  }

  /** Whether bit `j` of the stream of octets is set. */
  predicate WireBit(s: seq<bv8>, j: nat)
    requires j < 8 * |s|
  {
    Bit(s[j / 8], j % 8)
  }

  /** The buffers differ, if at all, inside the 16 bits that start at bit `k` of the stream. */
  ghost predicate WithinBurst(s: seq<bv8>, t: seq<bv8>, k: nat) {
    && |s| == |t|
    && forall j: nat | j < 8 * |s| && WireBit(s, j) != WireBit(t, j) :: k <= j < k + 16
  }

  lemma BurstBit(s: seq<bv8>, t: seq<bv8>, k: nat, i: nat, q: nat)
    requires WithinBurst(s, t, k) && i < |s| && q < 8
    requires 8 * i + q < k || k + 16 <= 8 * i + q
    ensures Bit(s[i], q) == Bit(t[i], q)
  {
    var j := 8 * i + q;
    assert j / 8 == i && j % 8 == q;
    assert WireBit(s, j) == WireBit(t, j);
  }

  lemma AllClear(x: bv8, y: bv8)
    requires (x ^ y) & (0xFF ^ LowMask(0)) == 0
    ensures x == y
  {
  }

  lemma BurstOutside(s: seq<bv8>, t: seq<bv8>, k: nat, i: nat)
    requires WithinBurst(s, t, k) && i < |s|
    requires i < k / 8 || k / 8 + 3 <= i
    ensures s[i] == t[i]
  {
    forall q: nat | 0 <= q < 8
      ensures Bit(s[i], q) == Bit(t[i], q)
    {
      BurstBit(s, t, k, i, q);
    }
    EqualHighBits(s[i], t[i], 0);
    AllClear(s[i], t[i]);
  }

  lemma FoldThree(crc: bv16, s: seq<bv8>)
    requires |s| == 3
    ensures Fold(crc, s) == Step3(crc, s[0], s[1], s[2])
  {
    assert s[..2] + [s[2]] == s;
    FoldTwo(crc, s[..2]);
  }

  lemma FoldWindow(crc: bv16, s: seq<bv8>, i: nat)
    requires i + 3 <= |s|
    ensures Fold(crc, s) == Fold(Step3(Fold(crc, s[..i]), s[i], s[i + 1], s[i + 2]), s[i + 3..])
  {
    assert s == s[..i] + (s[i..i + 3] + s[i + 3..]);
    FoldConcat(crc, s[..i], s[i..i + 3] + s[i + 3..]);
    FoldConcat(Fold(crc, s[..i]), s[i..i + 3], s[i + 3..]);
    FoldThree(Fold(crc, s[..i]), s[i..i + 3]);
  }

  lemma XorEqual(x: bv8, y: bv8)
    ensures x ^ y == 0 <==> x == y
  {
  }

  lemma WindowDetermined(c: bv16, x: bv8, y: bv8, z: bv8, x': bv8, y': bv8, z': bv8, r: nat)
    requires r < 8
    requires Step3(c, x, y, z) == Step3(c, x', y', z')
    requires (x ^ x') & LowMask(r) == 0 && (z ^ z') & (0xFF ^ LowMask(r)) == 0
    ensures x == x' && y == y' && z == z'
  {
    hide *;
    Step3Linear(c, x, y, z, x', y', z');
    XorDetects(Step3(c, x, y, z), Step3(c, x', y', z'));
    BurstNeverVanishes(x ^ x', y ^ y', z ^ z', r);
    XorEqual(x, x');
    XorEqual(y, y');
    XorEqual(z, z');
  }

  lemma BurstMasks(s: seq<bv8>, t: seq<bv8>, k: nat)
    requires WithinBurst(s, t, k) && k / 8 + 3 <= |s|
    ensures (s[k / 8] ^ t[k / 8]) & LowMask(k % 8) == 0
    ensures (s[k / 8 + 2] ^ t[k / 8 + 2]) & (0xFF ^ LowMask(k % 8)) == 0
  {
    var i, r := k / 8, k % 8;
    forall q: nat | 0 <= q < r
      ensures Bit(s[i], q) == Bit(t[i], q)
    {
      BurstBit(s, t, k, i, q);
    }
    var z, z' := s[i + 2], t[i + 2];
    forall q: nat | r <= q < 8
      ensures Bit(z, q) == Bit(z', q)
    {
      BurstBit(s, t, k, i + 2, q);
    }
    EqualLowBits(s[i], t[i], r);
    EqualHighBits(z, z', r);
  }

  lemma WindowsEqual(crc: bv16, s: seq<bv8>, t: seq<bv8>, i: nat, r: nat)
    requires r < 8 && |s| == |t| && i + 3 <= |s|
    requires s[..i] == t[..i] && s[i + 3..] == t[i + 3..]
    requires (s[i] ^ t[i]) & LowMask(r) == 0 && (s[i + 2] ^ t[i + 2]) & (0xFF ^ LowMask(r)) == 0
    requires Fold(crc, s) == Fold(crc, t)
    ensures s[i] == t[i] && s[i + 1] == t[i + 1] && s[i + 2] == t[i + 2]
  {
    hide *;
    var c := Fold(crc, s[..i]);
    FoldWindow(crc, s, i);
    FoldWindow(crc, t, i);
    FoldInjective(Step3(c, s[i], s[i + 1], s[i + 2]), Step3(c, t[i], t[i + 1], t[i + 2]), s[i + 3..]);
    WindowDetermined(c, s[i], s[i + 1], s[i + 2], t[i], t[i + 1], t[i + 2], r);
  }

  lemma BurstInWindow(crc: bv16, s: seq<bv8>, t: seq<bv8>, k: nat)
    requires WithinBurst(s, t, k) && k / 8 + 3 <= |s|
    requires Fold(crc, s) == Fold(crc, t)
    ensures s == t
  {
    var i := k / 8;
    forall j | 0 <= j < |s| && (j < i || i + 3 <= j)
      ensures s[j] == t[j]
    {
      BurstOutside(s, t, k, j);
    }
    BurstMasks(s, t, k);
    hide *;
    WindowsEqual(crc, s, t, i, k % 8);
    assert forall j | 0 <= j < |s| :: s[j] == t[j];
  }

  lemma BurstPadded(s: seq<bv8>, t: seq<bv8>, k: nat, pad: seq<bv8>)
    requires WithinBurst(s, t, k)
    ensures WithinBurst(s + pad, t + pad, k)
  {
    forall j: nat | j < 8 * |s + pad| && WireBit(s + pad, j) != WireBit(t + pad, j)
      ensures k <= j < k + 16
    {
      assert j / 8 < |s| ==> WireBit(s, j) != WireBit(t, j);
    }
  }

  /** However long the buffers, and wherever the damage falls, check octets included: two
      buffers of one length that differ only within 16 consecutive bits do not both pass. */
  lemma BurstDetected(s: seq<bv8>, t: seq<bv8>, k: nat)
    requires WithinBurst(s, t, k)
    requires Passes(s) && Passes(t)
    ensures s == t
  {
    var pad := seq(k / 8 + 3, _ => 0 as bv8);
    BurstPadded(s, t, k, pad);
    FoldConcat(INITIAL, s, pad);
    FoldConcat(INITIAL, t, pad);
    BurstInWindow(INITIAL, s + pad, t + pad, k);
    assert s == (s + pad)[..|s|] && t == (t + pad)[..|t|];
  }

  /** In particular, damage confined to two adjacent octets is always noticed. */
  lemma TwoOctetsDetected(s: seq<bv8>, t: seq<bv8>, i: nat)
    requires |s| == |t| && s != t
    requires forall j | 0 <= j < |s| && s[j] != t[j] :: i <= j <= i + 1
    ensures !(Passes(s) && Passes(t))
  {
    forall j: nat | j < 8 * |s| && WireBit(s, j) != WireBit(t, j)
      ensures 8 * i <= j < 8 * i + 16
    {
      assert s[j / 8] != t[j / 8];
    }
    if Passes(s) && Passes(t) {
      BurstDetected(s, t, 8 * i);
    }
  }
}
