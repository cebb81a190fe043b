// The Park-Miller multiplier 16807 generates every non-zero residue modulo
// 2^31 - 1: a certificate for Lucas's criterion, checked one hexadecimal digit
// of the exponent at a time.

module ParkMiller {
  import opened Division
  import opened ModularPowers

  const MODULUS: nat := 0x7fff_ffff
  const MULTIPLIER: nat := 16807

  /** The prime factors of 2^31 - 2. */
  const FACTORS: seq<nat> := [2, 3, 3, 7, 11, 31, 151, 331]

  ghost function Residue(e: nat): nat {
    Pow(MULTIPLIER, e) % MODULUS
  }

  lemma NextResidue(e: nat, x: nat, y: nat)
    requires Residue(e) == x && 16807 * x % 0x7fff_ffff == y
    ensures Residue(e + 1) == y
  {
    MulModRight(MULTIPLIER, Pow(MULTIPLIER, e), MODULUS);
  }

  lemma HexDigits()
    ensures Residue(0) == 1 && Residue(1) == 16807 && Residue(2) == 282475249 && Residue(3) == 1622650073
    ensures Residue(4) == 984943658 && Residue(5) == 1144108930 && Residue(6) == 470211272 && Residue(7) == 101027544
    ensures Residue(8) == 1457850878 && Residue(9) == 1458777923 && Residue(10) == 2007237709
    ensures Residue(11) == 823564440 && Residue(12) == 1115438165 && Residue(13) == 1784484492
    ensures Residue(14) == 74243042 && Residue(15) == 114807987
  {
    assert Residue(0) == 1;
    hide Residue;
    NextResidue(0, 1, 16807);
    NextResidue(1, 16807, 282475249);
    NextResidue(2, 282475249, 1622650073);
    NextResidue(3, 1622650073, 984943658);
    NextResidue(4, 984943658, 1144108930);
    NextResidue(5, 1144108930, 470211272);
    NextResidue(6, 470211272, 101027544);
    NextResidue(7, 101027544, 1457850878);
    NextResidue(8, 1457850878, 1458777923);
    NextResidue(9, 1458777923, 2007237709);
    NextResidue(10, 2007237709, 823564440);
    NextResidue(11, 823564440, 1115438165);
    NextResidue(12, 1115438165, 1784484492);
    NextResidue(13, 1784484492, 74243042);
    NextResidue(14, 74243042, 114807987);
  }

  lemma AddExponents(i: nat, j: nat)
    ensures Residue(i + j) == Residue(i) * Residue(j) % MODULUS
  {
    PowAdd(MULTIPLIER, i, j);
    MulMod(Pow(MULTIPLIER, i), Pow(MULTIPLIER, j), MODULUS);
    MulModRight(Residue(i), Pow(MULTIPLIER, j), MODULUS);
  }

  /** Appending one hexadecimal digit to the exponent: four squarings and one
      multiplication, each reduced. */
  lemma AppendHexDigit(e: nat, x: nat, x2: nat, x4: nat, x8: nat, x16: nat, d: nat, c: nat, y: nat)
    requires Residue(e) == x && Residue(d) == c
    requires x * x % 0x7fff_ffff == x2 && x2 * x2 % 0x7fff_ffff == x4 && x4 * x4 % 0x7fff_ffff == x8
    requires x8 * x8 % 0x7fff_ffff == x16 && x16 * c % 0x7fff_ffff == y
    ensures Residue(16 * e + d) == y
  {
    hide Residue;
    AddExponents(e, e);
    AddExponents(2 * e, 2 * e);
    AddExponents(4 * e, 4 * e);
    AddExponents(8 * e, 8 * e);
    AddExponents(16 * e, d);
  }

  lemma Power2()
    ensures Residue(1073741823) == 2147483646
  {
    hide Residue;
    HexDigits();
    AppendHexDigit(3, 1622650073, 470211272, 1115438165, 1998097157, 1899894091, 15, 114807987, 1108728549);
    AppendHexDigit(63, 1108728549, 1524325968, 1887638, 501848671, 1795289992, 15, 114807987, 754609818);
    AppendHexDigit(1023, 754609818, 878627494, 2009050749, 2071703685, 1587893215, 15, 114807987, 1181132756);
    AppendHexDigit(16383, 1181132756, 1101980020, 1240574072, 998581414, 963142635, 15, 114807987, 103492285);
    AppendHexDigit(262143, 103492285, 1055697433, 1242312909, 1264295359, 492532464, 15, 114807987, 1799481238);
    AppendHexDigit(4194303, 1799481238, 697064706, 225900933, 2100992093, 827792946, 15, 114807987, 797756594);
    AppendHexDigit(67108863, 797756594, 1946561783, 1688537117, 1824949437, 1839179627, 15, 114807987, 2147483646);
  }

  lemma Power3()
    ensures Residue(715827882) == 634005911
  {
    hide Residue;
    HexDigits();
    AppendHexDigit(2, 282475249, 984943658, 1457850878, 1137522503, 1636807826, 10, 2007237709, 2110010672);
    AppendHexDigit(42, 2110010672, 1478446501, 304987844, 832861200, 476003622, 10, 2007237709, 1987502657);
    AppendHexDigit(682, 1987502657, 898003988, 401868524, 512453959, 84507850, 10, 2007237709, 99284761);
    AppendHexDigit(10922, 99284761, 578505488, 11294627, 1627986388, 1158865755, 10, 2007237709, 1175969859);
    AppendHexDigit(174762, 1175969859, 1524724550, 1299877462, 1677815163, 1877619757, 10, 2007237709, 313625057);
    AppendHexDigit(2796202, 313625057, 438271176, 446115504, 1638520455, 176702896, 10, 2007237709, 1252779437);
    AppendHexDigit(44739242, 1252779437, 1388093266, 554809434, 1027646758, 920240050, 10, 2007237709, 634005911);
  }

  lemma Power7()
    ensures Residue(306783378) == 1600955193
  {
    hide Residue;
    HexDigits();
    AppendHexDigit(1, 16807, 282475249, 984943658, 1457850878, 1137522503, 2, 282475249, 16531729);
    AppendHexDigit(18, 16531729, 704877633, 824938981, 318153057, 855007065, 4, 984943658, 338725129);
    AppendHexDigit(292, 338725129, 401203083, 749808928, 2110720068, 1105460498, 9, 1458777923, 184149733);
    AppendHexDigit(4681, 184149733, 1588280530, 1292075693, 320365114, 795457266, 2, 282475249, 713072451);
    AppendHexDigit(74898, 713072451, 808531276, 72714612, 821751376, 1691809704, 4, 984943658, 1994951511);
    AppendHexDigit(1198372, 1994951511, 2080243443, 1683044520, 1970866768, 1272582736, 9, 1458777923, 1491475262);
    AppendHexDigit(19173961, 1491475262, 1410082339, 1210473470, 2032255744, 1294654868, 2, 282475249, 1600955193);
  }

  lemma Power11()
    ensures Residue(195225786) == 298192073
  {
    hide Residue;
    HexDigits();
    AppendHexDigit(11, 823564440, 1474833169, 1617819336, 1557810404, 784559590, 10, 2007237709, 462242385);
    AppendHexDigit(186, 462242385, 978719103, 1763464891, 1385869610, 1047660757, 2, 282475249, 1503614727);
    AppendHexDigit(2978, 1503614727, 1426595217, 1593242601, 245677251, 984865240, 14, 74243042, 2001314837);
    AppendHexDigit(47662, 2001314837, 1917845806, 450369632, 703814329, 723275386, 8, 1457850878, 289296328);
    AppendHexDigit(762600, 289296328, 1343207366, 2134136009, 2049340277, 1935649565, 11, 823564440, 1008979637);
    AppendHexDigit(12201611, 1008979637, 547841991, 1476938629, 2065865593, 1728334681, 10, 2007237709, 298192073);
  }

  lemma Power31()
    ensures Residue(69273666) == 16384
  {
    hide Residue;
    HexDigits();
    AppendHexDigit(4, 984943658, 1457850878, 1137522503, 1636807826, 685118024, 2, 282475249, 1060806853);
    AppendHexDigit(66, 1060806853, 1400285365, 175530180, 706642601, 1680351381, 1, 16807, 108218770);
    AppendHexDigit(1057, 108218770, 111398400, 2048666863, 480822013, 1593778648, 0, 1, 1593778648);
    AppendHexDigit(16912, 1593778648, 1464474750, 1535817640, 911831480, 2072488627, 8, 1457850878, 2107038118);
    AppendHexDigit(270600, 2107038118, 1590438532, 2141501481, 642557948, 122712502, 4, 984943658, 495975381);
    AppendHexDigit(4329604, 495975381, 411385676, 424739074, 205970348, 2143103993, 2, 282475249, 16384);
  }

  lemma Power151()
    ensures Residue(14221746) == 1013763951
  {
    hide Residue;
    HexDigits();
    AppendHexDigit(13, 1784484492, 1131570933, 1025921153, 382955828, 1104740033, 9, 1458777923, 1719533808);
    AppendHexDigit(217, 1719533808, 2119315080, 876554400, 444978220, 454021550, 0, 1, 454021550);
    AppendHexDigit(3472, 454021550, 2010792109, 2100574543, 1969511326, 199457713, 1, 16807, 63809424);
    AppendHexDigit(55553, 63809424, 711597894, 1876427685, 506944312, 2041767666, 11, 823564440, 1422968813);
    AppendHexDigit(888859, 1422968813, 1031122011, 2059074765, 758497081, 1449655222, 2, 282475249, 1013763951);
  }

  lemma Power331()
    ensures Residue(6487866) == 759513457
  {
    hide Residue;
    HexDigits();
    AppendHexDigit(6, 470211272, 1115438165, 1998097157, 1899894091, 1816731566, 2, 282475249, 1807130337);
    AppendHexDigit(98, 1807130337, 992663534, 1603481258, 320514918, 1783848212, 15, 114807987, 182048270);
    AppendHexDigit(1583, 182048270, 799204591, 1592854157, 672182563, 461101996, 15, 114807987, 1349594950);
    AppendHexDigit(25343, 1349594950, 924100177, 1315497955, 1048814560, 1051660835, 3, 1622650073, 150479927);
    AppendHexDigit(405491, 150479927, 542140772, 302749254, 482696820, 1742270007, 10, 2007237709, 759513457);
  }

  lemma FactorsArePrime(q: nat)
    requires q in FACTORS
    ensures IsPrime(q)
  {
    if q == 151 || q == 331 {
      forall k | 2 <= k < q
        ensures q % k != 0
      {
        NoDivisor(q, k, q / k);
      }
    }
  }

  /** A divisor of 151 or 331, or its cofactor, would be at most 18. */
  lemma NoDivisor(q: nat, k: nat, j: nat)
    requires (q == 151 || q == 331) && 2 <= k < q
    ensures q != k * j
  {
    assert k >= 19 && j >= 19 ==> k * j >= 19 * 19;
    assert j <= 1 ==> k * j <= k;
  }

  /** 16807 has order exactly 2^31 - 2 modulo 2^31 - 1. */
  lemma MultiplierOrder()
    ensures IsOrder(MULTIPLIER, MODULUS - 1, MODULUS)
  {
    assert LucasWitness(MULTIPLIER, MODULUS, FACTORS) by {
      assert Product(FACTORS) == MODULUS - 1;
      forall q | q in FACTORS
        ensures IsPrime(q)
      {
        FactorsArePrime(q);
      }
      WitnessResidues();
    }
    LucasOrder(MULTIPLIER, MODULUS, FACTORS);
  }

  /** ... so 2^31 - 1 is prime. */
  lemma ModulusIsPrime()
    ensures IsPrime(MODULUS)
  {
    MultiplierOrder();
    GeneratedIsPrime(MULTIPLIER, MODULUS);
  }

  lemma WitnessResidues()
    ensures IsOne(MULTIPLIER, MODULUS - 1, MODULUS)
    ensures forall q :: q in FACTORS && q > 0 ==> !IsOne(MULTIPLIER, (MODULUS - 1) / q, MODULUS)
  {
    hide Pow;
    Power2(); Power3(); Power7(); Power11(); Power31(); Power151(); Power331();
    AddExponents(1073741823, 1073741823);
  }
}
