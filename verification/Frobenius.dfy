/** Polynomials in registers: powers of the step, and squares modulo its characteristic polynomial. */
module Frobenius {
  import opened Words
  import opened Xoroshiro
  import opened Registers
  import opened StepPolynomials

  /** The characteristic polynomial; the 128-bit engine's is without its leading term. */
  const PLUS_TERMS: Register := 0x0008_828E_513B_43D5_095B_8F76_579A_A001
  const STAR_TERMS: Register := 0x1_053B_E9DA_6E22_86C1

  /** Eight powers of the step. */
  datatype Row = Row(
    r0: Register, r1: Register, r2: Register, r3: Register,
    r4: Register, r5: Register, r6: Register, r7: Register)

  const PLUS_0: Row := Row(
    0x0008_828E_513B_43D5_095B_8F76_579A_A001, 0x0022_0A39_44ED_0F54_256E_3DD9_5E6A_8004,
    0x0088_28E5_13B4_3D50_95B8_F765_79AA_0010, 0x0220_A394_4ED0_F542_56E3_DD95_E6A8_0040,
    0x0882_8E51_3B43_D509_5B8F_7657_9AA0_0100, 0x220A_3944_ED0F_5425_6E3D_D95E_6A80_0400,
    0x8828_E513_B43D_5095_B8F7_6579_AA00_1000, 0x20B2_9152_7283_C5FC_F16A_8B0A_0735_0002)
  const PLUS_1: Row := Row(
    0x82CA_4549_CA0F_17F3_C5AA_2C28_1CD4_0008, 0x0B38_103B_8A4A_D865_041F_AE4C_DC65_4022,
    0x2CE0_40EE_292B_6194_107E_B933_7195_0088, 0xB381_03B8_A4AD_8650_41FA_E4CD_C654_0220,
    0xCE15_0BFE_30C0_9EEB_155C_8DDB_B665_4882, 0x384D_A86A_304F_BFD3_4E9E_A6F4_213A_C20B,
    0xE136_A1A8_C13E_FF4D_3A7A_9BD0_84EB_082C, 0x84C3_0131_F7B6_394B_F206_FED8_EB03_C0B3)
  const PLUS_2: Row := Row(
    0x131D_01DB_7CAE_6285_DAAC_E58F_033A_42CE, 0x4C74_076D_F2B9_8A17_6AB3_963C_0CE9_0B38,
    0x31D8_9F39_9BDD_6B88_A395_D786_643E_8CE1, 0xC762_7CE6_6F75_AE22_8E57_5E19_90FA_3384,
    0x1D90_740B_4E9B_7CF5_22B1_E9FC_BB47_2E13, 0x7641_D02D_3A6D_F3D4_8AC7_A7F2_ED1C_B84C,
    0xD90F_C23A_B88C_8C87_2245_10BD_E3E8_4131, 0x6426_8F78_117F_F663_92F8_D36D_770E_E4C7)
  const PLUS_3: Row := Row(
    0x9092_BF6E_14C4_9A5B_42B8_C2C3_8BA1_331D, 0x425B_F8A4_F164_EEC7_1854_15E2_81B1_8C76,
    0x0967_601D_94A8_F8C9_680B_D8FC_515C_91D9, 0x259D_8076_52A3_E325_A02F_63F1_4572_4764,
    0x9676_01D9_4A8F_8C96_80BD_8FC5_15C9_1D90, 0x59C9_0279_8848_B5F0_1041_21F8_F811_3642,
    0x672C_8B68_7019_9415_485F_0895_B7DE_7909, 0x9CBA_AF2F_915D_1380_2827_AD20_88E3_4425)
  const PLUS_4: Row := Row(
    0x72FB_B9A2_E702_C9AA_B229_AA6E_8CB8_5096, 0xCBE6_6405_CD30_657F_C1FD_26CC_657B_E259,
    0x2F80_1785_C78C_5180_1C18_0AAB_6D40_6967, 0xBE00_5E17_1E31_4600_7060_2AAD_B501_A59C,
    0xF810_7D40_DAB3_9FAB_D337_B45A_7B33_D672, 0xE058_7291_9983_BAD0_5732_40F3_1460_B9CB,
    0x8178_4DD4_9543_2F3E_4725_9256_A92D_072F, 0x05F0_324E_F77A_3B53_0E21_57B6_0B81_5CBE)
  const PLUS_5: Row := Row(
    0x17C0_C93B_DDE8_ED4C_3885_5ED8_2E05_72F8, 0x5F03_24EF_77A3_B530_E215_7B60_B815_CBE0,
    0x7C04_1133_8FB5_9716_810E_62F4_B7CD_8F81, 0xF018_C640_6FED_1F8F_0D62_04A4_88AC_9E05,
    0xC07A_9E93_4CF9_BA43_2E64_8308_DA1D_9817, 0x01F3_FDDF_C0AB_2D73_A27E_9DB9_90D9_805F,
    0x07CF_F77F_02AC_B5CE_89FA_76E6_4366_017C, 0x1F3F_DDFC_0AB2_D73A_27E9_DB99_0D98_05F0)
  const PLUS_6: Row := Row(
    0x7CFF_77F0_2ACB_5CE8_9FA7_6E64_3660_17C0, 0xF3F5_5D4E_FA16_3077_77C6_36E6_8E1A_FF01,
    0xCFCC_F2A9_1B15_05A2_C4F4_4A00_C0C4_1C07, 0x3F2A_4D36_9F19_D2F4_083D_B999_FBBF_901F,
    0xFCA9_34DA_7C67_4BD0_20F6_E667_EEFE_407C, 0xF2BD_54FB_02D0_EB3F_9837_0805_4356_E1F3,
    0xCAEC_D47E_F80E_6881_7B30_B18F_F5F4_67CF, 0x2BAA_D669_1374_667A_F72E_57A5_2F7E_7F3F)
  const PLUS_7: Row := Row(
    0xAEAB_59A4_4DD1_99EB_DCB9_5E94_BDF9_FCFC, 0xBABC_638D_9530_E005_6052_64BE_58D2_B3F2,
    0xEAE0_8B2A_F6B5_07BF_93FE_8C15_CC7F_8FCA, 0xAB9B_AB39_2999_DA81_5416_A1CD_C951_DF2B,
    0xAE7F_A9F8_0411_EDAF_42ED_99DB_8A72_3CAE, 0xB9EF_A2FC_B231_3117_1901_7982_86FD_B2BA,
    0xE7AF_8EEE_6AB2_43F6_76B2_F8E6_B4C3_8AEA, 0x9EA7_BC2B_5984_CBA6_C127_7200_2BA1_CBAB)

  const STAR_0: Row := Row(
    0x053B_E9DA_6E22_86C1, 0x14EF_A769_B88A_1B04, 0x53BE_9DA6_E228_6C10, 0x4BC1_9F41_E683_3681,
    0x2A3D_94DD_F42E_5CC5, 0xA8F6_5377_D0B9_7314, 0xA9AE_9E6B_9EA0_C1D2, 0xACCD_AA1A_A6C6_0ACA)
  const STAR_1: Row := Row(
    0xB941_7BDE_475D_26AA, 0xEF72_3CCD_C131_972A, 0xB284_C959_B6A1_D7EB, 0xC064_F6D2_06C2_522E,
    0x0EDF_E126_A96E_C3FB, 0x3B7F_849A_A5BB_0FEC, 0xEDFE_126A_96EC_3FB0, 0xB8B4_73C4_E9D7_7583)
  const STAR_2: Row := Row(
    0xE8A6_1CA7_7B18_DB8E, 0xADD4_48F3_5E04_E57B, 0xBD26_F079_A456_986E, 0xFEEC_1252_4D1F_6C3A,
    0xF4FC_7327_861A_3BAB, 0xDCBD_F6F0_AA0F_65EF, 0x7DBB_E1AC_1A5A_1CFF, 0xF3D4_6F6A_074A_F53D)
  const STAR_3: Row := Row(
    0xC01D_87C6_AF4C_5FB7, 0x0F3A_2574_0F56_F59F, 0x3CE8_95D0_3D5B_D67C, 0xF3A2_5740_F56F_59F0,
    0xC1C5_676D_67DA_EC83, 0x0859_A7DB_2D0C_394F, 0x2166_9F6C_B430_E53C, 0x859A_7DB2_D0C3_94F0)

  function Terms(kind: Kind): Register {
    if kind.Plus128? then PLUS_TERMS else STAR_TERMS
  }

  /** The value at `s` of the polynomial in a register. */
  function Applied(kind: Kind, b: Register, s: State): (r: State)
    requires IsState(kind, s)
    ensures IsState(kind, r)
  {
    Evaluate(kind, FromBits(b, kind.Degree()), s)
  }

  /** The polynomial in a register makes `n` steps. */
  ghost predicate IsPower(kind: Kind, b: Register, n: nat) {
    forall s {:trigger Applied(kind, b, s)} | IsState(kind, s) :: Applied(kind, b, s) == Steps(kind, s, n)
  }

  // ----- Multiplying by the step --------------------------------------------

  /** The coefficient of the highest degree. */
  function Top(kind: Kind, b: Register): bool {
    if kind.Plus128? then (b >> 127) & 1 == 1 else (b >> 63) & 1 == 1
  }

  function TimesStep(kind: Kind, b: Register): Register {
    Exclusive(b << 1, if Top(kind, b) then Terms(kind) else 0)
  }

  // ----- Squaring -----------------------------------------------------------

  /** The low 64 bits at the even places of a register. */
  function Spread(b: Register): Register {
    var half := b & LOW_64;
    var by32 := (half ^ (half << 32)) & 0x0000_0000_FFFF_FFFF_0000_0000_FFFF_FFFF;
    var by16 := (by32 ^ (by32 << 16)) & 0x0000_FFFF_0000_FFFF_0000_FFFF_0000_FFFF;
    var by8 := (by16 ^ (by16 << 8)) & 0x00FF_00FF_00FF_00FF_00FF_00FF_00FF_00FF;
    var by4 := (by8 ^ (by8 << 4)) & 0x0F0F_0F0F_0F0F_0F0F_0F0F_0F0F_0F0F_0F0F;
    var by2 := (by4 ^ (by4 << 2)) & 0x3333_3333_3333_3333_3333_3333_3333_3333;
    (by2 ^ (by2 << 1)) & 0x5555_5555_5555_5555_5555_5555_5555_5555
  }

  function Pick(bit: bool, r: Register, rest: Register): Register {
    (if bit then r else 0) ^ rest
  }

  /** The sum of the row's powers that the low byte selects, and `rest`. */
  function Gather(h: Register, row: Row, rest: Register): Register {
    Pick(h & 1 == 1, row.r0, Pick(h & 2 == 2, row.r1, Pick(h & 4 == 4, row.r2, Pick(h & 8 == 8, row.r3,
    Pick(h & 16 == 16, row.r4, Pick(h & 32 == 32, row.r5, Pick(h & 64 == 64, row.r6,
    Pick(h & 128 == 128, row.r7, rest))))))))
  }

  /** The powers from the degree of the characteristic polynomial on that a square gathers. */
  function PlusHigh(b: Register): Register {
    Gather(b >> 64, PLUS_0, Gather(b >> 72, PLUS_1, Gather(b >> 80, PLUS_2, Gather(b >> 88, PLUS_3,
    Gather(b >> 96, PLUS_4, Gather(b >> 104, PLUS_5, Gather(b >> 112, PLUS_6, Gather(b >> 120, PLUS_7, 0))))))))
  }

  function StarHigh(b: Register): Register {
    Gather(b >> 32, STAR_0, Gather(b >> 40, STAR_1, Gather(b >> 48, STAR_2, Gather(b >> 56, STAR_3, 0))))
  }

  function PlusSquare(b: Register): Register {
    Exclusive(Spread(b), PlusHigh(b))
  }

  function StarSquare(b: Register): Register {
    Exclusive(Spread(b & LOW_32), StarHigh(b))
  }

  /** `n` squarings lead from one register to another. */
  predicate PlusSquarings(b: Register, n: nat, c: Register)
    decreases n
  {
    if n == 0 then b == c else PlusSquarings(PlusSquare(b), n - 1, c)
  }

  predicate StarSquarings(b: Register, n: nat, c: Register)
    decreases n
  {
    if n == 0 then b == c else StarSquarings(StarSquare(b), n - 1, c)
  }

  // ----- What the registers hold --------------------------------------------

  lemma ZeroBit()
    ensures !Low(0) && Half(0) == 0
  {
  }

  lemma {:induction false} ZeroFrom(n: nat)
    ensures FromBits(0, n) == Zeros(n)
    decreases n
  {
    hide Low, Half;
    ZeroBit();
    if n == 0 {
    } else {
      ZeroFrom(n - 1);
      assert Zeros(n) == [false] + Zeros(n - 1);
    }
  }

  lemma AppliedZero(kind: Kind, s: State)
    requires IsState(kind, s)
    ensures Applied(kind, 0, s) == ZeroState(kind)
  {
    hide Evaluate, FromBits;
    ZeroFrom(kind.Degree());
    EvaluateZeros(kind, kind.Degree(), s);
  }

  lemma AppliedXor(kind: Kind, a: Register, b: Register, s: State)
    requires IsState(kind, s)
    ensures Applied(kind, Exclusive(a, b), s) == Add(Applied(kind, a, s), Applied(kind, b, s))
  {
    hide Evaluate, FromBits, Exclusive, Add;
    XorFrom(a, b, kind.Degree());
    EvaluateXor(kind, FromBits(a, kind.Degree()), FromBits(b, kind.Degree()), s);
  }

  lemma PickIs(bit: bool, r: Register, rest: Register)
    ensures Pick(bit, r, rest) == Exclusive(if bit then r else 0, rest)
  {
  }

  lemma PickApplied(kind: Kind, bit: bool, r: Register, rest: Register, s: State)
    requires IsState(kind, s)
    ensures Applied(kind, Pick(bit, r, rest), s) == Add(Times(kind, bit, Applied(kind, r, s)), Applied(kind, rest, s))
  {
    hide Applied, Pick, Exclusive, Add;
    PickIs(bit, r, rest);
    AppliedXor(kind, if bit then r else 0, rest, s);
    AppliedZero(kind, s);
  }

  // ----- Multiplying by the step --------------------------------------------

  lemma Places63(b: Register)
    ensures Places(b, 63) == b >> 63
  {
    hide Places;
    ThirtyOnePlaces(b);
    ThirtyTwoPlaces(b >> 31);
    PlacesAdd(b, 31, 32);
  }

  lemma Places127(b: Register)
    ensures Places(b, 127) == b >> 127
  {
    hide Places;
    SixtyFourPlaces(b);
    Places63(b >> 64);
    PlacesAdd(b, 64, 63);
  }

  lemma TopIs(kind: Kind, b: Register)
    ensures Low(Places(b, kind.Degree() - 1)) == Top(kind, b)
  {
    hide Places;
    Places63(b);
    Places127(b);
  }

  lemma TwiceIs(b: Register)
    ensures Twice(b) == b << 1
  {
  }

  /** A polynomial shifted by one degree, without its last term. */
  lemma ShiftApplied(kind: Kind, w: Word, s: State)
    requires IsState(kind, s) && |w| > 0
    ensures var n := |w|;
      Evaluate(kind, w, Step(kind, s))
      == Add(Evaluate(kind, ShiftLeft(w, 1), s), Times(kind, w[n - 1], Steps(kind, s, n)))
  {
    hide Step, Add, Times, Evaluate, ShiftLeft;
    var n := |w|;
    var next := Step(kind, s);
    assert w == w[..n - 1] + [w[n - 1]];
    EvaluateConcat(kind, w[..n - 1], [w[n - 1]], next);
    ShiftedOnce(w);
    NoFirstTerm(kind, ShiftLeft(w, 1), s);
    OneTerm(kind, w[n - 1], Steps(kind, next, n - 1));
  }

  lemma ShiftedOnce(w: Word)
    requires |w| > 0
    ensures !ShiftLeft(w, 1)[0] && ShiftLeft(w, 1)[1..] == w[..|w| - 1]
  {
  }

  lemma NoFirstTerm(kind: Kind, w: Word, s: State)
    requires IsState(kind, s) && |w| > 0 && !w[0]
    ensures Evaluate(kind, w, s) == Evaluate(kind, w[1..], Step(kind, s))
  {
    hide Step, Add;
    NothingAccumulated(kind, Evaluate(kind, w[1..], Step(kind, s)));
  }

  lemma OneTerm(kind: Kind, bit: bool, s: State)
    requires IsState(kind, s)
    ensures Evaluate(kind, [bit], s) == Times(kind, bit, s)
  {
    hide Step, Add, Times;
    NothingAccumulated(kind, Times(kind, bit, s));
  }

  /** Modulo the characteristic polynomial, doubling a register multiplies by the step. */
  lemma TimesStepApplied(kind: Kind, b: Register, s: State)
    requires IsPower(kind, Terms(kind), kind.Degree()) && IsState(kind, s)
    ensures Applied(kind, TimesStep(kind, b), s) == Applied(kind, b, Step(kind, s))
  {
    hide Step, Add, Times, Evaluate, FromBits, Exclusive, Top, Places, Low, Twice, Steps, ShiftLeft;
    var n := kind.Degree();
    var w := FromBits(b, n);
    var top := Top(kind, b);
    TopIs(kind, b);
    AppliedXor(kind, b << 1, if top then Terms(kind) else 0, s);
    AppliedZero(kind, s);
    assert Applied(kind, if top then Terms(kind) else 0, s) == Times(kind, top, Steps(kind, s, n)) by {
      TimesIs(kind, top, Steps(kind, s, n));
    }
    TwiceIs(b);
    LeftOnce(b, n);
    BitFrom(b, n, n - 1);
    ShiftApplied(kind, w, s);
  }

  lemma TimesIs(kind: Kind, bit: bool, s: State)
    requires IsState(kind, s)
    ensures Times(kind, bit, s) == if bit then s else ZeroState(kind)
  {
  }

  lemma OneMoreStep(kind: Kind, s: State, n: nat)
    requires IsState(kind, s)
    ensures Steps(kind, s, n + 1) == Steps(kind, Step(kind, s), n)
  {
  }

  lemma TimesStepIsPower(kind: Kind, b: Register, n: nat)
    requires IsPower(kind, Terms(kind), kind.Degree()) && IsPower(kind, b, n)
    ensures IsPower(kind, TimesStep(kind, b), n + 1)
  {
    forall s | IsState(kind, s)
      ensures Applied(kind, TimesStep(kind, b), s) == Steps(kind, s, n + 1)
    {
      hide TimesStep, Applied, Step, Steps;
      TimesStepApplied(kind, b, s);
      OneMoreStep(kind, s, n);
    }
  }

  // ----- Rows ---------------------------------------------------------------

  ghost predicate IsRow(kind: Kind, row: Row, n: nat) {
    && IsPower(kind, row.r0, n) && IsPower(kind, row.r1, n + 2)
    && IsPower(kind, row.r2, n + 4) && IsPower(kind, row.r3, n + 6)
    && IsPower(kind, row.r4, n + 8) && IsPower(kind, row.r5, n + 10)
    && IsPower(kind, row.r6, n + 12) && IsPower(kind, row.r7, n + 14)
  }

  function SecondStep(kind: Kind, b: Register): Register {
    TimesStep(kind, TimesStep(kind, b))
  }

  /** Each register of the row is the one before, two degrees up. */
  predicate Climbs(kind: Kind, row: Row) {
    && row.r1 == SecondStep(kind, row.r0) && row.r2 == SecondStep(kind, row.r1)
    && row.r3 == SecondStep(kind, row.r2) && row.r4 == SecondStep(kind, row.r3)
    && row.r5 == SecondStep(kind, row.r4) && row.r6 == SecondStep(kind, row.r5)
    && row.r7 == SecondStep(kind, row.r6)
  }

  lemma SecondStepIsPower(kind: Kind, b: Register, n: nat)
    requires IsPower(kind, Terms(kind), kind.Degree()) && IsPower(kind, b, n)
    ensures IsPower(kind, SecondStep(kind, b), n + 2)
  {
    hide IsPower, TimesStep;
    TimesStepIsPower(kind, b, n);
    TimesStepIsPower(kind, TimesStep(kind, b), n + 1);
  }

  lemma ClimbingRow(kind: Kind, row: Row, n: nat)
    requires IsPower(kind, Terms(kind), kind.Degree()) && IsPower(kind, row.r0, n) && Climbs(kind, row)
    ensures IsRow(kind, row, n) && IsPower(kind, SecondStep(kind, row.r7), n + 16)
  {
    hide IsPower, SecondStep;
    SecondStepIsPower(kind, row.r0, n);
    SecondStepIsPower(kind, row.r1, n + 2);
    SecondStepIsPower(kind, row.r2, n + 4);
    SecondStepIsPower(kind, row.r3, n + 6);
    SecondStepIsPower(kind, row.r4, n + 8);
    SecondStepIsPower(kind, row.r5, n + 10);
    SecondStepIsPower(kind, row.r6, n + 12);
    SecondStepIsPower(kind, row.r7, n + 14);
  }

  lemma PlusRowsClimb0()
    ensures Climbs(Plus128, PLUS_0) && SecondStep(Plus128, PLUS_0.r7) == PLUS_1.r0
  {
  }

  lemma PlusRowsClimb1()
    ensures Climbs(Plus128, PLUS_1) && SecondStep(Plus128, PLUS_1.r7) == PLUS_2.r0
  {
  }

  lemma PlusStart()
    ensures PLUS_0.r0 == PLUS_TERMS
  {
  }

  lemma PlusRowsClimb23()
    ensures Climbs(Plus128, PLUS_2) && SecondStep(Plus128, PLUS_2.r7) == PLUS_3.r0
    ensures Climbs(Plus128, PLUS_3) && SecondStep(Plus128, PLUS_3.r7) == PLUS_4.r0
  {
  }

  lemma PlusRowsClimb45()
    ensures Climbs(Plus128, PLUS_4) && SecondStep(Plus128, PLUS_4.r7) == PLUS_5.r0
    ensures Climbs(Plus128, PLUS_5) && SecondStep(Plus128, PLUS_5.r7) == PLUS_6.r0
  {
  }

  lemma PlusRowsClimb67()
    ensures Climbs(Plus128, PLUS_6) && SecondStep(Plus128, PLUS_6.r7) == PLUS_7.r0
    ensures Climbs(Plus128, PLUS_7)
  {
  }

  lemma StarRowsClimb01()
    ensures Climbs(Star64, STAR_0) && SecondStep(Star64, STAR_0.r7) == STAR_1.r0
    ensures Climbs(Star64, STAR_1) && SecondStep(Star64, STAR_1.r7) == STAR_2.r0
  {
  }

  lemma StarRowsClimb23()
    ensures Climbs(Star64, STAR_2) && SecondStep(Star64, STAR_2.r7) == STAR_3.r0
    ensures Climbs(Star64, STAR_3)
  {
  }

  lemma LowBits(b: Register, n: nat)
    requires n <= 64
    ensures FromBits(b & LOW_64, n) == FromBits(b, n)
  {
    hide FromBits, LowOnes;
    LowOnes64();
    LowOnesBelow(LOW_64, 64, n);
    MaskFrom(b, LOW_64, n);
    assert Masked(b, LOW_64) == b & LOW_64;
  }

  lemma StarStart()
    requires IsPower(Star64, STAR_TERMS, 64)
    ensures IsPower(Star64, STAR_0.r0, 64)
  {
    assert STAR_0.r0 == STAR_TERMS & LOW_64;
    hide FromBits, Evaluate, Steps;
    LowBits(STAR_TERMS, 64);
    forall s | IsState(Star64, s)
      ensures Applied(Star64, STAR_0.r0, s) == Steps(Star64, s, 64)
    {
      assert Applied(Star64, STAR_TERMS, s) == Steps(Star64, s, 64);
    }
  }

  ghost predicate PlusRowsArePowers() {
    && IsRow(Plus128, PLUS_0, 128) && IsRow(Plus128, PLUS_1, 144)
    && IsRow(Plus128, PLUS_2, 160) && IsRow(Plus128, PLUS_3, 176)
    && IsRow(Plus128, PLUS_4, 192) && IsRow(Plus128, PLUS_5, 208)
    && IsRow(Plus128, PLUS_6, 224) && IsRow(Plus128, PLUS_7, 240)
  }

  ghost predicate StarRowsArePowers() {
    && IsRow(Star64, STAR_0, 64) && IsRow(Star64, STAR_1, 80)
    && IsRow(Star64, STAR_2, 96) && IsRow(Star64, STAR_3, 112)
  }

  lemma PlusRows()
    requires IsPower(Plus128, PLUS_TERMS, 128)
    ensures PlusRowsArePowers()
  {
    hide IsPower, IsRow, Climbs, SecondStep;
    PlusStart();
    PlusRowsClimb0();
    PlusRowsClimb1();
    PlusRowsClimb23();
    PlusRowsClimb45();
    PlusRowsClimb67();
    ClimbingRow(Plus128, PLUS_0, 128);
    ClimbingRow(Plus128, PLUS_1, 144);
    ClimbingRow(Plus128, PLUS_2, 160);
    ClimbingRow(Plus128, PLUS_3, 176);
    ClimbingRow(Plus128, PLUS_4, 192);
    ClimbingRow(Plus128, PLUS_5, 208);
    ClimbingRow(Plus128, PLUS_6, 224);
    ClimbingRow(Plus128, PLUS_7, 240);
  }

  lemma StarRows()
    requires IsPower(Star64, STAR_TERMS, 64)
    ensures StarRowsArePowers()
  {
    hide IsPower, IsRow, Climbs, SecondStep;
    StarRowsClimb01();
    StarRowsClimb23();
    StarStart();
    ClimbingRow(Star64, STAR_0, 64);
    ClimbingRow(Star64, STAR_1, 80);
    ClimbingRow(Star64, STAR_2, 96);
    ClimbingRow(Star64, STAR_3, 112);
  }

  // ----- Gathering ----------------------------------------------------------

  /** One more selected power in front of those gathered. */
  lemma PickGathers(kind: Kind, bit: bool, r: Register, rest: Register, w: Word, s: State, n: nat, t: State)
    requires IsPower(kind, r, n) && IsState(kind, s) && IsState(kind, t)
    requires Applied(kind, rest, s) == Add(EvaluateDoubled(kind, w, Steps(kind, s, n + 2)), t)
    ensures Applied(kind, Pick(bit, r, rest), s) == Add(EvaluateDoubled(kind, [bit] + w, Steps(kind, s, n)), t)
  {
    hide Applied, Pick, Add, Times, Step, Steps;
    PickApplied(kind, bit, r, rest, s);
    var here := Steps(kind, s, n);
    TwoMoreSteps(kind, s, n);
    assert ([bit] + w)[1..] == w;
    AddLaws(kind, Times(kind, bit, here), EvaluateDoubled(kind, w, Steps(kind, s, n + 2)), t, t);
  }

  lemma TwoMoreSteps(kind: Kind, s: State, n: nat)
    requires IsState(kind, s)
    ensures Step(kind, Step(kind, Steps(kind, s, n))) == Steps(kind, s, n + 2)
  {
    hide Step;
    StepsAdd(kind, s, n, 2);
    assert Steps(kind, Steps(kind, s, n), 2) == Steps(kind, Step(kind, Steps(kind, s, n)), 1);
  }

  lemma FirstBits(h: Register)
    ensures FromBits(h, 2) == [Low(h), Low(Half(h))]
  {
    hide Low, Half;
  }

  lemma TwoThenRest(h: Register, n: nat)
    ensures FromBits(h, 2 + n) == FromBits(h, 2) + FromBits(Half(Half(h)), n)
  {
    hide Low, Half;
    FirstBits(h);
    assert FromBits(Half(h), 1 + n) == [Low(Half(h))] + FromBits(Half(Half(h)), n);
  }

  predicate Tests(h: Register, mask: Register) {
    h & mask == mask
  }

  /** The bits that a gathering tests. */
  function Tested(h: Register): (w: Word)
    ensures |w| == 8
  {
    [Tests(h, 1), Tests(h, 2), Tests(h, 4), Tests(h, 8), Tests(h, 16), Tests(h, 32), Tests(h, 64), Tests(h, 128)]
  }

  lemma FirstTested(h: Register)
    ensures Low(Places(h, 0)) == Tests(h, 1)
  {
    assert Places(h, 0) == h;
  }

  lemma SecondTested(h: Register)
    ensures Low(Places(h, 1)) == Tests(h, 2)
  {
    assert Places(h, 1) == Half(h);
  }

  lemma ThirdTested(h: Register)
    ensures Low(Places(h, 2)) == Tests(h, 4)
  {
    assert Places(h, 2) == Half(Half(h));
  }

  lemma FourthTested(h: Register)
    ensures Low(Places(h, 3)) == Tests(h, 8)
  {
    assert Places(h, 3) == Half(Half(Half(h)));
  }

  lemma FifthTested(h: Register)
    ensures Low(Places(h, 4)) == Tests(h, 16)
  {
    assert Places(h, 4) == Half(Half(Half(Half(h))));
  }

  lemma SixthTested(h: Register)
    ensures Low(Places(h, 5)) == Tests(h, 32)
  {
    assert Places(h, 5) == Half(Half(Half(Half(Half(h)))));
  }

  lemma SeventhTested(h: Register)
    ensures Low(Places(h, 6)) == Tests(h, 64)
  {
    assert Places(h, 6) == Half(Half(Half(Half(Half(Half(h))))));
  }

  lemma EighthTested(h: Register)
    ensures Low(Places(h, 7)) == Tests(h, 128)
  {
    assert Places(h, 7) == Half(Half(Half(Half(Half(Half(Half(h)))))));
  }

  lemma TestedBits(h: Register)
    ensures FromBits(h, 8) == Tested(h)
  {
    forall k | 0 <= k < 8
      ensures FromBits(h, 8)[k] == Tested(h)[k]
    {
      hide FromBits, Low, Places, Tests;
      BitFrom(h, 8, k);
      TestedBit(h, k);
    }
  }

  lemma TestedBit(h: Register, k: nat)
    requires k < 8
    ensures Low(Places(h, k)) == Tested(h)[k]
  {
    hide Low, Places, Tests;
    if k == 0 {
      FirstTested(h);
    } else if k == 1 {
      SecondTested(h);
    } else if k == 2 {
      ThirdTested(h);
    } else if k == 3 {
      FourthTested(h);
    } else if k == 4 {
      FifthTested(h);
    } else if k == 5 {
      SixthTested(h);
    } else if k == 6 {
      SeventhTested(h);
    } else {
      EighthTested(h);
    }
  }

  /** Four selected powers in front of those gathered. */
  lemma FourGathered(kind: Kind, b0: bool, b1: bool, b2: bool, b3: bool,
                     r0: Register, r1: Register, r2: Register, r3: Register,
                     rest: Register, w: Word, s: State, n: nat, t: State)
    requires IsPower(kind, r0, n) && IsPower(kind, r1, n + 2)
    requires IsPower(kind, r2, n + 4) && IsPower(kind, r3, n + 6)
    requires IsState(kind, s) && IsState(kind, t)
    requires Applied(kind, rest, s) == Add(EvaluateDoubled(kind, w, Steps(kind, s, n + 8)), t)
    ensures Applied(kind, Pick(b0, r0, Pick(b1, r1, Pick(b2, r2, Pick(b3, r3, rest)))), s)
            == Add(EvaluateDoubled(kind, [b0, b1, b2, b3] + w, Steps(kind, s, n)), t)
  {
    hide Applied, Pick, Add, Steps, IsPower, EvaluateDoubled;
    var g3, w3 := Pick(b3, r3, rest), [b3] + w;
    PickGathers(kind, b3, r3, rest, w, s, n + 6, t);
    var g2, w2 := Pick(b2, r2, g3), [b2] + w3;
    PickGathers(kind, b2, r2, g3, w3, s, n + 4, t);
    var g1, w1 := Pick(b1, r1, g2), [b1] + w2;
    PickGathers(kind, b1, r1, g2, w2, s, n + 2, t);
    var g0, w0 := Pick(b0, r0, g1), [b0] + w1;
    PickGathers(kind, b0, r0, g1, w1, s, n, t);
    assert w0 == [b0, b1, b2, b3] + w;
  }

  /** Eight selected powers in front of a remainder. */
  lemma RowGathered(kind: Kind, b0: bool, b1: bool, b2: bool, b3: bool, b4: bool, b5: bool, b6: bool, b7: bool,
                    row: Row, rest: Register, s: State, n: nat)
    requires IsRow(kind, row, n) && IsState(kind, s)
    ensures var gathered := Pick(b0, row.r0, Pick(b1, row.r1, Pick(b2, row.r2, Pick(b3, row.r3,
        Pick(b4, row.r4, Pick(b5, row.r5, Pick(b6, row.r6, Pick(b7, row.r7, rest))))))));
      Applied(kind, gathered, s)
      == Add(EvaluateDoubled(kind, [b0, b1, b2, b3, b4, b5, b6, b7], Steps(kind, s, n)), Applied(kind, rest, s))
  {
    hide Applied, Pick, Add, Steps, IsPower, EvaluateDoubled;
    var t := Applied(kind, rest, s);
    NothingDoubled(kind, s, n + 16, t);
    var high := Pick(b4, row.r4, Pick(b5, row.r5, Pick(b6, row.r6, Pick(b7, row.r7, rest))));
    var w := [b4, b5, b6, b7] + [];
    FourGathered(kind, b4, b5, b6, b7, row.r4, row.r5, row.r6, row.r7, rest, [], s, n + 8, t);
    FourGathered(kind, b0, b1, b2, b3, row.r0, row.r1, row.r2, row.r3, high, w, s, n, t);
    assert [b0, b1, b2, b3] + w == [b0, b1, b2, b3, b4, b5, b6, b7];
  }

  lemma GatherIs(h: Register, row: Row, rest: Register)
    ensures Gather(h, row, rest)
            == Pick(Tests(h, 1), row.r0, Pick(Tests(h, 2), row.r1, Pick(Tests(h, 4), row.r2, Pick(Tests(h, 8), row.r3,
               Pick(Tests(h, 16), row.r4, Pick(Tests(h, 32), row.r5, Pick(Tests(h, 64), row.r6,
               Pick(Tests(h, 128), row.r7, rest))))))))
  {
    hide Pick;
  }

  /** Gathering the powers of a row adds the square of a byte's polynomial. */
  lemma GatherApplied(kind: Kind, h: Register, row: Row, rest: Register, s: State, n: nat)
    requires IsRow(kind, row, n) && IsState(kind, s)
    ensures Applied(kind, Gather(h, row, rest), s)
            == Add(EvaluateDoubled(kind, FromBits(h, 8), Steps(kind, s, n)), Applied(kind, rest, s))
  {
    hide Applied, Gather, Pick, Tests, Add, Steps, IsRow, FromBits, EvaluateDoubled;
    GatherIs(h, row, rest);
    TestedBits(h);
    RowGathered(kind, Tests(h, 1), Tests(h, 2), Tests(h, 4), Tests(h, 8), Tests(h, 16), Tests(h, 32), Tests(h, 64),
                Tests(h, 128), row, rest, s, n);
  }

  lemma NothingDoubled(kind: Kind, s: State, n: nat, t: State)
    requires IsState(kind, s) && IsState(kind, t)
    ensures Add(EvaluateDoubled(kind, [], Steps(kind, s, n)), t) == t
  {
    hide Add;
    NothingAccumulated(kind, t);
  }

  /** Gathering one more byte below those gathered. */
  lemma ByteGathers(kind: Kind, b: Register, j: nat, k: nat, row: Row, rest: Register, s: State)
    requires IsRow(kind, row, 2 * j) && IsState(kind, s)
    requires Applied(kind, rest, s) == EvaluateDoubled(kind, FromBits(Places(b, j + 8), k), Steps(kind, s, 2 * j + 16))
    ensures Applied(kind, Gather(Places(b, j), row, rest), s)
            == EvaluateDoubled(kind, FromBits(Places(b, j), 8 + k), Steps(kind, s, 2 * j))
  {
    hide Applied, Gather, Add, Steps, IsRow, FromBits, EvaluateDoubled, Places;
    GatherApplied(kind, Places(b, j), row, rest, s, 2 * j);
    PlacesAdd(b, j, 8);
    RegisterSplits(Places(b, j), 8, k);
    DoubledConcat(kind, FromBits(Places(b, j), 8), FromBits(Places(b, j + 8), k), Steps(kind, s, 2 * j));
    StepsAdd(kind, s, 2 * j, 16);
  }

  // ----- Spreading ----------------------------------------------------------

  lemma SpreadShifts(b: Register)
    ensures Spread(b) >> 2 == Spread((b & LOW_64) >> 1)
  {
  }

  lemma SpreadLow(b: Register)
    ensures Low(Spread(b)) == Low(b) && !Low(Half(Spread(b)))
  {
  }

  lemma HalfOfHalf(b: Register)
    ensures Half(Half(b)) == b >> 2
  {
  }

  lemma HalfIs(b: Register)
    ensures Half(b) == b >> 1
  {
  }

  /** A spread register holds the square of its low bits. */
  lemma {:induction false} SpreadApplied(kind: Kind, b: Register, n: nat, s: State)
    requires n <= 64 && IsState(kind, s)
    ensures Evaluate(kind, FromBits(Spread(b), 2 * n), s) == EvaluateDoubled(kind, FromBits(b, n), s)
    decreases n
  {
    hide Step, Add, Times, Spread, Low, Half;
    if n == 0 {
    } else {
      var c := Half(b & LOW_64);
      SpreadHalves(b);
      TwoThenRest(Spread(b), 2 * (n - 1));
      FirstBits(Spread(b));
      var w := FromBits(Spread(b), 2 * n);
      assert w == [Low(b), false] + FromBits(Spread(c), 2 * (n - 1));
      assert w[1..][1..] == FromBits(Spread(c), 2 * (n - 1));
      NoFirstTerm(kind, w[1..], Step(kind, s));
      SpreadApplied(kind, c, n - 1, Step(kind, Step(kind, s)));
      LowBits(b, n);
      assert FromBits(b & LOW_64, n)[1..] == FromBits(c, n - 1);
    }
  }

  lemma SpreadHalves(b: Register)
    ensures Half(Half(Spread(b))) == Spread(Half(b & LOW_64))
    ensures Low(Spread(b)) == Low(b) && !Low(Half(Spread(b)))
  {
    SpreadLow(b);
    hide Spread, Half, Low;
    SpreadShifts(b);
    HalfOfHalf(Spread(b));
    HalfIs(b & LOW_64);
  }

  // ----- Squaring -----------------------------------------------------------

  lemma Places48(b: Register)
    ensures Places(b, 48) == b >> 48
  {
    hide Places;
    FortyPlaces(b);
    EightPlaces(b >> 40);
    PlacesAdd(b, 40, 8);
  }

  lemma Places56(b: Register)
    ensures Places(b, 56) == b >> 56
  {
    hide Places;
    Places48(b);
    EightPlaces(b >> 48);
    PlacesAdd(b, 48, 8);
  }

  lemma Places72(b: Register)
    ensures Places(b, 72) == b >> 72
  {
    hide Places;
    SixtyFourPlaces(b);
    EightPlaces(b >> 64);
    PlacesAdd(b, 64, 8);
  }

  lemma Places80(b: Register)
    ensures Places(b, 80) == b >> 80
  {
    hide Places;
    Places72(b);
    EightPlaces(b >> 72);
    PlacesAdd(b, 72, 8);
  }

  lemma Places88(b: Register)
    ensures Places(b, 88) == b >> 88
  {
    hide Places;
    Places80(b);
    EightPlaces(b >> 80);
    PlacesAdd(b, 80, 8);
  }

  lemma Places96(b: Register)
    ensures Places(b, 96) == b >> 96
  {
    hide Places;
    Places88(b);
    EightPlaces(b >> 88);
    PlacesAdd(b, 88, 8);
  }

  lemma Places104(b: Register)
    ensures Places(b, 104) == b >> 104
  {
    hide Places;
    Places96(b);
    EightPlaces(b >> 96);
    PlacesAdd(b, 96, 8);
  }

  lemma Places112(b: Register)
    ensures Places(b, 112) == b >> 112
  {
    hide Places;
    Places104(b);
    EightPlaces(b >> 104);
    PlacesAdd(b, 104, 8);
  }

  lemma Places120(b: Register)
    ensures Places(b, 120) == b >> 120
  {
    hide Places;
    Places112(b);
    EightPlaces(b >> 112);
    PlacesAdd(b, 112, 8);
  }

  lemma NothingGathered(kind: Kind, b: Register, j: nat, s: State, n: nat)
    requires IsState(kind, s)
    ensures Applied(kind, 0, s) == EvaluateDoubled(kind, FromBits(Places(b, j), 0), Steps(kind, s, n))
  {
    hide Places, Applied, Steps;
    AppliedZero(kind, s);
  }

  /** The high half of a square. */
  lemma PlusGathered(b: Register, s: State)
    requires PlusRowsArePowers() && IsState(Plus128, s)
    ensures Applied(Plus128, PlusHigh(b), s)
            == EvaluateDoubled(Plus128, FromBits(Places(b, 64), 64), Steps(Plus128, s, 128))
  {
    hide Applied, Gather, IsRow, FromBits, EvaluateDoubled, Places, Steps;
    SixtyFourPlaces(b);
    Places72(b);
    Places80(b);
    Places88(b);
    Places96(b);
    Places104(b);
    Places112(b);
    Places120(b);
    var g7 := Gather(b >> 120, PLUS_7, 0);
    var g6 := Gather(b >> 112, PLUS_6, g7);
    var g5 := Gather(b >> 104, PLUS_5, g6);
    var g4 := Gather(b >> 96, PLUS_4, g5);
    var g3 := Gather(b >> 88, PLUS_3, g4);
    var g2 := Gather(b >> 80, PLUS_2, g3);
    var g1 := Gather(b >> 72, PLUS_1, g2);
    NothingGathered(Plus128, b, 128, s, 256);
    ByteGathers(Plus128, b, 120, 0, PLUS_7, 0, s);
    ByteGathers(Plus128, b, 112, 8, PLUS_6, g7, s);
    ByteGathers(Plus128, b, 104, 16, PLUS_5, g6, s);
    ByteGathers(Plus128, b, 96, 24, PLUS_4, g5, s);
    ByteGathers(Plus128, b, 88, 32, PLUS_3, g4, s);
    ByteGathers(Plus128, b, 80, 40, PLUS_2, g3, s);
    ByteGathers(Plus128, b, 72, 48, PLUS_1, g2, s);
    ByteGathers(Plus128, b, 64, 56, PLUS_0, g1, s);
  }

  lemma StarGathered(b: Register, s: State)
    requires StarRowsArePowers() && IsState(Star64, s)
    ensures Applied(Star64, StarHigh(b), s)
            == EvaluateDoubled(Star64, FromBits(Places(b, 32), 32), Steps(Star64, s, 64))
  {
    hide Applied, Gather, IsRow, FromBits, EvaluateDoubled, Places, Steps;
    ThirtyTwoPlaces(b);
    FortyPlaces(b);
    Places48(b);
    Places56(b);
    var g3 := Gather(b >> 56, STAR_3, 0);
    var g2 := Gather(b >> 48, STAR_2, g3);
    var g1 := Gather(b >> 40, STAR_1, g2);
    NothingGathered(Star64, b, 64, s, 128);
    ByteGathers(Star64, b, 56, 0, STAR_3, 0, s);
    ByteGathers(Star64, b, 48, 8, STAR_2, g3, s);
    ByteGathers(Star64, b, 40, 16, STAR_1, g2, s);
    ByteGathers(Star64, b, 32, 24, STAR_0, g1, s);
  }

  function Square(kind: Kind, b: Register): Register {
    if kind.Plus128? then PlusSquare(b) else StarSquare(b)
  }

  ghost predicate RowsArePowers(kind: Kind) {
    if kind.Plus128? then PlusRowsArePowers() else StarRowsArePowers()
  }

  /** The bits that a square spreads. */
  function Lower(kind: Kind, b: Register): Register {
    if kind.Plus128? then b else b & LOW_32
  }

  lemma LowerBits(kind: Kind, b: Register)
    ensures FromBits(Lower(kind, b), kind.Width()) == FromBits(b, kind.Width())
  {
    hide FromBits, LowOnes;
    LowOnes32();
    if kind.Star64? {
      MaskFrom(b, LOW_32, 32);
      assert Masked(b, LOW_32) == b & LOW_32;
    }
  }

  function High(kind: Kind, b: Register): Register {
    if kind.Plus128? then PlusHigh(b) else StarHigh(b)
  }

  lemma SquareIs(kind: Kind, b: Register)
    ensures Square(kind, b) == Exclusive(Spread(Lower(kind, b)), High(kind, b))
  {
    hide Spread, PlusHigh, StarHigh;
  }

  lemma HighApplied(kind: Kind, b: Register, s: State)
    requires RowsArePowers(kind) && IsState(kind, s)
    ensures Applied(kind, High(kind, b), s)
            == EvaluateDoubled(kind, FromBits(Places(b, kind.Width()), kind.Width()), Steps(kind, s, kind.Degree()))
  {
    hide Applied, PlusHigh, StarHigh, PlusRowsArePowers, StarRowsArePowers, FromBits, EvaluateDoubled, Places, Steps;
    if kind.Plus128? {
      PlusGathered(b, s);
    } else {
      StarGathered(b, s);
    }
  }

  lemma SquareApplied(kind: Kind, b: Register, s: State)
    requires RowsArePowers(kind) && IsState(kind, s)
    ensures Applied(kind, Square(kind, b), s) == Applied(kind, b, Applied(kind, b, s))
  {
    hide Gather, IsRow, FromBits, EvaluateDoubled, Places, Steps, Spread, Square, Evaluate, Exclusive, Add;
    hide RowsArePowers, Lower, High;
    var h := kind.Width();
    SquareIs(kind, b);
    HighApplied(kind, b, s);
    AppliedXor(kind, Spread(Lower(kind, b)), High(kind, b), s);
    SpreadApplied(kind, Lower(kind, b), h, s);
    LowerBits(kind, b);
    RegisterSplits(b, h, h);
    DoubledConcat(kind, FromBits(b, h), FromBits(Places(b, h), h), s);
    SquareIsDoubled(kind, FromBits(b, kind.Degree()), s);
  }

  lemma SquareIsPower(kind: Kind, b: Register, n: nat)
    requires RowsArePowers(kind) && IsPower(kind, b, n)
    ensures IsPower(kind, Square(kind, b), 2 * n)
  {
    hide Applied, Square, Steps, RowsArePowers;
    forall s | IsState(kind, s)
      ensures Applied(kind, Square(kind, b), s) == Steps(kind, s, 2 * n)
    {
      SquareApplied(kind, b, s);
      StepsAdd(kind, s, n, n);
    }
  }

  /** Squaring a power `n` times over. */
  lemma {:induction false} PlusSquaringsArePowers(b: Register, n: nat, c: Register, m: nat, q: nat)
    requires q == m * Pow2(n)
    requires RowsArePowers(Plus128) && IsPower(Plus128, b, m) && PlusSquarings(b, n, c)
    ensures IsPower(Plus128, c, q)
    decreases n
  {
    hide IsPower, PlusSquare, RowsArePowers;
    if n == 0 {
    } else {
      SquareIsPower(Plus128, b, m);
      assert q == 2 * m * Pow2(n - 1);
      PlusSquaringsArePowers(PlusSquare(b), n - 1, c, 2 * m, q);
    }
  }

  lemma {:induction false} StarSquaringsArePowers(b: Register, n: nat, c: Register, m: nat, q: nat)
    requires q == m * Pow2(n)
    requires RowsArePowers(Star64) && IsPower(Star64, b, m) && StarSquarings(b, n, c)
    ensures IsPower(Star64, c, q)
    decreases n
  {
    hide IsPower, StarSquare, RowsArePowers;
    if n == 0 {
    } else {
      SquareIsPower(Star64, b, m);
      assert q == 2 * m * Pow2(n - 1);
      StarSquaringsArePowers(StarSquare(b), n - 1, c, 2 * m, q);
    }
  }
}
