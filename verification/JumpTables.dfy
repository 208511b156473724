/**
 The characteristic polynomials, checked along one walk of each engine, and the powers of
 the steps that repeated squaring reaches. Every register is the value of the one before
 it: eight steps on, or four squarings on.
 */
module JumpTables {
  import opened Words
  import opened Xoroshiro
  import opened Registers
  import opened RegisterSteps
  import opened StepPolynomials
  import opened Frobenius

  // ----- The walk of the 128-bit engine -------------------------------------

  const PLUS_FIRST: Pair := Pair(0xEE72_2940_BB3C_0208, 0x758A_6531_39A2_10A9)
  const PLUS_LAST: Pair := Pair(0x77EF_3241_01DF_24B1, 0xFC94_84AB_90B4_912D)
  const PLUS_SUM: Pair := Pair(0x7C90_F8A5_9580_5AAE, 0x2D76_B391_6F76_DD52)

  lemma PlusWalk120()
    ensures Walk(Plus128, 0x0, 7,
                 Pair(0x8404_7E43_4830_699C, 0x5804_DCF8_0E62_AB92),
                 Pair(0x7C90_F8A5_9580_5AAE, 0x2D76_B391_6F76_DD52), PLUS_LAST, PLUS_SUM)
  {
  }

  lemma PlusWalk112()
    ensures Walk(Plus128, 0x8, 15,
                 Pair(0x2613_1045_B1D8_43E4, 0xBC10_0E0F_C3C2_EAD4),
                 Pair(0xCBC5_CD59_FD24_039A, 0x032F_C92C_A0E7_5DFD), PLUS_LAST, PLUS_SUM)
  {
    PlusWalk120();
  }

  lemma PlusWalk104()
    ensures Walk(Plus128, 0x882, 23,
                 Pair(0x231C_9092_9DC0_69EC, 0x365B_9C23_D41A_DF9A),
                 Pair(0x086D_DC14_B509_5AE8, 0x0EA4_84F7_F644_B830), PLUS_LAST, PLUS_SUM)
  {
    PlusWalk112();
  }

  lemma PlusWalk96()
    ensures Walk(Plus128, 0x8_828E, 31,
                 Pair(0x4573_46B3_ABE1_C462, 0x6F05_C7A6_32DE_3CDC),
                 Pair(0xDB4A_BCAD_0643_D78E, 0x518F_FA31_7E05_85E4), PLUS_LAST, PLUS_SUM)
  {
    PlusWalk104();
  }

  lemma PlusWalk88()
    ensures Walk(Plus128, 0x882_8E51, 39,
                 Pair(0xCE0A_0AF9_259A_5A30, 0xAD45_14E2_3CF0_05AC),
                 Pair(0xC4E9_C71B_AB64_88C4, 0x7946_F3A4_D033_CED3), PLUS_LAST, PLUS_SUM)
  {
    PlusWalk96();
  }

  lemma PlusWalk80()
    ensures Walk(Plus128, 0x8_828E_513B, 47,
                 Pair(0xC753_F921_249D_6576, 0x3207_3A29_0948_3B47),
                 Pair(0xDF7B_B87B_F77A_A9CC, 0x089F_5DE7_5F36_0424), PLUS_LAST, PLUS_SUM)
  {
    PlusWalk88();
  }

  lemma PlusWalk72()
    ensures Walk(Plus128, 0x882_8E51_3B43, 55,
                 Pair(0x2ED0_D993_E56C_9854, 0x8DEC_669D_009F_64DD),
                 Pair(0x6FA0_437C_44C3_E410, 0x8D00_3428_8F1F_CFCD), PLUS_LAST, PLUS_SUM)
  {
    PlusWalk80();
  }

  lemma PlusWalk64()
    ensures Walk(Plus128, 0x8_828E_513B_43D5, 63,
                 Pair(0x86BE_0C61_6898_70B6, 0xA09A_6634_FC67_CC80),
                 Pair(0x7251_0152_8AB7_75F2, 0x26AB_DCF2_B7D7_1EE1), PLUS_LAST, PLUS_SUM)
  {
    PlusWalk72();
  }

  lemma PlusWalk56()
    ensures Walk(Plus128, 0x882_8E51_3B43_D509, 71,
                 Pair(0x5983_C1C3_6312_DFAA, 0x0DEC_B635_322A_D22B),
                 Pair(0xAD82_1EEC_EE32_9196, 0xA9C6_D0E1_FAFC_10BC), PLUS_LAST, PLUS_SUM)
  {
    PlusWalk64();
  }

  lemma PlusWalk48()
    ensures Walk(Plus128, 0x8_828E_513B_43D5_095B, 79,
                 Pair(0x3EBD_DC92_9801_0A98, 0x0864_D1C4_05D9_3FD2),
                 Pair(0xF143_B8F8_DA61_CAD2, 0x133F_665F_E0B6_3E74), PLUS_LAST, PLUS_SUM)
  {
    PlusWalk56();
  }

  lemma PlusWalk40()
    ensures Walk(Plus128, 0x882_8E51_3B43_D509_5B8F, 87,
                 Pair(0x1D17_DC80_A5CF_1690, 0x3737_C5D1_571B_D058),
                 Pair(0xAFE4_8E4A_0CE0_EEB8, 0x525E_7AAF_C3D8_5C6A), PLUS_LAST, PLUS_SUM)
  {
    PlusWalk48();
  }

  lemma PlusWalk32()
    ensures Walk(Plus128, 0x8_828E_513B_43D5_095B_8F76, 95,
                 Pair(0xB09D_C2DA_0724_7200, 0x6094_87FF_30AA_3084),
                 Pair(0xD8C4_88EB_4019_BE32, 0x12E7_327A_E1D5_51DE), PLUS_LAST, PLUS_SUM)
  {
    PlusWalk40();
  }

  lemma PlusWalk24()
    ensures Walk(Plus128, 0x882_8E51_3B43_D509_5B8F_7657, 103,
                 Pair(0x7E1B_B371_69EE_6A7A, 0x2870_4A89_51E9_27D3),
                 Pair(0x0919_4D83_1F78_D4C0, 0xE68C_A04B_C120_FE5F), PLUS_LAST, PLUS_SUM)
  {
    PlusWalk32();
  }

  lemma PlusWalk16()
    ensures Walk(Plus128, 0x8_828E_513B_43D5_095B_8F76_579A, 111,
                 Pair(0xCDB6_FB03_430D_18FA, 0xC389_FDF3_2FBF_0369),
                 Pair(0xE5E0_FC35_5A3F_1FB2, 0x4BFB_24A3_9B90_4FD0), PLUS_LAST, PLUS_SUM)
  {
    PlusWalk24();
  }

  lemma PlusWalk8()
    ensures Walk(Plus128, 0x882_8E51_3B43_D509_5B8F_7657_9AA0, 119,
                 Pair(0x8EB7_A297_6E1F_F510, 0x8E53_8F36_8813_6064),
                 Pair(0xEE72_2940_BB3C_0208, 0x758A_6531_39A2_10A9), PLUS_LAST, PLUS_SUM)
  {
    PlusWalk16();
  }

  lemma PlusWalk0()
    ensures Walk(Plus128, 0x8_828E_513B_43D5_095B_8F76_579A_A001, 127,
                 Pair(0xEE72_2940_BB3C_0208, 0x758A_6531_39A2_10A9),
                 Pair(0x0000_0000_0000_0000, 0x0000_0000_0000_0000), PLUS_LAST, PLUS_SUM)
  {
    PlusWalk8();
  }

  // ----- The walk of the 64-bit engine --------------------------------------

  const STAR_FIRST: Pair := Pair(0x2545_8EB8, 0x7DB2_3798)
  const STAR_LAST: Pair := Pair(0x4D4D_ACF3, 0x2C59_C2C0)
  const STAR_SUM: Pair := Pair(0x84FD_3E80, 0x8DC6_6C22)

  lemma StarWalk56()
    ensures Walk(Star64, 0x105, 7,
                 Pair(0x197B_0EFE, 0xE47A_2BC7),
                 Pair(0xA51A_4A30, 0x5928_0394), STAR_LAST, STAR_SUM)
  {
  }

  lemma StarWalk48()
    ensures Walk(Star64, 0x1_053B, 15,
                 Pair(0x5C06_04CC, 0x1811_7EEB),
                 Pair(0x898D_6CF2, 0x2944_7AB5), STAR_LAST, STAR_SUM)
  {
    StarWalk56();
  }

  lemma StarWalk40()
    ensures Walk(Star64, 0x105_3BE9, 23,
                 Pair(0x4D14_5F80, 0x5927_8066),
                 Pair(0x6666_6424, 0x47DD_40E4), STAR_LAST, STAR_SUM)
  {
    StarWalk48();
  }

  lemma StarWalk32()
    ensures Walk(Star64, 0x1_053B_E9DA, 31,
                 Pair(0x9390_83BE, 0x8D47_DC0C),
                 Pair(0x598A_93FE, 0xABEF_9797), STAR_LAST, STAR_SUM)
  {
    StarWalk40();
  }

  lemma StarWalk24()
    ensures Walk(Star64, 0x105_3BE9_DA6E, 39,
                 Pair(0x8F95_8816, 0x029B_82CC),
                 Pair(0x06AF_0D80, 0x7BF6_23D6), STAR_LAST, STAR_SUM)
  {
    StarWalk32();
  }

  lemma StarWalk16()
    ensures Walk(Star64, 0x1_053B_E9DA_6E22, 47,
                 Pair(0x0703_786A, 0x409F_5C57),
                 Pair(0xFDFF_D396, 0x3666_0D20), STAR_LAST, STAR_SUM)
  {
    StarWalk24();
  }

  lemma StarWalk8()
    ensures Walk(Star64, 0x105_3BE9_DA6E_2286, 55,
                 Pair(0xD81E_1518, 0xFBFE_0CF8),
                 Pair(0x5FA8_AD48, 0x4F7B_39F3), STAR_LAST, STAR_SUM)
  {
    StarWalk16();
  }

  lemma StarWalk0()
    ensures Walk(Star64, 0x1_053B_E9DA_6E22_86C1, 63,
                 Pair(0x2545_8EB8, 0x7DB2_3798),
                 Pair(0x0000_0000, 0x0000_0000), STAR_LAST, STAR_SUM)
  {
    StarWalk8();
  }

  // ----- Powers of the 128-bit engine's step -----------------------------------

  /** Four squarings on from a power. */
  lemma PlusOn(b: Register, c: Register, k: nat)
    requires RowsArePowers(Plus128) && IsPower(Plus128, b, Pow2(k)) && PlusSquarings(b, 4, c)
    ensures IsPower(Plus128, c, Pow2(k + 4))
  {
    hide RowsArePowers, IsPower, PlusSquarings;
    PowerSum(k, 4);
    PlusSquaringsArePowers(b, 4, c, Pow2(k), Pow2(k + 4));
  }

  const P0: Register := 0x0000_0000_0000_0000_0000_0000_0000_0002
  const P4: Register := 0x0000_0000_0000_0000_0000_0000_0001_0000
  const P8: Register := 0x7A8F_F5B1_C465_A931_162A_D6EC_01B2_6EAE
  const P12: Register := 0xE3FB_E606_EF4E_8E09_C386_5BB1_54E9_BE10
  const P16: Register := 0x81E1_DD96_586C_F985_B82C_A99A_09A4_E71E
  const P20: Register := 0x4425_7671_5266_740C_235E_761B_3B37_8590
  const P24: Register := 0x1808_760D_0A09_09A1_377E_64C4_E80A_06FA
  const P28: Register := 0xF1CC_B889_8CBC_07CD_521B_29D0_A573_26C1
  const P32: Register := 0xD4E9_5EEF_9EDB_DBC6_FAD8_4362_2B25_2C78
  const P36: Register := 0x905D_FF85_834F_B8D1_EB2B_EAA8_0D3F_D8A7
  const P40: Register := 0xD47A_0263_6F04_1CCA_8CC9_AA88_A153_F5F8
  const P44: Register := 0x4A59_53C8_F4BC_2A51_207B_B245_3717_CF67
  const P48: Register := 0x9B19_BA6B_3752_065A_D769_CFC9_028D_EB78
  const P52: Register := 0x0D56_BB28_8C66_1CCF_8F9C_D379_4CA4_6FBF
  const P56: Register := 0x0DBF_CD24_53D1_D33F_CCDD_A809_DB64_B3E7
  const P60: Register := 0x0941_7D8C_80A3_7AA7_EBFB_C272_3A90_6760
  const P64: Register := 0x1708_65DF_4B32_01FC_DF90_0294_D8F5_54A5
  const P68: Register := 0xADB7_753D_5564_6EEF_0DCF_C5B9_09E7_DF4D
  const P72: Register := 0x752B_98D0_02C4_08F7_8477_57C1_26B2_3E45
  const P76: Register := 0xE023_777E_70B3_A2F8_C419_B374_2570_E16F
  const P80: Register := 0x2ADC_A86F_BEFE_1366_E754_DB3F_BC75_36BC
  const P84: Register := 0x93A7_CF27_DEC9_B306_79EA_D2EE_DDF6_6699
  const P88: Register := 0x5EC4_31D7_3BBF_E49F_EFC7_905E_1CBB_5FFB
  const P92: Register := 0xD8E9_E725_4052_AF4D_51F2_1CDD_CEBD_B8C7
  const P96: Register := 0xDDDF_9B10_90AA_7AC1_D2A9_8B26_625E_EE7B
  const P100: Register := 0xA4E5_40C7_AC49_AA1B_C573_0DE0_58E1_047F
  const P104: Register := 0x4E86_F36C_495E_EEDB_BEC4_0E05_1808_6E21
  const P108: Register := 0x58A0_0D23_A808_6646_A10C_3FB0_B18D_F787
  const P112: Register := 0x83FD_48D6_B962_0584_15F2_D25B_60C5_ACD7
  const P116: Register := 0xB6BD_E02B_D004_B144_40DD_B4DA_F3FB_DDA8
  const P120: Register := 0xA5AF_3433_1C04_4D81_F42C_01A2_A381_5DB4
  const P124: Register := 0xAC13_C8B2_FF83_8036_380B_9776_4C9F_7748

  lemma PlusSquares0()
    ensures PlusSquarings(P0, 4, P4)
  {
  }

  lemma PlusSquares4()
    ensures PlusSquarings(P4, 4, P8)
  {
  }

  lemma PlusSquares8()
    ensures PlusSquarings(P8, 4, P12)
  {
  }

  lemma PlusSquares12()
    ensures PlusSquarings(P12, 4, P16)
  {
  }

  lemma PlusSquares16()
    ensures PlusSquarings(P16, 4, P20)
  {
  }

  lemma PlusSquares20()
    ensures PlusSquarings(P20, 4, P24)
  {
  }

  lemma PlusSquares24()
    ensures PlusSquarings(P24, 4, P28)
  {
  }

  lemma PlusSquares28()
    ensures PlusSquarings(P28, 4, P32)
  {
  }

  lemma PlusSquares32()
    ensures PlusSquarings(P32, 4, P36)
  {
  }

  lemma PlusSquares36()
    ensures PlusSquarings(P36, 4, P40)
  {
  }

  lemma PlusSquares40()
    ensures PlusSquarings(P40, 4, P44)
  {
  }

  lemma PlusSquares44()
    ensures PlusSquarings(P44, 4, P48)
  {
  }

  lemma PlusSquares48()
    ensures PlusSquarings(P48, 4, P52)
  {
  }

  lemma PlusSquares52()
    ensures PlusSquarings(P52, 4, P56)
  {
  }

  lemma PlusSquares56()
    ensures PlusSquarings(P56, 4, P60)
  {
  }

  lemma PlusSquares60()
    ensures PlusSquarings(P60, 4, P64)
  {
  }

  lemma PlusSquares64()
    ensures PlusSquarings(P64, 4, P68)
  {
  }

  lemma PlusSquares68()
    ensures PlusSquarings(P68, 4, P72)
  {
  }

  lemma PlusSquares72()
    ensures PlusSquarings(P72, 4, P76)
  {
  }

  lemma PlusSquares76()
    ensures PlusSquarings(P76, 4, P80)
  {
  }

  lemma PlusSquares80()
    ensures PlusSquarings(P80, 4, P84)
  {
  }

  lemma PlusSquares84()
    ensures PlusSquarings(P84, 4, P88)
  {
  }

  lemma PlusSquares88()
    ensures PlusSquarings(P88, 4, P92)
  {
  }

  lemma PlusSquares92()
    ensures PlusSquarings(P92, 4, P96)
  {
  }

  lemma PlusSquares96()
    ensures PlusSquarings(P96, 4, P100)
  {
  }

  lemma PlusSquares100()
    ensures PlusSquarings(P100, 4, P104)
  {
  }

  lemma PlusSquares104()
    ensures PlusSquarings(P104, 4, P108)
  {
  }

  lemma PlusSquares108()
    ensures PlusSquarings(P108, 4, P112)
  {
  }

  lemma PlusSquares112()
    ensures PlusSquarings(P112, 4, P116)
  {
  }

  lemma PlusSquares116()
    ensures PlusSquarings(P116, 4, P120)
  {
  }

  lemma PlusSquares120()
    ensures PlusSquarings(P120, 4, P124)
  {
  }

  lemma PlusSquares124()
    ensures PlusSquarings(P124, 4, P0)
  {
  }

  lemma PlusPower32()
    requires RowsArePowers(Plus128)
    ensures IsPower(Plus128, P32, Pow2(32))
  {
    hide RowsArePowers, IsPower, Pow2, PlusSquarings;
    StepIsPower(Plus128);
    PlusSquares0();
    PlusOn(P0, P4, 0);
    PlusSquares4();
    PlusOn(P4, P8, 4);
    PlusSquares8();
    PlusOn(P8, P12, 8);
    PlusSquares12();
    PlusOn(P12, P16, 12);
    PlusSquares16();
    PlusOn(P16, P20, 16);
    PlusSquares20();
    PlusOn(P20, P24, 20);
    PlusSquares24();
    PlusOn(P24, P28, 24);
    PlusSquares28();
    PlusOn(P28, P32, 28);
  }

  lemma PlusPower64()
    requires RowsArePowers(Plus128) && IsPower(Plus128, P32, Pow2(32))
    ensures IsPower(Plus128, P64, Pow2(64))
  {
    hide RowsArePowers, IsPower, Pow2, PlusSquarings;
    PlusSquares32();
    PlusOn(P32, P36, 32);
    PlusSquares36();
    PlusOn(P36, P40, 36);
    PlusSquares40();
    PlusOn(P40, P44, 40);
    PlusSquares44();
    PlusOn(P44, P48, 44);
    PlusSquares48();
    PlusOn(P48, P52, 48);
    PlusSquares52();
    PlusOn(P52, P56, 52);
    PlusSquares56();
    PlusOn(P56, P60, 56);
    PlusSquares60();
    PlusOn(P60, P64, 60);
  }

  lemma PlusPower96()
    requires RowsArePowers(Plus128) && IsPower(Plus128, P64, Pow2(64))
    ensures IsPower(Plus128, P96, Pow2(96))
  {
    hide RowsArePowers, IsPower, Pow2, PlusSquarings;
    PlusSquares64();
    PlusOn(P64, P68, 64);
    PlusSquares68();
    PlusOn(P68, P72, 68);
    PlusSquares72();
    PlusOn(P72, P76, 72);
    PlusSquares76();
    PlusOn(P76, P80, 76);
    PlusSquares80();
    PlusOn(P80, P84, 80);
    PlusSquares84();
    PlusOn(P84, P88, 84);
    PlusSquares88();
    PlusOn(P88, P92, 88);
    PlusSquares92();
    PlusOn(P92, P96, 92);
  }

  lemma PlusPower128()
    requires RowsArePowers(Plus128) && IsPower(Plus128, P96, Pow2(96))
    ensures IsPower(Plus128, P0, Pow2(128))
  {
    hide RowsArePowers, IsPower, Pow2, PlusSquarings;
    PlusSquares96();
    PlusOn(P96, P100, 96);
    PlusSquares100();
    PlusOn(P100, P104, 100);
    PlusSquares104();
    PlusOn(P104, P108, 104);
    PlusSquares108();
    PlusOn(P108, P112, 108);
    PlusSquares112();
    PlusOn(P112, P116, 112);
    PlusSquares116();
    PlusOn(P116, P120, 116);
    PlusSquares120();
    PlusOn(P120, P124, 120);
    PlusSquares124();
    PlusOn(P124, P0, 124);
  }

  // ----- Powers of the 64-bit engine's step ------------------------------------

  /** Four squarings on from a power. */
  lemma StarOn(b: Register, c: Register, k: nat)
    requires RowsArePowers(Star64) && IsPower(Star64, b, Pow2(k)) && StarSquarings(b, 4, c)
    ensures IsPower(Star64, c, Pow2(k + 4))
  {
    hide RowsArePowers, IsPower, StarSquarings;
    PowerSum(k, 4);
    StarSquaringsArePowers(b, 4, c, Pow2(k), Pow2(k + 4));
  }

  const S0: Register := 0x0000_0000_0000_0002
  const S4: Register := 0x0000_0000_0001_0000
  const S8: Register := 0x474C_4FCF_B39E_8E75
  const S12: Register := 0xBA58_9B40_E2FD_372D
  const S16: Register := 0xA127_F286_1770_6880
  const S20: Register := 0xB521_3F45_867D_08FC
  const S24: Register := 0x403B_DC46_B361_8BA0
  const S28: Register := 0x17B7_98A6_29B4_2703
  const S32: Register := 0x4CBF_99BD_77FC_D1A0
  const S36: Register := 0x521C_4C9F_418D_6EF9
  const S40: Register := 0x6B41_272D_B576_F390
  const S44: Register := 0x7E1E_E129_6C70_5B6A
  const S48: Register := 0xB4E7_E463_3F1F_8B95
  const S52: Register := 0xB124_C979_6DCF_2095
  const S56: Register := 0xCE44_52E1_0F6D_038E
  const S60: Register := 0x6B18_1616_4DF7_E25A

  lemma StarSquares0()
    ensures StarSquarings(S0, 4, S4)
  {
  }

  lemma StarSquares4()
    ensures StarSquarings(S4, 4, S8)
  {
  }

  lemma StarSquares8()
    ensures StarSquarings(S8, 4, S12)
  {
  }

  lemma StarSquares12()
    ensures StarSquarings(S12, 4, S16)
  {
  }

  lemma StarSquares16()
    ensures StarSquarings(S16, 4, S20)
  {
  }

  lemma StarSquares20()
    ensures StarSquarings(S20, 4, S24)
  {
  }

  lemma StarSquares24()
    ensures StarSquarings(S24, 4, S28)
  {
  }

  lemma StarSquares28()
    ensures StarSquarings(S28, 4, S32)
  {
  }

  lemma StarSquares32()
    ensures StarSquarings(S32, 4, S36)
  {
  }

  lemma StarSquares36()
    ensures StarSquarings(S36, 4, S40)
  {
  }

  lemma StarSquares40()
    ensures StarSquarings(S40, 4, S44)
  {
  }

  lemma StarSquares44()
    ensures StarSquarings(S44, 4, S48)
  {
  }

  lemma StarSquares48()
    ensures StarSquarings(S48, 4, S52)
  {
  }

  lemma StarSquares52()
    ensures StarSquarings(S52, 4, S56)
  {
  }

  lemma StarSquares56()
    ensures StarSquarings(S56, 4, S60)
  {
  }

  lemma StarSquares60()
    ensures StarSquarings(S60, 4, S0)
  {
  }

  lemma StarPower32()
    requires RowsArePowers(Star64)
    ensures IsPower(Star64, S32, Pow2(32))
  {
    hide RowsArePowers, IsPower, Pow2, StarSquarings;
    StepIsPower(Star64);
    StarSquares0();
    StarOn(S0, S4, 0);
    StarSquares4();
    StarOn(S4, S8, 4);
    StarSquares8();
    StarOn(S8, S12, 8);
    StarSquares12();
    StarOn(S12, S16, 12);
    StarSquares16();
    StarOn(S16, S20, 16);
    StarSquares20();
    StarOn(S20, S24, 20);
    StarSquares24();
    StarOn(S24, S28, 24);
    StarSquares28();
    StarOn(S28, S32, 28);
  }

  lemma StarPower48()
    requires RowsArePowers(Star64) && IsPower(Star64, S32, Pow2(32))
    ensures IsPower(Star64, S48, Pow2(48))
  {
    hide RowsArePowers, IsPower, Pow2, StarSquarings;
    StarSquares32();
    StarOn(S32, S36, 32);
    StarSquares36();
    StarOn(S36, S40, 36);
    StarSquares40();
    StarOn(S40, S44, 40);
    StarSquares44();
    StarOn(S44, S48, 44);
  }

  lemma StarPower64()
    requires RowsArePowers(Star64) && IsPower(Star64, S48, Pow2(48))
    ensures IsPower(Star64, S0, Pow2(64))
  {
    hide RowsArePowers, IsPower, Pow2, StarSquarings;
    StarSquares48();
    StarOn(S48, S52, 48);
    StarSquares52();
    StarOn(S52, S56, 52);
    StarSquares56();
    StarOn(S56, S60, 56);
    StarSquares60();
    StarOn(S60, S0, 60);
  }

  lemma OneFrom(n: nat)
    requires n > 0
    ensures FromBits(1, n) == [true] + Zeros(n - 1)
  {
    hide FromBits;
    UnfoldFrom(1, n - 1);
    ZeroFrom(n - 1);
  }

  lemma UnfoldFrom(b: Register, n: nat)
    ensures FromBits(b, n + 1) == [b & 1 == 1] + FromBits(b >> 1, n)
  {
  }

  /** The register 2 holds the step itself. */
  lemma StepIsPower(kind: Kind)
    ensures IsPower(kind, 2, Pow2(0))
  {
    hide FromBits, Evaluate, Step;
    var n := kind.Degree();
    UnfoldFrom(2, n - 1);
    OneFrom(n - 1);
    forall s | IsState(kind, s)
      ensures Applied(kind, 2, s) == Steps(kind, s, 1)
    {
      assert FromBits(2, n)[1..] == [true] + Zeros(n - 2);
      NoFirstTerm(kind, FromBits(2, n), s);
      OnlyFirstTerm(kind, n - 2, Step(kind, s));
    }
  }

  lemma OnlyFirstTerm(kind: Kind, n: nat, s: State)
    requires IsState(kind, s)
    ensures Evaluate(kind, [true] + Zeros(n), s) == s
  {
    hide Step, Add;
    assert ([true] + Zeros(n))[1..] == Zeros(n);
    EvaluateZeros(kind, n, Step(kind, s));
    NothingAccumulated(kind, s);
  }
}
