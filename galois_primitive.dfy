/**
 * The reduction polynomial 0x11D is primitive: x generates all 255 nonzero
 * bytes, so x^0 .. x^254 are pairwise distinct (PowersDistinct).
 *
 * The proof is by computation.  PowValuesN states the powers x^N .. x^(N+31)
 * as constants, each one XTime of the previous; NoUnitN concludes that none
 * of them is 1 below x^255.  If x^i == x^j with i < j < 255, cancelling x^i
 * would give x^(j-i) == 1, which NoUnitN rules out.
 */
module GaloisPrimitive {
  import opened GaloisArith

  /** x^255 == 1 and x^d != 1 for 0 < d < 255: the multiplicative order of x is 255. */
  lemma OrderOfX()
    ensures Pow(255) == 1
    ensures forall d: nat :: 0 < d < 255 ==> Pow(d) != 1
  {
    PowValues1();
    PowValues33();
    PowValues65();
    PowValues97();
    PowValues129();
    PowValues161();
    PowValues193();
    PowValues225();
    NoUnit1();
    NoUnit33();
    NoUnit65();
    NoUnit97();
    NoUnit129();
    NoUnit161();
    NoUnit193();
    NoUnit225();
  }

  /** The lookup tables can always be built: no power of x repeats before x^255. */
  lemma PowersAreDistinct()
    ensures PowersDistinct()
  {
    OrderOfX();
    forall i: nat, j: nat | i < j < 255
      ensures Pow(i) != Pow(j)
    {
      var d: nat := j - i;
      XTimesAdd(1, i, d);
      XTimesInjective(XTimes(1, d), 1, i);
      assert Pow(j) == XTimes(XTimes(1, d), i) && Pow(i) == XTimes(1, i) && Pow(d) == XTimes(1, d);
    }
  }

  lemma PowValues1()
    requires Pow(0) == 0x01
    ensures Pow(1) == 0x02
      && Pow(2) == 0x04
      && Pow(3) == 0x08
      && Pow(4) == 0x10
      && Pow(5) == 0x20
      && Pow(6) == 0x40
      && Pow(7) == 0x80
      && Pow(8) == 0x1D
      && Pow(9) == 0x3A
      && Pow(10) == 0x74
      && Pow(11) == 0xE8
      && Pow(12) == 0xCD
      && Pow(13) == 0x87
      && Pow(14) == 0x13
      && Pow(15) == 0x26
      && Pow(16) == 0x4C
      && Pow(17) == 0x98
      && Pow(18) == 0x2D
      && Pow(19) == 0x5A
      && Pow(20) == 0xB4
      && Pow(21) == 0x75
      && Pow(22) == 0xEA
      && Pow(23) == 0xC9
      && Pow(24) == 0x8F
      && Pow(25) == 0x03
      && Pow(26) == 0x06
      && Pow(27) == 0x0C
      && Pow(28) == 0x18
      && Pow(29) == 0x30
      && Pow(30) == 0x60
      && Pow(31) == 0xC0
      && Pow(32) == 0x9D
  {
    assert Pow(1) == XTime(Pow(0));
    assert Pow(2) == XTime(Pow(1));
    assert Pow(3) == XTime(Pow(2));
    assert Pow(4) == XTime(Pow(3));
    assert Pow(5) == XTime(Pow(4));
    assert Pow(6) == XTime(Pow(5));
    assert Pow(7) == XTime(Pow(6));
    assert Pow(8) == XTime(Pow(7));
    assert Pow(9) == XTime(Pow(8));
    assert Pow(10) == XTime(Pow(9));
    assert Pow(11) == XTime(Pow(10));
    assert Pow(12) == XTime(Pow(11));
    assert Pow(13) == XTime(Pow(12));
    assert Pow(14) == XTime(Pow(13));
    assert Pow(15) == XTime(Pow(14));
    assert Pow(16) == XTime(Pow(15));
    assert Pow(17) == XTime(Pow(16));
    assert Pow(18) == XTime(Pow(17));
    assert Pow(19) == XTime(Pow(18));
    assert Pow(20) == XTime(Pow(19));
    assert Pow(21) == XTime(Pow(20));
    assert Pow(22) == XTime(Pow(21));
    assert Pow(23) == XTime(Pow(22));
    assert Pow(24) == XTime(Pow(23));
    assert Pow(25) == XTime(Pow(24));
    assert Pow(26) == XTime(Pow(25));
    assert Pow(27) == XTime(Pow(26));
    assert Pow(28) == XTime(Pow(27));
    assert Pow(29) == XTime(Pow(28));
    assert Pow(30) == XTime(Pow(29));
    assert Pow(31) == XTime(Pow(30));
    assert Pow(32) == XTime(Pow(31));
  }

  lemma NoUnit1()
    requires Pow(0) == 0x01
    ensures forall d: nat :: 1 <= d < 33 ==> Pow(d) != 1
  {
    PowValues1();
    forall d: nat | 1 <= d < 33
      ensures Pow(d) != 1
    {
      assert d == 1 || d == 2 || d == 3 || d == 4 || d == 5 || d == 6 || d == 7 || d == 8 || d == 9 || d == 10 || d == 11 || d == 12 || d == 13 || d == 14 || d == 15 || d == 16 || d == 17 || d == 18 || d == 19 || d == 20 || d == 21 || d == 22 || d == 23 || d == 24 || d == 25 || d == 26 || d == 27 || d == 28 || d == 29 || d == 30 || d == 31 || d == 32;
    }
  }

  lemma PowValues33()
    requires Pow(32) == 0x9D
    ensures Pow(33) == 0x27
      && Pow(34) == 0x4E
      && Pow(35) == 0x9C
      && Pow(36) == 0x25
      && Pow(37) == 0x4A
      && Pow(38) == 0x94
      && Pow(39) == 0x35
      && Pow(40) == 0x6A
      && Pow(41) == 0xD4
      && Pow(42) == 0xB5
      && Pow(43) == 0x77
      && Pow(44) == 0xEE
      && Pow(45) == 0xC1
      && Pow(46) == 0x9F
      && Pow(47) == 0x23
      && Pow(48) == 0x46
      && Pow(49) == 0x8C
      && Pow(50) == 0x05
      && Pow(51) == 0x0A
      && Pow(52) == 0x14
      && Pow(53) == 0x28
      && Pow(54) == 0x50
      && Pow(55) == 0xA0
      && Pow(56) == 0x5D
      && Pow(57) == 0xBA
      && Pow(58) == 0x69
      && Pow(59) == 0xD2
      && Pow(60) == 0xB9
      && Pow(61) == 0x6F
      && Pow(62) == 0xDE
      && Pow(63) == 0xA1
      && Pow(64) == 0x5F
  {
    assert Pow(33) == XTime(Pow(32));
    assert Pow(34) == XTime(Pow(33));
    assert Pow(35) == XTime(Pow(34));
    assert Pow(36) == XTime(Pow(35));
    assert Pow(37) == XTime(Pow(36));
    assert Pow(38) == XTime(Pow(37));
    assert Pow(39) == XTime(Pow(38));
    assert Pow(40) == XTime(Pow(39));
    assert Pow(41) == XTime(Pow(40));
    assert Pow(42) == XTime(Pow(41));
    assert Pow(43) == XTime(Pow(42));
    assert Pow(44) == XTime(Pow(43));
    assert Pow(45) == XTime(Pow(44));
    assert Pow(46) == XTime(Pow(45));
    assert Pow(47) == XTime(Pow(46));
    assert Pow(48) == XTime(Pow(47));
    assert Pow(49) == XTime(Pow(48));
    assert Pow(50) == XTime(Pow(49));
    assert Pow(51) == XTime(Pow(50));
    assert Pow(52) == XTime(Pow(51));
    assert Pow(53) == XTime(Pow(52));
    assert Pow(54) == XTime(Pow(53));
    assert Pow(55) == XTime(Pow(54));
    assert Pow(56) == XTime(Pow(55));
    assert Pow(57) == XTime(Pow(56));
    assert Pow(58) == XTime(Pow(57));
    assert Pow(59) == XTime(Pow(58));
    assert Pow(60) == XTime(Pow(59));
    assert Pow(61) == XTime(Pow(60));
    assert Pow(62) == XTime(Pow(61));
    assert Pow(63) == XTime(Pow(62));
    assert Pow(64) == XTime(Pow(63));
  }

  lemma NoUnit33()
    requires Pow(32) == 0x9D
    ensures forall d: nat :: 33 <= d < 65 ==> Pow(d) != 1
  {
    PowValues33();
    forall d: nat | 33 <= d < 65
      ensures Pow(d) != 1
    {
      assert d == 33 || d == 34 || d == 35 || d == 36 || d == 37 || d == 38 || d == 39 || d == 40 || d == 41 || d == 42 || d == 43 || d == 44 || d == 45 || d == 46 || d == 47 || d == 48 || d == 49 || d == 50 || d == 51 || d == 52 || d == 53 || d == 54 || d == 55 || d == 56 || d == 57 || d == 58 || d == 59 || d == 60 || d == 61 || d == 62 || d == 63 || d == 64;
    }
  }

  lemma PowValues65()
    requires Pow(64) == 0x5F
    ensures Pow(65) == 0xBE
      && Pow(66) == 0x61
      && Pow(67) == 0xC2
      && Pow(68) == 0x99
      && Pow(69) == 0x2F
      && Pow(70) == 0x5E
      && Pow(71) == 0xBC
      && Pow(72) == 0x65
      && Pow(73) == 0xCA
      && Pow(74) == 0x89
      && Pow(75) == 0x0F
      && Pow(76) == 0x1E
      && Pow(77) == 0x3C
      && Pow(78) == 0x78
      && Pow(79) == 0xF0
      && Pow(80) == 0xFD
      && Pow(81) == 0xE7
      && Pow(82) == 0xD3
      && Pow(83) == 0xBB
      && Pow(84) == 0x6B
      && Pow(85) == 0xD6
      && Pow(86) == 0xB1
      && Pow(87) == 0x7F
      && Pow(88) == 0xFE
      && Pow(89) == 0xE1
      && Pow(90) == 0xDF
      && Pow(91) == 0xA3
      && Pow(92) == 0x5B
      && Pow(93) == 0xB6
      && Pow(94) == 0x71
      && Pow(95) == 0xE2
      && Pow(96) == 0xD9
  {
    assert Pow(65) == XTime(Pow(64));
    assert Pow(66) == XTime(Pow(65));
    assert Pow(67) == XTime(Pow(66));
    assert Pow(68) == XTime(Pow(67));
    assert Pow(69) == XTime(Pow(68));
    assert Pow(70) == XTime(Pow(69));
    assert Pow(71) == XTime(Pow(70));
    assert Pow(72) == XTime(Pow(71));
    assert Pow(73) == XTime(Pow(72));
    assert Pow(74) == XTime(Pow(73));
    assert Pow(75) == XTime(Pow(74));
    assert Pow(76) == XTime(Pow(75));
    assert Pow(77) == XTime(Pow(76));
    assert Pow(78) == XTime(Pow(77));
    assert Pow(79) == XTime(Pow(78));
    assert Pow(80) == XTime(Pow(79));
    assert Pow(81) == XTime(Pow(80));
    assert Pow(82) == XTime(Pow(81));
    assert Pow(83) == XTime(Pow(82));
    assert Pow(84) == XTime(Pow(83));
    assert Pow(85) == XTime(Pow(84));
    assert Pow(86) == XTime(Pow(85));
    assert Pow(87) == XTime(Pow(86));
    assert Pow(88) == XTime(Pow(87));
    assert Pow(89) == XTime(Pow(88));
    assert Pow(90) == XTime(Pow(89));
    assert Pow(91) == XTime(Pow(90));
    assert Pow(92) == XTime(Pow(91));
    assert Pow(93) == XTime(Pow(92));
    assert Pow(94) == XTime(Pow(93));
    assert Pow(95) == XTime(Pow(94));
    assert Pow(96) == XTime(Pow(95));
  }

  lemma NoUnit65()
    requires Pow(64) == 0x5F
    ensures forall d: nat :: 65 <= d < 97 ==> Pow(d) != 1
  {
    PowValues65();
    forall d: nat | 65 <= d < 97
      ensures Pow(d) != 1
    {
      assert d == 65 || d == 66 || d == 67 || d == 68 || d == 69 || d == 70 || d == 71 || d == 72 || d == 73 || d == 74 || d == 75 || d == 76 || d == 77 || d == 78 || d == 79 || d == 80 || d == 81 || d == 82 || d == 83 || d == 84 || d == 85 || d == 86 || d == 87 || d == 88 || d == 89 || d == 90 || d == 91 || d == 92 || d == 93 || d == 94 || d == 95 || d == 96;
    }
  }

  lemma PowValues97()
    requires Pow(96) == 0xD9
    ensures Pow(97) == 0xAF
      && Pow(98) == 0x43
      && Pow(99) == 0x86
      && Pow(100) == 0x11
      && Pow(101) == 0x22
      && Pow(102) == 0x44
      && Pow(103) == 0x88
      && Pow(104) == 0x0D
      && Pow(105) == 0x1A
      && Pow(106) == 0x34
      && Pow(107) == 0x68
      && Pow(108) == 0xD0
      && Pow(109) == 0xBD
      && Pow(110) == 0x67
      && Pow(111) == 0xCE
      && Pow(112) == 0x81
      && Pow(113) == 0x1F
      && Pow(114) == 0x3E
      && Pow(115) == 0x7C
      && Pow(116) == 0xF8
      && Pow(117) == 0xED
      && Pow(118) == 0xC7
      && Pow(119) == 0x93
      && Pow(120) == 0x3B
      && Pow(121) == 0x76
      && Pow(122) == 0xEC
      && Pow(123) == 0xC5
      && Pow(124) == 0x97
      && Pow(125) == 0x33
      && Pow(126) == 0x66
      && Pow(127) == 0xCC
      && Pow(128) == 0x85
  {
    assert Pow(97) == XTime(Pow(96));
    assert Pow(98) == XTime(Pow(97));
    assert Pow(99) == XTime(Pow(98));
    assert Pow(100) == XTime(Pow(99));
    assert Pow(101) == XTime(Pow(100));
    assert Pow(102) == XTime(Pow(101));
    assert Pow(103) == XTime(Pow(102));
    assert Pow(104) == XTime(Pow(103));
    assert Pow(105) == XTime(Pow(104));
    assert Pow(106) == XTime(Pow(105));
    assert Pow(107) == XTime(Pow(106));
    assert Pow(108) == XTime(Pow(107));
    assert Pow(109) == XTime(Pow(108));
    assert Pow(110) == XTime(Pow(109));
    assert Pow(111) == XTime(Pow(110));
    assert Pow(112) == XTime(Pow(111));
    assert Pow(113) == XTime(Pow(112));
    assert Pow(114) == XTime(Pow(113));
    assert Pow(115) == XTime(Pow(114));
    assert Pow(116) == XTime(Pow(115));
    assert Pow(117) == XTime(Pow(116));
    assert Pow(118) == XTime(Pow(117));
    assert Pow(119) == XTime(Pow(118));
    assert Pow(120) == XTime(Pow(119));
    assert Pow(121) == XTime(Pow(120));
    assert Pow(122) == XTime(Pow(121));
    assert Pow(123) == XTime(Pow(122));
    assert Pow(124) == XTime(Pow(123));
    assert Pow(125) == XTime(Pow(124));
    assert Pow(126) == XTime(Pow(125));
    assert Pow(127) == XTime(Pow(126));
    assert Pow(128) == XTime(Pow(127));
  }

  lemma NoUnit97()
    requires Pow(96) == 0xD9
    ensures forall d: nat :: 97 <= d < 129 ==> Pow(d) != 1
  {
    PowValues97();
    forall d: nat | 97 <= d < 129
      ensures Pow(d) != 1
    {
      assert d == 97 || d == 98 || d == 99 || d == 100 || d == 101 || d == 102 || d == 103 || d == 104 || d == 105 || d == 106 || d == 107 || d == 108 || d == 109 || d == 110 || d == 111 || d == 112 || d == 113 || d == 114 || d == 115 || d == 116 || d == 117 || d == 118 || d == 119 || d == 120 || d == 121 || d == 122 || d == 123 || d == 124 || d == 125 || d == 126 || d == 127 || d == 128;
    }
  }

  lemma PowValues129()
    requires Pow(128) == 0x85
    ensures Pow(129) == 0x17
      && Pow(130) == 0x2E
      && Pow(131) == 0x5C
      && Pow(132) == 0xB8
      && Pow(133) == 0x6D
      && Pow(134) == 0xDA
      && Pow(135) == 0xA9
      && Pow(136) == 0x4F
      && Pow(137) == 0x9E
      && Pow(138) == 0x21
      && Pow(139) == 0x42
      && Pow(140) == 0x84
      && Pow(141) == 0x15
      && Pow(142) == 0x2A
      && Pow(143) == 0x54
      && Pow(144) == 0xA8
      && Pow(145) == 0x4D
      && Pow(146) == 0x9A
      && Pow(147) == 0x29
      && Pow(148) == 0x52
      && Pow(149) == 0xA4
      && Pow(150) == 0x55
      && Pow(151) == 0xAA
      && Pow(152) == 0x49
      && Pow(153) == 0x92
      && Pow(154) == 0x39
      && Pow(155) == 0x72
      && Pow(156) == 0xE4
      && Pow(157) == 0xD5
      && Pow(158) == 0xB7
      && Pow(159) == 0x73
      && Pow(160) == 0xE6
  {
    assert Pow(129) == XTime(Pow(128));
    assert Pow(130) == XTime(Pow(129));
    assert Pow(131) == XTime(Pow(130));
    assert Pow(132) == XTime(Pow(131));
    assert Pow(133) == XTime(Pow(132));
    assert Pow(134) == XTime(Pow(133));
    assert Pow(135) == XTime(Pow(134));
    assert Pow(136) == XTime(Pow(135));
    assert Pow(137) == XTime(Pow(136));
    assert Pow(138) == XTime(Pow(137));
    assert Pow(139) == XTime(Pow(138));
    assert Pow(140) == XTime(Pow(139));
    assert Pow(141) == XTime(Pow(140));
    assert Pow(142) == XTime(Pow(141));
    assert Pow(143) == XTime(Pow(142));
    assert Pow(144) == XTime(Pow(143));
    assert Pow(145) == XTime(Pow(144));
    assert Pow(146) == XTime(Pow(145));
    assert Pow(147) == XTime(Pow(146));
    assert Pow(148) == XTime(Pow(147));
    assert Pow(149) == XTime(Pow(148));
    assert Pow(150) == XTime(Pow(149));
    assert Pow(151) == XTime(Pow(150));
    assert Pow(152) == XTime(Pow(151));
    assert Pow(153) == XTime(Pow(152));
    assert Pow(154) == XTime(Pow(153));
    assert Pow(155) == XTime(Pow(154));
    assert Pow(156) == XTime(Pow(155));
    assert Pow(157) == XTime(Pow(156));
    assert Pow(158) == XTime(Pow(157));
    assert Pow(159) == XTime(Pow(158));
    assert Pow(160) == XTime(Pow(159));
  }

  lemma NoUnit129()
    requires Pow(128) == 0x85
    ensures forall d: nat :: 129 <= d < 161 ==> Pow(d) != 1
  {
    PowValues129();
    forall d: nat | 129 <= d < 161
      ensures Pow(d) != 1
    {
      assert d == 129 || d == 130 || d == 131 || d == 132 || d == 133 || d == 134 || d == 135 || d == 136 || d == 137 || d == 138 || d == 139 || d == 140 || d == 141 || d == 142 || d == 143 || d == 144 || d == 145 || d == 146 || d == 147 || d == 148 || d == 149 || d == 150 || d == 151 || d == 152 || d == 153 || d == 154 || d == 155 || d == 156 || d == 157 || d == 158 || d == 159 || d == 160;
    }
  }

  lemma PowValues161()
    requires Pow(160) == 0xE6
    ensures Pow(161) == 0xD1
      && Pow(162) == 0xBF
      && Pow(163) == 0x63
      && Pow(164) == 0xC6
      && Pow(165) == 0x91
      && Pow(166) == 0x3F
      && Pow(167) == 0x7E
      && Pow(168) == 0xFC
      && Pow(169) == 0xE5
      && Pow(170) == 0xD7
      && Pow(171) == 0xB3
      && Pow(172) == 0x7B
      && Pow(173) == 0xF6
      && Pow(174) == 0xF1
      && Pow(175) == 0xFF
      && Pow(176) == 0xE3
      && Pow(177) == 0xDB
      && Pow(178) == 0xAB
      && Pow(179) == 0x4B
      && Pow(180) == 0x96
      && Pow(181) == 0x31
      && Pow(182) == 0x62
      && Pow(183) == 0xC4
      && Pow(184) == 0x95
      && Pow(185) == 0x37
      && Pow(186) == 0x6E
      && Pow(187) == 0xDC
      && Pow(188) == 0xA5
      && Pow(189) == 0x57
      && Pow(190) == 0xAE
      && Pow(191) == 0x41
      && Pow(192) == 0x82
  {
    assert Pow(161) == XTime(Pow(160));
    assert Pow(162) == XTime(Pow(161));
    assert Pow(163) == XTime(Pow(162));
    assert Pow(164) == XTime(Pow(163));
    assert Pow(165) == XTime(Pow(164));
    assert Pow(166) == XTime(Pow(165));
    assert Pow(167) == XTime(Pow(166));
    assert Pow(168) == XTime(Pow(167));
    assert Pow(169) == XTime(Pow(168));
    assert Pow(170) == XTime(Pow(169));
    assert Pow(171) == XTime(Pow(170));
    assert Pow(172) == XTime(Pow(171));
    assert Pow(173) == XTime(Pow(172));
    assert Pow(174) == XTime(Pow(173));
    assert Pow(175) == XTime(Pow(174));
    assert Pow(176) == XTime(Pow(175));
    assert Pow(177) == XTime(Pow(176));
    assert Pow(178) == XTime(Pow(177));
    assert Pow(179) == XTime(Pow(178));
    assert Pow(180) == XTime(Pow(179));
    assert Pow(181) == XTime(Pow(180));
    assert Pow(182) == XTime(Pow(181));
    assert Pow(183) == XTime(Pow(182));
    assert Pow(184) == XTime(Pow(183));
    assert Pow(185) == XTime(Pow(184));
    assert Pow(186) == XTime(Pow(185));
    assert Pow(187) == XTime(Pow(186));
    assert Pow(188) == XTime(Pow(187));
    assert Pow(189) == XTime(Pow(188));
    assert Pow(190) == XTime(Pow(189));
    assert Pow(191) == XTime(Pow(190));
    assert Pow(192) == XTime(Pow(191));
  }

  lemma NoUnit161()
    requires Pow(160) == 0xE6
    ensures forall d: nat :: 161 <= d < 193 ==> Pow(d) != 1
  {
    PowValues161();
    forall d: nat | 161 <= d < 193
      ensures Pow(d) != 1
    {
      assert d == 161 || d == 162 || d == 163 || d == 164 || d == 165 || d == 166 || d == 167 || d == 168 || d == 169 || d == 170 || d == 171 || d == 172 || d == 173 || d == 174 || d == 175 || d == 176 || d == 177 || d == 178 || d == 179 || d == 180 || d == 181 || d == 182 || d == 183 || d == 184 || d == 185 || d == 186 || d == 187 || d == 188 || d == 189 || d == 190 || d == 191 || d == 192;
    }
  }

  lemma PowValues193()
    requires Pow(192) == 0x82
    ensures Pow(193) == 0x19
      && Pow(194) == 0x32
      && Pow(195) == 0x64
      && Pow(196) == 0xC8
      && Pow(197) == 0x8D
      && Pow(198) == 0x07
      && Pow(199) == 0x0E
      && Pow(200) == 0x1C
      && Pow(201) == 0x38
      && Pow(202) == 0x70
      && Pow(203) == 0xE0
      && Pow(204) == 0xDD
      && Pow(205) == 0xA7
      && Pow(206) == 0x53
      && Pow(207) == 0xA6
      && Pow(208) == 0x51
      && Pow(209) == 0xA2
      && Pow(210) == 0x59
      && Pow(211) == 0xB2
      && Pow(212) == 0x79
      && Pow(213) == 0xF2
      && Pow(214) == 0xF9
      && Pow(215) == 0xEF
      && Pow(216) == 0xC3
      && Pow(217) == 0x9B
      && Pow(218) == 0x2B
      && Pow(219) == 0x56
      && Pow(220) == 0xAC
      && Pow(221) == 0x45
      && Pow(222) == 0x8A
      && Pow(223) == 0x09
      && Pow(224) == 0x12
  {
    assert Pow(193) == XTime(Pow(192));
    assert Pow(194) == XTime(Pow(193));
    assert Pow(195) == XTime(Pow(194));
    assert Pow(196) == XTime(Pow(195));
    assert Pow(197) == XTime(Pow(196));
    assert Pow(198) == XTime(Pow(197));
    assert Pow(199) == XTime(Pow(198));
    assert Pow(200) == XTime(Pow(199));
    assert Pow(201) == XTime(Pow(200));
    assert Pow(202) == XTime(Pow(201));
    assert Pow(203) == XTime(Pow(202));
    assert Pow(204) == XTime(Pow(203));
    assert Pow(205) == XTime(Pow(204));
    assert Pow(206) == XTime(Pow(205));
    assert Pow(207) == XTime(Pow(206));
    assert Pow(208) == XTime(Pow(207));
    assert Pow(209) == XTime(Pow(208));
    assert Pow(210) == XTime(Pow(209));
    assert Pow(211) == XTime(Pow(210));
    assert Pow(212) == XTime(Pow(211));
    assert Pow(213) == XTime(Pow(212));
    assert Pow(214) == XTime(Pow(213));
    assert Pow(215) == XTime(Pow(214));
    assert Pow(216) == XTime(Pow(215));
    assert Pow(217) == XTime(Pow(216));
    assert Pow(218) == XTime(Pow(217));
    assert Pow(219) == XTime(Pow(218));
    assert Pow(220) == XTime(Pow(219));
    assert Pow(221) == XTime(Pow(220));
    assert Pow(222) == XTime(Pow(221));
    assert Pow(223) == XTime(Pow(222));
    assert Pow(224) == XTime(Pow(223));
  }

  lemma NoUnit193()
    requires Pow(192) == 0x82
    ensures forall d: nat :: 193 <= d < 225 ==> Pow(d) != 1
  {
    PowValues193();
    forall d: nat | 193 <= d < 225
      ensures Pow(d) != 1
    {
      assert d == 193 || d == 194 || d == 195 || d == 196 || d == 197 || d == 198 || d == 199 || d == 200 || d == 201 || d == 202 || d == 203 || d == 204 || d == 205 || d == 206 || d == 207 || d == 208 || d == 209 || d == 210 || d == 211 || d == 212 || d == 213 || d == 214 || d == 215 || d == 216 || d == 217 || d == 218 || d == 219 || d == 220 || d == 221 || d == 222 || d == 223 || d == 224;
    }
  }

  lemma PowValues225()
    requires Pow(224) == 0x12
    ensures Pow(225) == 0x24
      && Pow(226) == 0x48
      && Pow(227) == 0x90
      && Pow(228) == 0x3D
      && Pow(229) == 0x7A
      && Pow(230) == 0xF4
      && Pow(231) == 0xF5
      && Pow(232) == 0xF7
      && Pow(233) == 0xF3
      && Pow(234) == 0xFB
      && Pow(235) == 0xEB
      && Pow(236) == 0xCB
      && Pow(237) == 0x8B
      && Pow(238) == 0x0B
      && Pow(239) == 0x16
      && Pow(240) == 0x2C
      && Pow(241) == 0x58
      && Pow(242) == 0xB0
      && Pow(243) == 0x7D
      && Pow(244) == 0xFA
      && Pow(245) == 0xE9
      && Pow(246) == 0xCF
      && Pow(247) == 0x83
      && Pow(248) == 0x1B
      && Pow(249) == 0x36
      && Pow(250) == 0x6C
      && Pow(251) == 0xD8
      && Pow(252) == 0xAD
      && Pow(253) == 0x47
      && Pow(254) == 0x8E
      && Pow(255) == 0x01
  {
    assert Pow(225) == XTime(Pow(224));
    assert Pow(226) == XTime(Pow(225));
    assert Pow(227) == XTime(Pow(226));
    assert Pow(228) == XTime(Pow(227));
    assert Pow(229) == XTime(Pow(228));
    assert Pow(230) == XTime(Pow(229));
    assert Pow(231) == XTime(Pow(230));
    assert Pow(232) == XTime(Pow(231));
    assert Pow(233) == XTime(Pow(232));
    assert Pow(234) == XTime(Pow(233));
    assert Pow(235) == XTime(Pow(234));
    assert Pow(236) == XTime(Pow(235));
    assert Pow(237) == XTime(Pow(236));
    assert Pow(238) == XTime(Pow(237));
    assert Pow(239) == XTime(Pow(238));
    assert Pow(240) == XTime(Pow(239));
    assert Pow(241) == XTime(Pow(240));
    assert Pow(242) == XTime(Pow(241));
    assert Pow(243) == XTime(Pow(242));
    assert Pow(244) == XTime(Pow(243));
    assert Pow(245) == XTime(Pow(244));
    assert Pow(246) == XTime(Pow(245));
    assert Pow(247) == XTime(Pow(246));
    assert Pow(248) == XTime(Pow(247));
    assert Pow(249) == XTime(Pow(248));
    assert Pow(250) == XTime(Pow(249));
    assert Pow(251) == XTime(Pow(250));
    assert Pow(252) == XTime(Pow(251));
    assert Pow(253) == XTime(Pow(252));
    assert Pow(254) == XTime(Pow(253));
    assert Pow(255) == XTime(Pow(254));
  }

  lemma NoUnit225()
    requires Pow(224) == 0x12
    ensures forall d: nat :: 225 <= d < 255 ==> Pow(d) != 1
  {
    PowValues225();
    forall d: nat | 225 <= d < 255
      ensures Pow(d) != 1
    {
      assert d == 225 || d == 226 || d == 227 || d == 228 || d == 229 || d == 230 || d == 231 || d == 232 || d == 233 || d == 234 || d == 235 || d == 236 || d == 237 || d == 238 || d == 239 || d == 240 || d == 241 || d == 242 || d == 243 || d == 244 || d == 245 || d == 246 || d == 247 || d == 248 || d == 249 || d == 250 || d == 251 || d == 252 || d == 253 || d == 254;
    }
  }
}
