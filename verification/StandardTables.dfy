/**
 The standard Huffman tables (ITU-T T.81 K.3) as the encoder carries them, with the facts the codec relies on:
 they satisfy Kraft, their symbols are distinct, and every symbol the coefficient coder can look up is there.
 */
module StandardTables {
  import opened Bits
  import opened Huffman
  import opened Entropy

  const DC_LUM_BITS: seq<byte> := [0, 0, 1, 5, 1, 1, 1, 1, 1, 1, 0, 0, 0, 0, 0, 0, 0]
  const AC_LUM_BITS: seq<byte> := [0, 0, 2, 1, 3, 3, 2, 4, 3, 5, 5, 4, 4, 0, 0, 1, 125]
  const DC_CHROMA_BITS: seq<byte> := [0, 0, 3, 1, 1, 1, 1, 1, 1, 1, 1, 1, 0, 0, 0, 0, 0]
  const AC_CHROMA_BITS: seq<byte> := [0, 0, 2, 1, 2, 4, 4, 3, 4, 7, 5, 4, 4, 0, 1, 2, 119]

  const DC_VALS: seq<byte> := [0, 1, 2, 3, 4, 5, 6, 7, 8, 9, 10, 11]

  const NOWHERE: nat := 999

  /** The `i`-th symbol of `s_ac_lum_val`. */
  function AcLum(i: nat): nat
  {
    if i < 54 then AcLumLow(i) else if i < 108 then AcLumMiddle(i) else AcLumHigh(i)
  }

  function AcLumLow(i: nat): nat
  {
    match i
    case 0 => 0x01 case 1 => 0x02 case 2 => 0x03 case 3 => 0x00 case 4 => 0x04 case 5 => 0x11 case 6 => 0x05 case 7 => 0x12 case 8 => 0x21
    case 9 => 0x31 case 10 => 0x41 case 11 => 0x06 case 12 => 0x13 case 13 => 0x51 case 14 => 0x61 case 15 => 0x07 case 16 => 0x22 case 17 => 0x71
    case 18 => 0x14 case 19 => 0x32 case 20 => 0x81 case 21 => 0x91 case 22 => 0xa1 case 23 => 0x08 case 24 => 0x23 case 25 => 0x42 case 26 => 0xb1
    case 27 => 0xc1 case 28 => 0x15 case 29 => 0x52 case 30 => 0xd1 case 31 => 0xf0 case 32 => 0x24 case 33 => 0x33 case 34 => 0x62 case 35 => 0x72
    case 36 => 0x82 case 37 => 0x09 case 38 => 0x0a case 39 => 0x16 case 40 => 0x17 case 41 => 0x18 case 42 => 0x19 case 43 => 0x1a case 44 => 0x25
    case 45 => 0x26 case 46 => 0x27 case 47 => 0x28 case 48 => 0x29 case 49 => 0x2a case 50 => 0x34 case 51 => 0x35 case 52 => 0x36 case 53 => 0x37
    case _ => 0
  }

  function AcLumMiddle(i: nat): nat
  {
    match i
    case 54 => 0x38 case 55 => 0x39 case 56 => 0x3a case 57 => 0x43 case 58 => 0x44 case 59 => 0x45 case 60 => 0x46 case 61 => 0x47 case 62 => 0x48
    case 63 => 0x49 case 64 => 0x4a case 65 => 0x53 case 66 => 0x54 case 67 => 0x55 case 68 => 0x56 case 69 => 0x57 case 70 => 0x58 case 71 => 0x59
    case 72 => 0x5a case 73 => 0x63 case 74 => 0x64 case 75 => 0x65 case 76 => 0x66 case 77 => 0x67 case 78 => 0x68 case 79 => 0x69 case 80 => 0x6a
    case 81 => 0x73 case 82 => 0x74 case 83 => 0x75 case 84 => 0x76 case 85 => 0x77 case 86 => 0x78 case 87 => 0x79 case 88 => 0x7a case 89 => 0x83
    case 90 => 0x84 case 91 => 0x85 case 92 => 0x86 case 93 => 0x87 case 94 => 0x88 case 95 => 0x89 case 96 => 0x8a case 97 => 0x92 case 98 => 0x93
    case 99 => 0x94 case 100 => 0x95 case 101 => 0x96 case 102 => 0x97 case 103 => 0x98 case 104 => 0x99 case 105 => 0x9a case 106 => 0xa2 case 107 => 0xa3
    case _ => 0
  }

  function AcLumHigh(i: nat): nat
  {
    match i
    case 108 => 0xa4 case 109 => 0xa5 case 110 => 0xa6 case 111 => 0xa7 case 112 => 0xa8 case 113 => 0xa9 case 114 => 0xaa case 115 => 0xb2 case 116 => 0xb3
    case 117 => 0xb4 case 118 => 0xb5 case 119 => 0xb6 case 120 => 0xb7 case 121 => 0xb8 case 122 => 0xb9 case 123 => 0xba case 124 => 0xc2 case 125 => 0xc3
    case 126 => 0xc4 case 127 => 0xc5 case 128 => 0xc6 case 129 => 0xc7 case 130 => 0xc8 case 131 => 0xc9 case 132 => 0xca case 133 => 0xd2 case 134 => 0xd3
    case 135 => 0xd4 case 136 => 0xd5 case 137 => 0xd6 case 138 => 0xd7 case 139 => 0xd8 case 140 => 0xd9 case 141 => 0xda case 142 => 0xe1 case 143 => 0xe2
    case 144 => 0xe3 case 145 => 0xe4 case 146 => 0xe5 case 147 => 0xe6 case 148 => 0xe7 case 149 => 0xe8 case 150 => 0xe9 case 151 => 0xea case 152 => 0xf1
    case 153 => 0xf2 case 154 => 0xf3 case 155 => 0xf4 case 156 => 0xf5 case 157 => 0xf6 case 158 => 0xf7 case 159 => 0xf8 case 160 => 0xf9 case 161 => 0xfa
    case _ => 0
  }

  /** Where a symbol stands in it. */
  function AcLumIndex(s: nat): nat
  {
    if s < 0x40 then AcLumIndex0(s) else if s < 0x80 then AcLumIndex4(s) else if s < 0xC0 then AcLumIndex8(s) else AcLumIndexC(s)
  }

  function AcLumIndex0(s: nat): nat
  {
    match s
    case 0x00 => 3 case 0x01 => 0 case 0x02 => 1 case 0x03 => 2 case 0x04 => 4 case 0x05 => 6 case 0x06 => 11 case 0x07 => 15
    case 0x08 => 23 case 0x09 => 37 case 0x0a => 38 case 0x11 => 5 case 0x12 => 7 case 0x13 => 12 case 0x14 => 18 case 0x15 => 28
    case 0x16 => 39 case 0x17 => 40 case 0x18 => 41 case 0x19 => 42 case 0x1a => 43 case 0x21 => 8 case 0x22 => 16 case 0x23 => 24
    case 0x24 => 32 case 0x25 => 44 case 0x26 => 45 case 0x27 => 46 case 0x28 => 47 case 0x29 => 48 case 0x2a => 49 case 0x31 => 9
    case 0x32 => 19 case 0x33 => 33 case 0x34 => 50 case 0x35 => 51 case 0x36 => 52 case 0x37 => 53 case 0x38 => 54 case 0x39 => 55
    case 0x3a => 56
    case _ => NOWHERE
  }

  function AcLumIndex4(s: nat): nat
  {
    match s
    case 0x41 => 10 case 0x42 => 25 case 0x43 => 57 case 0x44 => 58 case 0x45 => 59 case 0x46 => 60 case 0x47 => 61 case 0x48 => 62
    case 0x49 => 63 case 0x4a => 64 case 0x51 => 13 case 0x52 => 29 case 0x53 => 65 case 0x54 => 66 case 0x55 => 67 case 0x56 => 68
    case 0x57 => 69 case 0x58 => 70 case 0x59 => 71 case 0x5a => 72 case 0x61 => 14 case 0x62 => 34 case 0x63 => 73 case 0x64 => 74
    case 0x65 => 75 case 0x66 => 76 case 0x67 => 77 case 0x68 => 78 case 0x69 => 79 case 0x6a => 80 case 0x71 => 17 case 0x72 => 35
    case 0x73 => 81 case 0x74 => 82 case 0x75 => 83 case 0x76 => 84 case 0x77 => 85 case 0x78 => 86 case 0x79 => 87 case 0x7a => 88
    case _ => NOWHERE
  }

  function AcLumIndex8(s: nat): nat
  {
    match s
    case 0x81 => 20 case 0x82 => 36 case 0x83 => 89 case 0x84 => 90 case 0x85 => 91 case 0x86 => 92 case 0x87 => 93 case 0x88 => 94
    case 0x89 => 95 case 0x8a => 96 case 0x91 => 21 case 0x92 => 97 case 0x93 => 98 case 0x94 => 99 case 0x95 => 100 case 0x96 => 101
    case 0x97 => 102 case 0x98 => 103 case 0x99 => 104 case 0x9a => 105 case 0xa1 => 22 case 0xa2 => 106 case 0xa3 => 107 case 0xa4 => 108
    case 0xa5 => 109 case 0xa6 => 110 case 0xa7 => 111 case 0xa8 => 112 case 0xa9 => 113 case 0xaa => 114 case 0xb1 => 26 case 0xb2 => 115
    case 0xb3 => 116 case 0xb4 => 117 case 0xb5 => 118 case 0xb6 => 119 case 0xb7 => 120 case 0xb8 => 121 case 0xb9 => 122 case 0xba => 123
    case _ => NOWHERE
  }

  function AcLumIndexC(s: nat): nat
  {
    match s
    case 0xc1 => 27 case 0xc2 => 124 case 0xc3 => 125 case 0xc4 => 126 case 0xc5 => 127 case 0xc6 => 128 case 0xc7 => 129 case 0xc8 => 130
    case 0xc9 => 131 case 0xca => 132 case 0xd1 => 30 case 0xd2 => 133 case 0xd3 => 134 case 0xd4 => 135 case 0xd5 => 136 case 0xd6 => 137
    case 0xd7 => 138 case 0xd8 => 139 case 0xd9 => 140 case 0xda => 141 case 0xe1 => 142 case 0xe2 => 143 case 0xe3 => 144 case 0xe4 => 145
    case 0xe5 => 146 case 0xe6 => 147 case 0xe7 => 148 case 0xe8 => 149 case 0xe9 => 150 case 0xea => 151 case 0xf0 => 31 case 0xf1 => 152
    case 0xf2 => 153 case 0xf3 => 154 case 0xf4 => 155 case 0xf5 => 156 case 0xf6 => 157 case 0xf7 => 158 case 0xf8 => 159 case 0xf9 => 160
    case 0xfa => 161
    case _ => NOWHERE
  }

  /** The `i`-th symbol of `s_ac_chroma_val`. */
  function AcChroma(i: nat): nat
  {
    if i < 54 then AcChromaLow(i) else if i < 108 then AcChromaMiddle(i) else AcChromaHigh(i)
  }

  function AcChromaLow(i: nat): nat
  {
    match i
    case 0 => 0x00 case 1 => 0x01 case 2 => 0x02 case 3 => 0x03 case 4 => 0x11 case 5 => 0x04 case 6 => 0x05 case 7 => 0x21 case 8 => 0x31
    case 9 => 0x06 case 10 => 0x12 case 11 => 0x41 case 12 => 0x51 case 13 => 0x07 case 14 => 0x61 case 15 => 0x71 case 16 => 0x13 case 17 => 0x22
    case 18 => 0x32 case 19 => 0x81 case 20 => 0x08 case 21 => 0x14 case 22 => 0x42 case 23 => 0x91 case 24 => 0xa1 case 25 => 0xb1 case 26 => 0xc1
    case 27 => 0x09 case 28 => 0x23 case 29 => 0x33 case 30 => 0x52 case 31 => 0xf0 case 32 => 0x15 case 33 => 0x62 case 34 => 0x72 case 35 => 0xd1
    case 36 => 0x0a case 37 => 0x16 case 38 => 0x24 case 39 => 0x34 case 40 => 0xe1 case 41 => 0x25 case 42 => 0xf1 case 43 => 0x17 case 44 => 0x18
    case 45 => 0x19 case 46 => 0x1a case 47 => 0x26 case 48 => 0x27 case 49 => 0x28 case 50 => 0x29 case 51 => 0x2a case 52 => 0x35 case 53 => 0x36
    case _ => 0
  }

  function AcChromaMiddle(i: nat): nat
  {
    match i
    case 54 => 0x37 case 55 => 0x38 case 56 => 0x39 case 57 => 0x3a case 58 => 0x43 case 59 => 0x44 case 60 => 0x45 case 61 => 0x46 case 62 => 0x47
    case 63 => 0x48 case 64 => 0x49 case 65 => 0x4a case 66 => 0x53 case 67 => 0x54 case 68 => 0x55 case 69 => 0x56 case 70 => 0x57 case 71 => 0x58
    case 72 => 0x59 case 73 => 0x5a case 74 => 0x63 case 75 => 0x64 case 76 => 0x65 case 77 => 0x66 case 78 => 0x67 case 79 => 0x68 case 80 => 0x69
    case 81 => 0x6a case 82 => 0x73 case 83 => 0x74 case 84 => 0x75 case 85 => 0x76 case 86 => 0x77 case 87 => 0x78 case 88 => 0x79 case 89 => 0x7a
    case 90 => 0x82 case 91 => 0x83 case 92 => 0x84 case 93 => 0x85 case 94 => 0x86 case 95 => 0x87 case 96 => 0x88 case 97 => 0x89 case 98 => 0x8a
    case 99 => 0x92 case 100 => 0x93 case 101 => 0x94 case 102 => 0x95 case 103 => 0x96 case 104 => 0x97 case 105 => 0x98 case 106 => 0x99 case 107 => 0x9a
    case _ => 0
  }

  function AcChromaHigh(i: nat): nat
  {
    match i
    case 108 => 0xa2 case 109 => 0xa3 case 110 => 0xa4 case 111 => 0xa5 case 112 => 0xa6 case 113 => 0xa7 case 114 => 0xa8 case 115 => 0xa9 case 116 => 0xaa
    case 117 => 0xb2 case 118 => 0xb3 case 119 => 0xb4 case 120 => 0xb5 case 121 => 0xb6 case 122 => 0xb7 case 123 => 0xb8 case 124 => 0xb9 case 125 => 0xba
    case 126 => 0xc2 case 127 => 0xc3 case 128 => 0xc4 case 129 => 0xc5 case 130 => 0xc6 case 131 => 0xc7 case 132 => 0xc8 case 133 => 0xc9 case 134 => 0xca
    case 135 => 0xd2 case 136 => 0xd3 case 137 => 0xd4 case 138 => 0xd5 case 139 => 0xd6 case 140 => 0xd7 case 141 => 0xd8 case 142 => 0xd9 case 143 => 0xda
    case 144 => 0xe2 case 145 => 0xe3 case 146 => 0xe4 case 147 => 0xe5 case 148 => 0xe6 case 149 => 0xe7 case 150 => 0xe8 case 151 => 0xe9 case 152 => 0xea
    case 153 => 0xf2 case 154 => 0xf3 case 155 => 0xf4 case 156 => 0xf5 case 157 => 0xf6 case 158 => 0xf7 case 159 => 0xf8 case 160 => 0xf9 case 161 => 0xfa
    case _ => 0
  }

  /** Where a symbol stands in it. */
  function AcChromaIndex(s: nat): nat
  {
    if s < 0x40 then AcChromaIndex0(s) else if s < 0x80 then AcChromaIndex4(s) else if s < 0xC0 then AcChromaIndex8(s) else AcChromaIndexC(s)
  }

  function AcChromaIndex0(s: nat): nat
  {
    match s
    case 0x00 => 0 case 0x01 => 1 case 0x02 => 2 case 0x03 => 3 case 0x04 => 5 case 0x05 => 6 case 0x06 => 9 case 0x07 => 13
    case 0x08 => 20 case 0x09 => 27 case 0x0a => 36 case 0x11 => 4 case 0x12 => 10 case 0x13 => 16 case 0x14 => 21 case 0x15 => 32
    case 0x16 => 37 case 0x17 => 43 case 0x18 => 44 case 0x19 => 45 case 0x1a => 46 case 0x21 => 7 case 0x22 => 17 case 0x23 => 28
    case 0x24 => 38 case 0x25 => 41 case 0x26 => 47 case 0x27 => 48 case 0x28 => 49 case 0x29 => 50 case 0x2a => 51 case 0x31 => 8
    case 0x32 => 18 case 0x33 => 29 case 0x34 => 39 case 0x35 => 52 case 0x36 => 53 case 0x37 => 54 case 0x38 => 55 case 0x39 => 56
    case 0x3a => 57
    case _ => NOWHERE
  }

  function AcChromaIndex4(s: nat): nat
  {
    match s
    case 0x41 => 11 case 0x42 => 22 case 0x43 => 58 case 0x44 => 59 case 0x45 => 60 case 0x46 => 61 case 0x47 => 62 case 0x48 => 63
    case 0x49 => 64 case 0x4a => 65 case 0x51 => 12 case 0x52 => 30 case 0x53 => 66 case 0x54 => 67 case 0x55 => 68 case 0x56 => 69
    case 0x57 => 70 case 0x58 => 71 case 0x59 => 72 case 0x5a => 73 case 0x61 => 14 case 0x62 => 33 case 0x63 => 74 case 0x64 => 75
    case 0x65 => 76 case 0x66 => 77 case 0x67 => 78 case 0x68 => 79 case 0x69 => 80 case 0x6a => 81 case 0x71 => 15 case 0x72 => 34
    case 0x73 => 82 case 0x74 => 83 case 0x75 => 84 case 0x76 => 85 case 0x77 => 86 case 0x78 => 87 case 0x79 => 88 case 0x7a => 89
    case _ => NOWHERE
  }

  function AcChromaIndex8(s: nat): nat
  {
    match s
    case 0x81 => 19 case 0x82 => 90 case 0x83 => 91 case 0x84 => 92 case 0x85 => 93 case 0x86 => 94 case 0x87 => 95 case 0x88 => 96
    case 0x89 => 97 case 0x8a => 98 case 0x91 => 23 case 0x92 => 99 case 0x93 => 100 case 0x94 => 101 case 0x95 => 102 case 0x96 => 103
    case 0x97 => 104 case 0x98 => 105 case 0x99 => 106 case 0x9a => 107 case 0xa1 => 24 case 0xa2 => 108 case 0xa3 => 109 case 0xa4 => 110
    case 0xa5 => 111 case 0xa6 => 112 case 0xa7 => 113 case 0xa8 => 114 case 0xa9 => 115 case 0xaa => 116 case 0xb1 => 25 case 0xb2 => 117
    case 0xb3 => 118 case 0xb4 => 119 case 0xb5 => 120 case 0xb6 => 121 case 0xb7 => 122 case 0xb8 => 123 case 0xb9 => 124 case 0xba => 125
    case _ => NOWHERE
  }

  function AcChromaIndexC(s: nat): nat
  {
    match s
    case 0xc1 => 26 case 0xc2 => 126 case 0xc3 => 127 case 0xc4 => 128 case 0xc5 => 129 case 0xc6 => 130 case 0xc7 => 131 case 0xc8 => 132
    case 0xc9 => 133 case 0xca => 134 case 0xd1 => 35 case 0xd2 => 135 case 0xd3 => 136 case 0xd4 => 137 case 0xd5 => 138 case 0xd6 => 139
    case 0xd7 => 140 case 0xd8 => 141 case 0xd9 => 142 case 0xda => 143 case 0xe1 => 40 case 0xe2 => 144 case 0xe3 => 145 case 0xe4 => 146
    case 0xe5 => 147 case 0xe6 => 148 case 0xe7 => 149 case 0xe8 => 150 case 0xe9 => 151 case 0xea => 152 case 0xf0 => 31 case 0xf1 => 42
    case 0xf2 => 153 case 0xf3 => 154 case 0xf4 => 155 case 0xf5 => 156 case 0xf6 => 157 case 0xf7 => 158 case 0xf8 => 159 case 0xf9 => 160
    case 0xfa => 161
    case _ => NOWHERE
  }

  /** A list of distinct symbols that holds EOB, ZRL and every run and size the coefficient coder uses. */
  ghost predicate CoefficientSymbols(vals: seq<byte>) {
    && (forall i, j :: 0 <= i < j < |vals| ==> vals[i] != vals[j])
    && 0 in vals && 0xF0 in vals
    && forall r, n :: 0 <= r < 16 && 1 <= n <= 10 ==> AcSymbol(r, n) in vals
  }

  lemma AcLumInverseLow()
    ensures forall i :: 0 <= i < 54 ==> AcLum(i) < 256 && AcLumIndex(AcLum(i)) == i
  {
  }

  lemma AcLumInverseMiddle()
    ensures forall i :: 54 <= i < 108 ==> AcLum(i) < 256 && AcLumIndex(AcLum(i)) == i
  {
  }

  lemma AcLumInverseHigh()
    ensures forall i :: 108 <= i < 135 ==> AcLum(i) < 256 && AcLumIndex(AcLum(i)) == i
  {
  }

  lemma AcLumInverseTop()
    ensures forall i :: 135 <= i < 162 ==> AcLum(i) < 256 && AcLumIndex(AcLum(i)) == i
  {
  }

  lemma AcLumInverse()
    ensures forall i :: 0 <= i < 162 ==> AcLum(i) < 256 && AcLumIndex(AcLum(i)) == i
  {
    AcLumInverseLow();
    AcLumInverseMiddle();
    AcLumInverseHigh();
    AcLumInverseTop();
    hide AcLum, AcLumIndex;
  }

  lemma AcLumFound0()
    ensures forall s :: 0 <= s < 64 && AcLumIndex(s) < 162 ==> AcLum(AcLumIndex(s)) == s
  {
  }

  lemma AcLumCovers0()
    ensures AcLumIndex(0) < 162
    ensures forall s :: 0x01 <= s <= 0x0a ==> AcLumIndex(s) < 162
    ensures forall s :: 0x11 <= s <= 0x1a ==> AcLumIndex(s) < 162
    ensures forall s :: 0x21 <= s <= 0x2a ==> AcLumIndex(s) < 162
    ensures forall s :: 0x31 <= s <= 0x3a ==> AcLumIndex(s) < 162
  {
  }

  lemma AcLumFound4()
    ensures forall s :: 64 <= s < 128 && AcLumIndex(s) < 162 ==> AcLum(AcLumIndex(s)) == s
  {
  }

  lemma AcLumCovers4()
    ensures forall s :: 0x41 <= s <= 0x4a ==> AcLumIndex(s) < 162
    ensures forall s :: 0x51 <= s <= 0x5a ==> AcLumIndex(s) < 162
    ensures forall s :: 0x61 <= s <= 0x6a ==> AcLumIndex(s) < 162
    ensures forall s :: 0x71 <= s <= 0x7a ==> AcLumIndex(s) < 162
  {
  }

  lemma AcLumFound8()
    ensures forall s :: 128 <= s < 192 && AcLumIndex(s) < 162 ==> AcLum(AcLumIndex(s)) == s
  {
  }

  lemma AcLumCovers8()
    ensures forall s :: 0x81 <= s <= 0x8a ==> AcLumIndex(s) < 162
    ensures forall s :: 0x91 <= s <= 0x9a ==> AcLumIndex(s) < 162
    ensures forall s :: 0xa1 <= s <= 0xaa ==> AcLumIndex(s) < 162
    ensures forall s :: 0xb1 <= s <= 0xba ==> AcLumIndex(s) < 162
  {
  }

  lemma AcLumFoundC()
    ensures forall s :: 192 <= s < 256 && AcLumIndex(s) < 162 ==> AcLum(AcLumIndex(s)) == s
  {
  }

  lemma AcLumCoversC()
    ensures AcLumIndex(0xF0) < 162
    ensures forall s :: 0xc1 <= s <= 0xca ==> AcLumIndex(s) < 162
    ensures forall s :: 0xd1 <= s <= 0xda ==> AcLumIndex(s) < 162
    ensures forall s :: 0xe1 <= s <= 0xea ==> AcLumIndex(s) < 162
    ensures forall s :: 0xf1 <= s <= 0xfa ==> AcLumIndex(s) < 162
  {
  }

  function AcLumVals(): (vals: seq<byte>)
    ensures |vals| == 162 && forall i :: 0 <= i < 162 ==> vals[i] == AcLum(i)
  {
    AcLumInverse();
    seq(162, i requires 0 <= i < 162 => AcLum(i))
  }

  lemma AcLumSymbols()
    ensures CoefficientSymbols(AcLumVals())
  {
    AcLumInverse();
    AcLumFound0();
    AcLumCovers0();
    AcLumFound4();
    AcLumCovers4();
    AcLumFound8();
    AcLumCovers8();
    AcLumFoundC();
    AcLumCoversC();
    hide AcLum, AcLumIndex;
    var vals := AcLumVals();
    assert vals[AcLumIndex(0)] == 0 && vals[AcLumIndex(0xF0)] == 0xF0;
    forall i, j | 0 <= i < j < 162 ensures vals[i] != vals[j] {
      assert AcLumIndex(AcLum(i)) == i && AcLumIndex(AcLum(j)) == j;
    }
    forall r, n | 0 <= r < 16 && 1 <= n <= 10 ensures AcSymbol(r, n) in vals {
      AcSymbolParts(r, n);
      assert vals[AcLumIndex(AcSymbol(r, n))] == AcSymbol(r, n);
    }
  }

  lemma AcChromaInverseLow()
    ensures forall i :: 0 <= i < 54 ==> AcChroma(i) < 256 && AcChromaIndex(AcChroma(i)) == i
  {
  }

  lemma AcChromaInverseMiddle()
    ensures forall i :: 54 <= i < 108 ==> AcChroma(i) < 256 && AcChromaIndex(AcChroma(i)) == i
  {
  }

  lemma AcChromaInverseHigh()
    ensures forall i :: 108 <= i < 135 ==> AcChroma(i) < 256 && AcChromaIndex(AcChroma(i)) == i
  {
  }

  lemma AcChromaInverseTop()
    ensures forall i :: 135 <= i < 162 ==> AcChroma(i) < 256 && AcChromaIndex(AcChroma(i)) == i
  {
  }

  lemma AcChromaInverse()
    ensures forall i :: 0 <= i < 162 ==> AcChroma(i) < 256 && AcChromaIndex(AcChroma(i)) == i
  {
    AcChromaInverseLow();
    AcChromaInverseMiddle();
    AcChromaInverseHigh();
    AcChromaInverseTop();
    hide AcChroma, AcChromaIndex;
  }

  lemma AcChromaFound0()
    ensures forall s :: 0 <= s < 64 && AcChromaIndex(s) < 162 ==> AcChroma(AcChromaIndex(s)) == s
  {
  }

  lemma AcChromaCovers0()
    ensures AcChromaIndex(0) < 162
    ensures forall s :: 0x01 <= s <= 0x0a ==> AcChromaIndex(s) < 162
    ensures forall s :: 0x11 <= s <= 0x1a ==> AcChromaIndex(s) < 162
    ensures forall s :: 0x21 <= s <= 0x2a ==> AcChromaIndex(s) < 162
    ensures forall s :: 0x31 <= s <= 0x3a ==> AcChromaIndex(s) < 162
  {
  }

  lemma AcChromaFound4()
    ensures forall s :: 64 <= s < 128 && AcChromaIndex(s) < 162 ==> AcChroma(AcChromaIndex(s)) == s
  {
  }

  lemma AcChromaCovers4()
    ensures forall s :: 0x41 <= s <= 0x4a ==> AcChromaIndex(s) < 162
    ensures forall s :: 0x51 <= s <= 0x5a ==> AcChromaIndex(s) < 162
    ensures forall s :: 0x61 <= s <= 0x6a ==> AcChromaIndex(s) < 162
    ensures forall s :: 0x71 <= s <= 0x7a ==> AcChromaIndex(s) < 162
  {
  }

  lemma AcChromaFound8()
    ensures forall s :: 128 <= s < 192 && AcChromaIndex(s) < 162 ==> AcChroma(AcChromaIndex(s)) == s
  {
  }

  lemma AcChromaCovers8()
    ensures forall s :: 0x81 <= s <= 0x8a ==> AcChromaIndex(s) < 162
    ensures forall s :: 0x91 <= s <= 0x9a ==> AcChromaIndex(s) < 162
    ensures forall s :: 0xa1 <= s <= 0xaa ==> AcChromaIndex(s) < 162
    ensures forall s :: 0xb1 <= s <= 0xba ==> AcChromaIndex(s) < 162
  {
  }

  lemma AcChromaFoundC()
    ensures forall s :: 192 <= s < 256 && AcChromaIndex(s) < 162 ==> AcChroma(AcChromaIndex(s)) == s
  {
  }

  lemma AcChromaCoversC()
    ensures AcChromaIndex(0xF0) < 162
    ensures forall s :: 0xc1 <= s <= 0xca ==> AcChromaIndex(s) < 162
    ensures forall s :: 0xd1 <= s <= 0xda ==> AcChromaIndex(s) < 162
    ensures forall s :: 0xe1 <= s <= 0xea ==> AcChromaIndex(s) < 162
    ensures forall s :: 0xf1 <= s <= 0xfa ==> AcChromaIndex(s) < 162
  {
  }

  function AcChromaVals(): (vals: seq<byte>)
    ensures |vals| == 162 && forall i :: 0 <= i < 162 ==> vals[i] == AcChroma(i)
  {
    AcChromaInverse();
    seq(162, i requires 0 <= i < 162 => AcChroma(i))
  }

  lemma AcChromaSymbols()
    ensures CoefficientSymbols(AcChromaVals())
  {
    AcChromaInverse();
    AcChromaFound0();
    AcChromaCovers0();
    AcChromaFound4();
    AcChromaCovers4();
    AcChromaFound8();
    AcChromaCovers8();
    AcChromaFoundC();
    AcChromaCoversC();
    hide AcChroma, AcChromaIndex;
    var vals := AcChromaVals();
    assert vals[AcChromaIndex(0)] == 0 && vals[AcChromaIndex(0xF0)] == 0xF0;
    forall i, j | 0 <= i < j < 162 ensures vals[i] != vals[j] {
      assert AcChromaIndex(AcChroma(i)) == i && AcChromaIndex(AcChroma(j)) == j;
    }
    forall r, n | 0 <= r < 16 && 1 <= n <= 10 ensures AcSymbol(r, n) in vals {
      AcSymbolParts(r, n);
      assert vals[AcChromaIndex(AcSymbol(r, n))] == AcSymbol(r, n);
    }
  }

  lemma DcLumKraft()
    ensures |DC_LUM_BITS| == 17 && Kraft(DC_LUM_BITS[1..]) && Total(DC_LUM_BITS[1..], 16) == 12
  {
    var c := DC_LUM_BITS[1..];
    Pow2Values();
    assert Pow2(13) == 8192 && Pow2(14) == 16384;
    assert KraftSum(c, 1) == 0 && Total(c, 1) == 0;
    assert KraftSum(c, 2) == 16384 && Total(c, 2) == 1;
    assert KraftSum(c, 3) == 57344 && Total(c, 3) == 6;
    assert KraftSum(c, 4) == 61440 && Total(c, 4) == 7;
    assert KraftSum(c, 5) == 63488 && Total(c, 5) == 8;
    assert KraftSum(c, 6) == 64512 && Total(c, 6) == 9;
    assert KraftSum(c, 7) == 65024 && Total(c, 7) == 10;
    assert KraftSum(c, 8) == 65280 && Total(c, 8) == 11;
    assert KraftSum(c, 9) == 65408 && Total(c, 9) == 12;
    assert KraftSum(c, 10) == 65408 && Total(c, 10) == 12;
    assert KraftSum(c, 11) == 65408 && Total(c, 11) == 12;
    assert KraftSum(c, 12) == 65408 && Total(c, 12) == 12;
    assert KraftSum(c, 13) == 65408 && Total(c, 13) == 12;
    assert KraftSum(c, 14) == 65408 && Total(c, 14) == 12;
    assert KraftSum(c, 15) == 65408 && Total(c, 15) == 12;
    assert KraftSum(c, 16) == 65408 && Total(c, 16) == 12;
  }

  lemma AcLumKraft()
    ensures |AC_LUM_BITS| == 17 && Kraft(AC_LUM_BITS[1..]) && Total(AC_LUM_BITS[1..], 16) == 162
  {
    var c := AC_LUM_BITS[1..];
    Pow2Values();
    assert Pow2(13) == 8192 && Pow2(14) == 16384;
    assert KraftSum(c, 1) == 0 && Total(c, 1) == 0;
    assert KraftSum(c, 2) == 32768 && Total(c, 2) == 2;
    assert KraftSum(c, 3) == 40960 && Total(c, 3) == 3;
    assert KraftSum(c, 4) == 53248 && Total(c, 4) == 6;
    assert KraftSum(c, 5) == 59392 && Total(c, 5) == 9;
    assert KraftSum(c, 6) == 61440 && Total(c, 6) == 11;
    assert KraftSum(c, 7) == 63488 && Total(c, 7) == 15;
    assert KraftSum(c, 8) == 64256 && Total(c, 8) == 18;
    assert KraftSum(c, 9) == 64896 && Total(c, 9) == 23;
    assert KraftSum(c, 10) == 65216 && Total(c, 10) == 28;
    assert KraftSum(c, 11) == 65344 && Total(c, 11) == 32;
    assert KraftSum(c, 12) == 65408 && Total(c, 12) == 36;
    assert KraftSum(c, 13) == 65408 && Total(c, 13) == 36;
    assert KraftSum(c, 14) == 65408 && Total(c, 14) == 36;
    assert KraftSum(c, 15) == 65410 && Total(c, 15) == 37;
    assert KraftSum(c, 16) == 65535 && Total(c, 16) == 162;
  }

  lemma DcChromaKraft()
    ensures |DC_CHROMA_BITS| == 17 && Kraft(DC_CHROMA_BITS[1..]) && Total(DC_CHROMA_BITS[1..], 16) == 12
  {
    var c := DC_CHROMA_BITS[1..];
    Pow2Values();
    assert Pow2(13) == 8192 && Pow2(14) == 16384;
    assert KraftSum(c, 1) == 0 && Total(c, 1) == 0;
    assert KraftSum(c, 2) == 49152 && Total(c, 2) == 3;
    assert KraftSum(c, 3) == 57344 && Total(c, 3) == 4;
    assert KraftSum(c, 4) == 61440 && Total(c, 4) == 5;
    assert KraftSum(c, 5) == 63488 && Total(c, 5) == 6;
    assert KraftSum(c, 6) == 64512 && Total(c, 6) == 7;
    assert KraftSum(c, 7) == 65024 && Total(c, 7) == 8;
    assert KraftSum(c, 8) == 65280 && Total(c, 8) == 9;
    assert KraftSum(c, 9) == 65408 && Total(c, 9) == 10;
    assert KraftSum(c, 10) == 65472 && Total(c, 10) == 11;
    assert KraftSum(c, 11) == 65504 && Total(c, 11) == 12;
    assert KraftSum(c, 12) == 65504 && Total(c, 12) == 12;
    assert KraftSum(c, 13) == 65504 && Total(c, 13) == 12;
    assert KraftSum(c, 14) == 65504 && Total(c, 14) == 12;
    assert KraftSum(c, 15) == 65504 && Total(c, 15) == 12;
    assert KraftSum(c, 16) == 65504 && Total(c, 16) == 12;
  }

  lemma AcChromaKraft()
    ensures |AC_CHROMA_BITS| == 17 && Kraft(AC_CHROMA_BITS[1..]) && Total(AC_CHROMA_BITS[1..], 16) == 162
  {
    var c := AC_CHROMA_BITS[1..];
    Pow2Values();
    assert Pow2(13) == 8192 && Pow2(14) == 16384;
    assert KraftSum(c, 1) == 0 && Total(c, 1) == 0;
    assert KraftSum(c, 2) == 32768 && Total(c, 2) == 2;
    assert KraftSum(c, 3) == 40960 && Total(c, 3) == 3;
    assert KraftSum(c, 4) == 49152 && Total(c, 4) == 5;
    assert KraftSum(c, 5) == 57344 && Total(c, 5) == 9;
    assert KraftSum(c, 6) == 61440 && Total(c, 6) == 13;
    assert KraftSum(c, 7) == 62976 && Total(c, 7) == 16;
    assert KraftSum(c, 8) == 64000 && Total(c, 8) == 20;
    assert KraftSum(c, 9) == 64896 && Total(c, 9) == 27;
    assert KraftSum(c, 10) == 65216 && Total(c, 10) == 32;
    assert KraftSum(c, 11) == 65344 && Total(c, 11) == 36;
    assert KraftSum(c, 12) == 65408 && Total(c, 12) == 40;
    assert KraftSum(c, 13) == 65408 && Total(c, 13) == 40;
    assert KraftSum(c, 14) == 65412 && Total(c, 14) == 41;
    assert KraftSum(c, 15) == 65416 && Total(c, 15) == 43;
    assert KraftSum(c, 16) == 65535 && Total(c, 16) == 162;
  }

  // ---------- the coders ----------

  function DcTable(chroma: bool): Table {
    Table(if chroma then DC_CHROMA_BITS[1..] else DC_LUM_BITS[1..], DC_VALS)
  }

  function AcTable(chroma: bool): Table {
    Table(if chroma then AC_CHROMA_BITS[1..] else AC_LUM_BITS[1..], if chroma then AcChromaVals() else AcLumVals())
  }

  function StandardCoders(): seq<Coder> {
    [Coder(DcTable(false), AcTable(false)), Coder(DcTable(true), AcTable(true))]
  }

  /** Symbols of a code table are distinct, and there are at most 256. */
  ghost predicate Distinct(vals: seq<byte>) {
    forall i, j :: 0 <= i < j < |vals| ==> vals[i] != vals[j]
  }

  lemma DcTableOk(chroma: bool)
    ensures var t := DcTable(chroma); t.Valid() && |t.vals| == 12 && Distinct(t.vals)
    ensures forall n :: 0 <= n < 12 ==> n in DcTable(chroma).vals && DcTable(chroma).vals[n] == n
  {
    hide Kraft, Total;
    DcLumKraft();
    DcChromaKraft();
    forall n | 0 <= n < 12 ensures DC_VALS[n] == n {
    }
  }

  lemma AcTableOk(chroma: bool)
    ensures var t := AcTable(chroma); t.Valid() && |t.vals| == 162 && CoefficientSymbols(t.vals)
  {
    hide Kraft, Total, CoefficientSymbols;
    AcLumKraft();
    AcChromaKraft();
    AcLumSymbols();
    AcChromaSymbols();
  }

  lemma CoefficientSymbolsParts(vals: seq<byte>)
    requires CoefficientSymbols(vals)
    ensures Distinct(vals) && 0 in vals && 0xF0 in vals
    ensures forall r, n :: 0 <= r < 16 && 1 <= n <= 10 ==> AcSymbol(r, n) in vals
  {
  }

  /** Every symbol the encoder can look up has a code in the standard tables. */
  lemma StandardComplete()
    ensures |StandardCoders()| == 2 && StandardCoders()[0].Complete() && StandardCoders()[1].Complete()
  {
    forall chroma: bool ensures Coder(DcTable(chroma), AcTable(chroma)).Complete() {
      DcTableOk(chroma);
      AcTableOk(chroma);
      CoefficientSymbolsParts(AcTable(chroma).vals);
      hide *;
      CompleteShape(DcTable(chroma), AcTable(chroma));
    }
    hide Coder.Complete, DcTable, AcTable;
  }

  lemma CompleteShape(dc: Table, ac: Table)
    requires dc.Valid() && ac.Valid() && (forall n :: 0 <= n < 12 ==> n in dc.vals)
    requires 0 in ac.vals && 0xF0 in ac.vals
    requires forall r, n :: 0 <= r < 16 && 1 <= n <= 10 ==> AcSymbol(r, n) in ac.vals
    ensures Coder(dc, ac).Complete()
  {
    hide Table.Valid;
  }
}
